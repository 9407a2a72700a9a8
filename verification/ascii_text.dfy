/** Character classes and the two string rewrites of the token-cleaning step:
    deleting every character outside [a-zA-Z0-9] and lowercasing.
    Only the ASCII behaviour of lowercasing and of the digit test is modelled:
    both are applied to words that contain nothing but ASCII letters and digits. */
module AsciiText {

  predicate IsAsciiDigit(c: char) { '0' <= c <= '9' }

  predicate IsAsciiUpper(c: char) { 'A' <= c <= 'Z' }

  predicate IsAsciiLower(c: char) { 'a' <= c <= 'z' }

  /** The characters matched by the class [a-zA-Z0-9]. */
  predicate IsAsciiAlnum(c: char) {
    IsAsciiLower(c) || IsAsciiUpper(c) || IsAsciiDigit(c)
  }

  predicate IsAlnumString(s: string) {
    forall i :: 0 <= i < |s| ==> IsAsciiAlnum(s[i])
  }

  predicate HasNoUpper(s: string) {
    forall i :: 0 <= i < |s| ==> !IsAsciiUpper(s[i])
  }

  /** The string method `isdigit`: at least one character, and every character a digit. */
  predicate IsAllDigits(s: string) {
    |s| > 0 && forall i :: 0 <= i < |s| ==> IsAsciiDigit(s[i])
  }

  /** Lowercasing of one ASCII character: an upper-case letter becomes the same
      letter in lower case, every other character is left alone. */
  function LowerChar(c: char): (r: char)
    ensures !IsAsciiUpper(r)
    ensures IsAsciiUpper(c) ==> IsAsciiLower(r) && r as int - 'a' as int == c as int - 'A' as int
    ensures !IsAsciiUpper(c) ==> r == c
    ensures IsAsciiAlnum(r) <==> IsAsciiAlnum(c)
    ensures IsAsciiDigit(r) <==> IsAsciiDigit(c)
  {
    if IsAsciiUpper(c) then (c as int - 'A' as int + 'a' as int) as char else c
  }

  /** Substitution of the empty string for every match of [^a-zA-Z0-9]: the
      letters and digits of `s`, in their original order. */
  function Strip(s: string): (r: string)
    ensures |r| <= |s|
  {
    if |s| == 0 then ""
    else if IsAsciiAlnum(s[0]) then [s[0]] + Strip(s[1..])
    else Strip(s[1..])
  }

  /** What survives stripping is letters and digits only. */
  lemma {:induction false} StripIsAlnum(s: string)
    ensures IsAlnumString(Strip(s))
  {
    if |s| > 0 {
      StripIsAlnum(s[1..]);
    }
  }

  /** A character survives stripping exactly when it occurs in the word and is
      a letter or a digit. */
  lemma {:induction false} StripMembers(s: string, c: char)
    ensures c in Strip(s) <==> c in s && IsAsciiAlnum(c)
  {
    if |s| > 0 {
      StripMembers(s[1..], c);
      assert s == [s[0]] + s[1..];
    }
  }

  /** Stripping leaves a word unchanged exactly when the word is already
      made of letters and digits only. */
  lemma {:induction false} StripFixedIff(s: string)
    ensures Strip(s) == s <==> IsAlnumString(s)
  {
    if |s| > 0 {
      StripFixedIff(s[1..]);
      assert s == [s[0]] + s[1..];
      if !IsAsciiAlnum(s[0]) {
        assert |Strip(s)| < |s|;
      }
    }
    StripIsAlnum(s);
  }

  /** Lowercasing of a whole string, character by character. */
  function Lower(s: string): (r: string)
    ensures |r| == |s|
    ensures forall i :: 0 <= i < |s| ==> r[i] == LowerChar(s[i])
  {
    if |s| == 0 then "" else [LowerChar(s[0])] + Lower(s[1..])
  }

  /** Stripping works character by character, so it distributes over concatenation. */
  lemma {:induction false} StripConcat(a: string, b: string)
    ensures Strip(a + b) == Strip(a) + Strip(b)
  {
    if |a| == 0 {
      assert a + b == b;
    } else {
      assert (a + b)[1..] == a[1..] + b;
      StripConcat(a[1..], b);
    }
  }

  /** Stripping an already stripped word changes nothing. */
  lemma StripIdempotent(s: string)
    ensures Strip(Strip(s)) == Strip(s)
  {
    StripIsAlnum(s);
    StripFixedIff(Strip(s));
  }

  /** Lowercasing yields a string without upper-case letters, and it changes a
      string exactly when that string has an upper-case letter. */
  lemma LowerNormalises(s: string)
    ensures HasNoUpper(Lower(s))
    ensures Lower(s) == s <==> HasNoUpper(s)
  {
    if HasNoUpper(s) {
      assert forall i :: 0 <= i < |s| ==> Lower(s)[i] == s[i];
    } else {
      var i :| 0 <= i < |s| && IsAsciiUpper(s[i]);
      assert Lower(s)[i] != s[i];
    }
  }

  lemma LowerIdempotent(s: string)
    ensures Lower(Lower(s)) == Lower(s)
  {
    LowerNormalises(s);
    LowerNormalises(Lower(s));
  }

  /** Lowercasing neither creates nor destroys letters and digits, so a string
      is alphanumeric, and made only of digits, exactly when its lowercase form is. */
  lemma LowerPreservesClasses(s: string)
    ensures IsAlnumString(Lower(s)) <==> IsAlnumString(s)
    ensures IsAllDigits(Lower(s)) <==> IsAllDigits(s)
  {
    var r := Lower(s);
    if !IsAlnumString(s) {
      var i :| 0 <= i < |s| && !IsAsciiAlnum(s[i]);
      assert !IsAsciiAlnum(r[i]);
    }
    if !IsAlnumString(r) {
      var i :| 0 <= i < |r| && !IsAsciiAlnum(r[i]);
      assert !IsAsciiAlnum(s[i]);
    }
    if |s| > 0 && !IsAllDigits(s) {
      var i :| 0 <= i < |s| && !IsAsciiDigit(s[i]);
      assert !IsAsciiDigit(r[i]);
    }
    if |r| > 0 && !IsAllDigits(r) {
      var i :| 0 <= i < |r| && !IsAsciiDigit(r[i]);
      assert !IsAsciiDigit(s[i]);
    }
  }
}
