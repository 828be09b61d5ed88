/** The percent decoding of `urlwrapper.cpp`: one pass over a string that is edited in place, against the
    percent-encoding of section 2.1 of RFC 3986. */
module UrlDecode {

  const NUL := '\0'

  predicate IsHexDigit(c: char) { '0' <= c <= '9' || 'a' <= c <= 'f' || 'A' <= c <= 'F' }

  function DigitValue(c: char): (v: nat)
    requires IsHexDigit(c)
    ensures v < 16
  {
    if c <= '9' then c as int - '0' as int
    else if c <= 'F' then c as int - 'A' as int + 10
    else c as int - 'a' as int + 10
  }

  function Octet(high: char, low: char): (c: char)
    requires IsHexDigit(high) && IsHexDigit(low)
    ensures c as int < 256
  {
    (16 * DigitValue(high) + DigitValue(low)) as char
  }

  predicate StartsWithEscape(s: string) {
    |s| >= 3 && s[0] == '%' && IsHexDigit(s[1]) && IsHexDigit(s[2])
  }

  /** What one pass makes of a string: escapes become characters and are not looked at again. */
  function Decoded(s: string): string {
    if s == "" || s[0] == NUL then s
    else if StartsWithEscape(s) then [Octet(s[1], s[2])] + Decoded(s[3..])
    else [s[0]] + Decoded(s[1..])
  }

  /** The digits of an escape in letters: sixteen values, the last six in either case. */
  lemma DigitsInLetters(c: char)
    ensures IsHexDigit(c) <==> c in "0123456789abcdefABCDEF"
    ensures forall v :: 0 <= v < 16 && (c == "0123456789abcdef"[v] || c == "0123456789ABCDEF"[v]) ==>
                          IsHexDigit(c) && DigitValue(c) == v
  {
  }

  /** An escape of two digits in any case is the octet of their values, and a percent sign without two digits behind it
      stays, as every other character does. */
  lemma EscapesInLetters(high: nat, low: nat, s: string, rest: string)
    requires high < 16 && low < 16
    requires |s| == 3 && s[0] == '%'
    requires s[1] == "0123456789abcdef"[high] || s[1] == "0123456789ABCDEF"[high]
    requires s[2] == "0123456789abcdef"[low] || s[2] == "0123456789ABCDEF"[low]
    ensures Decoded(s + rest) == [(16 * high + low) as char] + Decoded(rest)
  {
    DigitsInLetters(s[1]);
    DigitsInLetters(s[2]);
    assert (s + rest)[3..] == rest && (s + rest)[..3] == s;
    assert (s + rest)[0] == s[0] && (s + rest)[1] == s[1] && (s + rest)[2] == s[2];
    hide IsHexDigit, DigitValue;
  }

  lemma OthersStay(s: string)
    requires s != "" && s[0] != '\0'
    requires s[0] != '%' || |s| < 3 || s[1] !in "0123456789abcdefABCDEF" || s[2] !in "0123456789abcdefABCDEF"
    ensures Decoded(s) == [s[0]] + Decoded(s[1..])
  {
    if |s| >= 3 {
      DigitsInLetters(s[1]);
      DigitsInLetters(s[2]);
    }
    hide IsHexDigit;
  }

  lemma EscapeStep(before: string, after: string, i: nat)
    requires i + 2 < |before| && StartsWithEscape(before[i..])
    requires var cut := before[..i] + before[i + 3..];
             after == cut[..i] + [Octet(before[i + 1], before[i + 2])] + cut[i..]
    ensures after[..i + 1] + Decoded(after[i + 1..]) == before[..i] + Decoded(before[i..])
  {
    var c := Octet(before[i + 1], before[i + 2]);
    assert before[i..][3..] == before[i + 3..] == after[i + 1..];
    assert after[..i + 1] == before[..i] + [c];
    assert before[..i] + ([c] + Decoded(before[i + 3..])) == before[..i] + [c] + Decoded(before[i + 3..]);
  }

  lemma PlainStep(s: string, i: nat)
    requires i < |s| && s[i] != NUL && !StartsWithEscape(s[i..])
    ensures s[..i + 1] + Decoded(s[i + 1..]) == s[..i] + Decoded(s[i..])
  {
    assert s[i..][1..] == s[i + 1..] && s[..i + 1] == s[..i] + [s[i]];
    assert s[..i] + ([s[i]] + Decoded(s[i + 1..])) == s[..i] + [s[i]] + Decoded(s[i + 1..]);
  }

  lemma NothingLeft(s: string)
    requires |s| <= 2
    ensures Decoded(s) == s
  {
    if s != "" {
      NothingLeft(s[1..]);
    }
  }

  class UrlString {
    var text: string

    constructor (text: string)
      ensures this.text == text
    {
      this.text := text;
    }

    // A string has a terminator behind its last character.
    function At(i: nat): char
      requires i <= |text|
      reads this
    {
      if i == |text| then NUL else text[i]
    }

    method Remove(from: nat, count: nat)
      requires from + count <= |text|
      modifies this
      ensures text == old(text[..from] + text[from + count..])
    {
      text := text[..from] + text[from + count..];
    }

    method Insert(c: char, pos: nat)
      requires pos <= |text|
      modifies this
      ensures text == old(text[..pos] + [c] + text[pos..])
    {
      text := text[..pos] + [c] + text[pos..];
    }

    method DecodeUrlString()
      modifies this
      ensures text == Decoded(old(text))
    {
      var length := |text|;
      var i := 0;
      while At(i) != NUL && i < length - 2
        invariant 0 <= i <= length == |text|
        invariant text[..i] + Decoded(text[i..]) == Decoded(old(text))
        decreases length - i
      {
        ghost var before := text;
        if At(i) == '%' && IsHexDigit(At(i + 1)) && IsHexDigit(At(i + 2)) {
          var c := Octet(At(i + 1), At(i + 2));
          Remove(i, 3);
          Insert(c, i);
          length := length - 2;
          EscapeStep(before, text, i);
        } else {
          PlainStep(before, i);
        }
        i := i + 1;
      }
      if i < |text| && text[i] != NUL {
        NothingLeft(text[i..]);
      }
      assert text[..i] + text[i..] == text;
    }
  }

  // ---- Against the standard

  /** `t` is a percent-encoding of `s`: every character stands for itself, or for the octet of an escape;
      a percent sign (and the terminator) never stands for itself. */
  ghost predicate Encodes(t: string, s: string) {
    if s == "" then t == ""
    else
      || (t != "" && t[0] == s[0] && t[0] != '%' && t[0] != NUL && Encodes(t[1..], s[1..]))
      || (StartsWithEscape(t) && Octet(t[1], t[2]) == s[0] && Encodes(t[3..], s[1..]))
  }

  /** A string that is an encoding of something: no terminator, and every percent sign starts an escape. */
  predicate WellFormed(t: string) {
    t == "" || (t[0] != NUL && if t[0] == '%' then StartsWithEscape(t) && WellFormed(t[3..]) else WellFormed(t[1..]))
  }

  /** Decoding inverts every encoding, whatever the encoder chose to escape and in whichever letter case. */
  lemma {:induction false} DecodesEveryEncoding(t: string, s: string)
    requires Encodes(t, s)
    ensures Decoded(t) == s && WellFormed(t)
  {
    if s != "" {
      if StartsWithEscape(t) {
        DecodesEveryEncoding(t[3..], s[1..]);
      } else {
        DecodesEveryEncoding(t[1..], s[1..]);
      }
    }
  }

  lemma {:induction false} EncodesItsDecoding(t: string)
    requires WellFormed(t)
    ensures Encodes(t, Decoded(t))
  {
    if t != "" {
      EncodesItsDecoding(if StartsWithEscape(t) then t[3..] else t[1..]);
    }
  }

  /** A well-formed string encodes what it decodes to, and nothing else. */
  lemma {:induction false} EncodesExactlyItsDecoding(t: string, s: string)
    requires WellFormed(t)
    ensures Encodes(t, s) <==> s == Decoded(t)
  {
    if Encodes(t, s) {
      DecodesEveryEncoding(t, s);
    }
    EncodesItsDecoding(t);
  }

  const DIGITS := "0123456789ABCDEF"

  /** The upper-case encoder that the standard recommends, for any choice of characters to escape. */
  function Encoded(s: string, escape: char -> bool): string {
    if s == "" then ""
    else (if escape(s[0]) then ['%', DIGITS[s[0] as int / 16 % 16], DIGITS[s[0] as int % 16]] else [s[0]])
         + Encoded(s[1..], escape)
  }

  lemma DigitsOf(v: nat)
    requires v < 16
    ensures IsHexDigit(DIGITS[v]) && DigitValue(DIGITS[v]) == v
  {}

  lemma EscapeOf(c: char)
    requires c as int < 256
    ensures var h, l := DIGITS[c as int / 16 % 16], DIGITS[c as int % 16];
            IsHexDigit(h) && IsHexDigit(l) && Octet(h, l) == c
  {
    DigitsOf(c as int / 16);
    DigitsOf(c as int % 16);
  }

  lemma {:induction false} EncodedEncodes(s: string, escape: char -> bool)
    requires forall i :: 0 <= i < |s| ==> s[i] as int < 256
    requires escape('%') && escape(NUL)
    ensures Encodes(Encoded(s, escape), s)
  {
    if s != "" {
      EncodedEncodes(s[1..], escape);
      var t := Encoded(s, escape);
      if escape(s[0]) {
        EscapeOf(s[0]);
        assert t[3..] == Encoded(s[1..], escape);
      } else {
        assert t[1..] == Encoded(s[1..], escape);
      }
    }
  }

  /** Every string of 8-bit characters comes back, if at least the percent sign and the terminator are escaped. */
  lemma {:induction false} RoundTrip(s: string, escape: char -> bool)
    requires forall i :: 0 <= i < |s| ==> s[i] as int < 256
    requires escape('%') && escape(NUL)
    ensures Decoded(Encoded(s, escape)) == s
  {
    EncodedEncodes(s, escape);
    DecodesEveryEncoding(Encoded(s, escape), s);
  }
}
