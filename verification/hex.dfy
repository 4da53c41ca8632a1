/** Hexadecimal digits: the lexical rule of the `code` column, Python's
    `int(s, 16)` as far as the table needs it, and zero-padded lowercase
    rendering as by the format spec `0{width}x`. */
module Hex {
  import opened Results
  import opened Text

  function Pow(b: nat, e: nat): (r: nat)
    ensures r >= 1 || b == 0
  {
    if e == 0 then 1 else b * Pow(b, e - 1)
  }

  predicate IsLowerHexDigit(c: char)
  {
    '0' <= c <= '9' || 'a' <= c <= 'f'
  }

  /** A digit `int(s, 16)` accepts, in either case. */
  predicate IsHexDigit(c: char)
  {
    IsLowerHexDigit(c) || 'A' <= c <= 'F'
  }

  function DigitValue(c: char): (v: nat)
    requires IsHexDigit(c)
    ensures v < 16
  {
    if '0' <= c <= '9' then c as nat - '0' as nat
    else if 'a' <= c <= 'f' then c as nat - 'a' as nat + 10
    else c as nat - 'A' as nat + 10
  }

  function LowerDigit(v: nat): (c: char)
    requires v < 16
    ensures IsLowerHexDigit(c) && DigitValue(c) == v
  {
    if v < 10 then ('0' as nat + v) as char else ('a' as nat + v - 10) as char
  }

  predicate AllHex(s: string)
  {
    forall k :: 0 <= k < |s| ==> IsHexDigit(s[k])
  }

  predicate AllLowerHex(s: string)
  {
    forall k :: 0 <= k < |s| ==> IsLowerHexDigit(s[k])
  }

  /** The number a string of hex digits denotes, most significant first. */
  function HexValue(s: string): (v: nat)
    requires AllHex(s)
    ensures v < Pow(16, |s|)
  {
    if |s| == 0 then 0
    else 16 * HexValue(s[..|s| - 1]) + DigitValue(s[|s| - 1])
  }

  /** `v` as exactly `width` lowercase hex digits, zero-padded on the left. */
  function ToHex(v: nat, width: nat): (r: string)
    requires v < Pow(16, width)
    ensures |r| == width && AllLowerHex(r)
    ensures AllHex(r) && HexValue(r) == v
  {
    if width == 0 then ""
    else
      var r := ToHex(v / 16, width - 1) + [LowerDigit(v % 16)];
      assert r[..|r| - 1] == ToHex(v / 16, width - 1);
      r
  }

  /** Rendering is injective on digit strings of a fixed width: lowercase
      digits are rendered back to themselves. */
  lemma {:induction false} ToHexOfHexValue(s: string)
    requires AllLowerHex(s)
    ensures AllHex(s) && ToHex(HexValue(s), |s|) == s
  {
    if |s| > 0 {
      var p := s[..|s| - 1];
      ToHexOfHexValue(p);
      var v := HexValue(s);
      assert v / 16 == HexValue(p) && v % 16 == DigitValue(s[|s| - 1]);
      var c := s[|s| - 1];
      assert LowerDigit(DigitValue(c)) == c;
      assert s == p + [c];
    }
  }

  /** The regular expression `^0x([0-9a-f][0-9a-f])+$` without the final
      newline that Python's `$` also lets through. */
  predicate IsCodeBody(s: string)
  {
    && |s| >= 4 && |s| % 2 == 0
    && s[0] == '0' && s[1] == 'x'
    && AllLowerHex(s[2..])
  }

  /** What `re.match(r"^0x([0-9a-f][0-9a-f])+$", s)` accepts: `$` matches at
      the end of the string and also just before one final newline. */
  predicate IsCodeString(s: string): (b: bool)
    ensures b <==> exists d :: CodeForm(s, d)
  {
    CodeForms(s);
    IsCodeBody(s) || (|s| > 0 && s[|s| - 1] == '\n' && IsCodeBody(s[..|s| - 1]))
  }

  /** `s` is `0x` and the digit pairs `d`, with or without one newline
      after them. */
  predicate CodeForm(s: string, d: string)
  {
    |d| >= 2 && |d| % 2 == 0 && AllLowerHex(d) && (s == "0x" + d || s == "0x" + d + "\n")
  }

  lemma CodeForms(s: string)
    ensures (IsCodeBody(s) || (|s| > 0 && s[|s| - 1] == '\n' && IsCodeBody(s[..|s| - 1])))
            <==> exists d :: CodeForm(s, d)
  {
    if IsCodeBody(s) {
      assert s == "0x" + s[2..];
      assert CodeForm(s, s[2..]);
    } else if |s| > 0 && s[|s| - 1] == '\n' && IsCodeBody(s[..|s| - 1]) {
      var t := s[..|s| - 1];
      assert s == "0x" + t[2..] + "\n";
      assert CodeForm(s, t[2..]);
    }
    forall d | CodeForm(s, d)
      ensures IsCodeBody(s) || (|s| > 0 && s[|s| - 1] == '\n' && IsCodeBody(s[..|s| - 1]))
    {
      CodeFormMatches(s, d);
    }
  }

  lemma CodeFormMatches(s: string, d: string)
    requires CodeForm(s, d)
    ensures IsCodeBody(s) || (|s| > 0 && s[|s| - 1] == '\n' && IsCodeBody(s[..|s| - 1]))
  {
    if s == "0x" + d {
      assert s[2..] == d;
    } else {
      var t := s[..|s| - 1];
      assert t == "0x" + d;
      assert t[2..] == d;
    }
  }

  /** The hex digits of an accepted code string. */
  function CodeDigits(s: string): (d: string)
    requires IsCodeString(s)
    ensures |d| >= 2 && |d| % 2 == 0 && AllLowerHex(d) && AllHex(d)
  {
    if IsCodeBody(s) then s[2..] else s[2..|s| - 1]
  }

  /** `t` has the `0x` or `0X` prefix `int(t, 16)` allows. */
  predicate Prefixed(t: string)
  {
    |t| >= 2 && t[0] == '0' && (t[1] == 'x' || t[1] == 'X')
  }

  /** `t` is the non-empty digit run `d`, bare or after a `0x`/`0X` prefix. */
  predicate HexForm(t: string, d: string)
  {
    |d| > 0 && AllHex(d) && (t == d || t == "0x" + d || t == "0X" + d)
  }

  /** Python's `int(s, 16)`: surrounding whitespace is ignored, a `0x` or
      `0X` prefix is optional, and at least one hex digit must follow.
      `None` is the `ValueError`. */
  function ParseBase16(s: string): (r: Option<nat>)
    ensures r.Some? <==> exists d :: HexForm(Strip(s), d)
    ensures forall d :: HexForm(Strip(s), d) ==> r == Some(HexValue(d))
  {
    var t := Strip(s);
    HexForms(t);
    if Prefixed(t) then
      if |t| > 2 && AllHex(t[2..]) then Some(HexValue(t[2..])) else None
    else if |t| > 0 && AllHex(t) then Some(HexValue(t))
    else None
  }

  /** A string has at most one digit run under `HexForm`: the part after
      the prefix when it has one, otherwise the whole string. */
  lemma HexForms(t: string)
    ensures forall d :: HexForm(t, d) ==> d == if Prefixed(t) then t[2..] else t
    ensures Prefixed(t) ==> (HexForm(t, t[2..]) <==> |t| > 2 && AllHex(t[2..]))
    ensures !Prefixed(t) ==> (HexForm(t, t) <==> |t| > 0 && AllHex(t))
  {
    if Prefixed(t) {
      PrefixParts(t);
      assert !IsHexDigit(t[1]);
    }
    forall d | HexForm(t, d)
      ensures d == if Prefixed(t) then t[2..] else t
    {
      if t == d {
        assert |t| >= 2 ==> IsHexDigit(t[1]);
      } else {
        assert t[2..] == d;
      }
    }
  }

  lemma PrefixParts(t: string)
    requires |t| >= 2
    ensures t == [t[0], t[1]] + t[2..]
  {
  }

  /** Every string the code-format rule accepts parses as hex, to the value
      of its digits; so a parse failure after that rule cannot happen. */
  lemma CodeStringParses(s: string)
    requires IsCodeString(s)
    ensures ParseBase16(s) == Some(HexValue(CodeDigits(s)))
  {
    var b := if IsCodeBody(s) then s else s[..|s| - 1];
    StripCode(s, b);
    var d := CodeDigits(s);
    assert b == "0x" + d;
    assert HexForm(Strip(s), d);
  }

  /** A code string is stripped only of its final newline, if any. */
  lemma StripCode(s: string, b: string)
    requires IsCodeBody(s) || (|s| > 0 && s[|s| - 1] == '\n' && IsCodeBody(s[..|s| - 1]))
    requires b == if IsCodeBody(s) then s else s[..|s| - 1]
    ensures Strip(s) == b
  {
    assert !IsSpace(b[0]) && !IsSpace(b[|b| - 1]);
    assert TrimStart(s) == s;
    assert TrimEnd(s) == b;
  }
}
