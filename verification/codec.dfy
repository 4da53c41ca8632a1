/** `formatCode`: a code is written as `0x` and as many zero-padded hex
    byte pairs as a varint of that code would have bytes, but the digits
    are the plain big-endian value, not the varint encoding. */
module Codec {
  import opened Results
  import opened Hex

  /** How many 7-bit groups `c` occupies: the number of `>>= 7` steps that
      bring it to zero. */
  function SevenBitGroups(c: nat): (n: nat)
    ensures c < Pow(128, n)
    ensures n > 0 ==> Pow(128, n - 1) <= c
    ensures c == 0 <==> n == 0
  {
    if c == 0 then 0 else 1 + SevenBitGroups(c / 128)
  }

  /** The byte count `formatCode` uses: one for code 0, the 7-bit group
      count otherwise. It is the least `n >= 1` with `c < 128^n`. */
  function ByteCount(c: nat): (n: nat)
    ensures n >= 1 && c < Pow(128, n)
    ensures n == 1 || Pow(128, n - 1) <= c
  {
    if c == 0 then 1 else SevenBitGroups(c)
  }

  lemma {:induction false} Pow128BelowHexWidth(n: nat)
    ensures Pow(128, n) <= Pow(16, 2 * n)
  {
    if n > 0 {
      Pow128BelowHexWidth(n - 1);
      assert Pow(16, 2 * n) == 256 * Pow(16, 2 * (n - 1));
    }
  }

  /** The text `formatCode(c)` returns. Since `c < 128^n <= 16^(2n)`, the
      format `0{2n}x` never needs more than `2n` digits, so the padding
      width is the exact width. */
  function FormatCode(c: nat): (s: string)
    ensures |s| == 2 + 2 * ByteCount(c)
    ensures IsCodeBody(s) && IsCodeString(s)
    ensures HexValue(CodeDigits(s)) == c
  {
    var n := ByteCount(c);
    Pow128BelowHexWidth(n);
    var s := "0x" + ToHex(c, 2 * n);
    assert CodeDigits(s) == ToHex(c, 2 * n);
    s
  }

  lemma MulMono(a: nat, b: nat, p: nat)
    requires a <= b
    ensures a * p <= b * p
  {
  }

  /** One `>>= 7` step keeps the loop's bracketing of `code`. */
  lemma ShiftStep(code: nat, remaining: nat, p: nat)
    requires remaining > 0 && p >= 1
    requires remaining * p <= code < (remaining + 1) * p
    ensures (remaining / 128) * (128 * p) <= code < (remaining / 128 + 1) * (128 * p)
    ensures p <= code
  {
    var q := remaining / 128;
    assert q * 128 <= remaining;
    assert remaining + 1 <= (q + 1) * 128;
    MulMono(q * 128, remaining, p);
    MulMono(remaining + 1, (q + 1) * 128, p);
    MulMono(1, remaining, p);
    assert (q * 128) * p == q * (128 * p);
    assert ((q + 1) * 128) * p == (q + 1) * (128 * p);
  }

  lemma {:induction false} PowMono(i: nat, j: nat)
    requires i <= j
    ensures Pow(128, i) <= Pow(128, j)
    decreases j
  {
    if i < j {
      PowMono(i, j - 1);
    }
  }

  /** The byte count is the only `n >= 1` bracketing `c` between
      `128^(n-1)` and `128^n`, so the loop and `ByteCount` agree. */
  lemma ByteCountUnique(c: nat, n: nat)
    requires n >= 1 && c < Pow(128, n)
    requires n == 1 || Pow(128, n - 1) <= c
    ensures n == ByteCount(c)
  {
    var m := ByteCount(c);
    if n < m {
      PowMono(n, m - 1);
    } else if m < n {
      PowMono(m, n - 1);
    }
  }

  /** The counting loop of `formatCode`, step by step. */
  method CountBytes(code: nat) returns (nbytes: nat)
    ensures nbytes >= 1 && code < Pow(128, nbytes)
    ensures nbytes == 1 || Pow(128, nbytes - 1) <= code
    ensures nbytes == ByteCount(code)
  {
    nbytes := 0;
    if code == 0 {
      nbytes := 1;
    } else {
      var remaining := code;
      while remaining > 0
        invariant remaining * Pow(128, nbytes) <= code < (remaining + 1) * Pow(128, nbytes)
        invariant nbytes > 0 ==> Pow(128, nbytes - 1) <= code
        invariant nbytes == 0 ==> remaining == code
        decreases remaining
      {
        ShiftStep(code, remaining, Pow(128, nbytes));
        remaining := remaining / 128;
        nbytes := nbytes + 1;
      }
    }
    ByteCountUnique(code, nbytes);
  }

  /** Parsing the written code gives back the number. */
  lemma FormatCodeRoundTrip(c: nat)
    ensures ParseBase16(FormatCode(c)) == Some(c)
  {
    CodeStringParses(FormatCode(c));
  }

  lemma FormatCodeZero()
    ensures FormatCode(0) == "0x00"
  {
    assert ToHex(0, 1) == "0";
  }

  lemma FormatCodeOneByte()
    ensures FormatCode(0x7f) == "0x7f"
  {
    assert SevenBitGroups(0) == 0;
    assert SevenBitGroups(0x7f) == 1;
    assert ToHex(7, 1) == "7";
  }

  /** 0x80 needs two 7-bit groups, so it is written with two bytes. */
  lemma FormatCodeTwoBytes()
    ensures FormatCode(0x80) == "0x0080"
  {
    TwoGroups();
    FourDigits();
  }

  lemma TwoGroups()
    ensures ByteCount(0x80) == 2
  {
    assert SevenBitGroups(0) == 0;
    assert SevenBitGroups(1) == 1;
    assert SevenBitGroups(0x80) == 2;
  }

  lemma FourDigits()
    ensures ToHex(0x80, 4) == "0080"
  {
    assert ToHex(0, 1) == "0";
    assert ToHex(0, 2) == "00";
    assert ToHex(8, 3) == ToHex(0, 2) + [LowerDigit(8)];
    assert ToHex(8, 3) == "008";
    assert ToHex(0x80, 4) == ToHex(8, 3) + [LowerDigit(0)];
  }
}
