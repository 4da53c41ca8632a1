/** String helpers with Python's meaning: `str.split(sep)`,
    `str.split(sep, 1)`, `str.strip()` on ASCII whitespace (as `str.isspace()` defines it), and a
    separator join as the CSV writer produces it (quoting aside). */
module Text {
  import opened Results

  /** Index of the first occurrence of `c` in `s`. */
  function IndexOf(s: string, c: char): (i: nat)
    requires c in s
    ensures i < |s| && s[i] == c
    ensures c !in s[..i]
  {
    if s[0] == c then 0
    else
      var j := IndexOf(s[1..], c);
      assert s[..j + 1] == [s[0]] + s[1..][..j];
      j + 1
  }

  /** The parts joined with `sep` between consecutive parts. */
  function Join(parts: seq<string>, sep: char): string
  {
    if |parts| == 0 then ""
    else if |parts| == 1 then parts[0]
    else parts[0] + [sep] + Join(parts[1..], sep)
  }

  /** Python's `s.split(sep)`: the maximal pieces free of `sep`. */
  function Split(s: string, sep: char): (parts: seq<string>)
    ensures |parts| >= 1
    ensures forall k :: 0 <= k < |parts| ==> sep !in parts[k]
    ensures Join(parts, sep) == s
    decreases |s|
  {
    if sep !in s then [s]
    else
      var i := IndexOf(s, sep);
      var rest := Split(s[i + 1..], sep);
      assert s == s[..i] + [sep] + s[i + 1..];
      [s[..i]] + rest
  }

  /** Python's `s.split(sep, 1)` unpacked into two names: `None` where the
      unpacking fails because `sep` does not occur. */
  function SplitOnce(s: string, sep: char): (r: Option<(string, string)>)
    ensures r.Some? <==> sep in s
    ensures r.Some? ==> sep !in r.value.0 && r.value.0 + [sep] + r.value.1 == s
  {
    if sep in s then
      var i := IndexOf(s, sep);
      assert s == s[..i] + [sep] + s[i + 1..];
      Some((s[..i], s[i + 1..]))
    else None
  }

  /** Splitting once agrees with the full split: the head is the first
      part, and the tail holds no further separator exactly when the full
      split has two parts. */
  lemma SplitOnceAgrees(s: string, sep: char)
    ensures SplitOnce(s, sep).None? <==> |Split(s, sep)| == 1
    ensures SplitOnce(s, sep).Some? ==>
              SplitOnce(s, sep).value.0 == Split(s, sep)[0]
              && (|Split(s, sep)| == 2 <==> sep !in SplitOnce(s, sep).value.1)
  {
    if sep in s {
      var i := IndexOf(s, sep);
      var rest := Split(s[i + 1..], sep);
      assert Split(s, sep) == [s[..i]] + rest;
      if |rest| == 1 {
        assert Join(rest, sep) == rest[0];
      } else {
        assert sep in Join(rest, sep) by {
          assert Join(rest, sep) == rest[0] + [sep] + Join(rest[1..], sep);
          assert Join(rest, sep)[|rest[0]|] == sep;
        }
      }
    }
  }

  /** The ASCII characters Python's `str.isspace()` accepts, which
      `str.strip()` and `int()` remove: space, tab, line feed, carriage
      return, vertical tab, form feed and the separators 0x1C to 0x1F. */
  predicate IsSpace(c: char)
  {
    c == ' ' || c == '\t' || c == '\n' || c == '\r' || c == '\U{000B}' || c == '\U{000C}'
    || '\U{001C}' <= c <= '\U{001F}'
  }

  function TrimStart(s: string): (r: string)
    ensures |r| <= |s| && r == s[|s| - |r|..]
    ensures |r| > 0 ==> !IsSpace(r[0])
    ensures forall k :: 0 <= k < |s| - |r| ==> IsSpace(s[k])
  {
    if |s| > 0 && IsSpace(s[0]) then TrimStart(s[1..]) else s
  }

  function TrimEnd(s: string): (r: string)
    ensures |r| <= |s| && r == s[..|r|]
    ensures |r| > 0 ==> !IsSpace(r[|r| - 1])
    ensures forall k :: |r| <= k < |s| ==> IsSpace(s[k])
  {
    if |s| > 0 && IsSpace(s[|s| - 1]) then TrimEnd(s[..|s| - 1]) else s
  }

  /** `r` sits in `s` at offset `i` with only whitespace around it. */
  predicate SpaceAround(s: string, r: string, i: nat)
  {
    && i + |r| <= |s| && s[i..i + |r|] == r
    && (forall k :: 0 <= k < i ==> IsSpace(s[k]))
    && (forall k :: i + |r| <= k < |s| ==> IsSpace(s[k]))
  }

  /** Python's `s.strip()` for ASCII whitespace: what is left neither starts
      nor ends with whitespace, and only whitespace was removed around it. */
  function Strip(s: string): (r: string)
    ensures |r| == 0 || (!IsSpace(r[0]) && !IsSpace(r[|r| - 1]))
    ensures exists i :: SpaceAround(s, r, i)
  {
    var t := TrimStart(s);
    TrimmedAround(s, t, TrimEnd(t));
    TrimEnd(t)
  }

  /** Leading whitespace cut to give `t`, then trailing whitespace cut to
      give `r`, leaves `r` with only whitespace around it. */
  lemma TrimmedAround(s: string, t: string, r: string)
    requires |t| <= |s| && t == s[|s| - |t|..]
    requires forall k :: 0 <= k < |s| - |t| ==> IsSpace(s[k])
    requires |t| > 0 ==> !IsSpace(t[0])
    requires |r| <= |t| && r == t[..|r|]
    requires |r| > 0 ==> !IsSpace(r[|r| - 1])
    requires forall k :: |r| <= k < |t| ==> IsSpace(t[k])
    ensures |r| == 0 || (!IsSpace(r[0]) && !IsSpace(r[|r| - 1]))
    ensures SpaceAround(s, r, |s| - |t|)
  {
    var i := |s| - |t|;
    assert s[i..i + |r|] == s[i..][..|r|];
    forall k | i + |r| <= k < |s|
      ensures IsSpace(s[k])
    {
      assert s[k] == t[k - i];
    }
  }

  /** `n` space characters. */
  function Spaces(n: nat): (r: string)
    ensures |r| == n
    ensures forall k :: 0 <= k < n ==> r[k] == ' '
  {
    seq(n, _ => ' ')
  }
}
