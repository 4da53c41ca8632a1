/** The table update of `main` in import-mime.py, with the IANA fetch
    replaced by its two results: the root element's `id` and the texts of
    the `file` elements. The mimetype block of the table is found, replayed
    to rebuild the per-section counters, extended with codes for the names
    it lacks, sorted by code and written back in place. */
module Sync {
  import opened Results
  import opened Text
  import opened Hex
  import opened Codec
  import opened Registry

  /** One `assigned` entry: `assigned[name] = (code, description)`. */
  datatype Entry = Entry(name: string, code: nat, description: string)

  /** What the IANA registry supplies. */
  datatype Source = Source(id: string, names: seq<string>)

  /** The counters and the entries gathered so far. */
  datatype Assigned = Assigned(entries: seq<Entry>, lastCode: map<string, nat>)

  /** Why `main` stops, with the table line where that applies. */
  datatype SyncError =
    | BadCode(line: nat)
    | UnknownSection(line: nat)
    | InvalidMimeType(line: nat)
    | WrongSection(line: nat)
    | UnexpectedCode(line: nat, expected: nat, got: nat)
    | MimeOutsideBlock(line: nat)
    | WrongSourceId
    | MissingSubtype(name: string)
    | UnknownSourceSection(name: string)

  const SourceId := "media-types"

  /** Every row after the header unpacks into four cells. */
  predicate WellShaped(t: Table)
  {
    forall i :: 1 <= i < |t| ==> |t[i]| == 4
  }

  predicate IsMime(row: Row)
  {
    |row| > TagColumn && row[TagColumn] == MimeTag
  }

  // ---- block detection ----

  /** The first index from `from` on whose row is (`tagged`) or is not
      (`!tagged`) a mimetype row; `|t|` when there is none. */
  function FirstTagged(t: Table, from: nat, tagged: bool): (j: nat)
    requires from <= |t|
    ensures from <= j <= |t|
    ensures forall k :: from <= k < j ==> IsMime(t[k]) != tagged
    ensures j < |t| ==> IsMime(t[j]) == tagged
    decreases |t| - from
  {
    if from == |t| || IsMime(t[from]) == tagged then from
    else FirstTagged(t, from + 1, tagged)
  }

  /** `mimeStart`: the first mimetype row after the header, or the end
      of the table when there is none. */
  function BlockStart(t: Table): (start: nat)
    ensures start <= |t| && (|t| > 0 ==> start >= 1)
    ensures forall k :: 1 <= k < start ==> !IsMime(t[k])
    ensures start < |t| ==> IsMime(t[start])
  {
    FirstTagged(t, if |t| == 0 then 0 else 1, true)
  }

  /** `mimeEnd`: the first row from `mimeStart` on that is not a mimetype
      row. */
  function BlockEnd(t: Table): (end: nat)
    ensures BlockStart(t) <= end <= |t|
    ensures forall k :: BlockStart(t) <= k < end ==> IsMime(t[k])
    ensures end < |t| ==> !IsMime(t[end])
  {
    FirstTagged(t, BlockStart(t), false)
  }

  // ---- the `assigned` dictionary ----

  function Keys(es: seq<Entry>): (k: seq<string>)
    ensures |k| == |es| && forall i :: 0 <= i < |es| ==> k[i] == es[i].name
  {
    seq(|es|, i requires 0 <= i < |es| => es[i].name)
  }

  predicate DistinctNames(es: seq<Entry>)
  {
    forall i, j :: 0 <= i < j < |es| ==> es[i].name != es[j].name
  }

  /** `assigned.get(name)`. */
  function Lookup(es: seq<Entry>, name: string): (r: Option<Entry>)
    ensures r.Some? <==> name in Keys(es)
    ensures r.Some? ==> r.value in es && r.value.name == name
  {
    if |es| == 0 then None
    else if es[0].name == name then Some(es[0])
    else
      assert Keys(es) == [es[0].name] + Keys(es[1..]);
      Lookup(es[1..], name)
  }

  /** `assigned[e.name] = ...`: an existing key keeps its place and takes
      the new value, a new key goes to the end. */
  function Put(es: seq<Entry>, e: Entry): (r: seq<Entry>)
    ensures e.name !in Keys(es) ==> r == es + [e]
  {
    if |es| == 0 then [e]
    else if es[0].name == e.name then [e] + es[1..]
    else
      assert Keys(es) == [es[0].name] + Keys(es[1..]);
      [es[0]] + Put(es[1..], e)
  }

  // ---- replaying the block ----

  /** The counters before the replay: `sections.copy()`. */
  const Initial := Assigned([], Sections)

  /** A block row `[name, tag, code, description]` as the replay reads
      it: the code through `int(code, 16)`, the name through
      `name.split('/')`. */
  datatype BlockRow = BlockRow(name: string, code: Option<nat>, description: string, parts: seq<string>)

  predicate ValidRead(b: BlockRow)
  {
    |b.parts| >= 1
  }

  function ReadRow(row: Row): (b: BlockRow)
    requires |row| == 4
    ensures ValidRead(b)
  {
    BlockRow(row[NameColumn], ParseBase16(row[CodeColumn]), row[DescriptionColumn], Split(row[NameColumn], '/'))
  }

  function ReadRows(rows: seq<Row>): (bs: seq<BlockRow>)
    requires forall i :: 0 <= i < |rows| ==> |rows[i]| == 4
    ensures |bs| == |rows|
    ensures forall i :: 0 <= i < |rows| ==> bs[i] == ReadRow(rows[i]) && ValidRead(bs[i])
  {
    seq(|rows|, i requires 0 <= i < |rows| => ReadRow(rows[i]))
  }

  /** The counters of `after` are those of `before`, none lower. */
  predicate CountersGrow(before: map<string, nat>, after: map<string, nat>)
  {
    && before.Keys == Sections.Keys && after.Keys == Sections.Keys
    && forall s :: s in Sections ==> before[s] <= after[s]
  }

  /** One block row at table line `line`: it is kept only with a code that
      parses, a known section and at most two parts; a two-part row moves
      its section's counter up to its own code. */
  function ReplayRow(st: Assigned, b: BlockRow, line: nat): (r: Result<Assigned, SyncError>)
    requires ValidRead(b) && st.lastCode.Keys == Sections.Keys
    ensures r.Ok? ==> r.value.lastCode.Keys == Sections.Keys
    ensures r.Ok? ==> b.code.Some? && b.parts[0] in Sections && |b.parts| <= 2
    ensures r.Ok? && |b.parts| == 2 ==> r.value.lastCode[b.parts[0]] == b.code.value
    ensures r.Ok? ==> CountersGrow(st.lastCode, r.value.lastCode)
  {
    match b.code
    case None => Err(BadCode(line))
    case Some(code) =>
      var entries := Put(st.entries, Entry(b.name, code, b.description));
      var section := b.parts[0];
      if section !in Sections then Err(UnknownSection(line))
      else if |b.parts| == 1 then Ok(Assigned(entries, st.lastCode))
      else if |b.parts| != 2 then Err(InvalidMimeType(line))
      else
        var expected := st.lastCode[section] + 1;
        if SectionBits(code) != Sections[section] then Err(WrongSection(line))
        else if expected != code then Err(UnexpectedCode(line, expected, code))
        else Ok(Assigned(entries, st.lastCode[section := expected]))
  }

  /** The replay loop over the block, whose first row is table line
      `base`; the first failing row stops it. */
  function Replay(bs: seq<BlockRow>, base: nat): (r: Result<Assigned, SyncError>)
    requires forall i :: 0 <= i < |bs| ==> ValidRead(bs[i])
    ensures r.Ok? ==> r.value.lastCode.Keys == Sections.Keys
    ensures r.Ok? ==> CountersGrow(Sections, r.value.lastCode)
  {
    if |bs| == 0 then Ok(Initial)
    else
      var st :- Replay(bs[..|bs| - 1], base);
      var r := ReplayRow(st, bs[|bs| - 1], base + |bs| - 1);
      assert r.Ok? ==> CountersGrow(st.lastCode, r.value.lastCode);
      r
  }

  // ---- assigning codes to new names ----

  /** A source name with its `split('/', 1)`; `None` is the unpacking
      error of a name without `/`. */
  datatype SourceName = SourceName(name: string, split: Option<(string, string)>)

  function ReadName(name: string): (n: SourceName)
    ensures n.name == name
    ensures n.split.Some? <==> '/' in name
    ensures n.split.Some? ==> '/' !in n.split.value.0 && n.split.value.0 + ['/'] + n.split.value.1 == name
  {
    SourceName(name, SplitOnce(name, '/'))
  }

  function ReadNames(names: seq<string>): (ns: seq<SourceName>)
    ensures |ns| == |names|
    ensures forall i :: 0 <= i < |names| ==> ns[i] == ReadName(names[i])
  {
    seq(|names|, i requires 0 <= i < |names| => ReadName(names[i]))
  }

  /** One source name: skipped when already assigned, otherwise given the
      next code of its section and an empty description; a key not yet in
      the dictionary goes to its end. */
  function AssignName(st: Assigned, n: SourceName): (r: Result<Assigned, SyncError>)
    requires st.lastCode.Keys == Sections.Keys
    ensures r.Ok? ==> r.value.lastCode.Keys == Sections.Keys
    ensures n.name in Keys(st.entries) ==> r == Ok(st)
    ensures n.name !in Keys(st.entries) && r.Ok? ==>
              n.split.Some? && n.split.value.0 in Sections
    ensures r.Ok? ==> CountersGrow(st.lastCode, r.value.lastCode)
  {
    if n.name in Keys(st.entries) then Ok(st)
    else
      match n.split
      case None => Err(MissingSubtype(n.name))
      case Some((section, _)) =>
        if section !in st.lastCode then Err(UnknownSourceSection(n.name))
        else
          var code := st.lastCode[section] + 1;
          Ok(Assigned(st.entries + [Entry(n.name, code, "")], st.lastCode[section := code]))
  }

  /** The loop over the source names. */
  function Assign(st: Assigned, ns: seq<SourceName>): (r: Result<Assigned, SyncError>)
    requires st.lastCode.Keys == Sections.Keys
    ensures r.Ok? ==> r.value.lastCode.Keys == Sections.Keys
    ensures r.Ok? ==> CountersGrow(st.lastCode, r.value.lastCode)
  {
    if |ns| == 0 then Ok(st)
    else
      var mid :- Assign(st, ns[..|ns| - 1]);
      var r := AssignName(mid, ns[|ns| - 1]);
      assert r.Ok? ==> CountersGrow(mid.lastCode, r.value.lastCode);
      r
  }

  // ---- sorting and splicing ----

  predicate SortedByCode(es: seq<Entry>)
  {
    forall i, j :: 0 <= i < j < |es| ==> es[i].code <= es[j].code
  }

  /** A non-empty sequence is its front followed by its last element. */
  lemma LastSplit<T>(s: seq<T>)
    requires |s| > 0
    ensures s == s[..|s| - 1] + [s[|s| - 1]]
  {
  }

  lemma SortedSnoc(s: seq<Entry>, x: Entry)
    requires SortedByCode(s) && forall i :: 0 <= i < |s| ==> s[i].code <= x.code
    ensures SortedByCode(s + [x])
  {
  }

  /** Entries drawn from a multiset bounded by `c` are bounded by `c`. */
  lemma BoundedEntries(s: seq<Entry>, m: multiset<Entry>, c: nat)
    requires multiset(s) == m && forall x :: x in m ==> x.code <= c
    ensures forall i :: 0 <= i < |s| ==> s[i].code <= c
  {
    forall i | 0 <= i < |s|
      ensures s[i].code <= c
    {
      assert s[i] in multiset(s);
    }
  }

  /** Putting the last entry of `s` behind `front`, which holds the rest of
      `s` and `e`, keeps the order and the entries. */
  lemma InsertBehind(s: seq<Entry>, e: Entry, front: seq<Entry>)
    requires SortedByCode(s) && |s| > 0 && e.code < s[|s| - 1].code
    requires SortedByCode(front) && multiset(front) == multiset(s[..|s| - 1]) + multiset{e}
    ensures SortedByCode(front + [s[|s| - 1]])
    ensures multiset(front + [s[|s| - 1]]) == multiset(s) + multiset{e}
  {
    var init := s[..|s| - 1];
    var last := s[|s| - 1];
    LastSplit(s);
    assert forall x :: x in multiset(init) + multiset{e} ==> x.code <= last.code by {
      forall x | x in multiset(init) + multiset{e}
        ensures x.code <= last.code
      {
        if x != e {
          var i :| 0 <= i < |init| && init[i] == x;
        }
      }
    }
    BoundedEntries(front, multiset(init) + multiset{e}, last.code);
    SortedSnoc(front, last);
  }

  /** Insert `e` into sorted `s` after every entry whose code is not
      larger, which keeps the sort stable. */
  function Insert(s: seq<Entry>, e: Entry): (r: seq<Entry>)
    requires SortedByCode(s)
    ensures SortedByCode(r)
    ensures multiset(r) == multiset(s) + multiset{e}
  {
    if |s| == 0 then [e]
    else if s[|s| - 1].code <= e.code then s + [e]
    else
      var init := s[..|s| - 1];
      var last := s[|s| - 1];
      var front := Insert(init, e);
      InsertBehind(s, e, front);
      front + [last]
  }

  /** The stable sort of the entries by code. */
  function SortByCode(s: seq<Entry>): (r: seq<Entry>)
    ensures SortedByCode(r)
    ensures multiset(r) == multiset(s)
  {
    if |s| == 0 then []
    else
      LastSplit(s);
      Insert(SortByCode(s[..|s| - 1]), s[|s| - 1])
  }

  /** `(name, "mimetype", formatCode(code), description)`. */
  function RenderEntry(e: Entry): (row: Row)
    ensures |row| == 4 && IsMime(row)
  {
    [e.name, MimeTag, FormatCode(e.code), e.description]
  }

  function Render(es: seq<Entry>): (rows: seq<Row>)
    ensures |rows| == |es|
    ensures forall i :: 0 <= i < |es| ==> rows[i] == RenderEntry(es[i])
  {
    seq(|es|, i requires 0 <= i < |es| => RenderEntry(es[i]))
  }

  /** The rows of the mimetype block. */
  function Block(t: Table): (rows: seq<Row>)
    requires WellShaped(t)
    ensures |rows| == BlockEnd(t) - BlockStart(t)
    ensures forall i :: 0 <= i < |rows| ==> rows[i] == t[BlockStart(t) + i] && |rows[i]| == 4
  {
    t[BlockStart(t)..BlockEnd(t)]
  }

  /** `main` up to the sort: replay the block, refuse a mimetype row after
      it and a source with the wrong id, then assign the new names. */
  function Gather(t: Table, src: Source): (r: Result<Assigned, SyncError>)
    requires WellShaped(t)
    ensures r.Ok? ==> src.id == SourceId
    ensures r.Ok? ==> forall k :: BlockEnd(t) <= k < |t| ==> !IsMime(t[k])
    ensures r.Ok? ==> CountersGrow(Sections, r.value.lastCode)
  {
    var st :- Replay(ReadRows(Block(t)), BlockStart(t));
    var stray := FirstTagged(t, BlockEnd(t), true);
    if stray < |t| then Err(MimeOutsideBlock(stray))
    else if src.id != SourceId then Err(WrongSourceId)
    else Assign(st, ReadNames(src.names))
  }

  /** `main` up to `table.save()`: the table with its mimetype block
      replaced by every entry, sorted by code. */
  function UpdateTable(t: Table, src: Source): (r: Result<Table, SyncError>)
    requires WellShaped(t)
    ensures r.Ok? <==> Gather(t, src).Ok?
    ensures r.Err? ==> r.error == Gather(t, src).error
  {
    var all :- Gather(t, src);
    Ok(t[..BlockStart(t)] + Render(SortByCode(all.entries)) + t[BlockEnd(t)..])
  }
}
