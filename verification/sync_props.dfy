/** What a successful run of the synchronizer guarantees about the table
    it writes: when it succeeds, which rows it keeps, the codes it hands
    out, and the order of the rewritten block. */
module SyncProps {
  import opened Results
  import opened Text
  import opened Hex
  import opened Codec
  import opened Registry
  import opened Sync
  import opened SyncFacts

  // ---- the block as the replay reads it ----

  /** The block rows, read. */
  function BlockRows(t: Table): (bs: seq<BlockRow>)
    requires WellShaped(t)
    ensures AllRead(bs) && |bs| == BlockEnd(t) - BlockStart(t)
    ensures forall k :: 0 <= k < |bs| ==> bs[k].name == t[BlockStart(t) + k][NameColumn]
  {
    ReadRows(Block(t))
  }

  /** The names of rows, in order. */
  function RowNames(bs: seq<BlockRow>): (names: seq<string>)
    ensures |names| == |bs| && forall k :: 0 <= k < |bs| ==> names[k] == bs[k].name
  {
    seq(|bs|, k requires 0 <= k < |bs| => bs[k].name)
  }

  /** Some row of the block is named `n`: its name cell is `n`. */
  predicate InBlock(t: Table, n: string)
    requires WellShaped(t)
  {
    n in RowNames(BlockRows(t))
  }

  /** Every mimetype row below the header lies in the block. */
  predicate OneBlock(t: Table)
  {
    forall k :: 1 <= k < |t| && IsMime(t[k]) ==> BlockStart(t) <= k < BlockEnd(t)
  }

  /** The replay records a name exactly when some row carries it. */
  lemma {:induction false} LastEntrySome(bs: seq<BlockRow>, n: string)
    ensures LastEntry(bs, n).Some? <==> n in RowNames(bs)
  {
    if |bs| > 0 {
      var init := bs[..|bs| - 1];
      LastEntrySome(init, n);
      assert RowNames(bs) == RowNames(init) + [bs[|bs| - 1].name];
    }
  }

  /** After the replay, the keys of `assigned` are the names of the rows. */
  lemma {:induction false} ReplayKeys(bs: seq<BlockRow>, base: nat, n: string)
    requires AllRead(bs) && Replay(bs, base).Ok?
    ensures n in Keys(Replay(bs, base).value.entries) <==> n in RowNames(bs)
  {
    ReplayRecords(bs, base);
    LastEntrySome(bs, n);
  }

  /** The same, for the block of a table. */
  lemma {:induction false} ReplayedKeys(t: Table, n: string)
    requires WellShaped(t) && Replay(BlockRows(t), BlockStart(t)).Ok?
    ensures n in Keys(Replay(BlockRows(t), BlockStart(t)).value.entries) <==> InBlock(t, n)
  {
    ReplayKeys(BlockRows(t), BlockStart(t), n);
  }

  /** The reading of the source names gives equal names equal readings. */
  lemma NamesReadAlike(names: seq<string>)
    ensures ReadAlike(ReadNames(names))
  {
  }

  /** No mimetype row after the block, as the stray check demands. */
  lemma StrayCheck(t: Table)
    ensures FirstTagged(t, BlockEnd(t), true) == |t| <==> OneBlock(t)
  {
    var j := FirstTagged(t, BlockEnd(t), true);
    if j < |t| {
      assert IsMime(t[j]) && j >= BlockEnd(t) >= 1;
    }
  }

  // ---- when the run succeeds ----

  /** The run gets as far as the sort exactly when the block replays, no
      mimetype row lies outside it, the source is the media-types registry
      and every source name is in the block already or has a `/` and a
      known section. */
  lemma GatherOk(t: Table, src: Source)
    requires WellShaped(t)
    ensures Gather(t, src).Ok? <==>
      AllReplay(BlockRows(t)) && OneBlock(t) && src.id == SourceId &&
      forall i :: 0 <= i < |src.names| ==> InBlock(t, src.names[i]) || Assignable(ReadName(src.names[i]))
  {
    var bs := BlockRows(t);
    ReplayIff(bs, BlockStart(t));
    StrayCheck(t);
    if Replay(bs, BlockStart(t)).Ok? {
      var st := Replay(bs, BlockStart(t)).value;
      var ns := ReadNames(src.names);
      NamesReadAlike(src.names);
      AssignIff(st, ns);
      forall i | 0 <= i < |src.names|
        ensures ns[i].name in Keys(st.entries) <==> InBlock(t, src.names[i])
      {
        ReplayedKeys(t, src.names[i]);
      }
    }
  }

  /** A successful run replayed the block and assigned the source names
      on top of it. */
  lemma GatherReplays(t: Table, src: Source)
    requires WellShaped(t) && Gather(t, src).Ok?
    ensures Replay(BlockRows(t), BlockStart(t)).Ok?
    ensures Gather(t, src) == Assign(Replay(BlockRows(t), BlockStart(t)).value, ReadNames(src.names))
  {
  }

  // ---- what the entries hold ----

  /** A name of the block keeps the code and description of its last row. */
  lemma {:induction false} GatherKeeps(t: Table, src: Source, n: string)
    requires WellShaped(t) && Gather(t, src).Ok? && InBlock(t, n)
    ensures Lookup(Gather(t, src).value.entries, n) == LastEntry(BlockRows(t), n)
  {
    GatherReplays(t, src);
    var bs := BlockRows(t);
    var st := Replay(bs, BlockStart(t)).value;
    var es := Gather(t, src).value.entries;
    AssignPrefix(st, ReadNames(src.names));
    ReplayedKeys(t, n);
    ReplayRecords(bs, BlockStart(t));
    LookupExtended(st.entries, es, n);
  }

  /** Appending entries leaves the lookup of a present name alone. */
  lemma {:induction false} LookupExtended(p: seq<Entry>, es: seq<Entry>, n: string)
    requires |p| <= |es| && es[..|p|] == p && n in Keys(p)
    ensures Lookup(es, n) == Lookup(p, n)
  {
    assert es == p + es[|p|..];
    LookupPrefix(p, es[|p|..], n);
  }

  /** Assignment keeps the keys distinct and adds exactly the source names. */
  lemma {:induction false} AssignedKeys(st: Assigned, ns: seq<SourceName>, x: string)
    requires st.lastCode.Keys == Sections.Keys && DistinctNames(st.entries)
    requires Assign(st, ns).Ok?
    ensures DistinctNames(Assign(st, ns).value.entries)
    ensures x in Keys(Assign(st, ns).value.entries) <==> x in Keys(st.entries) || x in NameList(ns)
  {
    var es := Assign(st, ns).value.entries;
    var added := NewNames(Keys(st.entries), ns);
    AssignExtends(st, ns);
    AssignNames(st, ns);
    KeysOfAppended(st.entries, es, added, x);
    if x in NameList(added) {
      var j :| 0 <= j < |added| && NameList(added)[j] == x;
      NewNamesFrom(Keys(st.entries), ns, j);
      var i :| 0 <= i < |ns| && ns[i] == added[j];
      assert NameList(ns)[i] == x;
    }
    if x in NameList(ns) {
      var i :| 0 <= i < |ns| && NameList(ns)[i] == x;
      assert ns[i].name in Keys(es);
    }
  }

  /** Reading the source names keeps them. */
  lemma NamesKept(names: seq<string>)
    ensures NameList(ReadNames(names)) == names
  {
  }

  /** The entries name each row of the block and each source name, once. */
  lemma {:induction false} GatherNames(t: Table, src: Source, x: string)
    requires WellShaped(t) && Gather(t, src).Ok?
    ensures DistinctNames(Gather(t, src).value.entries)
    ensures x in Keys(Gather(t, src).value.entries) <==> InBlock(t, x) || x in src.names
  {
    GatherReplays(t, src);
    var bs := BlockRows(t);
    ReplayRecords(bs, BlockStart(t));
    ReplayedKeys(t, x);
    NamesKept(src.names);
    AssignedKeys(Replayed(t), ReadNames(src.names), x);
  }

  // ---- the codes handed out ----

  /** What replaying the block leaves. */
  function Replayed(t: Table): Assigned
    requires WellShaped(t) && Replay(BlockRows(t), BlockStart(t)).Ok?
  {
    Replay(BlockRows(t), BlockStart(t)).value
  }

  /** The source names the block lacks, in order of first appearance. */
  function Added(t: Table, src: Source): seq<SourceName>
    requires WellShaped(t) && Replay(BlockRows(t), BlockStart(t)).Ok?
  {
    NewNames(Keys(Replayed(t).entries), ReadNames(src.names))
  }

  /** The entry made for the `j`-th new name, at `es[n + j]`: the name has
      a `/` and a known section `s`, and its code is the section's base,
      plus the block rows of `s`, plus the new names of `s` up to and
      including it. */
  predicate NewEntry(bs: seq<BlockRow>, added: seq<SourceName>, es: seq<Entry>, n: nat, j: nat)
    requires j < |added| && n + j < |es|
  {
    var s := SourceSection(added[j]);
    Assignable(added[j]) &&
    es[n + j] == Entry(added[j].name, Sections[s] + Count(bs, s) + CountSection(added[..j + 1], s), "")
  }

  /** Codes counted from the replay counters are codes counted from the
      block. */
  lemma CodesFromCounters(st: Assigned, bs: seq<BlockRow>, es: seq<Entry>, added: seq<SourceName>)
    requires CountersMatch(st, bs) && AllCoded(st, es, added)
    requires forall j :: 0 <= j < |added| ==> Assignable(added[j])
    ensures forall j :: 0 <= j < |added| ==> NewEntry(bs, added, es, |st.entries|, j)
  {
    forall j | 0 <= j < |added|
      ensures NewEntry(bs, added, es, |st.entries|, j)
    {
      assert CodedAt(st, es, added, j);
    }
  }

  /** The entries are the replayed ones followed by one entry per new
      name, numbered on from the counters the replay left. */
  lemma GatherCodes(t: Table, src: Source)
    requires WellShaped(t) && Gather(t, src).Ok?
    ensures Replay(BlockRows(t), BlockStart(t)).Ok?
    ensures var es := Gather(t, src).value.entries;
      var old_ := Replayed(t).entries;
      var added := Added(t, src);
      |es| == |old_| + |added| && es[..|old_|] == old_ &&
      forall j :: 0 <= j < |added| ==> NewEntry(BlockRows(t), added, es, |old_|, j)
  {
    GatherReplays(t, src);
    var bs := BlockRows(t);
    var st := Replayed(t);
    var ns := ReadNames(src.names);
    ReplayCounters(bs, BlockStart(t));
    AssignPrefix(st, ns);
    AssignNames(st, ns);
    AssignCodes(st, ns);
    CodesFromCounters(st, bs, Gather(t, src).value.entries, Added(t, src));
  }

  lemma {:induction false} CountMono(bs: seq<BlockRow>, m: nat, n: nat, s: string)
    requires m <= n <= |bs|
    ensures Count(bs[..m], s) <= Count(bs[..n], s)
  {
    if m < n {
      CountMono(bs, m, n - 1, s);
      assert bs[..n][..n - 1] == bs[..n - 1];
    }
  }

  lemma {:induction false} SectionCountLast(ns: seq<SourceName>, j: nat, s: string)
    requires j < |ns|
    ensures CountSection(ns[..j + 1], s) == CountSection(ns[..j], s) + (if SourceSection(ns[j]) == s then 1 else 0)
  {
    assert ns[..j + 1][..j] == ns[..j];
  }

  lemma {:induction false} SectionCountMono(ns: seq<SourceName>, m: nat, n: nat, s: string)
    requires m <= n <= |ns|
    ensures CountSection(ns[..m], s) <= CountSection(ns[..n], s)
  {
    if m < n {
      SectionCountMono(ns, m, n - 1, s);
      SectionCountLast(ns, n - 1, s);
    }
  }

  /** A code counted on from the block exceeds that of every block row of
      its section with a `/`, so no new name takes a code the block uses
      that way; `GatherCodes` shows the entries of a run are so counted. */
  lemma {:induction false} CodeAbove(bs: seq<BlockRow>, added: seq<SourceName>, es: seq<Entry>, n: nat, j: nat, k: nat)
    requires AllRead(bs) && AllReplay(bs)
    requires j < |added| && n + j < |es| && NewEntry(bs, added, es, n, j)
    requires k < |bs| && Advances(bs[k], SourceSection(added[j]))
    ensures bs[k].code.Some? && bs[k].code.value < es[n + j].code
  {
    var s := SourceSection(added[j]);
    assert RowReplays(bs, k);
    CountMono(bs, k + 1, |bs|, s);
    assert bs[..|bs|] == bs;
    SectionCountLast(added, j, s);
  }

  /** New names of one section get increasing codes, so distinct ones. */
  lemma {:induction false} NewCodesIncrease(t: Table, src: Source, i: nat, j: nat)
    requires WellShaped(t) && Gather(t, src).Ok? && Replay(BlockRows(t), BlockStart(t)).Ok?
    requires i < j < |Added(t, src)|
    requires SourceSection(Added(t, src)[i]) == SourceSection(Added(t, src)[j])
    ensures var es := Gather(t, src).value.entries; var n := |Replayed(t).entries|;
      n + j < |es| && es[n + i].code < es[n + j].code
  {
    var bs := BlockRows(t);
    var added := Added(t, src);
    var es := Gather(t, src).value.entries;
    var n := |Replayed(t).entries|;
    var s := SourceSection(added[j]);
    GatherCodes(t, src);
    assert NewEntry(bs, added, es, n, i);
    assert NewEntry(bs, added, es, n, j);
    SectionCountMono(added, i + 1, j, s);
    SectionCountLast(added, j, s);
  }

  /** When every source name is in the block already, the run adds
      nothing: the entries are the replayed ones. */
  lemma {:induction false} GatherNothingNew(t: Table, src: Source)
    requires WellShaped(t) && Gather(t, src).Ok?
    requires forall i :: 0 <= i < |src.names| ==> InBlock(t, src.names[i])
    ensures Replay(BlockRows(t), BlockStart(t)).Ok?
    ensures Gather(t, src).value == Replayed(t)
  {
    GatherReplays(t, src);
    var st := Replayed(t);
    var ns := ReadNames(src.names);
    forall i | 0 <= i < |ns|
      ensures ns[i].name in Keys(st.entries)
    {
      ReplayedKeys(t, src.names[i]);
    }
    AssignNothingNew(st, ns);
  }

  // ---- the table written back ----

  /** Rows of four cells whose code cells parse, in ascending order. */
  predicate CodesAscend(rows: seq<Row>)
  {
    (forall i :: 0 <= i < |rows| ==> |rows[i]| == 4 && ParseBase16(rows[i][CodeColumn]).Some?) &&
    forall i, j :: 0 <= i < j < |rows| ==>
      ParseBase16(rows[i][CodeColumn]).value <= ParseBase16(rows[j][CodeColumn]).value
  }

  /** Each rendered row gives back the code of its entry. */
  lemma RenderedCode(es: seq<Entry>, i: nat)
    requires i < |es|
    ensures ParseBase16(Render(es)[i][CodeColumn]) == Some(es[i].code)
  {
    FormatCodeRoundTrip(es[i].code);
  }

  /** Rendering entries sorted by code gives rows in ascending code order. */
  lemma RenderAscends(es: seq<Entry>)
    requires SortedByCode(es)
    ensures CodesAscend(Render(es))
  {
    forall i | 0 <= i < |es|
      ensures ParseBase16(Render(es)[i][CodeColumn]) == Some(es[i].code)
    {
      RenderedCode(es, i);
    }
  }

  /** Different codes are formatted differently. */
  lemma SameFormat(x: nat, y: nat)
    requires FormatCode(x) == FormatCode(y)
    ensures x == y
  {
    FormatCodeRoundTrip(x);
    FormatCodeRoundTrip(y);
  }

  /** Rendering loses nothing: different entries give different rows. */
  lemma RenderInjective(a: Entry, b: Entry)
    requires RenderEntry(a) == RenderEntry(b)
    ensures a == b
  {
    var ra, rb := RenderEntry(a), RenderEntry(b);
    assert ra[NameColumn] == a.name && rb[NameColumn] == b.name;
    assert ra[DescriptionColumn] == a.description && rb[DescriptionColumn] == b.description;
    assert ra[CodeColumn] == FormatCode(a.code) && rb[CodeColumn] == FormatCode(b.code);
    SameFormat(a.code, b.code);
  }

  /** The parts of a spliced sequence. */
  lemma Spliced<T>(pre: seq<T>, mid: seq<T>, post: seq<T>)
    ensures var r := pre + mid + post;
      |r| == |pre| + |mid| + |post| &&
      r[..|pre|] == pre && r[|pre|..|pre| + |mid|] == mid && r[|pre| + |mid|..] == post
  {
    var r := pre + mid + post;
    assert r[..|pre|] == pre;
    assert r[|pre|..|pre| + |mid|] == mid;
    assert r[|pre| + |mid|..] == post;
  }

  /** `r` is `t` with its block replaced by `rows`. */
  predicate Rewritten(t: Table, rows: seq<Row>, r: Table)
  {
    r == t[..BlockStart(t)] + rows + t[BlockEnd(t)..]
  }

  /** The shape of a successful run: the block replaced in place by the
      rows of the entries, sorted by code. */
  lemma SyncShape(t: Table, src: Source)
    requires WellShaped(t) && UpdateTable(t, src).Ok?
    ensures Gather(t, src).Ok?
    ensures Rewritten(t, Render(SortByCode(Gather(t, src).value.entries)), UpdateTable(t, src).value)
  {
  }

  /** The parts of a rewritten table. */
  lemma RewrittenParts(t: Table, rows: seq<Row>, r: Table)
    requires Rewritten(t, rows, r)
    ensures var s := BlockStart(t);
      |r| == |t| - (BlockEnd(t) - s) + |rows| &&
      r[..s] == t[..s] && r[s..s + |rows|] == rows && r[s + |rows|..] == t[BlockEnd(t)..] &&
      forall i :: s <= i < s + |rows| ==> r[i] == rows[i - s]
  {
    var s := BlockStart(t);
    Spliced(t[..s], rows, t[BlockEnd(t)..]);
    forall i | s <= i < s + |rows|
      ensures r[i] == rows[i - s]
    {
      assert r[i] == r[s..s + |rows|][i - s];
    }
  }

  /** Sorting keeps the number of entries. */
  lemma SortedLength(es: seq<Entry>)
    ensures |SortByCode(es)| == |es|
  {
    assert |multiset(SortByCode(es))| == |multiset(es)|;
  }

  /** The new block, in the written table. */
  lemma {:induction false} NewBlock(t: Table, src: Source)
    requires WellShaped(t) && UpdateTable(t, src).Ok?
    ensures Gather(t, src).Ok?
    ensures var n := |Gather(t, src).value.entries|;
      BlockStart(t) + n <= |UpdateTable(t, src).value| &&
      UpdateTable(t, src).value[BlockStart(t)..BlockStart(t) + n] == Render(SortByCode(Gather(t, src).value.entries))
  {
    SyncShape(t, src);
    SortedLength(Gather(t, src).value.entries);
    RewrittenParts(t, Render(SortByCode(Gather(t, src).value.entries)), UpdateTable(t, src).value);
  }

  /** The rows before and after the block are written back unchanged, and
      the new block has one mimetype row per entry. */
  lemma {:induction false} SyncSplices(t: Table, src: Source)
    requires WellShaped(t) && UpdateTable(t, src).Ok?
    ensures Gather(t, src).Ok?
    ensures var r := UpdateTable(t, src).value;
      var n := |Gather(t, src).value.entries|;
      var s := BlockStart(t);
      |r| == |t| - (BlockEnd(t) - s) + n &&
      r[..s] == t[..s] && r[s + n..] == t[BlockEnd(t)..] &&
      forall i :: s <= i < s + n ==> IsMime(r[i])
  {
    SyncShape(t, src);
    SortedLength(Gather(t, src).value.entries);
    var rows := Render(SortByCode(Gather(t, src).value.entries));
    RenderedMime(SortByCode(Gather(t, src).value.entries));
    MimeRewritten(t, rows, UpdateTable(t, src).value);
    RewrittenParts(t, rows, UpdateTable(t, src).value);
  }

  /** Every rendered row is a mimetype row. */
  lemma RenderedMime(es: seq<Entry>)
    ensures forall k :: 0 <= k < |Render(es)| ==> IsMime(Render(es)[k])
  {
  }

  /** A block of mimetype rows spliced in leaves mimetype rows there. */
  lemma MimeRewritten(t: Table, rows: seq<Row>, r: Table)
    requires Rewritten(t, rows, r)
    requires forall k :: 0 <= k < |rows| ==> IsMime(rows[k])
    ensures forall i :: BlockStart(t) <= i < BlockStart(t) + |rows| ==> IsMime(r[i])
  {
    RewrittenParts(t, rows, r);
  }

  /** The written block is in ascending code order, each code cell
      parsing back. */
  lemma {:induction false} SyncAscending(t: Table, src: Source)
    requires WellShaped(t) && UpdateTable(t, src).Ok?
    ensures Gather(t, src).Ok?
    ensures var n := |Gather(t, src).value.entries|;
      BlockStart(t) + n <= |UpdateTable(t, src).value| &&
      CodesAscend(UpdateTable(t, src).value[BlockStart(t)..BlockStart(t) + n])
  {
    NewBlock(t, src);
    RenderAscends(SortByCode(Gather(t, src).value.entries));
  }

  /** A rendered permutation holds exactly the rows of the entries. */
  lemma {:induction false} RenderedRows(es: seq<Entry>, sorted: seq<Entry>, e: Entry)
    requires multiset(sorted) == multiset(es)
    ensures e in es <==> RenderEntry(e) in Render(sorted)
  {
    assert e in es <==> e in multiset(sorted);
    if e in sorted {
      RenderedFrom(sorted, e);
    }
    if RenderEntry(e) in Render(sorted) {
      RenderedBack(sorted, e);
    }
  }

  /** An entry's row appears among the rendered rows. */
  lemma RenderedFrom(es: seq<Entry>, e: Entry)
    requires e in es
    ensures RenderEntry(e) in Render(es)
  {
    var i :| 0 <= i < |es| && es[i] == e;
    assert Render(es)[i] == RenderEntry(e);
  }

  /** A rendered row comes from an entry that renders to it. */
  lemma RenderedBack(es: seq<Entry>, e: Entry)
    requires RenderEntry(e) in Render(es)
    ensures e in es
  {
    var i :| 0 <= i < |es| && Render(es)[i] == RenderEntry(e);
    RenderInjective(es[i], e);
  }

  /** The written block holds exactly the rows of the entries. */
  lemma {:induction false} SyncRows(t: Table, src: Source, e: Entry)
    requires WellShaped(t) && UpdateTable(t, src).Ok?
    ensures Gather(t, src).Ok?
    ensures var n := |Gather(t, src).value.entries|;
      BlockStart(t) + n <= |UpdateTable(t, src).value| &&
      (e in Gather(t, src).value.entries <==>
       RenderEntry(e) in UpdateTable(t, src).value[BlockStart(t)..BlockStart(t) + n])
  {
    NewBlock(t, src);
    RenderedRows(Gather(t, src).value.entries, SortByCode(Gather(t, src).value.entries), e);
  }

  /** The name cell of each row, `""` for a row without cells. */
  function NameCells(rows: seq<Row>): (names: seq<string>)
    ensures |names| == |rows|
    ensures forall k :: 0 <= k < |rows| && |rows[k]| > NameColumn ==> names[k] == rows[k][NameColumn]
  {
    seq(|rows|, k requires 0 <= k < |rows| => if |rows[k]| > NameColumn then rows[k][NameColumn] else "")
  }

  /** The name cells of rendered entries are their keys. */
  lemma RenderedKeys(es: seq<Entry>)
    ensures NameCells(Render(es)) == Keys(es)
  {
    var names := NameCells(Render(es));
    forall i | 0 <= i < |es|
      ensures names[i] == Keys(es)[i]
    {
      assert Render(es)[i] == RenderEntry(es[i]);
    }
  }

  /** Permuted entries have the same keys. */
  lemma {:induction false} PermutedKeys(es: seq<Entry>, sorted: seq<Entry>, x: string)
    requires multiset(sorted) == multiset(es)
    ensures x in Keys(sorted) <==> x in Keys(es)
  {
    if x in Keys(sorted) {
      var i :| 0 <= i < |sorted| && Keys(sorted)[i] == x;
      assert sorted[i] in multiset(es);
      var k :| 0 <= k < |es| && es[k] == sorted[i];
      assert Keys(es)[k] == x;
    }
    if x in Keys(es) {
      var k :| 0 <= k < |es| && Keys(es)[k] == x;
      assert es[k] in multiset(sorted);
      var i :| 0 <= i < |sorted| && sorted[i] == es[k];
      assert Keys(sorted)[i] == x;
    }
  }

  /** The written block names each row of the old block and each source
      name. */
  lemma {:induction false} SyncNames(t: Table, src: Source, x: string)
    requires WellShaped(t) && UpdateTable(t, src).Ok?
    ensures Gather(t, src).Ok?
    ensures var r := UpdateTable(t, src).value;
      var s := BlockStart(t);
      var n := |Gather(t, src).value.entries|;
      s + n <= |r| &&
      (x in NameCells(r[s..s + n]) <==> InBlock(t, x) || x in src.names)
  {
    NewBlock(t, src);
    var es := Gather(t, src).value.entries;
    RenderedKeys(SortByCode(es));
    PermutedKeys(es, SortByCode(es), x);
    GatherNames(t, src, x);
  }
}
