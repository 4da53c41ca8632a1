/** Properties of the synchronizer: the `assigned` dictionary, the block
    bounds, the replay counters, code assignment, the stable sort and the
    splice. */
module SyncFacts {
  import opened Results
  import opened Text
  import opened Hex
  import opened Codec
  import opened Registry
  import opened Sync

  // ---- the `assigned` dictionary ----

  lemma KeysCons(e: Entry, es: seq<Entry>)
    ensures Keys([e] + es) == [e.name] + Keys(es)
  {
  }

  /** Assigning a key keeps the keys in insertion order: an existing key
      keeps its place, a new one is appended; keys stay distinct. */
  lemma {:induction false} PutKeys(es: seq<Entry>, e: Entry)
    requires DistinctNames(es)
    ensures Keys(Put(es, e)) == if e.name in Keys(es) then Keys(es) else Keys(es) + [e.name]
    ensures DistinctNames(Put(es, e))
  {
    if |es| > 0 {
      if es[0].name == e.name {
        PutFront(es, e);
      } else {
        PutKeys(es[1..], e);
        PutBehind(es, e, Put(es[1..], e));
      }
    }
  }

  /** Overwriting the first entry under its own key. */
  lemma PutFront(es: seq<Entry>, e: Entry)
    requires DistinctNames(es) && |es| > 0 && es[0].name == e.name
    ensures e.name in Keys(es)
    ensures Keys([e] + es[1..]) == Keys(es)
    ensures DistinctNames([e] + es[1..])
  {
    assert Keys(es)[0] == e.name;
  }

  /** Putting behind a first entry with another key. */
  lemma PutBehind(es: seq<Entry>, e: Entry, tail: seq<Entry>)
    requires DistinctNames(es) && |es| > 0 && es[0].name != e.name
    requires Keys(tail) == if e.name in Keys(es[1..]) then Keys(es[1..]) else Keys(es[1..]) + [e.name]
    requires DistinctNames(tail)
    ensures Keys([es[0]] + tail) == if e.name in Keys(es) then Keys(es) else Keys(es) + [e.name]
    ensures DistinctNames([es[0]] + tail)
  {
    var r := [es[0]] + tail;
    KeysCons(es[0], es[1..]);
    KeysCons(es[0], tail);
    assert es == [es[0]] + es[1..];
    assert e.name in Keys(es) <==> e.name in Keys(es[1..]);
    forall j | 0 < j < |r|
      ensures r[j].name != es[0].name
    {
      assert r[j].name == Keys(tail)[j - 1];
    }
  }

  /** After `assigned[e.name] = e`, looking up `e.name` gives `e` and every
      other key gives what it gave before. */
  lemma {:induction false} PutLookup(es: seq<Entry>, e: Entry, n: string)
    requires DistinctNames(es)
    ensures Lookup(Put(es, e), n) == if n == e.name then Some(e) else Lookup(es, n)
  {
    if |es| > 0 && es[0].name != e.name {
      PutLookup(es[1..], e, n);
      assert Put(es, e) == [es[0]] + Put(es[1..], e);
      assert Put(es, e)[1..] == Put(es[1..], e);
    }
  }

  /** A lookup of a key of the first part of a sequence ignores the rest. */
  lemma {:induction false} LookupPrefix(p: seq<Entry>, q: seq<Entry>, n: string)
    requires n in Keys(p)
    ensures Lookup(p + q, n) == Lookup(p, n)
  {
    var pq := p + q;
    assert pq[0] == p[0];
    if p[0].name != n {
      assert n in Keys(p[1..]) by {
        var i :| 0 <= i < |p| && Keys(p)[i] == n;
        assert p[1..][i - 1].name == n;
      }
      assert pq[1..] == p[1..] + q;
      LookupPrefix(p[1..], q, n);
    }
  }

  // ---- replaying the block ----

  predicate AllRead(bs: seq<BlockRow>)
  {
    forall i :: 0 <= i < |bs| ==> ValidRead(bs[i])
  }

  /** A row whose name has two `/`-parts, the first being `s`: a row that
      advances the counter of section `s`. */
  predicate Advances(b: BlockRow, s: string)
  {
    |b.parts| == 2 && b.parts[0] == s
  }

  /** How many of `bs` advance the counter of section `s`. */
  function Count(bs: seq<BlockRow>, s: string): nat
  {
    if |bs| == 0 then 0
    else Count(bs[..|bs| - 1], s) + (if Advances(bs[|bs| - 1], s) then 1 else 0)
  }

  /** What the replay demands of block row `i`: a hexadecimal code, a
      known section, at most two parts, and for a two-part name the code
      `base + k` of the `k`-th such name of its section, with the section's
      high byte. */
  predicate RowReplays(bs: seq<BlockRow>, i: nat)
    requires AllRead(bs) && i < |bs|
  {
    var b := bs[i];
    b.code.Some? && b.parts[0] in Sections && |b.parts| <= 2 &&
    (|b.parts| == 2 ==>
      SectionBits(b.code.value) == Sections[b.parts[0]] &&
      b.code.value == Sections[b.parts[0]] + Count(bs[..i + 1], b.parts[0]))
  }

  /** One replay step, and which error stops it. */
  lemma ReplayRowSpec(st: Assigned, b: BlockRow, line: nat)
    requires ValidRead(b) && st.lastCode.Keys == Sections.Keys
    ensures var r := ReplayRow(st, b, line);
      var section := b.parts[0];
      && (b.code.None? ==> r == Err(BadCode(line)))
      && (b.code.Some? && section !in Sections ==> r == Err(UnknownSection(line)))
      && (b.code.Some? && section in Sections && |b.parts| > 2 ==> r == Err(InvalidMimeType(line)))
      && (b.code.Some? && section in Sections && |b.parts| == 2 && SectionBits(b.code.value) != Sections[section] ==>
            r == Err(WrongSection(line)))
      && (b.code.Some? && section in Sections && |b.parts| == 2 && SectionBits(b.code.value) == Sections[section] &&
          b.code.value != st.lastCode[section] + 1 ==>
            r == Err(UnexpectedCode(line, st.lastCode[section] + 1, b.code.value)))
      && (r.Ok? <==>
            b.code.Some? && section in Sections && |b.parts| <= 2 &&
            (|b.parts| == 2 ==> SectionBits(b.code.value) == Sections[section] && b.code.value == st.lastCode[section] + 1))
      && (r.Ok? ==>
            r.value.entries == Put(st.entries, Entry(b.name, b.code.value, b.description)) &&
            r.value.lastCode == if |b.parts| == 2 then st.lastCode[section := b.code.value] else st.lastCode)
  {
  }

  lemma RowReplaysPrefix(bs: seq<BlockRow>, n: nat, i: nat)
    requires AllRead(bs) && i < n <= |bs|
    ensures AllRead(bs[..n])
    ensures RowReplays(bs[..n], i) == RowReplays(bs, i)
  {
    assert bs[..n][..i + 1] == bs[..i + 1];
    assert bs[..n][i] == bs[i];
  }

  /** Counters that match the rows replayed so far. */
  predicate CountersMatch(st: Assigned, bs: seq<BlockRow>)
  {
    forall s :: s in Sections ==> s in st.lastCode && st.lastCode[s] == Sections[s] + Count(bs, s)
  }

  /** The last replay step: with counters matching the earlier rows, it
      succeeds exactly when the last row meets its demands, and the
      counters then match all rows. */
  lemma ReplayLast(bs: seq<BlockRow>, st: Assigned, line: nat)
    requires AllRead(bs) && |bs| > 0
    requires st.lastCode.Keys == Sections.Keys && CountersMatch(st, bs[..|bs| - 1])
    ensures ReplayRow(st, bs[|bs| - 1], line).Ok? <==> RowReplays(bs, |bs| - 1)
    ensures ReplayRow(st, bs[|bs| - 1], line).Ok? ==> CountersMatch(ReplayRow(st, bs[|bs| - 1], line).value, bs)
  {
    var n := |bs|;
    var init := bs[..n - 1];
    var last := bs[n - 1];
    assert bs[..n] == bs;
    var r := ReplayRow(st, last, line);
    ReplayRowSpec(st, last, line);
    var section := last.parts[0];
    if |last.parts| == 2 && section in Sections {
      assert Count(bs, section) == Count(init, section) + 1;
    }
    if r.Ok? {
      forall s | s in Sections
        ensures r.value.lastCode[s] == Sections[s] + Count(bs, s)
      {
        assert Count(bs, s) == Count(init, s) + (if Advances(last, s) then 1 else 0);
      }
    }
  }

  /** After a successful replay `lastCode[s]` is the section base plus
      the number of two-part names of section `s` in the block. */
  lemma {:induction false} ReplayCounters(bs: seq<BlockRow>, base: nat)
    requires AllRead(bs)
    ensures Replay(bs, base).Ok? ==> CountersMatch(Replay(bs, base).value, bs)
  {
    if |bs| > 0 {
      var init := bs[..|bs| - 1];
      ReplayCounters(init, base);
      match Replay(init, base)
      case Err(_) =>
      case Ok(st) =>
        ReplayLast(bs, st, base + |bs| - 1);
    }
  }

  /** Every block row meets its demands. */
  predicate AllReplay(bs: seq<BlockRow>)
    requires AllRead(bs)
  {
    forall i :: 0 <= i < |bs| ==> RowReplays(bs, i)
  }

  lemma AllReplayPrefix(bs: seq<BlockRow>)
    requires AllRead(bs) && |bs| > 0
    ensures AllRead(bs[..|bs| - 1])
    ensures AllReplay(bs) <==> AllReplay(bs[..|bs| - 1]) && RowReplays(bs, |bs| - 1)
  {
    var n := |bs|;
    var init := bs[..n - 1];
    assert AllRead(init);
    forall i | 0 <= i < n - 1
      ensures RowReplays(init, i) == RowReplays(bs, i)
    {
      RowReplaysPrefix(bs, n - 1, i);
    }
    if AllReplay(init) && RowReplays(bs, n - 1) {
      forall i | 0 <= i < n
        ensures RowReplays(bs, i)
      {
        if i < n - 1 {
          assert RowReplays(init, i);
        }
      }
    }
  }

  /** The replay succeeds exactly when every block row meets its
      demands. */
  lemma {:induction false} ReplayIff(bs: seq<BlockRow>, base: nat)
    requires AllRead(bs)
    ensures Replay(bs, base).Ok? <==> AllReplay(bs)
  {
    if |bs| > 0 {
      var n := |bs|;
      var init := bs[..n - 1];
      ReplayIff(init, base);
      AllReplayPrefix(bs);
      var p := Replay(init, base);
      if p.Ok? {
        ReplayCounters(init, base);
        ReplayLast(bs, p.value, base + n - 1);
      }
    }
  }

  /** The value `int(code, 16)` gave, 0 when it failed. */
  function CodeValue(b: BlockRow): nat
  {
    match b.code
    case Some(c) => c
    case None => 0
  }

  /** What the last block row named `n` stores in `assigned`: the value
      a dictionary keeps is the last one written. */
  function LastEntry(bs: seq<BlockRow>, n: string): Option<Entry>
  {
    if |bs| == 0 then None
    else
      var b := bs[|bs| - 1];
      if b.name == n then Some(Entry(b.name, CodeValue(b), b.description))
      else LastEntry(bs[..|bs| - 1], n)
  }

  /** Every block row is recorded in `assigned` with its parsed code and
      its description, a later row of the same name replacing an earlier
      one, and nothing else is recorded. */
  lemma {:induction false} ReplayRecords(bs: seq<BlockRow>, base: nat)
    requires AllRead(bs) && Replay(bs, base).Ok?
    ensures DistinctNames(Replay(bs, base).value.entries)
    ensures forall n :: Lookup(Replay(bs, base).value.entries, n) == LastEntry(bs, n)
  {
    if |bs| > 0 {
      var init := bs[..|bs| - 1];
      var last := bs[|bs| - 1];
      var p := Replay(init, base);
      assert p.Ok?;
      ReplayRecords(init, base);
      var st := p.value;
      ReplayRowSpec(st, last, base + |bs| - 1);
      var e := Entry(last.name, CodeValue(last), last.description);
      assert Replay(bs, base).value.entries == Put(st.entries, e);
      PutKeys(st.entries, e);
      forall n
        ensures Lookup(Put(st.entries, e), n) == LastEntry(bs, n)
      {
        PutLookup(st.entries, e, n);
      }
    }
  }

  // ---- assigning codes to new names ----

  /** The section of a source name: what precedes its first `/`. */
  function SourceSection(n: SourceName): string
  {
    match n.split
    case Some((section, _)) => section
    case None => n.name
  }

  /** A new source name that can be given a code: it has a `/` and a
      known section. */
  predicate Assignable(n: SourceName)
  {
    n.split.Some? && SourceSection(n) in Sections
  }

  /** One source name, and which error stops it. */
  lemma AssignNameSpec(st: Assigned, n: SourceName)
    requires st.lastCode.Keys == Sections.Keys
    ensures var r := AssignName(st, n);
      var s := SourceSection(n);
      && (n.name in Keys(st.entries) ==> r == Ok(st))
      && (n.name !in Keys(st.entries) && n.split.None? ==> r == Err(MissingSubtype(n.name)))
      && (n.name !in Keys(st.entries) && n.split.Some? && s !in Sections ==> r == Err(UnknownSourceSection(n.name)))
      && (r.Ok? <==> n.name in Keys(st.entries) || Assignable(n))
      && (n.name !in Keys(st.entries) && Assignable(n) ==>
            r == Ok(Assigned(st.entries + [Entry(n.name, st.lastCode[s] + 1, "")], st.lastCode[s := st.lastCode[s] + 1])))
  {
  }

  lemma KeysAppend(p: seq<Entry>, q: seq<Entry>)
    ensures Keys(p + q) == Keys(p) + Keys(q)
  {
  }

  lemma DistinctSnoc(es: seq<Entry>, e: Entry)
    requires DistinctNames(es) && e.name !in Keys(es)
    ensures DistinctNames(es + [e])
  {
    forall i | 0 <= i < |es|
      ensures es[i].name != e.name
    {
      assert Keys(es)[i] == es[i].name;
    }
  }

  /** A key of `p` stays a key of `p + q`. */
  lemma KeysGrow(p: seq<Entry>, q: seq<Entry>, x: string)
    requires x in Keys(p)
    ensures x in Keys(p + q)
  {
    var i :| 0 <= i < |p| && Keys(p)[i] == x;
    assert Keys(p + q)[i] == x;
  }

  /** One assignment step either keeps the entries or appends one entry
      for a name that was not a key. */
  lemma AssignStep(st: Assigned, ns: seq<SourceName>)
    requires st.lastCode.Keys == Sections.Keys && |ns| > 0
    requires Assign(st, ns).Ok?
    ensures Assign(st, ns[..|ns| - 1]).Ok?
    ensures var mid := Assign(st, ns[..|ns| - 1]).value;
      var m := ns[|ns| - 1];
      var r := Assign(st, ns).value;
      && (m.name in Keys(mid.entries) ==> r == mid)
      && (m.name !in Keys(mid.entries) ==>
            Assignable(m) &&
            r == Assigned(mid.entries + [Entry(m.name, mid.lastCode[SourceSection(m)] + 1, "")],
                          mid.lastCode[SourceSection(m) := mid.lastCode[SourceSection(m)] + 1]))
  {
    var mid := Assign(st, ns[..|ns| - 1]).value;
    AssignNameSpec(mid, ns[|ns| - 1]);
    assert Assign(st, ns) == AssignName(mid, ns[|ns| - 1]);
  }

  /** Assignment only appends: the replayed entries stay in front and
      unchanged. */
  lemma {:induction false} AssignPrefix(st: Assigned, ns: seq<SourceName>)
    requires st.lastCode.Keys == Sections.Keys
    requires Assign(st, ns).Ok?
    ensures var r := Assign(st, ns).value.entries;
      |st.entries| <= |r| && r[..|st.entries|] == st.entries
  {
    if |ns| > 0 {
      AssignStep(st, ns);
      AssignPrefix(st, ns[..|ns| - 1]);
    }
  }

  /** Keys stay distinct, and every source name ends up a key. */
  lemma {:induction false} AssignExtends(st: Assigned, ns: seq<SourceName>)
    requires st.lastCode.Keys == Sections.Keys && DistinctNames(st.entries)
    requires Assign(st, ns).Ok?
    ensures DistinctNames(Assign(st, ns).value.entries)
    ensures forall i :: 0 <= i < |ns| ==> ns[i].name in Keys(Assign(st, ns).value.entries)
  {
    if |ns| > 0 {
      var init := ns[..|ns| - 1];
      var m := ns[|ns| - 1];
      AssignStep(st, ns);
      var mid := Assign(st, init).value;
      AssignExtends(st, init);
      var r := Assign(st, ns).value;
      if m.name !in Keys(mid.entries) {
        var e := Entry(m.name, mid.lastCode[SourceSection(m)] + 1, "");
        DistinctSnoc(mid.entries, e);
        forall i | 0 <= i < |ns|
          ensures ns[i].name in Keys(r.entries)
        {
          if i < |ns| - 1 {
            assert ns[i] == init[i];
            KeysGrow(mid.entries, [e], ns[i].name);
          } else {
            assert Keys(r.entries)[|mid.entries|] == m.name;
          }
        }
      } else {
        forall i | 0 <= i < |ns|
          ensures ns[i].name in Keys(r.entries)
        {
          if i < |ns| - 1 {
            assert ns[i] == init[i];
          }
        }
      }
    }
  }

  /** The assignment loop over `ns` is the loop over all but the last
      name followed by one step. */
  lemma AssignUnfold(st: Assigned, ns: seq<SourceName>)
    requires st.lastCode.Keys == Sections.Keys && |ns| > 0
    ensures Assign(st, ns[..|ns| - 1]).Err? ==> Assign(st, ns).Err?
    ensures Assign(st, ns[..|ns| - 1]).Ok? ==>
      Assign(st, ns) == AssignName(Assign(st, ns[..|ns| - 1]).value, ns[|ns| - 1])
  {
  }

  /** Equal names were read alike, as `ReadNames` guarantees. */
  predicate ReadAlike(ns: seq<SourceName>)
  {
    forall i, j :: 0 <= i < |ns| && 0 <= j < |ns| && ns[i].name == ns[j].name ==> ns[i] == ns[j]
  }

  /** Assignment succeeds exactly when every source name is assigned
      already or has a `/` and a known section. */
  lemma {:induction false} AssignIff(st: Assigned, ns: seq<SourceName>)
    requires st.lastCode.Keys == Sections.Keys && ReadAlike(ns)
    ensures Assign(st, ns).Ok? <==>
      forall i :: 0 <= i < |ns| ==> ns[i].name in Keys(st.entries) || Assignable(ns[i])
  {
    if |ns| > 0 {
      var n := |ns|;
      var init := ns[..n - 1];
      var m := ns[n - 1];
      assert ReadAlike(init);
      AssignIff(st, init);
      AssignUnfold(st, ns);
      assert forall i :: 0 <= i < n - 1 ==> ns[i] == init[i];
      var p := Assign(st, init);
      if p.Err? {
        var i :| 0 <= i < n - 1 && !(init[i].name in Keys(st.entries) || Assignable(init[i]));
        assert !(ns[i].name in Keys(st.entries) || Assignable(ns[i]));
      } else {
        AssignLast(st, init, m);
      }
    }
  }

  /** The last name of a list whose front was assigned: its own step
      succeeds exactly when it was a key before the list or is assignable. */
  lemma AssignLast(st: Assigned, init: seq<SourceName>, m: SourceName)
    requires st.lastCode.Keys == Sections.Keys && Assign(st, init).Ok?
    requires forall i :: 0 <= i < |init| && init[i].name == m.name ==> init[i] == m
    ensures AssignName(Assign(st, init).value, m).Ok? <==>
      m.name in Keys(st.entries) || Assignable(m)
  {
    var mid := Assign(st, init).value;
    AssignNameSpec(mid, m);
    AssignPrefix(st, init);
    if m.name in Keys(st.entries) {
      KeysGrow(st.entries, mid.entries[|st.entries|..], m.name);
      assert st.entries + mid.entries[|st.entries|..] == mid.entries;
    } else if m.name in Keys(mid.entries) {
      NewNameAssignable(st, init, m.name);
      var i :| 0 <= i < |init| && init[i].name == m.name && Assignable(init[i]);
    }
  }

  /** The names a source list adds to the keys `known`, in order of first
      appearance. */
  function NewNames(known: seq<string>, ns: seq<SourceName>): (r: seq<SourceName>)
  {
    if |ns| == 0 then []
    else
      var earlier := NewNames(known, ns[..|ns| - 1]);
      var n := ns[|ns| - 1];
      if n.name in known || n.name in NameList(earlier) then earlier else earlier + [n]
  }

  function NameList(ns: seq<SourceName>): (k: seq<string>)
    ensures |k| == |ns| && forall i :: 0 <= i < |ns| ==> k[i] == ns[i].name
  {
    seq(|ns|, i requires 0 <= i < |ns| => ns[i].name)
  }

  /** How many of `ns` belong to section `s`. */
  function CountSection(ns: seq<SourceName>, s: string): nat
  {
    if |ns| == 0 then 0
    else CountSection(ns[..|ns| - 1], s) + (if SourceSection(ns[|ns| - 1]) == s then 1 else 0)
  }

  /** `es` is `old_` followed by entries named, in order, as `added`. */
  predicate AppendsNames(old_: seq<Entry>, es: seq<Entry>, added: seq<SourceName>)
  {
    |es| == |old_| + |added| && es[..|old_|] == old_ &&
    forall j :: 0 <= j < |added| ==> es[|old_| + j].name == added[j].name
  }

  /** The keys of the old entries followed by entries named `added`. */
  lemma KeysOfAppended(old_: seq<Entry>, es: seq<Entry>, added: seq<SourceName>, x: string)
    requires AppendsNames(old_, es, added)
    ensures x in Keys(es) <==> x in Keys(old_) || x in NameList(added)
  {
    var k := |old_|;
    assert es == old_ + es[k..];
    KeysAppend(old_, es[k..]);
    assert Keys(es[k..]) == NameList(added);
  }

  /** The entries appended are the new names in order of first
      appearance. */
  lemma {:induction false} AssignNames(st: Assigned, ns: seq<SourceName>)
    requires st.lastCode.Keys == Sections.Keys
    requires Assign(st, ns).Ok?
    ensures AppendsNames(st.entries, Assign(st, ns).value.entries, NewNames(Keys(st.entries), ns))
    ensures forall j :: 0 <= j < |NewNames(Keys(st.entries), ns)| ==> Assignable(NewNames(Keys(st.entries), ns)[j])
  {
    AssignPrefix(st, ns);
    if |ns| > 0 {
      var init := ns[..|ns| - 1];
      var m := ns[|ns| - 1];
      AssignStep(st, ns);
      var mid := Assign(st, init).value;
      AssignNames(st, init);
      var before := NewNames(Keys(st.entries), init);
      KeysOfAppended(st.entries, mid.entries, before, m.name);
      if m.name !in Keys(mid.entries) {
        assert NewNames(Keys(st.entries), ns) == before + [m];
      } else {
        assert NewNames(Keys(st.entries), ns) == before;
      }
    }
  }

  /** The code of the `j`-th new name: the counter left by the replay
      plus the number of new names of its section up to it. */
  predicate CodedAt(st: Assigned, es: seq<Entry>, added: seq<SourceName>, j: nat)
    requires j < |added| && |st.entries| + j < |es|
  {
    var s := SourceSection(added[j]);
    s in Sections && s in st.lastCode &&
    es[|st.entries| + j] == Entry(added[j].name, st.lastCode[s] + CountSection(added[..j + 1], s), "")
  }

  /** The new names after one more source name. */
  lemma NewNamesStep(st: Assigned, ns: seq<SourceName>)
    requires st.lastCode.Keys == Sections.Keys && |ns| > 0
    requires Assign(st, ns).Ok?
    ensures Assign(st, ns[..|ns| - 1]).Ok?
    ensures var mid := Assign(st, ns[..|ns| - 1]).value;
      var m := ns[|ns| - 1];
      var before := NewNames(Keys(st.entries), ns[..|ns| - 1]);
      NewNames(Keys(st.entries), ns) == if m.name in Keys(mid.entries) then before else before + [m]
  {
    var init := ns[..|ns| - 1];
    var m := ns[|ns| - 1];
    assert Assign(st, init).Ok?;
    AssignNames(st, init);
    var mid := Assign(st, init).value;
    var before := NewNames(Keys(st.entries), init);
    KeysOfAppended(st.entries, mid.entries, before, m.name);
    NewNamesSnoc(Keys(st.entries), ns);
  }

  lemma NewNamesSnoc(known: seq<string>, ns: seq<SourceName>)
    requires |ns| > 0
    ensures var before := NewNames(known, ns[..|ns| - 1]);
      var m := ns[|ns| - 1];
      NewNames(known, ns) == if m.name in known || m.name in NameList(before) then before else before + [m]
  {
  }

  /** The counters end at the replay's value plus the number of new names
      of each section. */
  lemma {:induction false} AssignCounters(st: Assigned, ns: seq<SourceName>)
    requires st.lastCode.Keys == Sections.Keys
    requires Assign(st, ns).Ok?
    ensures forall s :: s in Sections ==>
      Assign(st, ns).value.lastCode[s] == st.lastCode[s] + CountSection(NewNames(Keys(st.entries), ns), s)
  {
    if |ns| > 0 {
      var init := ns[..|ns| - 1];
      var m := ns[|ns| - 1];
      AssignStep(st, ns);
      NewNamesStep(st, ns);
      AssignCounters(st, init);
      var before := NewNames(Keys(st.entries), init);
      var added := NewNames(Keys(st.entries), ns);
      forall s | s in Sections
        ensures Assign(st, ns).value.lastCode[s] == st.lastCode[s] + CountSection(added, s)
      {
        if added != before {
          assert CountSection(added, s) == CountSection(before, s) + (if SourceSection(m) == s then 1 else 0);
        }
      }
    }
  }

  /** Every new name carries its code. */
  predicate AllCoded(st: Assigned, es: seq<Entry>, added: seq<SourceName>)
  {
    |es| == |st.entries| + |added| &&
    forall j :: 0 <= j < |added| ==> CodedAt(st, es, added, j)
  }

  lemma CodedSnoc(st: Assigned, es: seq<Entry>, before: seq<SourceName>, m: SourceName, e: Entry)
    requires AllCoded(st, es, before)
    requires SourceSection(m) in Sections && SourceSection(m) in st.lastCode
    requires e == Entry(m.name, st.lastCode[SourceSection(m)] + CountSection(before, SourceSection(m)) + 1, "")
    ensures AllCoded(st, es + [e], before + [m])
  {
    var added := before + [m];
    forall j | 0 <= j < |added|
      ensures CodedAt(st, es + [e], added, j)
    {
      if j < |before| {
        assert added[..j + 1] == before[..j + 1];
        assert CodedAt(st, es, before, j);
      } else {
        assert added[..j + 1] == added;
      }
    }
  }

  /** The codes handed out: the `k`-th new name of section `s` gets the
      counter left by the replay plus `k`, and an empty description. */
  lemma {:induction false} AssignCodes(st: Assigned, ns: seq<SourceName>)
    requires st.lastCode.Keys == Sections.Keys
    requires Assign(st, ns).Ok?
    ensures AllCoded(st, Assign(st, ns).value.entries, NewNames(Keys(st.entries), ns))
  {
    AssignNames(st, ns);
    if |ns| > 0 {
      var init := ns[..|ns| - 1];
      var m := ns[|ns| - 1];
      AssignStep(st, ns);
      NewNamesStep(st, ns);
      var mid := Assign(st, init).value;
      AssignCodes(st, init);
      AssignCounters(st, init);
      var before := NewNames(Keys(st.entries), init);
      var added := NewNames(Keys(st.entries), ns);
      var r := Assign(st, ns).value;
      if m.name !in Keys(mid.entries) {
        var sec := SourceSection(m);
        var e := Entry(m.name, mid.lastCode[sec] + 1, "");
        assert r.entries == mid.entries + [e];
        assert added == before + [m];
        assert mid.lastCode[sec] == st.lastCode[sec] + CountSection(before, sec);
        CodedSnoc(st, mid.entries, before, m, e);
      } else {
        assert r == mid && added == before;
      }
    }
  }

  /** A name the assignment of `ns` added was assignable. */
  lemma NewNameAssignable(st: Assigned, ns: seq<SourceName>, x: string)
    requires st.lastCode.Keys == Sections.Keys
    requires Assign(st, ns).Ok?
    requires x in Keys(Assign(st, ns).value.entries) && x !in Keys(st.entries)
    ensures exists i :: 0 <= i < |ns| && ns[i].name == x && Assignable(ns[i])
  {
    var mid := Assign(st, ns).value;
    AssignNames(st, ns);
    var added := NewNames(Keys(st.entries), ns);
    KeysOfAppended(st.entries, mid.entries, added, x);
    var j :| 0 <= j < |added| && NameList(added)[j] == x;
    NewNamesFrom(Keys(st.entries), ns, j);
    var i :| 0 <= i < |ns| && ns[i] == added[j];
  }

  /** Each new name is one of the source names. */
  lemma {:induction false} NewNamesFrom(known: seq<string>, ns: seq<SourceName>, j: nat)
    requires j < |NewNames(known, ns)|
    ensures NewNames(known, ns)[j] in ns
  {
    var init := ns[..|ns| - 1];
    if j < |NewNames(known, init)| {
      NewNamesFrom(known, init, j);
      assert init[..] <= ns;
    }
  }

  /** When every source name is already assigned, assignment changes
      nothing. */
  lemma {:induction false} AssignNothingNew(st: Assigned, ns: seq<SourceName>)
    requires st.lastCode.Keys == Sections.Keys
    requires forall i :: 0 <= i < |ns| ==> ns[i].name in Keys(st.entries)
    ensures Assign(st, ns) == Ok(st)
  {
    if |ns| > 0 {
      AssignNothingNew(st, ns[..|ns| - 1]);
    }
  }

  // ---- the sort ----

  /** The entries with code `c`, in order. */
  function WithCode(es: seq<Entry>, c: nat): seq<Entry>
  {
    if |es| == 0 then []
    else WithCode(es[..|es| - 1], c) + (if es[|es| - 1].code == c then [es[|es| - 1]] else [])
  }

  lemma WithCodeSnoc(es: seq<Entry>, x: Entry, c: nat)
    ensures WithCode(es + [x], c) == WithCode(es, c) + (if x.code == c then [x] else [])
  {
    assert (es + [x])[..|es|] == es;
  }

  /** Adding the same entry behind both sides keeps a `WithCode` relation. */
  lemma StableStep(front: seq<Entry>, init: seq<Entry>, last: Entry, e: Entry, c: nat)
    requires WithCode(front, c) == WithCode(init, c) + (if e.code == c then [e] else [])
    requires last.code != c || e.code != c || last == e
    ensures WithCode(front + [last], c) == WithCode(init + [last], c) + (if e.code == c then [e] else [])
  {
    WithCodeSnoc(front, last, c);
    WithCodeSnoc(init, last, c);
    var w := WithCode(init, c);
    if last.code != c {
      assert WithCode(front + [last], c) == WithCode(front, c) + [];
      assert WithCode(init + [last], c) == w + [];
    } else if e.code != c {
      assert WithCode(init, c) + [] == w;
    } else {
      assert (w + [e]) + [e] == w + [e] + [e];
    }
  }

  /** Inserting keeps every other entry of the same code before `e`. */
  lemma {:induction false} InsertStable(s: seq<Entry>, e: Entry, c: nat)
    requires SortedByCode(s)
    ensures WithCode(Insert(s, e), c) == WithCode(s, c) + (if e.code == c then [e] else [])
  {
    if |s| == 0 {
      WithCodeSnoc([], e, c);
      assert [] + [e] == [e];
    } else if s[|s| - 1].code <= e.code {
      assert Insert(s, e) == s + [e];
      WithCodeSnoc(s, e, c);
    } else {
      var init := s[..|s| - 1];
      var last := s[|s| - 1];
      assert Insert(s, e) == Insert(init, e) + [last];
      LastSplit(s);
      InsertStable(init, e, c);
      StableStep(Insert(init, e), init, last, e, c);
    }
  }

  /** The sort is stable: the entries of each code keep their order, so
      `SortByCode` is Python's `list.sort` with a key. */
  lemma {:induction false} SortStable(s: seq<Entry>, c: nat)
    ensures WithCode(SortByCode(s), c) == WithCode(s, c)
  {
    if |s| > 0 {
      var init := s[..|s| - 1];
      var last := s[|s| - 1];
      var front := SortByCode(init);
      assert SortByCode(s) == Insert(front, last);
      SortStable(init, c);
      InsertStable(front, last, c);
      LastSplit(s);
      WithCodeSnoc(init, last, c);
    }
  }
}
