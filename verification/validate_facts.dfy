/** What the validator's scan guarantees: which rows are reported, that
    the header is never looked at, how the name and code tables evolve,
    and what every table that passes satisfies. The facts about the fold
    are stated over the sequence of per-row field checks, then carried
    over to tables. */
module ValidateFacts {
  import opened Results
  import opened Text
  import opened Hex
  import opened Registry
  import opened Validate

  /** The tables as they stand when row `i` is checked. */
  function SeenOf(fs: seq<FieldCheck>, i: nat): Seen
    requires i <= |fs|
  {
    ScanRows(fs, i).seen
  }

  /** The verdict on row `i`, given every row before it. */
  function VerdictOf(fs: seq<FieldCheck>, i: nat): Verdict
    requires 1 <= i < |fs|
  {
    CheckUnique(fs[i], SeenOf(fs, i)).verdict
  }

  function VerdictAt(rows: Table, i: nat): Verdict
    requires 1 <= i < |rows|
  {
    VerdictOf(FieldChecks(rows), i)
  }

  function SeenAt(rows: Table, i: nat): Seen
    requires i <= |rows|
  {
    SeenOf(FieldChecks(rows), i)
  }

  predicate Reported(ds: seq<Diagnostic>, i: nat)
  {
    exists k :: 0 <= k < |ds| && ds[k].line == i
  }

  lemma ScanRowsStep(fs: seq<FieldCheck>, n: nat)
    requires 1 < n <= |fs|
    ensures ScanRows(fs, n).diagnostics ==
              ScanRows(fs, n - 1).diagnostics
              + (if VerdictOf(fs, n - 1).Reject?
                 then [Diagnostic(n - 1, VerdictOf(fs, n - 1).error)] else [])
    ensures SeenOf(fs, n) == CheckUnique(fs[n - 1], SeenOf(fs, n - 1)).after
  {
  }

  /** Each reported diagnostic is the verdict on its row. */
  lemma {:induction false} DiagnosticsAreVerdicts(fs: seq<FieldCheck>, n: nat)
    requires n <= |fs|
    ensures forall k :: 0 <= k < |ScanRows(fs, n).diagnostics| ==>
              1 <= ScanRows(fs, n).diagnostics[k].line < n
              && VerdictOf(fs, ScanRows(fs, n).diagnostics[k].line)
                 == Reject(ScanRows(fs, n).diagnostics[k].error)
  {
    if n > 1 {
      DiagnosticsAreVerdicts(fs, n - 1);
      ScanRowsStep(fs, n);
      var prev := ScanRows(fs, n - 1).diagnostics;
      var cur := ScanRows(fs, n).diagnostics;
      forall k | 0 <= k < |cur|
        ensures 1 <= cur[k].line < n && VerdictOf(fs, cur[k].line) == Reject(cur[k].error)
      {
        if k < |prev| {
          assert cur[k] == prev[k];
        }
      }
    }
  }

  /** Every rejected row is reported: a failing row does not end the scan. */
  lemma {:induction false} RejectionsReported(fs: seq<FieldCheck>, n: nat)
    requires n <= |fs|
    ensures forall i :: 1 <= i < n && VerdictOf(fs, i).Reject? ==>
              Reported(ScanRows(fs, n).diagnostics, i)
  {
    if n > 1 {
      RejectionsReported(fs, n - 1);
      ScanRowsStep(fs, n);
      var prev := ScanRows(fs, n - 1).diagnostics;
      var cur := ScanRows(fs, n).diagnostics;
      forall i | 1 <= i < n && VerdictOf(fs, i).Reject?
        ensures Reported(cur, i)
      {
        if i < n - 1 {
          var k :| 0 <= k < |prev| && prev[k].line == i;
          assert cur[k] == prev[k];
        } else {
          assert cur[|cur| - 1].line == i;
        }
      }
    }
  }

  /** A scan reports nothing exactly when it accepts every row. */
  lemma CleanIffAllAccepted(fs: seq<FieldCheck>)
    ensures |ScanRows(fs, |fs|).diagnostics| == 0 <==>
              forall i :: 1 <= i < |fs| ==> VerdictOf(fs, i) == Accept
  {
    DiagnosticsAreVerdicts(fs, |fs|);
    RejectionsReported(fs, |fs|);
    var ds := ScanRows(fs, |fs|).diagnostics;
    if |ds| > 0 {
      assert VerdictOf(fs, ds[0].line).Reject?;
    }
  }

  /** The validator succeeds exactly when every row after the header is
      accepted. */
  lemma SuccessIffAllAccepted(rows: Table)
    ensures Check(rows).success <==> forall i :: 1 <= i < |rows| ==> VerdictAt(rows, i) == Accept
  {
    var fs := FieldChecks(rows);
    CleanIffAllAccepted(fs);
    forall i | 1 <= i < |rows| ensures VerdictAt(rows, i) == VerdictOf(fs, i) {}
  }

  /** The diagnostics of a table are exactly the rejected rows, one each,
      in row order. */
  lemma ReportedRows(rows: Table)
    ensures forall k :: 0 <= k < |Check(rows).diagnostics| ==>
              var d := Check(rows).diagnostics[k];
              1 <= d.line < |rows| && VerdictAt(rows, d.line) == Reject(d.error)
    ensures forall i :: 1 <= i < |rows| && VerdictAt(rows, i).Reject? ==>
              Reported(Check(rows).diagnostics, i)
    ensures forall k, l :: 0 <= k < l < |Check(rows).diagnostics| ==>
              Check(rows).diagnostics[k].line < Check(rows).diagnostics[l].line
  {
    DiagnosticsAreVerdicts(FieldChecks(rows), |rows|);
    RejectionsReported(FieldChecks(rows), |rows|);
  }

  lemma {:induction false} ScansAgree(fs: seq<FieldCheck>, gs: seq<FieldCheck>, n: nat)
    requires |fs| == |gs| && n <= |fs|
    requires forall i :: 1 <= i < |fs| ==> fs[i] == gs[i]
    ensures ScanRows(fs, n) == ScanRows(gs, n)
  {
    if n > 1 {
      ScansAgree(fs, gs, n - 1);
    }
  }

  /** The header row is never checked: replacing it changes nothing. */
  lemma HeaderNeverChecked(rows: Table, header: Row)
    requires |rows| >= 1
    ensures Check([header] + rows[1..]) == Check(rows)
  {
    var other := [header] + rows[1..];
    forall i | 1 <= i < |rows| ensures FieldChecks(other)[i] == FieldChecks(rows)[i] {
      assert other[i] == rows[i];
      FieldChecksAt(rows, i);
      FieldChecksAt(other, i);
    }
    ScansAgree(FieldChecks(rows), FieldChecks(other), |rows|);
  }

  /** `after` keeps every entry of `before`. */
  predicate Grows(before: Seen, after: Seen)
  {
    && (forall n :: n in before.names ==> n in after.names && after.names[n] == before.names[n])
    && (forall c :: c in before.codes ==> c in after.codes && after.codes[c] == before.codes[c])
  }

  /** The tables only grow along the scan: a recorded name keeps its code,
      and a recorded code keeps the name that first claimed it. */
  lemma {:induction false} ScanGrows(fs: seq<FieldCheck>, i: nat, j: nat)
    requires i <= j <= |fs|
    ensures Grows(SeenOf(fs, i), SeenOf(fs, j))
  {
    if i < j {
      ScanGrows(fs, i, j - 1);
      if j - 1 >= 1 {
        ScanRowsStep(fs, j);
        CheckGrows(fs[j - 1], SeenOf(fs, j - 1));
        GrowsTrans(SeenOf(fs, i), SeenOf(fs, j - 1), SeenOf(fs, j));
      }
    }
  }

  /** One check only adds to the tables. */
  lemma CheckGrows(f: FieldCheck, seen: Seen)
    ensures Grows(seen, CheckUnique(f, seen).after)
  {
  }

  lemma GrowsTrans(a: Seen, b: Seen, c: Seen)
    requires Grows(a, b) && Grows(b, c)
    ensures Grows(a, c)
  {
  }

  /** A row that passes its own checks leaves its name recorded, whether or
      not it is then rejected as a duplicate. */
  lemma NameRecorded(fs: seq<FieldCheck>, j: nat)
    requires 1 <= j < |fs| && fs[j].WellFormed?
    ensures fs[j].name in SeenOf(fs, j + 1).names
  {
    ScanRowsStep(fs, j + 1);
  }

  /** An accepted row leaves its code recorded, held by itself or by a
      name of its alias group. */
  lemma CodeRecorded(fs: seq<FieldCheck>, j: nat)
    requires 1 <= j < |fs| && VerdictOf(fs, j) == Accept
    ensures fs[j].WellFormed? && fs[j].code in SeenOf(fs, j + 1).codes
    ensures var holder := SeenOf(fs, j + 1).codes[fs[j].code];
            holder == fs[j].name || SameAliasGroup(fs[j].name, holder)
  {
    ScanRowsStep(fs, j + 1);
  }

  /** A name is rejected in every later well-formed row once a well-formed
      row carried it, whatever the codes are. */
  lemma NameStaysTaken(fs: seq<FieldCheck>, j: nat, k: nat)
    requires 1 <= j < k < |fs|
    requires fs[j].WellFormed? && fs[k].WellFormed? && fs[j].name == fs[k].name
    ensures VerdictOf(fs, k).Reject? && VerdictOf(fs, k).error.DuplicateName?
  {
    NameRecorded(fs, j);
    ScanGrows(fs, j + 1, k);
  }

  /** A later well-formed row with a new name that reuses the code of an
      accepted row is accepted exactly when the two names share an alias
      group. */
  lemma CodeStaysTaken(fs: seq<FieldCheck>, j: nat, k: nat)
    requires 1 <= j < k < |fs|
    requires VerdictOf(fs, j) == Accept && fs[k].WellFormed?
    requires fs[k].name !in SeenOf(fs, k).names
    requires fs[j].code == fs[k].code
    ensures VerdictOf(fs, k) == Accept <==> SameAliasGroup(fs[k].name, fs[j].name)
    ensures !SameAliasGroup(fs[k].name, fs[j].name) ==>
              VerdictOf(fs, k) == Reject(DuplicateCode(SeenOf(fs, k).codes[fs[k].code]))
  {
    CodeRecorded(fs, j);
    ScanGrows(fs, j + 1, k);
    var seen := SeenOf(fs, k);
    var holder := seen.codes[fs[k].code];
    assert holder == fs[j].name || SameAliasGroup(fs[j].name, holder);
    AliasGroups(fs[k].name, holder);
    AliasGroups(fs[k].name, fs[j].name);
    AliasGroups(fs[j].name, holder);
  }

  lemma FieldsMeaning(row: Row)
    ensures CheckFields(row).WellFormed? <==> PassesRowChecks(row)
    ensures PassesRowChecks(row) ==> CheckFields(row) == WellFormed(Name(row), CodeOf(row))
  {
  }

  lemma FieldCheckIs(rows: Table, i: nat, f: FieldCheck)
    requires i < |rows| && f == FieldChecks(rows)[i]
    ensures f.WellFormed? <==> PassesRowChecks(rows[i])
    ensures PassesRowChecks(rows[i]) ==> f == WellFormed(Name(rows[i]), CodeOf(rows[i]))
  {
    FieldChecksAt(rows, i);
    FieldsMeaning(rows[i]);
  }

  /** The field check recorded for row `i` is that row's own. */
  lemma FieldCheckOf(rows: Table, i: nat)
    requires i < |rows|
    ensures FieldChecks(rows)[i].WellFormed? <==> PassesRowChecks(rows[i])
    ensures PassesRowChecks(rows[i]) ==>
              FieldChecks(rows)[i] == WellFormed(Name(rows[i]), CodeOf(rows[i]))
  {
    FieldCheckIs(rows, i, FieldChecks(rows)[i]);
  }

  /** A row of the wrong width, without a name, or with a malformed code is
      reported with that reason, wherever it stands after the header. */
  lemma MalformedRowsRejected(rows: Table, i: nat)
    requires 1 <= i < |rows|
    ensures |rows[i]| != 4 ==> VerdictAt(rows, i) == Reject(WrongArity(|rows[i]|))
    ensures |rows[i]| == 4 && Name(rows[i]) == "" ==> VerdictAt(rows, i) == Reject(EmptyName)
    ensures |rows[i]| == 4 && Name(rows[i]) != "" && !IsCodeString(rows[i][CodeColumn]) ==>
              VerdictAt(rows, i) == Reject(MalformedCode)
  {
    var f := FieldChecks(rows)[i];
    FieldChecksAt(rows, i);
    assert VerdictAt(rows, i) == CheckUnique(f, SeenAt(rows, i)).verdict;
  }

  /** `int(code, 16)` never fails on a code the pattern accepted, so no
      row is ever reported as unparsable. */
  lemma ParseNeverFails(row: Row)
    ensures CheckFields(row) != Malformed(UnparsableCode)
  {
    NotUnparsable(row, CheckFields(row));
  }

  lemma NotUnparsable(row: Row, f: FieldCheck)
    requires f == CheckFields(row)
    ensures f != Malformed(UnparsableCode)
  {
    if |row| == 4 && Name(row) != "" && IsCodeString(row[CodeColumn]) {
      CodeStringParses(row[CodeColumn]);
      ParsedFields(row, f);
    }
  }

  /** Past the pattern check, a row is either well formed or fails the
      MIME check. */
  lemma ParsedFields(row: Row, f: FieldCheck)
    requires f == CheckFields(row)
    requires |row| == 4 && Name(row) != "" && IsCodeString(row[CodeColumn])
    requires ParseBase16(row[CodeColumn]).Some?
    ensures f.WellFormed? || IsMimeError(f.error)
  {
    if !MimeConsistent(Name(row), Tag(row), CodeOf(row)) {
      assert MimeCheck(Name(row), Tag(row), CodeOf(row)) == Some(f.error);
    }
  }

  /** A name seen in a row that passed the row checks is rejected in every
      later row that passes them too, even with a different code; this
      holds even when the earlier row was itself rejected for its code. */
  lemma RepeatedNameRejected(rows: Table, j: nat, k: nat)
    requires 1 <= j < k < |rows|
    requires PassesRowChecks(rows[j]) && PassesRowChecks(rows[k])
    requires Name(rows[j]) == Name(rows[k])
    ensures VerdictAt(rows, k).Reject? && VerdictAt(rows, k).error.DuplicateName?
  {
    FieldCheckOf(rows, j);
    FieldCheckOf(rows, k);
    NameStaysTaken(FieldChecks(rows), j, k);
  }

  /** A later row with a new name that reuses the code of an accepted row
      is accepted exactly when the two names are in one alias group, and
      is otherwise reported as a duplicate code. */
  lemma SharedCodeNeedsAlias(rows: Table, j: nat, k: nat)
    requires 1 <= j < k < |rows|
    requires VerdictAt(rows, j) == Accept && PassesRowChecks(rows[k])
    requires Name(rows[k]) !in SeenAt(rows, k).names
    requires PassesRowChecks(rows[j]) && CodeOf(rows[j]) == CodeOf(rows[k])
    ensures VerdictAt(rows, k) == Accept <==> SameAliasGroup(Name(rows[k]), Name(rows[j]))
    ensures !SameAliasGroup(Name(rows[k]), Name(rows[j])) ==>
              VerdictAt(rows, k).Reject? && VerdictAt(rows, k).error.DuplicateCode?
  {
    FieldCheckOf(rows, j);
    FieldCheckOf(rows, k);
    CodeStaysTaken(FieldChecks(rows), j, k);
  }

  /** Over a scan that rejects nothing: every row is well formed, names
      are unique, and a shared code is shared within an alias group. */
  lemma CleanScan(fs: seq<FieldCheck>)
    requires forall i :: 1 <= i < |fs| ==> VerdictOf(fs, i) == Accept
    ensures forall i :: 1 <= i < |fs| ==> fs[i].WellFormed?
    ensures forall j, k :: 1 <= j < k < |fs| ==> fs[j].name != fs[k].name
    ensures forall j, k :: 1 <= j < k < |fs| && fs[j].code == fs[k].code ==>
              SameAliasGroup(fs[k].name, fs[j].name)
  {
    forall i | 1 <= i < |fs| ensures fs[i].WellFormed? {
      CodeRecorded(fs, i);
    }
    forall j, k | 1 <= j < k < |fs| ensures fs[j].name != fs[k].name {
      if fs[j].name == fs[k].name {
        NameStaysTaken(fs, j, k);
      }
    }
    forall j, k | 1 <= j < k < |fs| && fs[j].code == fs[k].code
      ensures SameAliasGroup(fs[k].name, fs[j].name)
    {
      assert fs[k].name !in SeenOf(fs, k).names by {
        assert VerdictOf(fs, k) == Accept;
      }
      CodeStaysTaken(fs, j, k);
    }
  }

  /** The rule for a MIME row in terms of its section: its code's section
      bits are the section base (for a bare section name the code is the
      base itself). */
  lemma MimeRowInSection(row: Row)
    requires PassesRowChecks(row) && Tag(row) == MimeTag
    ensures var parts := Split(Name(row), '/');
            && parts[0] in Sections
            && |parts| <= 2
            && SectionBits(CodeOf(row)) == Sections[parts[0]]
            && (|parts| == 1 ==> CodeOf(row) == Sections[parts[0]])
  {
    var parts := Split(Name(row), '/');
    SectionBases(parts[0]);
  }

  /** A table that passes has a clean scan. */
  lemma PassingScan(rows: Table, fs: seq<FieldCheck>)
    requires fs == FieldChecks(rows) && Check(rows).success
    ensures forall i :: 1 <= i < |fs| ==> fs[i].WellFormed?
    ensures forall j, k :: 1 <= j < k < |fs| ==> fs[j].name != fs[k].name
    ensures forall j, k :: 1 <= j < k < |fs| && fs[j].code == fs[k].code ==>
              SameAliasGroup(fs[k].name, fs[j].name)
  {
    CleanIffAllAccepted(fs);
    CleanScan(fs);
  }

  /** Every data row of a passing table passes the row checks. */
  lemma PassingRows(rows: Table)
    requires Check(rows).success
    ensures forall i :: 1 <= i < |rows| ==> PassesRowChecks(rows[i])
  {
    var fs := FieldChecks(rows);
    PassingScan(rows, fs);
    forall i | 1 <= i < |rows| ensures PassesRowChecks(rows[i]) {
      FieldCheckIs(rows, i, fs[i]);
    }
  }

  /** Names in a passing table are unique. */
  lemma PassingNamesUnique(rows: Table, j: nat, k: nat)
    requires Check(rows).success && 1 <= j < k < |rows|
    ensures PassesRowChecks(rows[j]) && PassesRowChecks(rows[k])
    ensures Name(rows[j]) != Name(rows[k])
  {
    var fs := FieldChecks(rows);
    PassingScan(rows, fs);
    FieldCheckIs(rows, j, fs[j]);
    FieldCheckIs(rows, k, fs[k]);
  }

  /** Two rows of a passing table share a code only as `ipfs` and `p2p`. */
  lemma PassingCodesShared(rows: Table, j: nat, k: nat)
    requires Check(rows).success && 1 <= j < k < |rows|
    ensures PassesRowChecks(rows[j]) && PassesRowChecks(rows[k])
    ensures CodeOf(rows[j]) == CodeOf(rows[k]) ==> {Name(rows[j]), Name(rows[k])} == {"ipfs", "p2p"}
  {
    var fs := FieldChecks(rows);
    PassingScan(rows, fs);
    var fj, fk := fs[j], fs[k];
    FieldCheckIs(rows, j, fj);
    FieldCheckIs(rows, k, fk);
    SharedCodePair(fj, fk);
  }

  lemma SharedCodePair(fj: FieldCheck, fk: FieldCheck)
    requires fj.WellFormed? && fk.WellFormed? && fj.name != fk.name
    requires fj.code == fk.code ==> SameAliasGroup(fk.name, fj.name)
    ensures fj.code == fk.code ==> {fj.name, fk.name} == {"ipfs", "p2p"}
  {
    AliasGroups(fk.name, fj.name);
  }

  /** Everything a table that passes the validator satisfies: every data
      row has four columns, a name and a well-formed code; names are
      unique; two rows share a code only as `ipfs` and `p2p`; MIME rows sit
      in the range of their section and nothing else is in the MIME range. */
  lemma ValidTable(rows: Table)
    requires Check(rows).success
    ensures forall i :: 1 <= i < |rows| ==> PassesRowChecks(rows[i])
    ensures forall j, k :: 1 <= j < k < |rows| && PassesRowChecks(rows[j]) && PassesRowChecks(rows[k])
              ==> Name(rows[j]) != Name(rows[k])
    ensures forall j, k :: (1 <= j < k < |rows| && PassesRowChecks(rows[j]) && PassesRowChecks(rows[k])
                            && CodeOf(rows[j]) == CodeOf(rows[k]))
              ==> {Name(rows[j]), Name(rows[k])} == {"ipfs", "p2p"}
    ensures forall i :: 1 <= i < |rows| && PassesRowChecks(rows[i]) ==>
              (InMimeRange(CodeOf(rows[i])) <==> Tag(rows[i]) == MimeTag)
    ensures forall i :: 1 <= i < |rows| && PassesRowChecks(rows[i]) && Tag(rows[i]) == MimeTag ==>
              var s := Split(Name(rows[i]), '/')[0];
              s in Sections && SectionBits(CodeOf(rows[i])) == Sections[s]
  {
    PassingRows(rows);
    forall j, k | 1 <= j < k < |rows| && PassesRowChecks(rows[j]) && PassesRowChecks(rows[k])
      ensures Name(rows[j]) != Name(rows[k])
    {
      PassingNamesUnique(rows, j, k);
    }
    forall j, k | 1 <= j < k < |rows| && PassesRowChecks(rows[j]) && PassesRowChecks(rows[k])
                  && CodeOf(rows[j]) == CodeOf(rows[k])
      ensures {Name(rows[j]), Name(rows[k])} == {"ipfs", "p2p"}
    {
      PassingCodesShared(rows, j, k);
    }
    forall i | 1 <= i < |rows| && PassesRowChecks(rows[i]) && Tag(rows[i]) == MimeTag
      ensures var s := Split(Name(rows[i]), '/')[0];
              s in Sections && SectionBits(CodeOf(rows[i])) == Sections[s]
    {
      MimeRowInSection(rows[i]);
    }
  }
}
