/** The table validator: after the header, every row goes through a fixed
    sequence of checks; the first failing check gives that row's one
    diagnostic, and the scan goes on with the next row. Two tables carried
    from row to row, name to code and code to name, detect duplicates. */
module Validate {
  import opened Results
  import opened Text
  import opened Hex
  import opened Registry

  /** Why a row was rejected, one kind per check. */
  datatype CheckError =
    | WrongArity(got: nat)
    | EmptyName
    | MalformedCode
    | UnparsableCode
    | MimeRangeWithoutTag
    | MimeTagOutsideRange
    | UnknownMimeSection
    | SectionCodeMismatch(expected: nat)
    | SubtypeOutOfSection
    | InvalidMimeName
    | DuplicateName(previous: nat)
    | DuplicateCode(holder: string)

  /** The `names` and `codes` tables of the scan. */
  datatype Seen = Seen(names: map<string, nat>, codes: map<nat, string>)

  datatype Verdict = Accept | Reject(error: CheckError)

  /** What checking one row decides, and the tables afterwards. */
  datatype Step = Step(verdict: Verdict, after: Seen)

  datatype Diagnostic = Diagnostic(line: nat, error: CheckError)

  /** The scan so far: diagnostics in row order and the current tables. */
  datatype Scan = Scan(diagnostics: seq<Diagnostic>, seen: Seen)

  datatype Report = Report(success: bool, diagnostics: seq<Diagnostic>)

  const NoneSeen := Seen(map[], map[])

  /** The MIME rule: the code is in the MIME range exactly when the tag is
      `mimetype`, and a MIME name is a known section, alone with the
      section's base code, or with one subtype and a code in the section's
      range. */
  predicate MimeConsistent(name: string, tag: string, code: nat)
  {
    && (InMimeRange(code) <==> tag == MimeTag)
    && (tag == MimeTag ==>
          var parts := Split(name, '/');
          && parts[0] in Sections
          && ((|parts| == 1 && code == Sections[parts[0]])
              || (|parts| == 2 && SectionBits(code) == Sections[parts[0]])))
  }

  /** The error kinds of the MIME range and section check. */
  predicate IsMimeError(e: CheckError)
  {
    e.MimeRangeWithoutTag? || e.MimeTagOutsideRange? || e.UnknownMimeSection? ||
    e.SectionCodeMismatch? || e.SubtypeOutOfSection? || e.InvalidMimeName?
  }

  /** The MIME range and section check, in the order the validator tests. */
  function MimeCheck(name: string, tag: string, code: nat): (r: Option<CheckError>)
    ensures r.None? <==> MimeConsistent(name, tag, code)
    ensures r.Some? ==> IsMimeError(r.value)
    ensures InMimeRange(code) && tag != MimeTag ==> r == Some(MimeRangeWithoutTag)
    ensures !InMimeRange(code) && tag == MimeTag ==> r == Some(MimeTagOutsideRange)
    ensures InMimeRange(code) && tag == MimeTag && Split(name, '/')[0] !in Sections
            ==> r == Some(UnknownMimeSection)
    ensures (InMimeRange(code) && tag == MimeTag && |Split(name, '/')| == 1
             && Split(name, '/')[0] in Sections && code != Sections[Split(name, '/')[0]])
            ==> r == Some(SectionCodeMismatch(Sections[Split(name, '/')[0]]))
    ensures (InMimeRange(code) && tag == MimeTag && |Split(name, '/')| == 2
             && Split(name, '/')[0] in Sections && SectionBits(code) != Sections[Split(name, '/')[0]])
            ==> r == Some(SubtypeOutOfSection)
    ensures (InMimeRange(code) && tag == MimeTag && |Split(name, '/')| > 2
             && Split(name, '/')[0] in Sections) ==> r == Some(InvalidMimeName)
  {
    var mimeRange := InMimeRange(code);
    var mimeTag := tag == MimeTag;
    if mimeRange && !mimeTag then Some(MimeRangeWithoutTag)
    else if !mimeRange && mimeTag then Some(MimeTagOutsideRange)
    else if mimeRange && mimeTag then
      var parts := Split(name, '/');
      if parts[0] !in Sections then Some(UnknownMimeSection)
      else
        var base := Sections[parts[0]];
        if |parts| == 1 then
          if base != code then Some(SectionCodeMismatch(base)) else None
        else if |parts| == 2 then
          if SectionBits(code) != base then Some(SubtypeOutOfSection) else None
        else Some(InvalidMimeName)
    else None
  }

  function Name(row: Row): string
    requires |row| == 4
  {
    row[NameColumn]
  }

  function Tag(row: Row): string
    requires |row| == 4
  {
    row[TagColumn]
  }

  /** The code of a row whose code text `int(code, 16)` accepts. */
  function CodeOf(row: Row): nat
    requires |row| == 4 && ParseBase16(row[CodeColumn]).Some?
  {
    ParseBase16(row[CodeColumn]).value
  }

  /** The checks that look at the row alone, before the duplicate checks. */
  predicate PassesRowChecks(row: Row)
  {
    && |row| == 4
    && Name(row) != ""
    && IsCodeString(row[CodeColumn])
    && ParseBase16(row[CodeColumn]).Some?
    && MimeConsistent(Name(row), Tag(row), CodeOf(row))
  }

  /** A row is accepted when it passes the row checks, its name is new, and
      its code is new or already held by a name of its alias group. */
  predicate RowIsValid(row: Row, seen: Seen)
  {
    && PassesRowChecks(row)
    && Name(row) !in seen.names
    && (CodeOf(row) in seen.codes ==> SameAliasGroup(Name(row), seen.codes[CodeOf(row)]))
  }

  /** The outcome of the checks that look at the row alone. */
  datatype FieldCheck = Malformed(error: CheckError) | WellFormed(name: string, code: nat)

  /** The row's own checks, in the validator's order: arity, name, code
      format, code parse, MIME range and section. */
  function CheckFields(row: Row): (r: FieldCheck)
    ensures r.WellFormed? <==> PassesRowChecks(row)
    ensures r.WellFormed? ==> r.name == Name(row) && r.code == CodeOf(row)
    ensures |row| != 4 ==> r == Malformed(WrongArity(|row|))
    ensures |row| == 4 && Name(row) == "" ==> r == Malformed(EmptyName)
    ensures |row| == 4 && Name(row) != "" && !IsCodeString(row[CodeColumn])
            ==> r == Malformed(MalformedCode)
    ensures (|row| == 4 && Name(row) != "" && IsCodeString(row[CodeColumn])
             && ParseBase16(row[CodeColumn]).Some?
             && !MimeConsistent(Name(row), Tag(row), CodeOf(row)))
            ==> r.Malformed? && MimeCheck(Name(row), Tag(row), CodeOf(row)) == Some(r.error)
  {
    if |row| != 4 then Malformed(WrongArity(|row|))
    else
      var name, tag, codeText := row[NameColumn], row[TagColumn], row[CodeColumn];
      if name == "" then Malformed(EmptyName)
      else if !IsCodeString(codeText) then Malformed(MalformedCode)
      else
        match ParseBase16(codeText)
        case None => Malformed(UnparsableCode)
        case Some(code) =>
          match MimeCheck(name, tag, code)
          case Some(e) => Malformed(e)
          case None => WellFormed(name, code)
  }

  /** The duplicate checks against the tables. A name is recorded as soon
      as it passes the duplicate-name check, before the code is looked at;
      a code is recorded only when it was new. A code collision between two
      names of one alias group is accepted and leaves `codes` unchanged. */
  function CheckUnique(f: FieldCheck, seen: Seen): (s: Step)
    ensures f.Malformed? ==> s == Step(Reject(f.error), seen)
    ensures f.WellFormed? && f.name in seen.names ==>
              s == Step(Reject(DuplicateName(seen.names[f.name])), seen)
    ensures f.WellFormed? && f.name !in seen.names ==>
              && s.after.names == seen.names[f.name := f.code]
              && (f.code !in seen.codes ==>
                    s == Step(Accept, Seen(seen.names[f.name := f.code], seen.codes[f.code := f.name])))
              && (f.code in seen.codes && SameAliasGroup(f.name, seen.codes[f.code]) ==>
                    s.verdict == Accept && s.after.codes == seen.codes)
              && (f.code in seen.codes && !SameAliasGroup(f.name, seen.codes[f.code]) ==>
                    s.verdict == Reject(DuplicateCode(seen.codes[f.code])) && s.after.codes == seen.codes)
  {
    match f
    case Malformed(e) => Step(Reject(e), seen)
    case WellFormed(name, code) =>
      if name in seen.names then Step(Reject(DuplicateName(seen.names[name])), seen)
      else
        var named := seen.(names := seen.names[name := code]);
        if code in seen.codes then
          if SameAliasGroup(name, seen.codes[code]) then Step(Accept, named)
          else Step(Reject(DuplicateCode(seen.codes[code])), named)
        else Step(Accept, named.(codes := seen.codes[code := name]))
  }

  /** One iteration of the validator's loop body: the tables only grow; an
      accepted row leaves its name and code recorded, a rejected one
      records no code. */
  function CheckRow(row: Row, seen: Seen): (s: Step)
    ensures seen.names.Keys <= s.after.names.Keys && seen.codes.Keys <= s.after.codes.Keys
    ensures s.verdict.Accept? ==>
              var f := CheckFields(row);
              f.WellFormed? && f.name in s.after.names && f.code in s.after.codes
    ensures s.verdict.Reject? ==> s.after.codes == seen.codes
  {
    var f := CheckFields(row);
    UniqueRecords(f, seen, CheckUnique(f, seen));
    CheckUnique(f, seen)
  }

  lemma UniqueRecords(f: FieldCheck, seen: Seen, s: Step)
    requires s == CheckUnique(f, seen)
    ensures seen.names.Keys <= s.after.names.Keys && seen.codes.Keys <= s.after.codes.Keys
    ensures s.verdict.Accept? ==> f.WellFormed? && f.name in s.after.names && f.code in s.after.codes
    ensures s.verdict.Reject? ==> s.after.codes == seen.codes
  {
  }

  /** What checking one row decides: it is accepted exactly when it is
      valid against the tables; its name is recorded once it passes the
      row checks and is new, its code only when the row is accepted and
      the code is new. */
  lemma CheckRowSpec(row: Row, seen: Seen)
    ensures CheckRow(row, seen).verdict.Accept? <==> RowIsValid(row, seen)
    ensures CheckRow(row, seen).after.names ==
              if PassesRowChecks(row) && Name(row) !in seen.names
              then seen.names[Name(row) := CodeOf(row)] else seen.names
    ensures CheckRow(row, seen).after.codes ==
              if RowIsValid(row, seen) && CodeOf(row) !in seen.codes
              then seen.codes[CodeOf(row) := Name(row)] else seen.codes
  {
    var f := CheckFields(row);
    if f.WellFormed? {
      assert f.name == Name(row) && f.code == CodeOf(row);
    }
  }

  /** The fields check of every row, by row index. */
  function FieldChecks(rows: Table): (fs: seq<FieldCheck>)
    ensures |fs| == |rows|
  {
    if |rows| == 0 then []
    else FieldChecks(rows[..|rows| - 1]) + [CheckFields(rows[|rows| - 1])]
  }

  lemma {:induction false} FieldChecksAt(rows: Table, i: nat)
    requires i < |rows|
    ensures FieldChecks(rows)[i] == CheckFields(rows[i])
  {
    if i < |rows| - 1 {
      FieldChecksAt(rows[..|rows| - 1], i);
    }
  }

  /** The validator's loop as a fold over rows `1 .. n-1`: row 0, the
      header, is skipped, and every other row is checked against the
      tables the rows before it left. */
  function ScanRows(fs: seq<FieldCheck>, n: nat): (s: Scan)
    requires n <= |fs|
    ensures forall k :: 0 <= k < |s.diagnostics| ==> 1 <= s.diagnostics[k].line < n
    ensures forall k, l :: 0 <= k < l < |s.diagnostics| ==>
              s.diagnostics[k].line < s.diagnostics[l].line
    decreases n
  {
    if n <= 1 then Scan([], NoneSeen)
    else
      var prev := ScanRows(fs, n - 1);
      var step := CheckUnique(fs[n - 1], prev.seen);
      var d := if step.verdict.Reject? then [Diagnostic(n - 1, step.verdict.error)] else [];
      Scan(prev.diagnostics + d, step.after)
  }

  /** `check()` on a table already read: success exactly when no row was
      reported. */
  function Check(rows: Table): (r: Report)
    ensures r.success <==> |r.diagnostics| == 0
    ensures forall k :: 0 <= k < |r.diagnostics| ==> 1 <= r.diagnostics[k].line < |rows|
  {
    var s := ScanRows(FieldChecks(rows), |rows|);
    Report(|s.diagnostics| == 0, s.diagnostics)
  }
}
