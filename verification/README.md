# Multicodec table integrity and MIME synchronization

A Dafny model of the two pure cores of the multicodec table tooling.

- **`validate.py`, `check`**: the table validator, with the file reading taken
  out.
  - The table is a sequence of rows, each a sequence of strings.
  - Row 0, the header, is skipped. Every other row goes through the
    validator's checks in its order: arity, non-empty name, the code
    pattern, the hex parse, the MIME range and section rules, the duplicate
    name, and the duplicate code with the alias exception.
  - The first failing check of a row is that row's single diagnostic.
  - The `names` and `codes` tables are carried from row to row, as a fold.
- **`import-mime.py`**: the pure parts of the MIME synchronizer.
  - `formatCode`: a varint-style byte count, with the value written as plain
    hex.
  - The width and padding step of `Table.save`.
  - The block logic of `main`:
    - find the contiguous `mimetype` block;
    - replay it, which rebuilds the `assigned` dictionary and the
      per-section `lastCode` counters and checks that the codes run in
      sequence;
    - refuse a `mimetype` row after the block, and a source whose root id
      is wrong;
    - assign fresh codes to new source names;
    - sort every entry by code and splice the rendered rows back where the
      block stood.

Modules follow the program's structure:

- `Results` holds `Option` and `Result`.
- `Text` holds `split`, `split(sep, 1)`, `join` and `strip` (ASCII whitespace).
- `Hex` holds `int(s, 16)`, the code pattern and hex rendering.
- `Codec` holds `formatCode`.
- `Registry` holds the row layout, the `sections`/`mimetypes` table and the
  alias table.
- `Validate` holds the validator fold, and `ValidateFacts` its properties.
- `Layout` holds `Table.save`.
- `Sync` holds `main`.
- `SyncFacts` holds the dictionary, replay, assignment and sort properties.
- `SyncProps` holds the end-to-end properties of `main` on a table.

The two scripts' section tables are identical (`validate.py:12-22` and
`import-mime.py:8-18`), so both are `Registry.Sections`.

Python's dictionary is an insertion-ordered sequence of entries with distinct
keys:
- `Sync.Put` overwrites in place or appends.
- `Sync.Lookup` is `dict.get`.

Some behaviour of the code is easy to misread. The model keeps it as
written:
- **No skipped rows:** the validator rejects every row after the header that
  is not exactly four cells wide, blank rows and section-marker rows
  included.
- **One diagnostic per row:** the first failing check ends a row's checks,
  so the validator reports only that failure.
- **Sort ties:** the replay never checks the code of a one-part name such as
  `text`, so two entries can share a code. The sort is modelled as stable.
- **Padding:** `save` pads each cell after the first with leading spaces,
  and a CSV reader has to skip initial space to read the cells back.
- **Second runs:** a second run of the synchronizer need not reproduce its
  first output. See `SyncProps.GatherNothingNew` below.
- **Checks neither script makes:** neither script checks row order, column
  alignment when reading, a reserved code range or a pattern for names.
  None of these is modelled.

## Model

| member | source | states |
|---|---|---|
| Text.Split | validate.py:73 | `str.split` yields at least one part, no part holds the separator, and joining the parts with it gives back the string |
| Text.SplitOnce | import-mime.py:123 | `split('/', 1)` into two parts succeeds exactly when the name has a `/`; the first part holds no `/` and the parts rejoin to the name |
| Text.SplitOnceAgrees | import-mime.py:123 | `split('/', 1)` fails exactly when `split('/')` gives one part; its head is the first part; its tail has no `/` exactly when `split('/')` gives two parts |
| Text.Strip | validate.py:60 | what `int()` strips before parsing: the result neither starts nor ends with whitespace and sits in the input with only whitespace around it |
| Hex.ToHex | import-mime.py:58 | rendering with a zero-padded width gives exactly that many lower-case digits whose hex value is the number |
| Hex.ToHexOfHexValue | import-mime.py:58 | a lower-case digit string is the rendering of its own value at its own width |
| Hex.IsCodeString | validate.py:55 | the code pattern accepts exactly `0x` followed by a non-empty even run of lower-case hex digits, with or without one final newline, which `$` lets through |
| Hex.ParseBase16 | validate.py:60 | `int(s, 16)` gives a value exactly when the stripped text is a non-empty hex run, bare or after `0x`/`0X`, and that value is the run's; otherwise it raises |
| Hex.CodeStringParses | validate.py:55-62 | every string the code pattern accepts parses, to the value of its digit pairs |
| Codec.SevenBitGroups | import-mime.py:53-56 | the number of `>>= 7` steps to reach zero is the `n` with `128^(n-1) <= c < 128^n`, and 0 only for 0 |
| Codec.ByteCount | import-mime.py:49-56 | the byte count is at least one and brackets the code between `128^(n-1)` and `128^n` |
| Codec.ByteCountUnique | import-mime.py:49-56 | the byte count is the only `n >= 1` that brackets the code that way |
| Codec.CountBytes | import-mime.py:49-56 | the counting loop brackets the code the same way and so computes the byte count |
| Codec.FormatCode | import-mime.py:58 | the text is `0x` and `2 * nbytes` digits, matches the validator's code pattern, and its digits have the code's value |
| Codec.FormatCodeRoundTrip | import-mime.py:48-58 | `int(formatCode(c), 16) == c` for every code |
| Codec.FormatCodeZero | import-mime.py:49-51 | code 0 is written `0x00` |
| Codec.FormatCodeOneByte | import-mime.py:48-58 | 0x7f is written `0x7f` |
| Codec.FormatCodeTwoBytes | import-mime.py:48-58 | 0x80 is written `0x0080` |
| Registry.SectionBases | import-mime.py:8-18 | every section base is in the MIME range and its own `& 0xff0000` |
| Registry.AliasMap | validate.py:28-31 | the alias dictionary has exactly the names listed in some group, each mapped to a group holding it |
| Registry.AliasGroups | validate.py:8-10 | two names share an alias group exactly when both are `ipfs` or `p2p` |
| Validate.MimeCheck | validate.py:64-84 | no error exactly when the code is in the MIME range iff the tag is `mimetype` and a MIME name is a known section alone with its base code or with one subtype in its range; otherwise, case by case, the error kind of the first failed test: range without tag, tag outside range, unknown section, bare section with another code (naming the base), subtype outside the section, more than two parts |
| Validate.CheckFields | validate.py:45-84 | a row is well formed exactly when it passes every row-local check, with its name and parsed code; otherwise the error is that of the first check it fails: arity, empty name, code pattern, MIME |
| Validate.CheckUnique | validate.py:86-104 | a repeated name is rejected with its earlier code and the tables are unchanged; a new name is recorded; a new code is recorded with its name; an aliased collision is accepted without touching `codes`; another collision is rejected |
| Validate.CheckRow | validate.py:43-104 | one loop iteration only adds to the `names` and `codes` tables; an accepted row leaves its name and code recorded, a rejected row leaves `codes` as it was; which rows are accepted is `Validate.CheckRowSpec` |
| Validate.CheckRowSpec | validate.py:43-104 | a row is accepted exactly when it passes the row checks, its name is new and its code is new or held by an alias; which table entries each row adds |
| Validate.ScanRows | validate.py:38-41 | diagnostics name only rows after the header, in strictly ascending row order, so at most one per row |
| Validate.Check | validate.py:24-109 | `success` is true exactly when no row was reported, and every diagnostic names a row after the header |
| ValidateFacts.DiagnosticsAreVerdicts | validate.py:105-107 | every diagnostic is the rejection of its row, with that row's error |
| ValidateFacts.RejectionsReported | validate.py:105-107 | every rejected row is reported, so a failing row does not stop the scan |
| ValidateFacts.CleanIffAllAccepted | validate.py:105-109 | the scan reports nothing exactly when every row after the header is accepted |
| ValidateFacts.SuccessIffAllAccepted | validate.py:33 | `check` succeeds exactly when every row after the header is accepted |
| ValidateFacts.ReportedRows | validate.py:38-41 | the diagnostics are exactly the rejected rows, with their errors, in row order |
| ValidateFacts.HeaderNeverChecked | validate.py:39-41 | replacing the header row by any row leaves the verdict and the diagnostics unchanged |
| ValidateFacts.ScanGrows | validate.py:88-104 | along the scan a recorded name keeps its code and a recorded code keeps its first holder |
| ValidateFacts.NameRecorded | validate.py:88-91 | a row that passes its own checks leaves its name recorded, even when it is then rejected for its code |
| ValidateFacts.CodeRecorded | validate.py:93-104 | an accepted row leaves its code recorded, held by itself or by an alias |
| ValidateFacts.NameStaysTaken | validate.py:88-89 | once a well-formed row carried a name, every later well-formed row with that name is rejected as a duplicate name |
| ValidateFacts.CodeStaysTaken | validate.py:93-102 | a later new name reusing an accepted row's code is accepted exactly when the two names are aliases, and otherwise rejected naming the holder |
| ValidateFacts.FieldsMeaning | validate.py:45-84 | the row-local checks pass exactly when the row is well formed, with its own name and code |
| ValidateFacts.MalformedRowsRejected | validate.py:45-56 | a row of the wrong width, with an empty name or with a code off the pattern is rejected with that reason |
| ValidateFacts.ParseNeverFails | validate.py:58-62 | no row is ever rejected because its code failed to parse |
| ValidateFacts.ParsedFields | validate.py:64-84 | past the pattern check a row is well formed or fails with a MIME error |
| ValidateFacts.RepeatedNameRejected | validate.py:88-89 | a repeated name is rejected even when the codes differ |
| ValidateFacts.SharedCodeNeedsAlias | validate.py:93-102 | a reused code is accepted exactly when the current name and the holder are aliases |
| ValidateFacts.CleanScan | validate.py:86-104 | when every row is accepted the names are distinct and equal codes only join alias names |
| ValidateFacts.MimeRowInSection | validate.py:72-84 | a passing `mimetype` row names a known section with at most one subtype, its code has the section's high byte, and a bare section has exactly the base code |
| ValidateFacts.PassingScan | validate.py:105-109 | on success every row is well formed, names are distinct and shared codes belong to aliases |
| ValidateFacts.PassingRows | validate.py:105-109 | on success every row after the header passes its row checks |
| ValidateFacts.PassingNamesUnique | validate.py:88-91 | on success no two rows share a name |
| ValidateFacts.PassingCodesShared | validate.py:93-102 | on success two rows share a code only when they are `ipfs` and `p2p` |
| ValidateFacts.ValidTable | validate.py:24-109 | a table that passes has four-cell rows with names, unique names, codes shared only by `ipfs`/`p2p`, the MIME range exactly on `mimetype` rows, and MIME codes in their section |
| Layout.ColumnWidth | import-mime.py:31-35 | no cell of a column is longer than its width |
| Layout.ColumnWidthAttained | import-mime.py:31-35 | a positive width is the length of some cell of that column |
| Layout.WidenCells | import-mime.py:33-35 | one row widens every stored width to the longest of the old width and its own cell; only positive widths are stored |
| Layout.Widths | import-mime.py:31-35 | `widths.get(i, 0)` is the longest cell of column `i` over all rows, header included, and a column is stored exactly when that is positive |
| Layout.Repeat | import-mime.py:37-38 | `" " * n` has `n` characters, none for `n <= 0` |
| Layout.FormatRow | import-mime.py:37-39 | a formatted row has one cell per cell and its first cell unpadded; the padding of the others is `Layout.PaddingAtLeastOne` and `Layout.SavePadded` |
| Layout.Save | import-mime.py:30-39 | `save` writes one line per row with as many cells as the row; alignment is `Layout.ColumnsAligned`, read-back `Layout.ReadBack` |
| Layout.SavePadded | import-mime.py:37-38 | every saved cell is its own content after leading spaces only |
| Layout.FormatRowAsWritten | import-mime.py:37-39 | formatting a row with `widths[i - 1]` succeeds exactly when every column before its last has a stored width |
| Layout.FormatAllAsWritten | import-mime.py:37-39 | the whole table formats exactly when each row does, row by row |
| Layout.SaveAsWritten | import-mime.py:30-39 | `save` as written yields a table of the same length when it does not fail |
| Layout.PaddingAtLeastOne | import-mime.py:37-38 | every cell after the first gets `1 + widths[i-1] - len(row[i-1])` leading spaces, at least one |
| Layout.ColumnsAligned | import-mime.py:31-39 | in every saved line cell `i`'s content starts at the sum of `widths[j] + 2` over earlier columns, `widths[j]` being the longest cell of column `j` |
| Layout.ReadBack | import-mime.py:28 | reading a saved cell with `skipinitialspace` drops exactly the padding, giving back a cell that does not start with a space |
| Layout.SaveAsWrittenFails | import-mime.py:34-38 | `save` as written fails exactly when some row has a cell after a column that is empty in every row |
| Layout.EmptyFirstColumnFails | import-mime.py:34-38 | on `[["", "x"]]` `save` as written fails while the corrected save writes `["", " x"]` |
| Layout.SaveAgrees | import-mime.py:37-39 | where `save` as written succeeds it writes what the corrected save writes |
| Layout.FormatRowAgrees | import-mime.py:37-38 | row by row, `widths[i - 1]` and `widths.get(i - 1, 0)` format alike whenever the lookup succeeds |
| Sync.FirstTagged | import-mime.py:67-69 | the first row from a start whose `mimetype` tag is as asked, or the table's end, with no such row before it |
| Sync.BlockStart | import-mime.py:67-73 | `mimeStart` is after the header, no row before it is tagged `mimetype`, and the row there is |
| Sync.BlockEnd | import-mime.py:75-78 | `mimeEnd` is the end of the run of `mimetype` rows from `mimeStart` |
| Sync.Lookup | import-mime.py:121 | a lookup finds an entry exactly when the name is a key, and that entry has the name |
| Sync.ReadName | import-mime.py:123 | a source name with its `split('/', 1)`, present exactly when it has a `/` |
| Sync.ReplayRow | import-mime.py:80-99 | a block row is kept only when its code parses, its section is known and it has at most two parts; a two-part row moves its section's counter to its own code, and no counter goes down; every outcome is `SyncFacts.ReplayRowSpec` |
| Sync.Replay | import-mime.py:75-99 | after a successful replay every section has a counter at or above its base; success is `SyncFacts.ReplayIff`, the counters `SyncFacts.ReplayCounters` |
| Sync.AssignName | import-mime.py:120-126 | a source name already assigned changes nothing; a new one is assigned only when it has a `/` and a known section; no counter goes down; every outcome is `SyncFacts.AssignNameSpec` |
| Sync.Assign | import-mime.py:116-126 | assignment over the source names never lowers a counter; success is `SyncFacts.AssignIff`, the new entries `SyncFacts.AssignNames` and `SyncFacts.AssignCodes` |
| Sync.Gather | import-mime.py:67-126 | `main` up to the sort succeeds only with the root id `media-types` and no `mimetype` row after the block, with every counter at or above its base; success is `SyncProps.GatherOk`, the keys `SyncProps.GatherNames` |
| Sync.UpdateTable | import-mime.py:128-133 | the update fails exactly when gathering fails, with the same error; its output is `SyncProps.SyncShape`, `SyncProps.SyncSplices`, `SyncProps.SyncAscending`, `SyncProps.PermutedKeys` and `SyncProps.SyncNames` |
| Sync.Insert | import-mime.py:130 | inserting into a sorted sequence keeps it sorted and adds exactly the entry |
| Sync.SortByCode | import-mime.py:130 | the result is sorted by code and is a permutation of the entries |
| Sync.RenderEntry | import-mime.py:131-132 | a rendered entry is a four-cell `mimetype` row |
| Sync.Block | import-mime.py:131 | the block is the rows from `mimeStart` to `mimeEnd`, each four cells wide |
| SyncFacts.PutKeys | import-mime.py:82 | `assigned[name] = …` keeps an existing key in place, appends a new one, and keeps keys distinct |
| SyncFacts.PutLookup | import-mime.py:82 | after the assignment the key gives the new entry and every other key what it gave before |
| SyncFacts.ReplayRowSpec | import-mime.py:80-99 | one block row fails on an unparsable code, unknown section, more than two parts, wrong section, or a code other than `lastCode + 1`, with those error kinds; otherwise it records the entry and advances only a two-part name's counter |
| SyncFacts.ReplayCounters | import-mime.py:88-99 | after a replay every `lastCode[s]` is the base of `s` plus the number of two-part block names of `s` |
| SyncFacts.ReplayIff | import-mime.py:75-99 | the replay succeeds exactly when each row's code parses, its section is known, it has at most two parts, and the `k`-th two-part row of a section has the section's high byte and code `base + k` |
| SyncFacts.ReplayRecords | import-mime.py:82 | after a replay the keys are distinct and each name gives the entry of its last block row |
| SyncFacts.AssignNameSpec | import-mime.py:120-126 | a source name already assigned is skipped; one without `/` or with an unknown section fails; a new one gets `lastCode[s] + 1` and an empty description, appended, and advances the counter |
| SyncFacts.AssignStep | import-mime.py:116-126 | one assignment step keeps everything for a known name and appends exactly one entry for a new one |
| SyncFacts.AssignPrefix | import-mime.py:126 | assignment never changes the entries that were there before |
| SyncFacts.AssignExtends | import-mime.py:116-126 | after assignment every source name is a key and the keys stay distinct |
| SyncFacts.AssignIff | import-mime.py:116-126 | assignment succeeds exactly when every source name is assigned already or has a `/` and a known section |
| SyncFacts.AssignNames | import-mime.py:116-126 | the assigned entries are the old ones followed by one entry per new source name, in order of first appearance, each of them assignable |
| SyncFacts.AssignCounters | import-mime.py:124-125 | after assignment each counter has advanced by the number of new names in its section |
| SyncFacts.AssignCodes | import-mime.py:124-126 | the `j`-th new name gets its section's counter plus the number of new names of that section up to and including it, and an empty description |
| SyncFacts.NewNameAssignable | import-mime.py:121-126 | a key that assignment added comes from a source name that has a `/` and a known section |
| SyncFacts.AssignNothingNew | import-mime.py:121-122 | when every source name is already assigned, assignment changes nothing |
| SyncFacts.InsertStable | import-mime.py:130 | inserting an entry keeps the order of the entries with each code and puts the new one after those equal to it |
| SyncFacts.SortStable | import-mime.py:130 | the sort keeps the dictionary order among entries of equal code, as `list.sort` does |
| SyncProps.BlockRows | import-mime.py:75-76 | the block rows as the replay reads them, one per block row, with that row's name |
| SyncProps.ReplayKeys | import-mime.py:82 | after a replay a name is a key exactly when some block row carries it |
| SyncProps.ReplayedKeys | import-mime.py:75-82 | after a replay of a table's block a name is a key exactly when it is in the block |
| SyncProps.StrayCheck | import-mime.py:105-108 | the after-block check passes exactly when every `mimetype` row after the header lies inside `[mimeStart, mimeEnd)` |
| SyncProps.GatherOk | import-mime.py:67-126 | `main` up to the sort succeeds exactly when the block replays, no `mimetype` row lies outside it, the root id is `media-types`, and every source name is in the block or assignable |
| SyncProps.GatherReplays | import-mime.py:75-126 | on success the replay succeeded and the result is assignment over the replayed dictionary |
| SyncProps.GatherKeeps | import-mime.py:82 | every block name keeps the code and description of its last block row |
| SyncProps.AssignedKeys | import-mime.py:116-126 | after assignment the keys are distinct and are exactly the old keys and the source names |
| SyncProps.GatherNames | import-mime.py:116-126 | the gathered keys are distinct and are exactly the block names and the source names |
| SyncProps.GatherCodes | import-mime.py:94-99 | the gathered entries are the replayed ones followed by the new names, the `j`-th new name coded as its section base plus its section's two-part block names plus its section's new names up to it |
| SyncProps.CodeAbove | import-mime.py:94-99 | a new name's code is above the code of every two-part block row of its section |
| SyncProps.NewCodesIncrease | import-mime.py:124-125 | of two new names of one section the later one gets the higher code |
| SyncProps.GatherNothingNew | import-mime.py:121-122 | when every source name is already in the block no code is assigned and the result is the replayed dictionary |
| SyncProps.RenderedCode | import-mime.py:131 | the code cell of a rendered row parses back to the entry's code |
| SyncProps.RenderAscends | import-mime.py:128-133 | rendering sorted entries gives rows whose code cells parse and never decrease |
| SyncProps.SameFormat | import-mime.py:58 | `formatCode` is injective |
| SyncProps.RenderInjective | import-mime.py:131-132 | two entries that render to the same row are the same entry |
| SyncProps.SyncShape | import-mime.py:128-133 | the updated table is the rows before `mimeStart`, the rendered sorted entries, then the rows from `mimeEnd` |
| SyncProps.RewrittenParts | import-mime.py:131 | a splice keeps the length arithmetic, the prefix and the suffix, and puts the new rows in order at `mimeStart` |
| SyncProps.NewBlock | import-mime.py:131-133 | the new block is the rendering of every gathered entry sorted by code |
| SyncProps.SyncSplices | import-mime.py:131 | the rows before `mimeStart` and from `mimeEnd` on are unchanged, and every new block row is a `mimetype` row |
| SyncProps.SyncAscending | import-mime.py:128-133 | the new block's code cells parse and never decrease |
| SyncProps.RenderedRows | import-mime.py:128-133 | under a permutation an entry is present exactly when its rendered row is among the rendered rows |
| SyncProps.SyncRows | import-mime.py:128-133 | the new block holds exactly the rendered rows of the gathered entries |
| SyncProps.RenderedKeys | import-mime.py:131-132 | the name cells of rendered rows are the entries' keys in order |
| SyncProps.PermutedKeys | import-mime.py:130 | a permutation keeps the set of keys |
| SyncProps.SyncNames | import-mime.py:116-133 | a name appears in the new block exactly when it was in the old block or among the source names |

## Left out

- File I/O is not modelled (`validate.py:34-35` and `import-mime.py:25-28, 41-45`): opening the file, the `csv` reader and writer with their quoting and escaping, the temporary file and `os.rename`. Tables are given as sequences of rows of strings.
- The fetch of the IANA registry and its XML parsing (`import-mime.py:110-120`) are parameters: `Sync.Source` carries the root id and the `file` texts. An element whose `.text` is `None` is not modelled.
- `Hex.ParseBase16`: Python's `int(s, 16)` also accepts a sign and underscores between digits, and it strips Unicode whitespace and reads Unicode digits. The model strips only the ASCII whitespace of `str.isspace()` (space, `\t`, `\n`, `\r`, `\v`, `\f` and `\x1c` to `\x1f`) and reads ASCII hex digits after an optional `0x`/`0X`. On the strings the validator's pattern lets through, the two agree.
- Error messages, `stderr` printing and `sys.exit` are not modelled. Errors are the kinds in `Validate.CheckError` and `Sync.SyncError`, with the row index.
- Sync.WellShaped: the script raises Python's unpacking error on a row after the header that is not four cells wide. The model requires such rows to be four wide rather than modelling that error.
- Sync.BlockStart: the `for`/`else` arithmetic can leave `mimeStart` and `mimeEnd` one or two past the end of the table when it has no `mimetype` row (`import-mime.py:67-73, 100-103`). The model clamps both to the table length. Python clamps slice indices, so the splice still appends the block.
- Sync.UpdateTable: the final `table.save()` is modelled on its own, as `Layout.Save`, and not composed with the sync.
- SyncProps.GatherNothingNew: only the run whose source adds no new name is stated, and there the result is exactly the replayed block. A second run after names were added is not stated, because it does not hold in general. `split('/', 1)` accepts a source name such as `text/b/c`, so the first run assigns it a code. The next replay splits that name on every `/`, finds three parts and rejects the row.
- SyncProps.CodeAbove: the fresh-code property is stated over block rows and new entries described by `SyncProps.NewEntry`. `SyncProps.GatherCodes` shows that the gathered entries are described that way.
- Layout.SaveAsWritten: only the failure condition and the agreement with `Layout.Save` are stated. Alignment is proved about the corrected `Layout.Save`.
- The CSV round trip of a whole saved row is not modelled. Alignment (`Layout.ColumnsAligned`) ignores quoting, and the read-back (`Layout.ReadBack`) is stated cell by cell.

## Findings

| source | as written | input that shows it | evidently intended | confidence | as-written member | corrected member |
|---|---|---|---|---|---|---|
| import-mime.py:34-38 | `widths[i]` is stored only for a cell longer than `widths.get(i, 0)`, so a column empty in every row is never stored; the padding then reads `widths[i - 1]`, a `KeyError` for the cell after such a column | `[["", "x"]]` | a missing width counts as 0, as in `widths.get(i - 1, 0)`, giving `["", " x"]` | not executed; the shipped table's header fills every column, so it does not arise there | Layout.SaveAsWritten, Layout.EmptyFirstColumnFails | Layout.Save, Layout.ColumnsAligned |
