# Memory-store integrity checks and SVG terminal generator, in Dafny

This project models two parts of a plugin repository for a coding assistant's
file-based memory. Dafny proves properties of both models.

1. **The integrity test battery of the memory store**
   (`packs/memory/tests/test_memory_integrity.py`). A store is a directory
   holding several files:
   - `MEMORY.md`, the index document, with a table of projects;
   - `projects/<name>.md`, one dossier per project;
   - `projects/<name>.observations.md`, one observation log per project;
   - `memory-config.json`, the configuration.

   Sixteen of the module's seventeen tests are modelled: all but
   `test_no_secrets`. They check each document's format and the
   consistency between the documents. The checks cover:
   - the 200-line bound;
   - the four dossier sections;
   - the Index table of an observation log, with its types, numbering,
     details headings and context markers;
   - the references from the index to the dossiers;
   - the `(N entries)` counts against the rows of each log.

   Every regular expression of the sixteen modelled tests is modelled as a
   scanner written for that one pattern, with its greedy and backtracking
   behaviour worked out. Lemmas relate each scanner to the text it accepts.
   The four patterns of `test_no_secrets` are not modelled.
2. **`esc` and `make_svg` of the SVG generator** (`docs/gifs/generate-svgs.py`).
   `esc` is the four-step escape of XML text and double-quoted attribute
   values. It covers section 2.4 and the AttValue production of section 2.3
   of XML 1.0 (Fifth Edition). `make_svg` lays out one animated `<text>`
   element per line of a terminal recording. The element loop and the
   segment loop are methods with loop invariants. Each is proved against a
   specification function.

Files:

| file | module | contents |
|---|---|---|
| `text.dfy` | `Text` | Python string primitives: `startswith`, `endswith`, `in`, `split`, `join`, `strip`, `replace`, character classes, `int()` and decimal printing |
| `memory_store.dfy` | `MemoryStore` | file-name classes, `list_dossiers`, `list_observations`, the configuration and the import step |
| `observation_log.dfy` | `ObservationLog` | the Index-row, heading and block recognisers, and the per-log checks |
| `index_document.dfy` | `IndexDocument` | reference and count recognisers of `MEMORY.md`, and the three cross-file checks |
| `memory_integrity.dfy` | `MemoryIntegrity` | sixteen of the seventeen tests, the module run, scenario lemmas |
| `svg_escape.dfy` | `SvgEscape` | `esc`, a per-character reference escape, and the inverse |
| `svg_layout.dfy` | `SvgLayout` | layout arithmetic, tuple defaults, opacity animation, element and document assembly |

Modelling choices:
- **Strings** are sequences of characters.
- `\d` and `\w` are their ASCII parts. `\s` and `str.strip` use the full set
  of characters for which Python's `isspace` is true.
- Under `re.MULTILINE`, `^` anchors at the start of every piece of
  `content.split("\n")`.
- **The store** is a value with four parts:
  - the index text, or nothing when the file is absent;
  - the listing of `projects/`, or nothing when the directory is absent;
  - the readable files under `projects/`, keyed by relative path;
  - the configuration file in one of three states: absent, not a JSON
    object, or a loaded JSON object.
- **Test results** are Pass, Fail or Skip. A failed assertion and an
  exception inside a test are both Fail. A listed file that cannot be read
  makes its test fail.
- **The import step.** Importing the test module evaluates
  `get_memory_path()` and `get_valid_types()`. When either raises, no test
  runs (`ImportSettings`, `RunAll`). This happens when the configuration is
  not an object or its `memory_path` is not a string. It also happens when
  its `observation_types` is not iterable or holds unhashable items.
- **Where a docstring and the code differ.**
  - The docstring of `test_all_dossiers_in_table`
    (packs/memory/tests/test_memory_integrity.py:119) says every dossier
    should be referenced in the table. Lines 121-125 check less: the
    dossier's name, with every `.md` removed, must occur somewhere in the
    index text. The model follows lines 121-125 (see
    `ProjectNameRemovesEveryOccurrence`).
- **The join of `make_svg`.** docs/gifs/generate-svgs.py:87 is the f-string
  field `{"chr(10)".join(text_elements)}`. Its separator is the string
  literal `"chr(10)"`, seven characters, not a call of `chr`. The model
  joins the elements with those seven characters.
- **Integer division.** `width // 2` floors. Dafny's `/` is Euclidean, so
  `width / 2` agrees with Python for every width, negative ones included.

## Model

| member | source | states |
|---|---|---|
| `MemoryStore.Dossiers` | packs/memory/tests/test_memory_integrity.py:53-61 | a name is kept exactly when it is in the listing, ends in `.md` and does not end in `.observations.md`; never more names than listed |
| `MemoryStore.Observations` | packs/memory/tests/test_memory_integrity.py:64-68 | a name is kept exactly when it is in the listing and ends in `.observations.md` |
| `MemoryStore.ListDossiers` | packs/memory/tests/test_memory_integrity.py:53-61 | definition: no names when `projects/` is absent, otherwise the dossier names of the listing |
| `MemoryStore.ListObservations` | packs/memory/tests/test_memory_integrity.py:64-68 | definition: no names when `projects/` is absent, otherwise the observation-log names of the listing |
| `MemoryStore.NameClassesPartition` | packs/memory/tests/test_memory_integrity.py:57-68 | every `.md` name is exactly one of dossier and observation log; an observation-log name ends in `.md` |
| `MemoryStore.ListingSplit` | packs/memory/tests/test_memory_integrity.py:53-68 | the two lists together have as many entries as the listing has `.md` names |
| `MemoryStore.ValidTypes` | packs/memory/tests/test_memory_integrity.py:28-45 | definition: the five defaults without a configuration or without `observation_types`; otherwise the set of the configured strings, or the keys of a configured object; nothing when `set` would raise or the file cannot be read |
| `MemoryStore.ImportRaises` | packs/memory/tests/test_memory_integrity.py:18-45 | definition: the configuration cannot be read as an object, its `memory_path` is not a string, or its `observation_types` is a scalar or a list holding a list or an object |
| `MemoryStore.ImportSettings` | packs/memory/tests/test_memory_integrity.py:18-45 | the import fails exactly when the configuration is not a JSON object, has a `memory_path` that is not a string, or has an `observation_types` that `set` rejects (a scalar, or a list holding a list or an object); otherwise it yields the five defaults when there is no configuration or no `observation_types`, exactly the strings of a configured list, and the keys of a configured object |
| `MemoryStore.ConfiguredTypesReplaceDefaults` | packs/memory/tests/test_memory_integrity.py:28-39 | a configured list of type names makes exactly those names valid, whatever the defaults are |
| `MemoryStore.DefaultTypesWithoutSetting` | packs/memory/tests/test_memory_integrity.py:28-39 | without a configuration, or without `observation_types`, exactly the five default types are valid |
| `MemoryStore.MissingConfigKey` | packs/memory/tests/test_memory_integrity.py:301-308 | no key is reported exactly when all of `memory_path`, `projects` and `fallback_project` are present; a reported key is absent and every key asserted before it is present |
| `Text.Strip` | packs/memory/tests/test_memory_integrity.py:89 | `strip()` gives a slice with only whitespace around it that starts and ends with non-whitespace |
| `Text.SplitPieces` | packs/memory/tests/test_memory_integrity.py:89 | `split("\n")` gives one more piece than there are line breaks, with no line break in any piece |
| `Text.JoinSplit` | packs/memory/tests/test_memory_integrity.py:89 | joining the pieces of a split with the separator gives back the text |
| `Text.StripPadded` | packs/memory/tests/test_memory_integrity.py:89 | whitespace added on either side does not change what `strip()` returns |
| `Text.NatToStringValue` | packs/memory/tests/test_memory_integrity.py:157 | `int()` of a printed number gives the number back |
| `MemoryIntegrity.LineCount` | packs/memory/tests/test_memory_integrity.py:89 | definition: the number of pieces of `content.strip().split("\n")` |
| `MemoryIntegrity.WithinLineBound` | packs/memory/tests/test_memory_integrity.py:88-92 | definition: at most 200 such lines |
| `MemoryIntegrity.HasRequiredSections` | packs/memory/tests/test_memory_integrity.py:179-194 | definition: each of `## Status`, `## Description`, `## Current State` and `## Session History` occurs in the dossier |
| `MemoryIntegrity.LineBoundIff` | packs/memory/tests/test_memory_integrity.py:88-92 | the line bound holds exactly when the stripped text has at most 199 line breaks; blank text counts as one line |
| `MemoryIntegrity.LineCountPadded` | packs/memory/tests/test_memory_integrity.py:196-204 | surrounding whitespace does not change the line count |
| `MemoryIntegrity.RequiredSectionsKept` | packs/memory/tests/test_memory_integrity.py:179-194 | the four sections are substrings in any order, so text added around the sections never breaks the check |
| `MemoryIntegrity.Run` | packs/memory/tests/test_memory_integrity.py:79-308 | definition: the outcome of one test; Skip for the six index tests when `MEMORY.md` is absent, and for the JSON test without a configuration; otherwise Pass or Fail by the check the test asserts, over every listed dossier or log where it loops |
| `MemoryIntegrity.SkipIff` | packs/memory/tests/test_memory_integrity.py:71-308 | a test is skipped exactly when it needs `MEMORY.md` and that file is absent, or it is the JSON test and the configuration is absent |
| `MemoryIntegrity.RunAll` | packs/memory/tests/test_memory_integrity.py:18-45 | no test runs exactly when the configuration makes the import raise; otherwise there is one outcome per test, each computed with the imported valid types, and a test is skipped exactly when it needs the absent `MEMORY.md` or is the JSON test without a configuration |
| `MemoryIntegrity.AllTestsOnce` | packs/memory/tests/test_memory_integrity.py:71-308 | the battery lists every modelled test, and none twice |
| `MemoryIntegrity.EmptyStore` | packs/memory/tests/test_memory_integrity.py:53-308 | an empty store skips seven of the modelled tests (the six that need the index and the JSON test), fails only the configuration-exists test and passes the rest |
| `MemoryIntegrity.UnreadableDossierFails` | packs/memory/tests/test_memory_integrity.py:186-204 | a listed dossier that cannot be read fails both dossier tests |
| `MemoryIntegrity.ConfiguredTypeAccepted` | packs/memory/tests/test_memory_integrity.py:225-235 | with `observation_types` configured, logs whose types are all listed pass the type test |
| `MemoryIntegrity.UnconfiguredTypeRejected` | packs/memory/tests/test_memory_integrity.py:225-235 | without a configuration, a log using a type outside the five defaults fails the type test |
| `MemoryIntegrity.ImportFailures` | packs/memory/tests/test_memory_integrity.py:18-25 | a configuration that is not an object, or has a non-string `memory_path`, stops the whole module |
| `ObservationLog.CellSound` | packs/memory/tests/test_memory_integrity.py:229 | a recognised cell is a non-empty run of its class followed by the separator, and the text is cell, separator and rest |
| `ObservationLog.CellComplete` | packs/memory/tests/test_memory_integrity.py:229 | a non-empty run followed by a separator that starts outside the class is recognised as exactly that cell |
| `ObservationLog.RowNumberSound` | packs/memory/tests/test_memory_integrity.py:242 | a line accepted by `^\| (\d+) \|` starts with `| `, the captured digits and ` \|`; the digits are non-empty |
| `ObservationLog.RowNumberComplete` | packs/memory/tests/test_memory_integrity.py:257 | every line of that form is accepted with exactly those digits |
| `ObservationLog.RowCellsSound` | packs/memory/tests/test_memory_integrity.py:229 | a line accepted by the type pattern also has a number cell, and starts with the number, date and type cells the pattern captures |
| `ObservationLog.RowCellsComplete` | packs/memory/tests/test_memory_integrity.py:229 | every line starting with digits, a date of digits and `-`, and a word-character type, in that cell layout, yields that date and type |
| `ObservationLog.ParseRow` | packs/memory/tests/test_memory_integrity.py:229-242 | a parsed row has a non-empty digit number |
| `ObservationLog.RowsOf` | packs/memory/tests/test_memory_integrity.py:242 | every extracted row is valid, and there are no more rows than lines |
| `ObservationLog.RowsOfAppend` | packs/memory/tests/test_memory_integrity.py:242 | extraction works line by line: the rows of two stretches of lines are the rows of each, in order |
| `ObservationLog.IndexNums` | packs/memory/tests/test_memory_integrity.py:257 | every extracted number is a non-empty string of digits |
| `ObservationLog.RowCount` | packs/memory/tests/test_memory_integrity.py:167 | definition: the number of lines that start with `\| ` and a digit |
| `ObservationLog.RowsWithinCount` | packs/memory/tests/test_memory_integrity.py:167 | the row count is at least the number of index rows the numbering check sees |
| `ObservationLog.CountExceedsRowsExample` | packs/memory/tests/test_memory_integrity.py:167 | `\| 7a` counts as a row for the count check, but no row is numbered from it |
| `ObservationLog.HasIndexTable` | packs/memory/tests/test_memory_integrity.py:210-218 | definition: `## Index` and the header `\| # \| Date \| Type \| Summary \| Files \|` both occur |
| `ObservationLog.HasDetailsSection` | packs/memory/tests/test_memory_integrity.py:220-223 | definition: `## Details` occurs |
| `ObservationLog.TypesValid` | packs/memory/tests/test_memory_integrity.py:225-235 | definition: every type the row pattern captures is a valid type |
| `ObservationLog.Iota` | packs/memory/tests/test_memory_integrity.py:246 | `list(range(1, n + 1))` has n entries, the i-th being i + 1 |
| `ObservationLog.SequentialOkIff` | packs/memory/tests/test_memory_integrity.py:237-251 | the numbering check passes exactly when the i-th number is i + 1 for every i; an empty list passes |
| `ObservationLog.SequentialOkExamples` | packs/memory/tests/test_memory_integrity.py:237-251 | `[1, 2, 4]` and `[2, 1]` fail; `[]` and `[1, 2, 3]` pass |
| `ObservationLog.NumberingOk` | packs/memory/tests/test_memory_integrity.py:237-251 | definition: the numbers the row pattern captures, read as integers, are 1, 2, ..., n |
| `ObservationLog.NumberingOkIff` | packs/memory/tests/test_memory_integrity.py:237-251 | the numbering check on a log passes exactly when its rows are numbered 1, 2, ..., n in document order |
| `ObservationLog.DetailsForEveryRow` | packs/memory/tests/test_memory_integrity.py:253-263 | definition: for every number cell as written, `### [num]` occurs in the log |
| `ObservationLog.HeadingsForNumberedRows` | packs/memory/tests/test_memory_integrity.py:237-263 | when both the numbering and the details checks pass, the j-th row's number reads j + 1 and its `### [num]` heading occurs |
| `ObservationLog.HeadingAt` | packs/memory/tests/test_memory_integrity.py:269 | a recognised heading `### [digits]` stands at that index with non-empty digits, is followed on its line by at least one character, and the match ends at the end of that line |
| `ObservationLog.HeadingAtComplete` | packs/memory/tests/test_memory_integrity.py:269 | every `### [digits]` followed by a character other than a line break is recognised, with exactly those digits |
| `ObservationLog.HeadingAtBare` | packs/memory/tests/test_memory_integrity.py:269 | a `### [digits]` at the end of the text or of its line is not matched: `[^\n]+` needs a character |
| `ObservationLog.HeadingsFrom` | packs/memory/tests/test_memory_integrity.py:269 | each reported heading number consists of digits, and its heading occurs in the text |
| `ObservationLog.FirstOccurrence` | packs/memory/tests/test_memory_integrity.py:271-272 | the leftmost occurrence at or after the start index, or none when there is none |
| `ObservationLog.BlockEnd` | packs/memory/tests/test_memory_integrity.py:271 | the lazy `.*?` stops at the first position at which the lookahead `### \[` or the `$` holds |
| `ObservationLog.Block` | packs/memory/tests/test_memory_integrity.py:271-274 | the block exists exactly when the heading occurs; it runs from the first occurrence of the heading to the first position after it where the lookahead holds, and holds no `### [` after the heading |
| `ObservationLog.OneEntryHeadings` | packs/memory/tests/test_memory_integrity.py:269 | a log with one details heading `### [d]` followed by text on its line, and no other `### [` before or after it, yields exactly the one number d |
| `ObservationLog.OneEntryBlock` | packs/memory/tests/test_memory_integrity.py:271-274 | the block of that heading is the rest of the log, without its final line break if it has one |
| `ObservationLog.OneEntryContextIff` | packs/memory/tests/test_memory_integrity.py:265-290 | such a log passes the context check exactly when the text after its heading holds one of the six markers; a heading followed only by free text fails it |
| `ObservationLog.DetailsHaveContext` | packs/memory/tests/test_memory_integrity.py:265-290 | definition: for every heading number found, the block of its heading, when found, holds one of the six markers |
| `ObservationLog.DetailsHaveContextIff` | packs/memory/tests/test_memory_integrity.py:265-290 | the context check passes exactly when the block of every found heading holds one of the six markers |
| `IndexDocument.ProjectNameOfPlainName` | packs/memory/tests/test_memory_integrity.py:121 | for a name without dots, the project name of `name.md` is `name` |
| `IndexDocument.ProjectNameRemovesEveryOccurrence` | packs/memory/tests/test_memory_integrity.py:121 | `replace` removes every `.md`: `notes.md.md` names project `notes` |
| `IndexDocument.HasProjectTable` | packs/memory/tests/test_memory_integrity.py:82-86 | definition: `\| Project` or `\|Project` occurs in the index |
| `IndexDocument.AllDossiersInTable` | packs/memory/tests/test_memory_integrity.py:118-125 | definition: the project name of every listed dossier occurs in the index text |
| `IndexDocument.TableReferencesExist` | packs/memory/tests/test_memory_integrity.py:128-138 | definition: every project the reference scan reports has a listed dossier `p.md` |
| `IndexDocument.RefAt` | packs/memory/tests/test_memory_integrity.py:130-131 | a reference match ends after its start and within the text |
| `IndexDocument.RefAtSound` | packs/memory/tests/test_memory_integrity.py:130-133 | a recognised reference is `` `projects/<p>.md` `` at that index, with p non-empty and backtick-free |
| `IndexDocument.RefAtComplete` | packs/memory/tests/test_memory_integrity.py:130-131 | every such quoted path is recognised at its index with exactly that project |
| `IndexDocument.RefsFrom` | packs/memory/tests/test_memory_integrity.py:131-138 | every reported project is non-empty and backtick-free, and its quoted path occurs in the text |
| `IndexDocument.CountAtSound` | packs/memory/tests/test_memory_integrity.py:154 | a recognised `\((\d+)\s*entr` is `(`, the captured non-empty digits, a run of whitespace and `entr`, and the match ends just after `entr` |
| `IndexDocument.CountAt` | packs/memory/tests/test_memory_integrity.py:154 | definition: `(`, a maximal digit run, a maximal whitespace run and `entr` at the start of the text |
| `IndexDocument.ReadAtDrop` | packs/memory/tests/test_memory_integrity.py:154 | the reading at index x is `CountAt` of the text from x |
| `IndexDocument.LastCount` | packs/memory/tests/test_memory_integrity.py:154 | definition: the greedy `[^\|]*` backtracks, so the count match is tried at the highest index first, then one index lower each time, down to the lowest |
| `IndexDocument.LastHit` | packs/memory/tests/test_memory_integrity.py:154 | definition: the same backtracking over any reading of indices, so that its properties are proved once |
| `IndexDocument.LastCountIsSearch` | packs/memory/tests/test_memory_integrity.py:154 | the count search on a text is that backtracking over the text's readings |
| `IndexDocument.LastHitNone` | packs/memory/tests/test_memory_integrity.py:154 | the search finds nothing exactly when no index from the lowest to the highest reads a match |
| `IndexDocument.LastHitFinds` | packs/memory/tests/test_memory_integrity.py:154 | when x is the last index of the stretch that reads a match, the search reports that match, ending at x plus its length |
| `IndexDocument.LastHitExists` | packs/memory/tests/test_memory_integrity.py:154 | where some index of the stretch reads a match, one of them is the last |
| `IndexDocument.LastHitLast` | packs/memory/tests/test_memory_integrity.py:154 | whatever the search reports is the match at the last index of the stretch that reads one |
| `IndexDocument.LastCountSound` | packs/memory/tests/test_memory_integrity.py:154 | the greedy `[^\|]*` search reports non-empty digits whose `(digits` occurs in the text, and a match end after the lowest index searched and within the text |
| `IndexDocument.CountInSound` | packs/memory/tests/test_memory_integrity.py:154 | what follows a reference yields digits whose `(digits` occurs in it |
| `IndexDocument.CountIn` | packs/memory/tests/test_memory_integrity.py:154 | definition: skip to the first `\|`, then search the cell up to the next `\|` or the end |
| `IndexDocument.CountInCell` | packs/memory/tests/test_memory_integrity.py:154 | with b the first `\|` and c the next `\|` or the end, the recogniser is the search over the cell from b + 1 to c |
| `IndexDocument.CountInExact` | packs/memory/tests/test_memory_integrity.py:154 | over that cell: no count exactly when no index of the cell reads a match; otherwise a last such index exists, and the count is the match there |
| `IndexDocument.CountInWithoutBar` | packs/memory/tests/test_memory_integrity.py:154 | without a `\|` after the reference there is no count |
| `IndexDocument.ClaimAtSound` | packs/memory/tests/test_memory_integrity.py:153-157 | a count match at an index begins with the reference at that index, with its project, and declares non-empty digits that occur as `(digits` |
| `IndexDocument.ClaimAt` | packs/memory/tests/test_memory_integrity.py:153-157 | definition: a reference at the index, then the count read from its end |
| `IndexDocument.ClaimAtRefFound` | packs/memory/tests/test_memory_integrity.py:153-157 | at a reference, a claim exists exactly when a count follows it, and then it is the project, the digits and the end of the count |
| `IndexDocument.ClaimAtCell` | packs/memory/tests/test_memory_integrity.py:153-157 | at a reference: no claim exactly when no index of the following cell reads a match, and otherwise the claim is the match at the last such index |
| `IndexDocument.ClaimAtWithoutBar` | packs/memory/tests/test_memory_integrity.py:153-157 | a reference with no `\|` after it starts no claim |
| `IndexDocument.ClaimsFrom` | packs/memory/tests/test_memory_integrity.py:153-157 | every reported claim has a project whose quoted path occurs and a count of digits that occurs after `(` |
| `IndexDocument.CountAtEntries` | packs/memory/tests/test_memory_integrity.py:154 | `(N entries)` is recognised with exactly the digits N |
| `IndexDocument.LastCountSkips` | packs/memory/tests/test_memory_integrity.py:154 | no count match starts where no `(` stands |
| `IndexDocument.CountInRow` | packs/memory/tests/test_memory_integrity.py:154 | after the reference of a table row whose title holds no `\|`, exactly the declared digits are found, even when the title holds a count pattern of its own |
| `IndexDocument.CountInTitleWithCount` | packs/memory/tests/test_memory_integrity.py:154 | after `\| Bugs (1 entry per fix) (3 entries) \|` the count found is 3, not 1 |
| `IndexDocument.ClaimAtTableRow` | packs/memory/tests/test_memory_integrity.py:153-157 | a table row `` `projects/p.md` \| title(N entries) \| `` yields the claim (p, N) |
| `IndexDocument.ClaimsFromSkips` | packs/memory/tests/test_memory_integrity.py:153 | `finditer` passes over a stretch in which no reference starts |
| `IndexDocument.FirstClaimIsRow` | packs/memory/tests/test_memory_integrity.py:153-157 | after a backtick-free preamble, the first claim reported is the first table row's project and count |
| `IndexDocument.CountsMatch` | packs/memory/tests/test_memory_integrity.py:149-173 | definition: every claim names an observation log that exists and whose row count equals the claimed digits read as a number |
| `IndexDocument.CountsMatchFirstRow` | packs/memory/tests/test_memory_integrity.py:149-173 | the count check passes only if the first row's log exists and holds exactly N rows; a row declaring `(3 entries)` for a two-row log fails it |
| `IndexDocument.ClaimsFromTable` | packs/memory/tests/test_memory_integrity.py:153-157 | the count scan over a table of well-formed rows reports each row's project and count, in order, and nothing else |
| `IndexDocument.RefsFromTable` | packs/memory/tests/test_memory_integrity.py:130-131 | the reference scan over such a table reports each row's project, in order, and nothing else |
| `IndexDocument.TableScans` | packs/memory/tests/test_memory_integrity.py:130-157 | both scans of a whole table give exactly its rows' claims and projects |
| `IndexDocument.CountsMatchTable` | packs/memory/tests/test_memory_integrity.py:149-173 | over a table the count check passes exactly when the log of every row exists and holds exactly the declared number of rows |
| `IndexDocument.TableReferencesTable` | packs/memory/tests/test_memory_integrity.py:128-138 | over a table the reference check passes exactly when every row's project has a dossier |
| `IndexDocument.ProjectInTable` | packs/memory/tests/test_memory_integrity.py:118-125 | every row's project name occurs in the table's text |
| `IndexDocument.OneRowHeader` | packs/memory/tests/test_memory_integrity.py:82-86 | a table after a lead holding the header passes the header check |
| `IndexDocument.OneRowDossier` | packs/memory/tests/test_memory_integrity.py:118-138 | a one-row table for a project without dots lists that project's dossier and refers to no other |
| `IndexDocument.OneRowCount` | packs/memory/tests/test_memory_integrity.py:149-173 | the count check on a one-row table passes exactly when the row's log holds the declared number of rows |
| `MemoryIntegrity.OneProjectListing` | packs/memory/tests/test_memory_integrity.py:53-68 | a directory of `p.md` and `p.observations.md`, with no dot in p, holds one dossier and one log |
| `MemoryIntegrity.IndexTestsPass` | packs/memory/tests/test_memory_integrity.py:71-173 | with an index that has the table header, stays within the line bound, names every listed dossier and refers only to listed ones, the five index tests other than the count test pass, and the count test gives the count check's verdict |
| `MemoryIntegrity.OneProjectFileTests` | packs/memory/tests/test_memory_integrity.py:176-308 | with one dossier and one log that pass their own checks, and a complete configuration, the ten tests that need no index pass |
| `MemoryIntegrity.OneProjectRuns` | packs/memory/tests/test_memory_integrity.py:71-308 | on a store of one project meeting `SoundProject`, every test passes except the count test when the declared count differs from the log's row count |
| `MemoryIntegrity.OneProjectOutcomes` | packs/memory/tests/test_memory_integrity.py:18-308 | the whole module run on such a store imports, and each outcome is Pass except a Fail for the count test when the count is wrong |
| `MemoryIntegrity.OneProjectAllPass` | packs/memory/tests/test_memory_integrity.py:149-173 | declaring `(n entries)` for a log of n rows makes every test pass |
| `MemoryIntegrity.OneProjectOverCount` | packs/memory/tests/test_memory_integrity.py:149-173 | declaring `(n+1 entries)` for a log of n rows fails the count test and no other |
| `SvgEscape.Esc` | docs/gifs/generate-svgs.py:91-97 | definition: the four chained `replace` calls, `&` first, then `<`, `>` and `"` |
| `SvgEscape.EscIsPerChar` | docs/gifs/generate-svgs.py:91-97 | the chained `replace` equals escaping each of `& < > "` on its own, character by character |
| `SvgEscape.EscapeStep` | docs/gifs/generate-svgs.py:91-97 | replacing a character that no entity already written contains escapes exactly that character as well |
| `SvgEscape.EscapeOrderMatters` | docs/gifs/generate-svgs.py:91-97 | `esc("<") == "&lt;"`, while replacing `&` last would give `&amp;lt;` |
| `SvgEscape.UnescapeStep` | docs/gifs/generate-svgs.py:91-97 | undoing one entity other than `&amp;`, or `&amp;` when it is the only one left, unescapes exactly that character |
| `SvgEscape.EscRoundTrip` | docs/gifs/generate-svgs.py:91-97 | undoing `&quot;`, `&gt;`, `&lt;` and then `&amp;` on `esc(s)` gives back `s` |
| `SvgEscape.EscLength` | docs/gifs/generate-svgs.py:91-97 | output length is len(s) + 4·#`&` + 3·#`<` + 3·#`>` + 5·#`"` |
| `SvgEscape.EscIdentity` | docs/gifs/generate-svgs.py:91-97 | text without `& < > "` is returned unchanged |
| `SvgEscape.EscWellEscaped` | docs/gifs/generate-svgs.py:91-97 | the output holds no `<`, `>` or `"`, and every `&` in it begins `&amp;`, `&lt;`, `&gt;` or `&quot;` |
| `SvgLayout.Height` | docs/gifs/generate-svgs.py:26 | definition: `pad_top + len(lines) * line_height + pad_bottom` |
| `SvgLayout.LineY` | docs/gifs/generate-svgs.py:39 | definition: `pad_top + i * line_height` |
| `SvgLayout.LineYIncreasing` | docs/gifs/generate-svgs.py:39 | with a positive line height, the y coordinate strictly increases with the line index |
| `SvgLayout.LastLineFits` | docs/gifs/generate-svgs.py:26 | for n ≥ 1, the last line's y plus the line height plus the bottom padding equals the canvas height |
| `SvgLayout.DefaultCanvas` | docs/gifs/generate-svgs.py:11-26 | with the default keyword arguments the first line is at y 48 and a canvas of n lines is 64 + 20n high |
| `SvgLayout.TupleDefaults` | docs/gifs/generate-svgs.py:36-37 | a missing colour is `#a6adc8` and a missing delay is 0 |
| `SvgLayout.OpacityAnimation` | docs/gifs/generate-svgs.py:43-73 | initial opacity is `"0"` exactly when the delay is positive and equals the first keyframe value; the keyframes are `0;0;1;1;0` or `1;1;0` and end at 0 |
| `SvgLayout.PlainBodyEscaped` | docs/gifs/generate-svgs.py:76 | a plain line's text is escaped in its element, and unescaping gives it back |
| `SvgLayout.SpanList` | docs/gifs/generate-svgs.py:61-63 | one `<tspan>` per segment |
| `SvgLayout.Spans` | docs/gifs/generate-svgs.py:61-63 | the `spans` loop appends one `<tspan>` per segment, in order, with the segment's text escaped |
| `SvgLayout.LineBody` | docs/gifs/generate-svgs.py:60-76 | the text between the opening tag and the animation: the joined `<tspan>`s of a segmented line, or the escaped text of a plain one |
| `SvgLayout.TextElement` | docs/gifs/generate-svgs.py:34-77 | definition: the opening tag at the line's y with its colour and initial opacity, the body, the animation and `</text>` |
| `SvgLayout.Element` | docs/gifs/generate-svgs.py:34-77 | one pass of the loop builds the element of line i at `pad_top + i * line_height`, with that line's colour, initial opacity, body and animation |
| `SvgLayout.TextElements` | docs/gifs/generate-svgs.py:33-77 | the loop returns exactly one element per line, in input order, the i-th being the element of line i |
| `SvgLayout.Elements` | docs/gifs/generate-svgs.py:33-77 | one element per line |
| `SvgLayout.Document` | docs/gifs/generate-svgs.py:79-88 | definition: the window frame, the escaped title at `width // 2`, and the elements joined by `chr(10)` |
| `SvgLayout.MakeSvg` | docs/gifs/generate-svgs.py:26-88 | no document for an empty list of lines; otherwise the frame with the escaped title at `width // 2` and the elements joined by `chr(10)` |
| `SvgLayout.JoinedOnOneLine` | docs/gifs/generate-svgs.py:87 | the separator is the literal `chr(10)`: elements without line breaks end up on one line of the document, each followed by `chr(10)` and the rest |

## Left out

- `test_no_secrets` (packs/memory/tests/test_memory_integrity.py:94-106) is not modelled. It runs four case-insensitive patterns with Unicode classes and `\S+`, which would need a general regex engine.
- File I/O is not modelled: `os.path.exists`, `os.listdir`, `open`, `expanduser` and `json.load`. File contents, the directory listing and the parsed configuration are inputs.
  - A file that exists but cannot be read is treated as missing in two places. For `MEMORY.md` the model gives Skip, where the `setUp` of packs/memory/tests/test_memory_integrity.py:74-77 would raise from `read_file`. For a listed dossier or log the model gives Fail, as the test would.
  - An unreadable or non-object configuration is `ConfigFile.Unreadable`, not absent: the import raises (`ImportRaises`), so no test runs.
  - Paths that `os.path.join` would turn absolute or lead outside `projects/` are not modelled.
  - Files are keyed by the relative path the tests build.
- The configuration path, the store location and the JSON text are not modelled. So the fact that `memory_path` chooses the store is not modelled either.
- JSON numbers, booleans and `null` are one scalar value. Only whether they are hashable and iterable is kept.
- The unittest runner is not modelled: messages, test ordering, how a failing loop stops at its first failure, and errors kept distinct from failures. Each test gives one outcome, and an error counts as a failure.
- Unicode digits and word characters are not modelled: `\d` and `\w` are their ASCII parts.
- Lines and delays in `make_svg`:
  - `delay_ms` is an integer;
  - tuples with more than three fields, or of other shapes, are not modelled;
  - a text field that is neither a string nor a list is not modelled.
- All float timing of `make_svg` (docs/gifs/generate-svgs.py:29-31, 44-52, 57) is supplied as already-formatted text, as `Timing`. This covers `max_delay`, the cycle length and the `keyTimes` fractions with their `:.4f`/`:.1f` formatting. `Timing.keyTimes` is given a line's delay only when it is positive and 0 otherwise, since lines 43-52 give every line without a positive delay the same `keyTimes`. The empty-list `ValueError` of `max` is modelled.
- The demo recordings and the file-writing loop (docs/gifs/generate-svgs.py:100-620) are not modelled: they are data and I/O.
- `Text.ReplaceAll` requires a non-empty pattern. Python's `replace` with an empty pattern is not modelled, because no caller uses one.
- `ObservationLog.HeadingsFrom`, `IndexDocument.RefsFrom` and `IndexDocument.ClaimsFrom` only ensure soundness: each reported item occurs in the text. That the scan finds every match `finditer` finds belongs to their definition. It is proved for single matches (`RefAtComplete`, `RowNumberComplete`, `HeadingAtComplete`, and `CountInExact` and `ClaimAtCell` for the count after a reference), for whole tables of well-formed rows (`ClaimsFromTable`, `RefsFromTable`) and for logs with one details heading (`OneEntryHeadings`), not for arbitrary text.
- `MemoryIntegrity.OneProjectOutcomes` and its two corollaries take the line bound of the index and the per-log checks of the log as premises (`SoundProject`); which logs pass those checks is stated by the log lemmas (`NumberingOkIff`, `DetailsHaveContextIff`, `OneEntryContextIff`), not re-derived for a built log.
