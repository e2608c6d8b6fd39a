/** The integrity test battery of the memory store: sixteen of the module's
    seventeen tests (all but the scan for secrets), each of which passes,
    fails or is skipped on a given store, and the import step that must
    succeed before any of them runs. */
module MemoryIntegrity {
  import opened Text
  import opened MemoryStore
  import ObservationLog
  import IndexDocument

  /** What a test reports. A failed assertion and an exception raised inside a
      test are both `Fail`. */
  datatype Outcome = Pass | Fail | Skip

  function Verdict(ok: bool): Outcome {
    if ok then Pass else Fail
  }

  /** The tests of the module, by the test class they belong to. */
  datatype Test =
    // TestMemoryMdStructure
    | IndexExists | IndexHasProjectTable | IndexUnder200Lines
    // TestProjectTableConsistency
    | AllDossiersInTable | TableReferencesExist
    // TestObservationCounts
    | CountsMatch
    // TestDossierFormat
    | DossiersHaveSections | DossiersUnder200Lines
    // TestObservationsFormat
    | LogsHaveIndexTable | LogsHaveDetailsSection | LogTypesValid
    | LogNumbersSequential | LogIndexDetailsMatch | LogDetailsHaveContext
    // TestConfigExists
    | ConfigExists | ConfigValidJson

  const AllTests: seq<Test> := [
    IndexExists, IndexHasProjectTable, IndexUnder200Lines,
    AllDossiersInTable, TableReferencesExist,
    CountsMatch,
    DossiersHaveSections, DossiersUnder200Lines,
    LogsHaveIndexTable, LogsHaveDetailsSection, LogTypesValid,
    LogNumbersSequential, LogIndexDetailsMatch, LogDetailsHaveContext,
    ConfigExists, ConfigValidJson]

  /** The tests whose `setUp` skips them when `MEMORY.md` is absent. */
  predicate NeedsIndex(t: Test) {
    t.IndexExists? || t.IndexHasProjectTable? || t.IndexUnder200Lines?
    || t.AllDossiersInTable? || t.TableReferencesExist? || t.CountsMatch?
  }

  // ---------------------------------------------------------------------------
  // Line bound and dossier sections

  /** The number of lines `content.strip().split("\n")` yields. */
  function LineCount(content: string): nat {
    |Split(Strip(content), '\n')|
  }

  /** The 200-line bound of both `test_under_200_lines` tests. */
  predicate WithinLineBound(content: string) {
    LineCount(content) <= 200
  }

  /** The bound allows at most 199 line breaks once the whitespace around the
      text is removed; an empty or blank text counts as one line. */
  lemma LineBoundIff(content: string)
    ensures WithinLineBound(content) <==> multiset(Strip(content))['\n'] <= 199
    ensures AllSpace(content) ==> LineCount(content) == 1
  {
    SplitPieces(Strip(content), '\n');
    if AllSpace(content) {
      StripPadded(content, "", "");
      assert content + "" + "" == content;
    }
  }

  /** Whitespace around the text never changes its line count. */
  lemma LineCountPadded(before: string, content: string, after: string)
    requires AllSpace(before) && AllSpace(after)
    ensures LineCount(before + content + after) == LineCount(content)
  {
    StripPadded(before, content, after);
  }

  const RequiredSections: seq<string> := ["## Status", "## Description", "## Current State", "## Session History"]

  predicate HasRequiredSections(content: string) {
    forall s | s in RequiredSections :: Contains(content, s)
  }

  /** Text added before or after a dossier never removes a section. */
  lemma RequiredSectionsKept(content: string, before: string, after: string)
    requires HasRequiredSections(content)
    ensures HasRequiredSections(before + content + after)
  {
    forall s | s in RequiredSections ensures Contains(before + content + after, s) {
      ContainsExtended(content, s, before, after);
    }
  }

  /** Every listed dossier can be read and satisfies `P`. */
  predicate EveryDossier(store: Store, P: string -> bool) {
    forall d | d in ListDossiers(store.listing) :: d in store.files && P(store.files[d])
  }

  /** Every listed observation log can be read and satisfies `P`. */
  predicate EveryLog(store: Store, P: string -> bool) {
    forall o | o in ListObservations(store.listing) :: o in store.files && P(store.files[o])
  }

  // ---------------------------------------------------------------------------
  // The tests

  /** The outcome of test `t` on `store`, with `valid` the observation types
      the import computed. */
  function Run(t: Test, store: Store, valid: set<string>): Outcome {
    if NeedsIndex(t) && store.index.None? then Skip
    else
      match t
      case IndexExists => Pass
      case IndexHasProjectTable => Verdict(IndexDocument.HasProjectTable(store.index.value))
      case IndexUnder200Lines => Verdict(WithinLineBound(store.index.value))
      case AllDossiersInTable =>
        Verdict(IndexDocument.AllDossiersInTable(store.index.value, ListDossiers(store.listing)))
      case TableReferencesExist =>
        Verdict(IndexDocument.TableReferencesExist(store.index.value, ListDossiers(store.listing)))
      case CountsMatch => Verdict(IndexDocument.CountsMatch(store.index.value, store.files))
      case DossiersHaveSections => Verdict(EveryDossier(store, HasRequiredSections))
      case DossiersUnder200Lines => Verdict(EveryDossier(store, WithinLineBound))
      case LogsHaveIndexTable => Verdict(EveryLog(store, ObservationLog.HasIndexTable))
      case LogsHaveDetailsSection => Verdict(EveryLog(store, ObservationLog.HasDetailsSection))
      case LogTypesValid => Verdict(EveryLog(store, c => ObservationLog.TypesValid(c, valid)))
      case LogNumbersSequential => Verdict(EveryLog(store, ObservationLog.NumberingOk))
      case LogIndexDetailsMatch => Verdict(EveryLog(store, ObservationLog.DetailsForEveryRow))
      case LogDetailsHaveContext => Verdict(EveryLog(store, ObservationLog.DetailsHaveContext))
      case ConfigExists => Verdict(!store.config.Absent?)
      case ConfigValidJson =>
        match store.config
        case Absent => Skip
        case Unreadable => Fail
        case Loaded(fields) => Verdict(MissingConfigKey(fields).None?)
  }

  /** A test is skipped exactly when `MEMORY.md` is missing and the test needs
      it, or when the configuration is missing and the test reads it. */
  lemma SkipIff(t: Test, store: Store, valid: set<string>)
    ensures Run(t, store, valid) == Skip <==>
      (NeedsIndex(t) && store.index.None?) || (t == ConfigValidJson && store.config.Absent?)
  {
  }

  /** What running the module reports: nothing when the import fails, else one
      outcome per test. */
  datatype Report = ImportFailed | Ran(outcomes: seq<Outcome>)

  function RunAll(store: Store): (r: Report)
    ensures r.ImportFailed? <==> ImportRaises(store.config)
    ensures r.Ran? ==> |r.outcomes| == |AllTests|
    ensures r.Ran? ==> forall k | 0 <= k < |r.outcomes| ::
      r.outcomes[k] == Run(AllTests[k], store, ValidTypes(store.config).value)
    ensures r.Ran? ==> forall k | 0 <= k < |r.outcomes| ::
      (r.outcomes[k] == Skip <==>
        (NeedsIndex(AllTests[k]) && store.index.None?) || (AllTests[k] == ConfigValidJson && store.config.Absent?))
  {
    match ImportSettings(store.config)
    case None => ImportFailed
    case Some(valid) =>
      var r := Ran(seq(|AllTests|, k requires 0 <= k < |AllTests| => Run(AllTests[k], store, valid)));
      assert forall k | 0 <= k < |AllTests| :: r.outcomes[k] == Run(AllTests[k], store, valid);
      assert forall k | 0 <= k < |AllTests| ::
        (r.outcomes[k] == Skip <==>
          (NeedsIndex(AllTests[k]) && store.index.None?) || (AllTests[k] == ConfigValidJson && store.config.Absent?)) by {
        forall k | 0 <= k < |AllTests|
          ensures r.outcomes[k] == Skip <==>
            (NeedsIndex(AllTests[k]) && store.index.None?) || (AllTests[k] == ConfigValidJson && store.config.Absent?)
        {
          SkipIff(AllTests[k], store, valid);
        }
      }
      r
  }

  /** The battery runs every test exactly once. */
  lemma AllTestsOnce(t: Test)
    ensures t in AllTests
    ensures forall i, j | 0 <= i < j < |AllTests| :: AllTests[i] != AllTests[j]
  {
  }

  // ---------------------------------------------------------------------------
  // Scenarios

  /** A store with nothing in it imports, skips the six tests that need
      `MEMORY.md` and the JSON test, passes the dossier and log tests
      vacuously, and fails only the test that the configuration exists. */
  lemma EmptyStore(files: map<string, string>)
    ensures var r := RunAll(Store(None, None, files, Absent));
      && r.Ran?
      && forall k | 0 <= k < |r.outcomes| ::
           r.outcomes[k] == (if NeedsIndex(AllTests[k]) || AllTests[k] == ConfigValidJson then Skip
                             else if AllTests[k] == ConfigExists then Fail
                             else Pass)
  {
    var store := Store(None, None, files, Absent);
    forall k | 0 <= k < |AllTests|
      ensures Run(AllTests[k], store, DefaultTypes) ==
        (if NeedsIndex(AllTests[k]) || AllTests[k] == ConfigValidJson then Skip
         else if AllTests[k] == ConfigExists then Fail
         else Pass)
    {
      assert ListDossiers(None) == [] && ListObservations(None) == [];
    }
  }

  /** A listed dossier that cannot be read fails both dossier tests. */
  lemma UnreadableDossierFails(store: Store, valid: set<string>, d: string)
    requires d in ListDossiers(store.listing) && d !in store.files
    ensures Run(DossiersHaveSections, store, valid) == Fail
    ensures Run(DossiersUnder200Lines, store, valid) == Fail
  {
  }

  /** Without a configuration a log using a type outside the five defaults
      fails the type test; a configuration listing that type, and all the
      other types the logs use, lets it pass. */
  lemma ConfiguredTypeAccepted(
    store: Store, fields: map<string, Json>, names: seq<string>)
    requires store.config == Loaded(fields)
    requires "memory_path" !in fields || fields["memory_path"].JString?
    requires "observation_types" in fields
    requires fields["observation_types"].JArray? && |fields["observation_types"].items| == |names|
    requires forall k | 0 <= k < |names| :: fields["observation_types"].items[k] == JString(names[k])
    requires forall o | o in ListObservations(store.listing) ::
      o in store.files && forall t | t in ObservationLog.Types(store.files[o]) :: t in names
    ensures RunAll(store).Ran?
    ensures Run(LogTypesValid, store, ImportSettings(store.config).value) == Pass
  {
    var valid := ImportSettings(store.config).value;
    forall t ensures t in valid <==> t in names {
      ConfiguredTypesReplaceDefaults(fields, names, t);
    }
  }

  lemma UnconfiguredTypeRejected(store: Store, o: string, kind: string)
    requires store.config == Absent
    requires o in ListObservations(store.listing) && o in store.files
    requires kind in ObservationLog.Types(store.files[o]) && kind !in DefaultTypes
    ensures RunAll(store).Ran?
    ensures Run(LogTypesValid, store, ImportSettings(store.config).value) == Fail
  {
  }

  /** The import fails, and so nothing runs, when the configuration is not a
      JSON object or holds a `memory_path` that is not a string. */
  lemma ImportFailures(fields: map<string, Json>)
    ensures RunAll(Store(None, None, map[], Unreadable)).ImportFailed?
    ensures "memory_path" in fields && !fields["memory_path"].JString? ==>
      RunAll(Store(None, None, map[], Loaded(fields))).ImportFailed?
  {
  }

  // ---------------------------------------------------------------------------
  // A store of one project

  /** A dossier named after a project without dots is no observation log. */
  lemma PlainDossierName(p: string)
    requires '.' !in p
    ensures IsDossierName(p + ".md") && IsObservationName(p + ".observations.md")
    ensures p + ".md" != p + ".observations.md"
  {
    var f := p + ".md";
    if |f| >= 16 {
      assert f[|f| - 16] == p[|p| - 13];
    }
    assert |p + ".md"| != |p + ".observations.md"|;
  }

  lemma OneProjectListing(p: string)
    requires '.' !in p
    ensures ListDossiers(Some([p + ".md", p + ".observations.md"])) == [p + ".md"]
    ensures ListObservations(Some([p + ".md", p + ".observations.md"])) == [p + ".observations.md"]
  {
    PlainDossierName(p);
    NameClassesPartition(p + ".observations.md");
    var names := [p + ".md", p + ".observations.md"];
    assert names[1..] == [p + ".observations.md"];
    assert Dossiers(names[1..]) == [];
    assert Observations(names[1..]) == [p + ".observations.md"] + Observations(names[1..][1..]);
  }

  /** The store of one project `row.project`: the directory holds its dossier
      and its log, the index is a table of that one row followed by `tail`,
      and the configuration is loaded. */
  function OneProjectStore(
    row: IndexDocument.TableEntry, tail: string, dossier: string, log: string,
    fields: map<string, Json>): Store
  {
    var p := row.project;
    Store(
      Some(IndexDocument.TableText([row], tail)),
      Some([p + ".md", p + ".observations.md"]),
      map[p + ".md" := dossier, p + ".observations.md" := log],
      Loaded(fields))
  }

  /** The index tests on a store whose index has the table header, stays
      within the line bound and lists and refers to exactly the store's
      dossiers: all pass but the count test, which passes exactly when the
      declared counts hold. */
  lemma IndexTestsPass(store: Store, index: string, valid: set<string>)
    requires store.index == Some(index)
    requires IndexDocument.HasProjectTable(index) && WithinLineBound(index)
    requires IndexDocument.AllDossiersInTable(index, ListDossiers(store.listing))
    requires IndexDocument.TableReferencesExist(index, ListDossiers(store.listing))
    ensures forall t | NeedsIndex(t) && t != CountsMatch :: Run(t, store, valid) == Pass
    ensures Run(CountsMatch, store, valid) == Verdict(IndexDocument.CountsMatch(index, store.files))
  {
  }

  /** The dossier, log and configuration tests on a store that lists one
      dossier and one log, both passing their own checks, with a complete
      configuration. */
  lemma OneProjectFileTests(store: Store, d: string, o: string, fields: map<string, Json>, valid: set<string>)
    requires ListDossiers(store.listing) == [d] && ListObservations(store.listing) == [o]
    requires d in store.files && HasRequiredSections(store.files[d]) && WithinLineBound(store.files[d])
    requires o in store.files
    requires ObservationLog.HasIndexTable(store.files[o]) && ObservationLog.HasDetailsSection(store.files[o])
    requires ObservationLog.TypesValid(store.files[o], valid) && ObservationLog.NumberingOk(store.files[o])
    requires ObservationLog.DetailsForEveryRow(store.files[o]) && ObservationLog.DetailsHaveContext(store.files[o])
    requires store.config == Loaded(fields)
    requires "memory_path" in fields && "projects" in fields && "fallback_project" in fields
    ensures forall t | !NeedsIndex(t) :: Run(t, store, valid) == Pass
  {
    forall t | !NeedsIndex(t) ensures Run(t, store, valid) == Pass {
      match t
      case DossiersHaveSections =>
      case DossiersUnder200Lines =>
      case LogsHaveIndexTable =>
      case LogsHaveDetailsSection =>
      case LogTypesValid =>
      case LogNumbersSequential =>
      case LogIndexDetailsMatch =>
      case LogDetailsHaveContext =>
      case ConfigExists =>
      case ConfigValidJson =>
    }
  }

  /** What a store of one project needs for every test but the count test
      to pass: a row of the documented shape after a lead holding the table
      header, a project name without dots, an index within the line bound, a
      dossier and a log that pass their own checks, and a configuration that
      imports with the default types and has the three required keys. */
  predicate SoundProject(
    row: IndexDocument.TableEntry, tail: string, dossier: string, log: string,
    fields: map<string, Json>)
  {
    && IndexDocument.WellFormedEntry(row) && '.' !in row.project && '`' !in tail
    && IndexDocument.HasProjectTable(row.lead)
    && WithinLineBound(IndexDocument.TableText([row], tail))
    && HasRequiredSections(dossier) && WithinLineBound(dossier)
    && ObservationLog.HasIndexTable(log) && ObservationLog.HasDetailsSection(log)
    && ObservationLog.TypesValid(log, DefaultTypes) && ObservationLog.NumberingOk(log)
    && ObservationLog.DetailsForEveryRow(log) && ObservationLog.DetailsHaveContext(log)
    && "memory_path" in fields && fields["memory_path"].JString?
    && "projects" in fields && "fallback_project" in fields && "observation_types" !in fields
  }

  /** What the tests read of a store of one project. */
  lemma OneProjectStoreParts(p: string, store: Store, dossier: string, log: string)
    requires '.' !in p
    requires store.listing == Some([p + ".md", p + ".observations.md"])
    requires store.files == map[p + ".md" := dossier, p + ".observations.md" := log]
    ensures ListDossiers(store.listing) == [p + ".md"]
    ensures ListObservations(store.listing) == [p + ".observations.md"]
    ensures p + ".md" in store.files && store.files[p + ".md"] == dossier
    ensures p + ".observations.md" in store.files && store.files[p + ".observations.md"] == log
  {
    OneProjectListing(p);
    PlainDossierName(p);
  }

  /** Each test on such a store. */
  lemma OneProjectRuns(
    row: IndexDocument.TableEntry, tail: string, dossier: string, log: string,
    fields: map<string, Json>)
    requires SoundProject(row, tail, dossier, log, fields)
    ensures ImportSettings(OneProjectStore(row, tail, dossier, log, fields).config) == Some(DefaultTypes)
    ensures forall t ::
      Run(t, OneProjectStore(row, tail, dossier, log, fields), DefaultTypes) ==
      (if t == CountsMatch && DigitsValue(row.count) != ObservationLog.RowCount(log) then Fail else Pass)
  {
    var p := row.project;
    var store := OneProjectStore(row, tail, dossier, log, fields);
    OneProjectStoreParts(p, store, dossier, log);
    var index := IndexDocument.TableText([row], tail);
    IndexDocument.OneRowHeader(row, tail);
    IndexDocument.OneRowDossier(row, tail);
    IndexDocument.OneRowCount(row, tail, store.files, DigitsValue(row.count) == ObservationLog.RowCount(log));
    IndexTestsPass(store, index, DefaultTypes);
    OneProjectFileTests(store, p + ".md", p + ".observations.md", fields, DefaultTypes);
  }

  /** On a store of one project that meets `SoundProject`, every test passes
      except, when the row declares another count than the number of rows of
      the log, the count check, which fails. */
  lemma OneProjectOutcomes(
    row: IndexDocument.TableEntry, tail: string, dossier: string, log: string,
    fields: map<string, Json>)
    requires SoundProject(row, tail, dossier, log, fields)
    ensures var r := RunAll(OneProjectStore(row, tail, dossier, log, fields));
      && r.Ran?
      && forall k | 0 <= k < |r.outcomes| ::
           r.outcomes[k] ==
             (if AllTests[k] == CountsMatch && DigitsValue(row.count) != ObservationLog.RowCount(log)
              then Fail else Pass)
  {
    OneProjectRuns(row, tail, dossier, log, fields);
  }

  /** The index declares the right number, `(n entries)` with `n` the log's
      row count: every test passes. */
  lemma OneProjectAllPass(
    row: IndexDocument.TableEntry, tail: string, dossier: string, log: string,
    fields: map<string, Json>)
    requires SoundProject(row, tail, dossier, log, fields)
    requires row.count == NatToString(ObservationLog.RowCount(log))
    ensures var r := RunAll(OneProjectStore(row, tail, dossier, log, fields));
      r.Ran? && forall k | 0 <= k < |r.outcomes| :: r.outcomes[k] == Pass
  {
    NatToStringValue(ObservationLog.RowCount(log));
    OneProjectOutcomes(row, tail, dossier, log, fields);
  }

  /** The index declares one entry too many: the count check fails and every
      other test still passes. */
  lemma OneProjectOverCount(
    row: IndexDocument.TableEntry, tail: string, dossier: string, log: string,
    fields: map<string, Json>)
    requires SoundProject(row, tail, dossier, log, fields)
    requires row.count == NatToString(ObservationLog.RowCount(log) + 1)
    ensures var r := RunAll(OneProjectStore(row, tail, dossier, log, fields));
      r.Ran? && forall k | 0 <= k < |r.outcomes| :: (r.outcomes[k] == Fail <==> AllTests[k] == CountsMatch)
  {
    NatToStringValue(ObservationLog.RowCount(log) + 1);
    OneProjectOutcomes(row, tail, dossier, log, fields);
  }
}
