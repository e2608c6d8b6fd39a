/** The memory store as the integrity tests see it: the file names in the
    `projects` directory, the contents of the files they read, the parsed
    configuration, and the two values the test module computes when it is
    imported (the store location and the set of valid observation types). */
module MemoryStore {
  import opened Text

  // ---------------------------------------------------------------------------
  // File names (list_dossiers and list_observations)

  /** An observation log is named `<project>.observations.md`. */
  predicate IsObservationName(f: string) {
    EndsWith(f, ".observations.md")
  }

  /** A dossier is any other `.md` file. */
  predicate IsDossierName(f: string) {
    EndsWith(f, ".md") && !IsObservationName(f)
  }

  /** Keeps the names the predicate accepts, in directory order. */
  function Dossiers(names: seq<string>): (r: seq<string>)
    ensures forall f :: f in r <==> f in names && IsDossierName(f)
    ensures |r| <= |names|
  {
    if |names| == 0 then []
    else
      var rest := Dossiers(names[1..]);
      assert names == [names[0]] + names[1..];
      if IsDossierName(names[0]) then [names[0]] + rest else rest
  }

  function Observations(names: seq<string>): (r: seq<string>)
    ensures forall f :: f in r <==> f in names && IsObservationName(f)
    ensures |r| <= |names|
  {
    if |names| == 0 then []
    else
      var rest := Observations(names[1..]);
      assert names == [names[0]] + names[1..];
      if IsObservationName(names[0]) then [names[0]] + rest else rest
  }

  /** `list_dossiers()`: nothing when the `projects` directory is absent. */
  function ListDossiers(listing: Option<seq<string>>): seq<string> {
    if listing.None? then [] else Dossiers(listing.value)
  }

  /** `list_observations()` */
  function ListObservations(listing: Option<seq<string>>): seq<string> {
    if listing.None? then [] else Observations(listing.value)
  }

  /** Every `.md` name is a dossier or an observation log, never both, and a
      name without the `.md` suffix is neither. */
  lemma NameClassesPartition(f: string)
    ensures IsObservationName(f) ==> EndsWith(f, ".md")
    ensures EndsWith(f, ".md") <==> (IsDossierName(f) != IsObservationName(f))
  {
    if IsObservationName(f) {
      var tail := f[|f| - 16..];
      assert tail == ".observations.md";
      assert f[|f| - 3..] == tail[13..];
    }
  }

  /** Filtering the directory listing keeps the order and splits the `.md`
      names between the two lists. */
  lemma {:induction false} ListingSplit(names: seq<string>)
    ensures |Dossiers(names)| + |Observations(names)| == |MdNames(names)|
  {
    if |names| > 0 {
      ListingSplit(names[1..]);
      NameClassesPartition(names[0]);
    }
  }

  /** The names of the listing that end in `.md`. */
  function MdNames(names: seq<string>): seq<string> {
    if |names| == 0 then []
    else if EndsWith(names[0], ".md") then [names[0]] + MdNames(names[1..])
    else MdNames(names[1..])
  }

  // ---------------------------------------------------------------------------
  // Configuration (memory-config.json)

  /** A JSON value. Numbers, booleans and null play no part in the tests beyond
      being hashable and not iterable. */
  datatype Json = JString(s: string) | JArray(items: seq<Json>) | JObject(fields: map<string, Json>) | JScalar

  /** The configuration file: missing, present but not a JSON object (badly
      formed JSON or a non-object top level), or a loaded object. */
  datatype ConfigFile = Absent | Unreadable | Loaded(fields: map<string, Json>)

  const DefaultTypes: set<string> := {"decision", "bugfix", "feature", "discovery", "problem"}

  /** `set(value)` restricted to the strings it can hold; `None` when Python
      raises (a value that is not iterable, or a list holding a list or an
      object, which are unhashable). */
  function StringSet(v: Json): Option<set<string>> {
    match v
    case JString(s) => Some(set c | c in s :: [c])
    case JArray(items) =>
      if exists k | 0 <= k < |items| :: items[k].JArray? || items[k].JObject? then None
      else Some(set k | 0 <= k < |items| && items[k].JString? :: items[k].s)
    case JObject(fields) => Some(fields.Keys)
    case JScalar => None
  }

  /** `get_valid_types()`: the defaults without a configuration file or without
      an `observation_types` key, otherwise exactly the configured values. */
  function ValidTypes(config: ConfigFile): Option<set<string>> {
    match config
    case Absent => Some(DefaultTypes)
    case Unreadable => None
    case Loaded(fields) =>
      if "observation_types" in fields then StringSet(fields["observation_types"])
      else Some(DefaultTypes)
  }

  /** `get_memory_path()` raises unless `memory_path`, when present, is a string. */
  predicate MemoryPathLoads(config: ConfigFile) {
    match config
    case Absent => true
    case Unreadable => false
    case Loaded(fields) => "memory_path" !in fields || fields["memory_path"].JString?
  }

  /** When importing the test module raises, in terms of the configuration
      itself: the file is not a JSON object, `memory_path` is there but is not
      a string, or `observation_types` is there but `set` rejects it (a
      number, a boolean or null, or a list holding a list or an object). */
  predicate ImportRaises(config: ConfigFile) {
    || config.Unreadable?
    || (config.Loaded? && "memory_path" in config.fields && !config.fields["memory_path"].JString?)
    || (config.Loaded? && "observation_types" in config.fields &&
        match config.fields["observation_types"]
        case JScalar => true
        case JArray(items) => exists k | 0 <= k < |items| :: items[k].JArray? || items[k].JObject?
        case _ => false)
  }

  /** What importing the test module computes: `None` when the import raises,
      so that no test runs; otherwise the valid observation types. */
  function ImportSettings(config: ConfigFile): (r: Option<set<string>>)
    ensures r.None? <==> ImportRaises(config)
    ensures r.Some? ==> r.value == ValidTypes(config).value
    ensures r.Some? && (config.Absent? || (config.Loaded? && "observation_types" !in config.fields)) ==>
      r.value == {"decision", "bugfix", "feature", "discovery", "problem"}
    ensures r.Some? && config.Loaded? && "observation_types" in config.fields
            && config.fields["observation_types"].JArray? ==>
      forall t :: t in r.value <==>
        exists k | 0 <= k < |config.fields["observation_types"].items| ::
          config.fields["observation_types"].items[k] == JString(t)
    ensures r.Some? && config.Loaded? && "observation_types" in config.fields
            && config.fields["observation_types"].JObject? ==>
      r.value == config.fields["observation_types"].fields.Keys
  {
    if MemoryPathLoads(config) then ValidTypes(config) else None
  }

  /** A configured list of type names replaces the defaults: exactly the listed
      names are valid, whatever the defaults are. */
  lemma ConfiguredTypesReplaceDefaults(fields: map<string, Json>, names: seq<string>, t: string)
    requires "observation_types" in fields
    requires fields["observation_types"].JArray? && |fields["observation_types"].items| == |names|
    requires forall k | 0 <= k < |names| :: fields["observation_types"].items[k] == JString(names[k])
    ensures ValidTypes(Loaded(fields)).Some?
    ensures t in ValidTypes(Loaded(fields)).value <==> t in names
  {
    var items := fields["observation_types"].items;
    if t in names {
      var k :| 0 <= k < |names| && names[k] == t;
      assert items[k].s == t;
    }
  }

  /** Without a configuration, or with one that has no `observation_types`
      key, exactly the five default types are valid. */
  lemma DefaultTypesWithoutSetting(config: ConfigFile)
    requires config.Absent? || (config.Loaded? && "observation_types" !in config.fields)
    ensures ValidTypes(config) == Some({"decision", "bugfix", "feature", "discovery", "problem"})
  {
  }

  /** `test_config_valid_json`: the first of the three required keys that the
      loaded configuration lacks, in the order the test asserts them. */
  function MissingConfigKey(fields: map<string, Json>): (r: Option<string>)
    ensures r.None? <==> "memory_path" in fields && "projects" in fields && "fallback_project" in fields
    ensures r.Some? ==> r.value !in fields && r.value in ["memory_path", "projects", "fallback_project"]
    ensures r == Some("projects") ==> "memory_path" in fields
    ensures r == Some("fallback_project") ==> "memory_path" in fields && "projects" in fields
  {
    if "memory_path" !in fields then Some("memory_path")
    else if "projects" !in fields then Some("projects")
    else if "fallback_project" !in fields then Some("fallback_project")
    else None
  }

  // ---------------------------------------------------------------------------
  // The store

  /** What the tests read: `MEMORY.md` (absent or its text), the listing of the
      `projects` directory (absent or its names), the readable files under
      `projects`, by path relative to it, and the configuration file. */
  datatype Store = Store(
    index: Option<string>,
    listing: Option<seq<string>>,
    files: map<string, string>,
    config: ConfigFile)
}
