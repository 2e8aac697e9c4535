/**
 * The agents' `Configuration` dataclass: its fields and class defaults,
 * `from_runnable_config` (override, else default, then normalise the four
 * path fields) and `to_dict`.
 *
 * The dataclass does not check its annotated types, so every field holds a
 * dynamically typed `Value`; an override of any type is stored as given.
 * Fields are named by the datatype `FieldName`; `Name` gives the Python
 * attribute name, which is the key looked up in the "configurable"
 * dictionary.
 */
module AgentConfiguration {
  import opened Wrappers
  import opened Paths

  /** `SearchAPI(str, Enum)`: each member is also the string it names. */
  datatype SearchApi = Perplexity | Tavily | DuckDuckGo

  /** The string value of a `SearchAPI` member. */
  function ApiName(a: SearchApi): (s: string)
    ensures s != [] && !IsAbs(s)
  {
    match a
    case Perplexity => "perplexity"
    case Tavily => "tavily"
    case DuckDuckGo => "duckduckgo"
  }

  datatype Value =
    | NoneValue
    | IntValue(i: int)
    | StrValue(s: string)
    | BoolValue(b: bool)
    | ApiValue(api: SearchApi)

  /** An instance of `str`: a plain string or a `SearchAPI` member. */
  predicate IsStr(v: Value)
  {
    v.StrValue? || v.ApiValue?
  }

  /** The characters of a `str` value. */
  function StrOf(v: Value): string
    requires IsStr(v)
  {
    if v.StrValue? then v.s else ApiName(v.api)
  }

  datatype FieldName =
    | MaxWebResearchLoops | MaxVectorStoreResearchLoops | SearchDepth
    | LocalLlm | OllamaBaseUrl
    | SearchApiField | FetchFullPage
    | LawsFaissPath | CasesFaissPath | CommercialLawsPdf
    | DevMode | DebugMode | LogDir

  /** The attribute name of a field. */
  function Name(f: FieldName): string
  {
    match f
    case MaxWebResearchLoops => "max_web_research_loops"
    case MaxVectorStoreResearchLoops => "max_vector_store_research_loops"
    case SearchDepth => "search_depth"
    case LocalLlm => "local_llm"
    case OllamaBaseUrl => "ollama_base_url"
    case SearchApiField => "search_api"
    case FetchFullPage => "fetch_full_page"
    case LawsFaissPath => "laws_faiss_path"
    case CasesFaissPath => "cases_faiss_path"
    case CommercialLawsPdf => "commercial_laws_pdf"
    case DevMode => "dev_mode"
    case DebugMode => "debug_mode"
    case LogDir => "log_dir"
  }

  /** `dataclasses.fields(Configuration)`: every field once, in declaration order. */
  const FieldNames: seq<FieldName> := [
    MaxWebResearchLoops, MaxVectorStoreResearchLoops, SearchDepth,
    LocalLlm, OllamaBaseUrl, SearchApiField, FetchFullPage,
    LawsFaissPath, CasesFaissPath, CommercialLawsPdf,
    DevMode, DebugMode, LogDir]

  /** The fields whose names are in the list `from_runnable_config` normalises. */
  predicate IsPathField(f: FieldName)
  {
    f == LawsFaissPath || f == CasesFaissPath || f == CommercialLawsPdf || f == LogDir
  }

  /** `fields` lists each field exactly once. */
  lemma FieldsListedOnce()
    ensures forall f: FieldName :: f in FieldNames
    ensures forall i, j :: 0 <= i < j < |FieldNames| ==> FieldNames[i] != FieldNames[j]
  {
    forall f: FieldName ensures f in FieldNames {
      FieldListed(f);
    }
  }

  /** No two fields share a name, so the dictionary keys of distinct fields are distinct. */
  lemma NamesDistinct()
    ensures forall f: FieldName, g: FieldName :: Name(f) == Name(g) ==> f == g
  {
    forall f: FieldName, g: FieldName | Name(f) == Name(g) ensures f == g {
      if f != g {
        NamesDiffer(f, g);
      }
    }
  }

  lemma FieldListed(f: FieldName)
    ensures f in FieldNames
  {
    match f
    case MaxWebResearchLoops => assert FieldNames[0] == f;
    case MaxVectorStoreResearchLoops => assert FieldNames[1] == f;
    case SearchDepth => assert FieldNames[2] == f;
    case LocalLlm => assert FieldNames[3] == f;
    case OllamaBaseUrl => assert FieldNames[4] == f;
    case SearchApiField => assert FieldNames[5] == f;
    case FetchFullPage => assert FieldNames[6] == f;
    case LawsFaissPath => assert FieldNames[7] == f;
    case CasesFaissPath => assert FieldNames[8] == f;
    case CommercialLawsPdf => assert FieldNames[9] == f;
    case DevMode => assert FieldNames[10] == f;
    case DebugMode => assert FieldNames[11] == f;
    case LogDir => assert FieldNames[12] == f;
  }

  lemma NamesDiffer(f: FieldName, g: FieldName)
    requires f != g
    ensures Name(f) != Name(g)
  {
    var n, m := Name(f), Name(g);
    if |n| == |m| {
      assert n[0] != m[0];
    }
  }

  datatype Configuration = Configuration(
    maxWebResearchLoops: Value,
    maxVectorStoreResearchLoops: Value,
    searchDepth: Value,
    localLlm: Value,
    ollamaBaseUrl: Value,
    searchApi: Value,
    fetchFullPage: Value,
    lawsFaissPath: Value,
    casesFaissPath: Value,
    commercialLawsPdf: Value,
    devMode: Value,
    debugMode: Value,
    logDir: Value)

  /** `getattr(config, Name(f))`. */
  function Field(c: Configuration, f: FieldName): Value
  {
    match f
    case MaxWebResearchLoops => c.maxWebResearchLoops
    case MaxVectorStoreResearchLoops => c.maxVectorStoreResearchLoops
    case SearchDepth => c.searchDepth
    case LocalLlm => c.localLlm
    case OllamaBaseUrl => c.ollamaBaseUrl
    case SearchApiField => c.searchApi
    case FetchFullPage => c.fetchFullPage
    case LawsFaissPath => c.lawsFaissPath
    case CasesFaissPath => c.casesFaissPath
    case CommercialLawsPdf => c.commercialLawsPdf
    case DevMode => c.devMode
    case DebugMode => c.debugMode
    case LogDir => c.logDir
  }

  /** The dictionary has an entry for every field. */
  predicate NamesEveryField(values: map<FieldName, Value>)
  {
    forall f: FieldName :: f in values
  }

  /** `Configuration(**values)` for a dictionary that has an entry for every field. */
  function FromValues(values: map<FieldName, Value>): Configuration
    requires NamesEveryField(values)
  {
    Configuration(
      values[MaxWebResearchLoops], values[MaxVectorStoreResearchLoops], values[SearchDepth],
      values[LocalLlm], values[OllamaBaseUrl], values[SearchApiField], values[FetchFullPage],
      values[LawsFaissPath], values[CasesFaissPath], values[CommercialLawsPdf],
      values[DevMode], values[DebugMode], values[LogDir])
  }

  /**
   * The class defaults. The path defaults are normalised when the class is
   * defined, against the project root.
   */
  function Default(root: AbsPath, f: FieldName): Value
  {
    match f
    case MaxWebResearchLoops => IntValue(3)
    case MaxVectorStoreResearchLoops => IntValue(1)
    case SearchDepth => IntValue(3)
    case LocalLlm => StrValue("gemma3:1b")
    case OllamaBaseUrl => StrValue("http://localhost:11434/")
    case SearchApiField => ApiValue(DuckDuckGo)
    case FetchFullPage => BoolValue(false)
    case LawsFaissPath => StrValue(NormalizePath(root, "commercial_laws_index"))
    case CasesFaissPath => StrValue(NormalizePath(root, "cases_index"))
    case CommercialLawsPdf => StrValue(NormalizePath(root, Join("commercial_cases", "merged_output_cases.pdf")))
    case DevMode => BoolValue(true)
    case DebugMode => BoolValue(true)
    case LogDir => StrValue(NormalizePath(root, "logs"))
  }

  /** The dictionary of the class defaults. */
  function DefaultValues(root: AbsPath): (values: map<FieldName, Value>)
    ensures NamesEveryField(values)
  {
    FieldsListedOnce();
    map f | f in FieldNames :: Default(root, f)
  }

  /** The configuration built from the class defaults alone. */
  function Defaults(root: AbsPath): Configuration
  {
    FromValues(DefaultValues(root))
  }

  /** The part of a `RunnableConfig` read here: its optional "configurable" dictionary. */
  datatype RunnableConfig = RunnableConfig(configurable: Option<map<string, Value>>)

  /** `config.get("configurable", {}) if config else {}`. */
  function ConfigurableOf(config: Option<RunnableConfig>): map<string, Value>
  {
    match config
    case None => map[]
    case Some(rc) => match rc.configurable
      case None => map[]
      case Some(m) => m
  }

  /** `configurable.get(f.name, getattr(cls, f.name, None))`. */
  function RawValue(root: AbsPath, configurable: map<string, Value>, f: FieldName): Value
  {
    if Name(f) in configurable then configurable[Name(f)] else Default(root, f)
  }

  /**
   * `normalize_path` of a value that is not a `str` raises a TypeError
   * (`os.path.isabs` cannot take it); a `SearchAPI` member is a `str`.
   */
  predicate CannotNormalize(root: AbsPath, configurable: map<string, Value>, f: FieldName)
  {
    IsPathField(f) && !IsStr(RawValue(root, configurable, f))
  }

  /**
   * The value a field receives: the raw value, normalised for a path field.
   * A `SearchAPI` member is never absolute, so `os.path.join` turns it into
   * a plain string under the root.
   */
  function ResolvedValue(root: AbsPath, configurable: map<string, Value>, f: FieldName): Value
  {
    var raw := RawValue(root, configurable, f);
    if IsPathField(f) && IsStr(raw) then StrValue(NormalizePath(root, StrOf(raw))) else raw
  }

  /** The dictionary `values` the loop fills when no field raises. */
  function ResolvedValues(root: AbsPath, configurable: map<string, Value>): (values: map<FieldName, Value>)
    ensures NamesEveryField(values)
  {
    FieldsListedOnce();
    map f | f in FieldNames :: ResolvedValue(root, configurable, f)
  }

  datatype ConfigError = PathNotAString(field: FieldName)

  /** The first of `fs` whose value cannot be normalised, if any. */
  function FirstUnnormalizable(root: AbsPath, configurable: map<string, Value>, fs: seq<FieldName>): Option<FieldName>
  {
    if fs == [] then None
    else if CannotNormalize(root, configurable, fs[0]) then Some(fs[0])
    else FirstUnnormalizable(root, configurable, fs[1..])
  }

  /**
   * What `from_runnable_config` produces for a "configurable" dictionary:
   * the TypeError of the first path field it cannot normalise, or the
   * configuration of resolved values.
   */
  function ConfigFrom(root: AbsPath, configurable: map<string, Value>): Result<Configuration, ConfigError>
  {
    match FirstUnnormalizable(root, configurable, FieldNames)
    case Some(f) => Failure(PathNotAString(f))
    case None => Success(FromValues(ResolvedValues(root, configurable)))
  }

  /** Reading a field of a configuration built from a dictionary gives the dictionary's entry. */
  lemma FieldOfFromValues(values: map<FieldName, Value>, f: FieldName)
    requires NamesEveryField(values)
    ensures Field(FromValues(values), f) == values[f]
  {
  }

  lemma {:induction false} FirstUnnormalizableSpec(root: AbsPath, configurable: map<string, Value>, fs: seq<FieldName>)
    ensures FirstUnnormalizable(root, configurable, fs).None?
        <==> forall i :: 0 <= i < |fs| ==> !CannotNormalize(root, configurable, fs[i])
    ensures FirstUnnormalizable(root, configurable, fs).Some? ==>
      var f := FirstUnnormalizable(root, configurable, fs).value;
      f in fs && CannotNormalize(root, configurable, f)
  {
    if fs != [] {
      FirstUnnormalizableSpec(root, configurable, fs[1..]);
      if FirstUnnormalizable(root, configurable, fs).None? {
        forall i | 0 <= i < |fs| ensures !CannotNormalize(root, configurable, fs[i]) {
          if i > 0 { assert fs[i] == fs[1..][i - 1]; }
        }
      }
    }
  }

  /**
   * `from_runnable_config` fails exactly when some path field resolves to a
   * value that is not a string, and then names such a field.
   */
  lemma FailsOnlyOnNonStringPath(root: AbsPath, configurable: map<string, Value>)
    ensures ConfigFrom(root, configurable).Failure?
        <==> exists f :: IsPathField(f) && !IsStr(RawValue(root, configurable, f))
    ensures ConfigFrom(root, configurable).Failure? ==>
      var f := ConfigFrom(root, configurable).error.field;
      IsPathField(f) && !IsStr(RawValue(root, configurable, f))
  {
    FirstUnnormalizableSpec(root, configurable, FieldNames);
    FieldsListedOnce();
    if exists f :: IsPathField(f) && !IsStr(RawValue(root, configurable, f)) {
      var f :| IsPathField(f) && !IsStr(RawValue(root, configurable, f));
      assert f in FieldNames;
      var i :| 0 <= i < |FieldNames| && FieldNames[i] == f;
      assert CannotNormalize(root, configurable, FieldNames[i]);
    }
  }

  /**
   * Per field: the override when "configurable" has its name, the class
   * default otherwise; the four path fields are then normalised (and so
   * absolute), every other field is copied unchanged.
   */
  lemma OverrideElseDefault(root: AbsPath, configurable: map<string, Value>, f: FieldName)
    requires ConfigFrom(root, configurable).Success?
    ensures var raw := if Name(f) in configurable then configurable[Name(f)] else Default(root, f);
      var v := Field(ConfigFrom(root, configurable).value, f);
      && (IsPathField(f) ==> IsStr(raw) && v == StrValue(NormalizePath(root, StrOf(raw))) && IsAbs(v.s))
      && (!IsPathField(f) ==> v == raw)
  {
    FailsOnlyOnNonStringPath(root, configurable);
    FieldOfFromValues(ResolvedValues(root, configurable), f);
    FieldsListedOnce();
  }

  /**
   * A `SearchAPI` member given for a path field is a `str`, so it is joined
   * onto the root like any relative path instead of raising.
   */
  lemma ApiValueInPathField(root: AbsPath, configurable: map<string, Value>, f: FieldName, api: SearchApi)
    requires IsPathField(f) && Name(f) in configurable && configurable[Name(f)] == ApiValue(api)
    ensures !CannotNormalize(root, configurable, f)
    ensures ResolvedValue(root, configurable, f) == StrValue(Join(root, ApiName(api)))
    ensures ConfigFrom(root, configurable).Success? ==>
      Field(ConfigFrom(root, configurable).value, f) == StrValue(Join(root, ApiName(api)))
  {
    if ConfigFrom(root, configurable).Success? {
      OverrideElseDefault(root, configurable, f);
    }
  }

  /** `{"configurable": {"log_dir": SearchAPI.TAVILY}}` succeeds, with `log_dir` under the root. */
  lemma ApiLogDirExample(root: AbsPath)
    ensures var r := ConfigFrom(root, map[Name(LogDir) := ApiValue(Tavily)]);
      r.Success? && r.value.logDir == StrValue(Join(root, "tavily"))
  {
    var configurable := map[Name(LogDir) := ApiValue(Tavily)];
    forall f | IsPathField(f) ensures IsStr(RawValue(root, configurable, f)) {
      if f != LogDir {
        NamesDiffer(f, LogDir);
      }
    }
    FailsOnlyOnNonStringPath(root, configurable);
    ApiValueInPathField(root, configurable, LogDir, Tavily);
  }

  /** The path defaults are already normalised, so normalising them again changes nothing. */
  lemma DefaultsResolveToThemselves(root: AbsPath, f: FieldName)
    ensures ResolvedValue(root, map[], f) == Default(root, f)
    ensures !CannotNormalize(root, map[], f)
  {
    if IsPathField(f) {
      NormalizeIdempotent(root, Default(root, f).s);
    }
  }

  /**
   * No config, or a config without "configurable", yields every field at
   * its class default.
   */
  lemma NoOverridesGiveDefaults(root: AbsPath, config: Option<RunnableConfig>)
    requires config.None? || config.value.configurable.None?
    ensures ConfigFrom(root, ConfigurableOf(config)) == Success(Defaults(root))
  {
    assert ConfigurableOf(config) == map[];
    FirstUnnormalizableSpec(root, map[], FieldNames);
    forall i | 0 <= i < |FieldNames| ensures !CannotNormalize(root, map[], FieldNames[i]) {
      DefaultsResolveToThemselves(root, FieldNames[i]);
    }
    forall f | f in FieldNames ensures ResolvedValues(root, map[])[f] == DefaultValues(root)[f] {
      DefaultsResolveToThemselves(root, f);
    }
    assert ResolvedValues(root, map[]) == DefaultValues(root);
  }

  /**
   * `from_runnable_config`: for each field in declaration order, take the
   * override or the default, normalise it if it is a path field, and store
   * it in `values`; finally build the configuration from `values`.
   */
  method FromRunnableConfig(root: AbsPath, config: Option<RunnableConfig>)
    returns (r: Result<Configuration, ConfigError>)
    ensures r == ConfigFrom(root, ConfigurableOf(config))
  {
    var configurable := if config.Some? && config.value.configurable.Some?
      then config.value.configurable.value else map[];
    assert configurable == ConfigurableOf(config);
    var values: map<FieldName, Value> := map[];
    for i := 0 to |FieldNames|
      invariant forall j :: 0 <= j < i ==> FieldNames[j] in values
      invariant forall f :: f in values ==> values[f] == ResolvedValue(root, configurable, f)
      invariant FirstUnnormalizable(root, configurable, FieldNames)
             == FirstUnnormalizable(root, configurable, FieldNames[i..])
    {
      var f := FieldNames[i];
      assert FieldNames[i..][0] == f && FieldNames[i..][1..] == FieldNames[i + 1..];
      var value := ResolveField(root, configurable, f);
      if value.None? {
        return Failure(PathNotAString(f));
      }
      values := values[f := value.value];
    }
    assert FieldNames[|FieldNames|..] == [];
    AllResolved(root, configurable, values);
    r := Success(FromValues(values));
  }

  /**
   * One step of the loop: the override or the default, normalised for a path
   * field; `None` where `normalize_path` raises.
   */
  method ResolveField(root: AbsPath, configurable: map<string, Value>, f: FieldName) returns (r: Option<Value>)
    ensures r.None? <==> CannotNormalize(root, configurable, f)
    ensures r.Some? ==> r.value == ResolvedValue(root, configurable, f)
  {
    var value := RawValue(root, configurable, f);
    if IsPathField(f) {
      var path: string;
      match value {
        case StrValue(s) => path := s;
        case ApiValue(api) => path := ApiName(api);
        case _ => return None;
      }
      value := StrValue(NormalizePath(root, path));
    }
    return Some(value);
  }

  /** A dictionary holding the resolved value of every listed field is `ResolvedValues`. */
  lemma AllResolved(root: AbsPath, configurable: map<string, Value>, values: map<FieldName, Value>)
    requires forall j :: 0 <= j < |FieldNames| ==> FieldNames[j] in values
    requires forall f :: f in values ==> values[f] == ResolvedValue(root, configurable, f)
    ensures values == ResolvedValues(root, configurable)
  {
    FieldsListedOnce();
  }

  /** `to_dict`: one entry per dataclass field, holding that field's value. */
  function ToDict(c: Configuration): (d: map<FieldName, Value>)
    ensures NamesEveryField(d)
  {
    FieldsListedOnce();
    map f | f in FieldNames :: Field(c, f)
  }

  /** Every entry of `to_dict` is the field of that name. */
  lemma ToDictEntries(c: Configuration)
    ensures forall f :: ToDict(c)[f] == Field(c, f)
  {
    forall f ensures ToDict(c)[f] == Field(c, f) {
      FieldListed(f);
    }
  }

  /** Building a configuration from its `to_dict` gives back the configuration. */
  lemma ToDictRoundTrip(c: Configuration)
    ensures FromValues(ToDict(c)) == c
  {
    ToDictEntries(c);
    FromFieldEntries(c, ToDict(c));
  }

  /** A dictionary holding each field of `c` under its name builds `c`. */
  lemma FromFieldEntries(c: Configuration, d: map<FieldName, Value>)
    requires NamesEveryField(d)
    requires forall f :: d[f] == Field(c, f)
    ensures FromValues(d) == c
  {
  }

  /** A dictionary with an entry for every field survives the trip through a configuration. */
  lemma FromValuesRoundTrip(values: map<FieldName, Value>)
    requires NamesEveryField(values)
    ensures ToDict(FromValues(values)) == values
  {
    var d := ToDict(FromValues(values));
    FieldsListedOnce();
    forall f ensures d[f] == values[f] {
      FieldOfFromValues(values, f);
    }
    assert d.Keys == values.Keys;
  }
}
