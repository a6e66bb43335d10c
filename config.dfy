/**
 * config.py: load_config after the JSON file has been parsed. A missing or
 * empty token is an error; otherwise every default key is filled in with
 * setdefault, leaving the values the file gives untouched.
 */
module Config {

  /** A parsed JSON value. */
  datatype Json =
    | JNull
    | JBool(b: bool)
    | JInt(i: int)
    | JReal(r: real)
    | JStr(s: string)
    | JList(items: seq<Json>)
    | JObject(fields: seq<(string, Json)>)

  /** Python truthiness of a JSON value, as `not cfg["token"]` tests it. */
  predicate Truthy(v: Json) {
    match v
    case JNull => false
    case JBool(b) => b
    case JInt(i) => i != 0
    case JReal(r) => r != 0.0
    case JStr(s) => s != ""
    case JList(items) => items != []
    case JObject(fields) => fields != []
  }

  const RulesMessage: string :=
    "Это официальная беседа rothko's kimono (он же роткочат)\n\n"
    + "Правила роткочата:\n\n"
    + "1. Мы стремимся к адекватной и дружелюбной атмосфере общения.\n\n"
    + "2. Мы не баним за слова и мнения, даже если они нам не нравятся. \n\n"
    + "3. Черный юмор, сарказм и умеренное ракование уместны и приемлемы, если они не "
    + "оскорбляют участников дискуссии и других участников чата. Это является основным "
    + "критерием — не стесняйтесь об этом сообщать.\n\n"
    + "4. Мы не приемлем переход на личности"

  /** The keys load_config fills in, with their default values, in the order it sets them. */
  const DefaultEntries: seq<(string, Json)> := [
    ("chat_id", JInt(0)),
    ("inactivity_days", JInt(7)),
    ("check_interval_hours", JInt(12)),
    ("soft_kick", JBool(true)),
    ("channel_id", JInt(0)),
    ("tz", JStr("Europe/Moscow")),
    ("schedule_jitter_min", JInt(15)),
    ("allowed_user_ids", JList([])),
    ("rules_tz", JStr("Europe/Moscow")),
    ("rules_time", JStr("06:00")),
    ("rules_message_file", JStr("rules.txt")),
    ("rules_message", JStr(RulesMessage)),
    ("metrics_owner_ids", JList([])),
    ("metrics_dump_path", JStr("private_metrics.ndjson"))
  ]

  function DefaultKeys(): set<string> {
    KeysOf(DefaultEntries, |DefaultEntries|)
  }

  /** The keys of the first n entries. */
  function KeysOf(entries: seq<(string, Json)>, n: nat): set<string>
    requires n <= |entries|
  {
    set i | 0 <= i < n :: entries[i].0
  }

  predicate DistinctKeys(entries: seq<(string, Json)>) {
    forall i, j :: 0 <= i < j < |entries| ==> entries[i].0 != entries[j].0
  }

  /** No key of load_config is set twice. */
  lemma DefaultKeysDistinct()
    ensures DistinctKeys(DefaultEntries)
  {
  }

  datatype LoadResult = Loaded(cfg: map<string, Json>) | MissingToken

  /** dict.setdefault(key, value) on the configuration. */
  function SetDefault(cfg: map<string, Json>, key: string, value: Json): (r: map<string, Json>)
    ensures r.Keys == cfg.Keys + {key}
    ensures key in cfg ==> r == cfg
    ensures key !in cfg ==> r[key] == value && forall k :: k in cfg ==> r[k] == cfg[k]
  {
    if key in cfg then cfg else cfg[key := value]
  }

  /** What the configuration looks like once the first n entries have been set by default. */
  ghost predicate DefaultedSoFar(cfg: map<string, Json>, file: map<string, Json>, entries: seq<(string, Json)>, n: nat)
    requires n <= |entries|
  {
    && cfg.Keys == file.Keys + KeysOf(entries, n)
    && (forall k :: k in file ==> cfg[k] == file[k])
    && (forall i :: 0 <= i < n && entries[i].0 !in file ==> cfg[entries[i].0] == entries[i].1)
  }

  lemma SetDefaultStep(cfg: map<string, Json>, file: map<string, Json>, entries: seq<(string, Json)>, n: nat)
    requires n < |entries| && DistinctKeys(entries)
    requires DefaultedSoFar(cfg, file, entries, n)
    ensures DefaultedSoFar(SetDefault(cfg, entries[n].0, entries[n].1), file, entries, n + 1)
  {
    assert KeysOf(entries, n + 1) == KeysOf(entries, n) + {entries[n].0};
  }

  /**
   * load_config: refuses a configuration without a truthy token, then
   * applies the setdefault calls in order.
   */
  method LoadConfig(file: map<string, Json>) returns (r: LoadResult)
    ensures r.MissingToken? <==> !("token" in file && Truthy(file["token"]))
    ensures r.Loaded? ==> r.cfg.Keys == file.Keys + DefaultKeys()
    ensures r.Loaded? ==> forall k :: k in file ==> r.cfg[k] == file[k]
    ensures r.Loaded? ==> forall i :: 0 <= i < |DefaultEntries| && DefaultEntries[i].0 !in file ==>
                            r.cfg[DefaultEntries[i].0] == DefaultEntries[i].1
  {
    if "token" !in file || !Truthy(file["token"]) {
      return MissingToken;
    }
    DefaultKeysDistinct();
    var entries := DefaultEntries;
    var cfg := file;
    for n := 0 to |entries|
      invariant DefaultedSoFar(cfg, file, entries, n)
    {
      SetDefaultStep(cfg, file, entries, n);
      cfg := SetDefault(cfg, entries[n].0, entries[n].1);
    }
    return Loaded(cfg);
  }
}
