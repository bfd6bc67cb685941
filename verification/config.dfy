/**
  `Config.merge_config`: the settings read from the YAML file and the parsed
  command line are merged key by key. A CLI value wins when it is truthy in
  Python's sense; otherwise the file's value is used, whatever it is. Keys whose
  merged value is None are dropped.
 */
module Config {

  /** The values a YAML document or the argument parser can hand over. */
  datatype Value = None | Bool(b: bool) | Int(i: int) | Str(s: string) | List(items: seq<Value>)

  /** Python truthiness: None, False, 0, "" and [] are falsy. */
  predicate Truthy(v: Value) {
    match v
    case None => false
    case Bool(b) => b
    case Int(i) => i != 0
    case Str(s) => s != ""
    case List(items) => items != []
  }

  /** Python's `a or b`. */
  function Or(a: Value, b: Value): Value {
    if Truthy(a) then a else b
  }

  /** Python's `d.get(k, default)`. */
  function Lookup(d: map<string, Value>, k: string, default: Value): Value {
    if k in d then d[k] else default
  }

  const Fields: set<string> := {"bucket", "prefix", "endpoint_url", "region", "extensions", "blacklist"}

  /** The key a field is read under in the file: only the endpoint is spelled with a hyphen. */
  function FileKey(k: string): string {
    if k == "endpoint_url" then "endpoint-url" else k
  }

  /** The value the merge computes for one field before None values are dropped. */
  function Merged(file: map<string, Value>, cli: map<string, Value>, k: string): Value {
    if k == "blacklist" then Or(Lookup(cli, k, None), Lookup(file, k, Bool(false)))
    else Or(Lookup(cli, k, None), Lookup(file, FileKey(k), None))
  }

  function MergeConfig(file: map<string, Value>, cli: map<string, Value>): (r: map<string, Value>)
    ensures r.Keys <= Fields
    ensures forall k :: k in r ==> r[k] != None
    ensures forall k :: k in Fields && k in cli && Truthy(cli[k]) ==> k in r && r[k] == cli[k]
    ensures forall k :: k in Fields - {"endpoint_url", "blacklist"} && !Truthy(Lookup(cli, k, None)) ==>
      Lookup(r, k, None) == Lookup(file, k, None)
    ensures !Truthy(Lookup(cli, "endpoint_url", None)) ==>
      Lookup(r, "endpoint_url", None) == Lookup(file, "endpoint-url", None)
    ensures !Truthy(Lookup(cli, "blacklist", None)) ==>
      Lookup(r, "blacklist", None) == Lookup(file, "blacklist", Bool(false))
  {
    map k | k in Fields && Merged(file, cli, k) != None :: Merged(file, cli, k)
  }

  /** A field other than `blacklist` that neither side supplies is absent. */
  lemma AbsentFromBoth(file: map<string, Value>, cli: map<string, Value>, k: string)
    requires k in Fields && k != "blacklist"
    requires !Truthy(Lookup(cli, k, None))
    requires Lookup(file, FileKey(k), None) == None
    ensures k !in MergeConfig(file, cli)
  {
  }

  /** The file's `endpoint_url` spelling is never read; only `endpoint-url` is. */
  lemma EndpointUrlNeedsHyphen(file: map<string, Value>, cli: map<string, Value>)
    requires "endpoint-url" !in file
    requires !Truthy(Lookup(cli, "endpoint_url", None))
    ensures "endpoint_url" !in MergeConfig(file, cli)
  {
  }

  /** `blacklist` is present unless the CLI flag is falsy and the file sets it to
      None explicitly; when neither side mentions it, it is False. */
  lemma BlacklistPresence(file: map<string, Value>, cli: map<string, Value>)
    ensures "blacklist" !in MergeConfig(file, cli) <==>
      !Truthy(Lookup(cli, "blacklist", None)) && "blacklist" in file && file["blacklist"] == None
    ensures "blacklist" !in file && !Truthy(Lookup(cli, "blacklist", None)) ==>
      MergeConfig(file, cli)["blacklist"] == Bool(false)
  {
  }

  /** The CLI flag can switch the blacklist on, but never off once the file has it on. */
  lemma BlacklistCannotBeDisabled(file: map<string, Value>, cli: map<string, Value>)
    requires "blacklist" in file && Truthy(file["blacklist"])
    ensures "blacklist" in MergeConfig(file, cli) && Truthy(MergeConfig(file, cli)["blacklist"])
  {
  }

  /** A falsy value other than None is kept: with no CLI bucket, a file bucket of
      "" survives the merge (the caller rejects it later). */
  lemma FalsyFileValueKept(file: map<string, Value>, cli: map<string, Value>)
    requires !Truthy(Lookup(cli, "bucket", None))
    requires "bucket" in file && file["bucket"] == Str("")
    ensures "bucket" in MergeConfig(file, cli) && MergeConfig(file, cli)["bucket"] == Str("")
  {
  }
}
