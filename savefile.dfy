/**
 * Saved mapping files: the payload the save button writes, and the rules by
 * which a loaded file replaces the mapping. JSON text itself (parsing and
 * printing) is outside the model; documents are JSON values.
 */
module SaveFile {
  import opened Wrappers
  import opened Types

  /** A JSON value (numbers as exact reals). */
  datatype Json =
    | JNull
    | JBool(b: bool)
    | JNumber(n: real)
    | JString(s: string)
    | JArray(items: seq<Json>)
    | JObject(fields: map<string, Json>)

  /** JavaScript truthiness of a JSON value: null, false, 0 and "" are falsy. */
  predicate Truthy(j: Json) {
    match j
    case JNull => false
    case JBool(b) => b
    case JNumber(n) => n != 0.0
    case JString(s) => s != ""
    case JArray(_) => true
    case JObject(_) => true
  }

  // ----- Rules as JSON --------------------------------------------------------

  function PartName(p: Part): string {
    match p
    case First => "first"
    case Last => "last"
  }

  function OriginName(o: Origin): string {
    match o
    case Auto => "auto"
    case Manual => "manual"
  }

  function EncodeStrings(xs: seq<string>): (j: Json)
    ensures j.JArray? && |j.items| == |xs|
  {
    JArray(seq(|xs|, i requires 0 <= i < |xs| => JString(xs[i])))
  }

  /** The `kind` tag of each rule kind. */
  function KindName(k: RuleKind): string {
    match k
    case NoSource => "none"
    case Direct(_) => "direct"
    case SplitName(_, _) => "split_name"
    case Concat(_, _) => "concat"
  }

  /** A rule as JSON.stringify writes it: its `kind` tag and fields, and `origin` when set. */
  function EncodeRule(r: Rule): (j: Json)
    ensures j.JObject? && StringField(j.fields, "kind") == Some(KindName(r.kind))
  {
    var fields := match r.kind
      case NoSource => map["kind" := JString("none")]
      case Direct(source) => map["kind" := JString("direct"), "source" := JString(source)]
      case SplitName(source, part) =>
        map["kind" := JString("split_name"), "source" := JString(source), "part" := JString(PartName(part))]
      case Concat(sources, separator) =>
        var base := map["kind" := JString("concat"), "sources" := EncodeStrings(sources)];
        if separator.Some? then base["separator" := JString(separator.value)] else base;
    JObject(if r.origin.Some? then fields["origin" := JString(OriginName(r.origin.value))] else fields)
  }

  /** An array of strings, from the `i`-th element on. */
  function DecodeStringsFrom(items: seq<Json>, i: nat): Option<seq<string>>
    decreases |items| - i
  {
    if i >= |items| then Some([])
    else if !items[i].JString? then None
    else match DecodeStringsFrom(items, i + 1)
      case None => None
      case Some(rest) => Some([items[i].s] + rest)
  }

  function DecodeStrings(j: Json): Option<seq<string>> {
    if j.JArray? then DecodeStringsFrom(j.items, 0) else None
  }

  /** The string field `key` of an object, if it has one. */
  function StringField(fields: map<string, Json>, key: string): Option<string> {
    if key in fields && fields[key].JString? then Some(fields[key].s) else None
  }

  function DecodePart(s: string): Option<Part> {
    if s == "first" then Some(First) else if s == "last" then Some(Last) else None
  }

  function DecodeOrigin(fields: map<string, Json>): Option<Origin> {
    match StringField(fields, "origin")
    case Some("auto") => Some(Auto)
    case Some("manual") => Some(Manual)
    case _ => None
  }

  /** A JSON value read back as a rule, when it is an object with a known `kind` and that kind's fields. */
  function DecodeRule(j: Json): (r: Option<Rule>)
    ensures r.Some? ==> j.JObject? && StringField(j.fields, "kind") == Some(KindName(r.value.kind))
    ensures r.Some? ==> r.value.origin == DecodeOrigin(j.fields)
  {
    if !j.JObject? then None
    else
      var f := j.fields;
      var origin := DecodeOrigin(f);
      match StringField(f, "kind")
      case Some("none") => Some(Rule(NoSource, origin))
      case Some("direct") =>
        (match StringField(f, "source")
         case Some(source) => Some(Rule(Direct(source), origin))
         case None => None)
      case Some("split_name") =>
        (match (StringField(f, "source"), StringField(f, "part"))
         case (Some(source), Some(p)) =>
           (match DecodePart(p)
            case Some(part) => Some(Rule(SplitName(source, part), origin))
            case None => None)
         case _ => None)
      case Some("concat") =>
        (if "sources" !in f then None
         else match DecodeStrings(f["sources"])
           case Some(sources) => Some(Rule(Concat(sources, StringField(f, "separator")), origin))
           case None => None)
      case _ => None
  }

  lemma {:induction false} DecodeEncodeStringsFrom(xs: seq<string>, i: nat)
    requires i <= |xs|
    ensures DecodeStringsFrom(EncodeStrings(xs).items, i) == Some(xs[i..])
    decreases |xs| - i
  {
    if i < |xs| {
      DecodeEncodeStringsFrom(xs, i + 1);
      assert EncodeStrings(xs).items[i] == JString(xs[i]);
      assert xs[i..] == [xs[i]] + xs[i + 1..];
    } else {
      assert xs[i..] == [];
    }
  }

  /** Reading back a written rule gives the same rule. */
  lemma DecodeEncodeRule(r: Rule)
    ensures DecodeRule(EncodeRule(r)) == Some(r)
  {
    OriginRoundTrip(r);
    if r.kind.Concat? {
      DecodeEncodeConcat(r);
    }
  }

  lemma OriginRoundTrip(r: Rule)
    ensures DecodeOrigin(EncodeRule(r).fields) == r.origin
  {
  }

  lemma DecodeEncodeConcat(r: Rule)
    requires r.kind.Concat?
    ensures DecodeRule(EncodeRule(r)) == Some(r)
  {
    var f := EncodeRule(r).fields;
    DecodeEncodeStringsFrom(r.kind.sources, 0);
    assert r.kind.sources[0..] == r.kind.sources;
    assert StringField(f, "kind") == Some("concat");
    assert DecodeStrings(f["sources"]) == Some(r.kind.sources);
    assert StringField(f, "separator") == r.kind.separator;
    OriginRoundTrip(r);
  }

  // ----- The payload ----------------------------------------------------------

  /** Every rule reads back as itself. */
  lemma DecodeEncodeRules(m: Mapping)
    ensures forall k :: k in m ==> DecodeRule(EncodeRule(m[k])) == Some(m[k])
  {
    forall k | k in m ensures DecodeRule(EncodeRule(m[k])) == Some(m[k]) {
      DecodeEncodeRule(m[k]);
    }
  }

  /** The mapping as an object with the same keys, each entry truthy and reading back as its rule. */
  function EncodeMapping(m: Mapping): (j: Json)
    ensures j.JObject? && j.fields.Keys == m.Keys
    ensures forall k :: k in m ==> Truthy(j.fields[k]) && DecodeRule(j.fields[k]) == Some(m[k])
  {
    DecodeEncodeRules(m);
    JObject(map k | k in m :: EncodeRule(m[k]))
  }

  /** An array of strings reads back as itself. */
  lemma DecodeEncodeStrings(xs: seq<string>)
    ensures DecodeStrings(EncodeStrings(xs)) == Some(xs)
  {
    DecodeEncodeStringsFrom(xs, 0);
    assert xs[0..] == xs;
  }

  /** The save file: format version 1, both header lists (empty when no file is loaded) and the mapping. */
  function SavePayload(templateHeaders: seq<string>, sourceHeaders: seq<string>, m: Mapping): (j: Json)
    ensures j.JObject? && j.fields.Keys == {"version", "templateHeaders", "sourceHeaders", "mapping"}
    ensures j.fields["version"] == JNumber(1.0)
    ensures DecodeStrings(j.fields["templateHeaders"]) == Some(templateHeaders)
    ensures DecodeStrings(j.fields["sourceHeaders"]) == Some(sourceHeaders)
    ensures j.fields["mapping"] == EncodeMapping(m)
  {
    DecodeEncodeStrings(templateHeaders);
    DecodeEncodeStrings(sourceHeaders);
    JObject(map[
      "version" := JNumber(1.0),
      "templateHeaders" := EncodeStrings(templateHeaders),
      "sourceHeaders" := EncodeStrings(sourceHeaders),
      "mapping" := EncodeMapping(m)])
  }

  // ----- Loading --------------------------------------------------------------

  /**
   * `parsed?.mapping ?? parsed`: the `mapping` member when there is one and
   * it is not null, and otherwise the whole document.
   */
  function LoadedValue(parsed: Json): (j: Json)
    ensures parsed.JObject? && "mapping" in parsed.fields && parsed.fields["mapping"] != JNull
      ==> j == parsed.fields["mapping"]
    ensures !(parsed.JObject? && "mapping" in parsed.fields) ==> j == parsed
  {
    if parsed.JObject? && "mapping" in parsed.fields && parsed.fields["mapping"] != JNull
    then parsed.fields["mapping"]
    else parsed
  }

  /** The entries copied from a loaded object: truthy values, under the given keys, that read as rules. */
  function Collected(fields: map<string, Json>, keys: set<string>): (m: Mapping)
    ensures m.Keys <= keys * fields.Keys
    ensures forall k :: k in m ==> Truthy(fields[k]) && DecodeRule(fields[k]) == Some(m[k])
    ensures forall k :: k in keys && k in fields && Truthy(fields[k]) && DecodeRule(fields[k]).Some? ==> k in m
  {
    map k | k in keys && k in fields && Truthy(fields[k]) && DecodeRule(fields[k]).Some? :: DecodeRule(fields[k]).value
  }

  /**
   * The mapping a loaded document installs, or None when it leaves the
   * mapping alone: only an object (or array) replaces it, with the entries
   * under the current template headers when a template is loaded, and
   * under all the object's own keys otherwise.
   */
  function LoadMapping(parsed: Json, allowed: Option<seq<string>>): (r: Option<Mapping>)
    ensures r.Some? <==> LoadedValue(parsed).JObject? || LoadedValue(parsed).JArray?
    ensures r.Some? && allowed.Some? ==> forall k :: k in r.value ==> k in allowed.value
    ensures LoadedValue(parsed).JArray? ==> r == Some(map[])
    ensures LoadedValue(parsed).JObject? ==> var f := LoadedValue(parsed).fields;
      r.Some? && forall k :: k in r.value <==>
        (allowed.None? || k in allowed.value) && k in f && Truthy(f[k]) && DecodeRule(f[k]).Some?
    ensures LoadedValue(parsed).JObject? && r.Some? ==> var f := LoadedValue(parsed).fields;
      forall k :: k in r.value ==> DecodeRule(f[k]) == Some(r.value[k])
  {
    match LoadedValue(parsed)
    case JObject(fields) =>
      Some(Collected(fields, if allowed.Some? then set k | k in allowed.value else fields.Keys))
    case JArray(_) => Some(map[])
    case _ => None
  }

  /** Without a template, loading a saved file gives back the mapping that was saved. */
  lemma SaveLoadRoundTrip(templateHeaders: seq<string>, sourceHeaders: seq<string>, m: Mapping)
    ensures LoadMapping(SavePayload(templateHeaders, sourceHeaders, m), None) == Some(m)
  {
    var fields := EncodeMapping(m).fields;
    assert LoadedValue(SavePayload(templateHeaders, sourceHeaders, m)) == EncodeMapping(m);
    assert Collected(fields, fields.Keys) == m;
  }

  /** With a template loaded, a saved file gives back the saved rules of the template's headers. */
  lemma SaveLoadFiltered(templateHeaders: seq<string>, sourceHeaders: seq<string>, m: Mapping, allowed: seq<string>)
    ensures LoadMapping(SavePayload(templateHeaders, sourceHeaders, m), Some(allowed))
      == Some(map k | k in m && k in allowed :: m[k])
  {
    var fields := EncodeMapping(m).fields;
    assert LoadedValue(SavePayload(templateHeaders, sourceHeaders, m)) == EncodeMapping(m);
    assert Collected(fields, set k | k in allowed) == map k | k in m && k in allowed :: m[k];
  }

  /** A document whose `mapping` member is null is itself read as the mapping. */
  lemma NullMappingFallsBack(fields: map<string, Json>)
    requires "mapping" in fields && fields["mapping"] == JNull
    ensures LoadedValue(JObject(fields)) == JObject(fields)
    ensures LoadMapping(JObject(fields), None) == Some(Collected(fields, fields.Keys))
  {
  }

  /** A document that is a string, number, boolean or null leaves the mapping unchanged. */
  lemma ScalarDocumentIgnored(parsed: Json)
    requires parsed.JNull? || parsed.JBool? || parsed.JNumber? || parsed.JString?
    ensures LoadMapping(parsed, None) == None
  {
  }

  /**
   * The loop of onUploadSaveSelected: each key in turn, its entry copied
   * when it is truthy (and reads as a rule).
   */
  method CollectEntries(fields: map<string, Json>, keys: seq<string>) returns (next: Mapping)
    ensures next == Collected(fields, set k | k in keys)
  {
    next := map[];
    for i := 0 to |keys|
      invariant next == Collected(fields, set k | k in keys[..i])
    {
      var k := keys[i];
      PrefixElements(keys, i);
      if k in fields && Truthy(fields[k]) {
        var rule := DecodeRule(fields[k]);
        if rule.Some? {
          next := next[k := rule.value];
        }
      }
    }
    assert keys[..|keys|] == keys;
  }

  lemma PrefixElements(keys: seq<string>, i: nat)
    requires i < |keys|
    ensures forall x :: x in keys[..i + 1] <==> x in keys[..i] || x == keys[i]
  {
    assert keys[..i + 1] == keys[..i] + [keys[i]];
  }

  /** `Object.keys(loaded)`: the object's own keys, in some order. */
  method KeysOf(fields: map<string, Json>) returns (keys: seq<string>)
    ensures (set k | k in keys) == fields.Keys
  {
    keys := [];
    var rest := fields.Keys;
    while rest != {}
      invariant (set k | k in keys) + rest == fields.Keys
      decreases |rest|
    {
      var k :| k in rest;
      keys := keys + [k];
      rest := rest - {k};
    }
  }

  /** The body of onUploadSaveSelected once the file is parsed. */
  method LoadSaveFile(parsed: Json, allowed: Option<seq<string>>) returns (r: Option<Mapping>)
    ensures r == LoadMapping(parsed, allowed)
  {
    var loaded := LoadedValue(parsed);
    if loaded.JObject? {
      var keys: seq<string>;
      if allowed.Some? {
        keys := allowed.value;
      } else {
        keys := KeysOf(loaded.fields);
      }
      var next := CollectEntries(loaded.fields, keys);
      r := Some(next);
    } else if loaded.JArray? {
      r := Some(map[]);
    } else {
      r := None;
    }
  }
}
