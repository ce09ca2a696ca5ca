/** Endpoint selection for a notebook: which endpoints a project declares or implies, and which
    one is the default. Models `EndpointsManager` in src/endpoints.ts once the project
    configuration has been loaded. */
module Endpoints {
  import opened Results
  import opened Strings
  import opened JsonValues

  /** One entry of a `schema` list: a string, another value (with the text its `toString()`
      gives), or `null`/`undefined`, whose `toString()` throws. */
  datatype SchemaEntry = EntryText(text: string) | EntryOther(rendered: string) | EntryNullish

  /** The project's `schema` setting: a string, a list, or anything else. */
  datatype Schema = SchemaText(text: string) | SchemaList(entries: seq<SchemaEntry>) | SchemaOther

  /** An endpoints object, as the key/value pairs `Object.keys` enumerates, in that order. */
  type EndpointMap = seq<(string, Json)>

  /** The project chosen for the notebook. `declared` is `extensions.endpoints` (absent when
      undefined or null). */
  datatype ProjectConfig = ProjectConfig(name: string, schema: Schema, declared: Option<EndpointMap>)

  /** A loaded configuration: the directory it was found in and the notebook's project. */
  datatype Config = Config(dirpath: string, project: ProjectConfig)

  /** One element of the list `getConfiguredEndpoints` returns. */
  datatype ConfiguredEndpoint = ConfiguredEndpoint(
    project: string,
    projectConfig: ProjectConfig,
    configDirPath: string,
    endpointName: string,
    endpointData: Json,
    isDefault: bool)

  /** What the selection can throw. */
  datatype EndpointError =
    | NullishSchemaEntry   // `toString()` on a null or undefined schema entry
    | NoEndpoints          // `Object.keys(undefined)`: nothing declared and no URL schema

  const DefaultName: string := "default"

  // ------------------------------------------------------------- schema default

  function NormalizeEntries(entries: seq<SchemaEntry>): (r: Result<seq<string>, EndpointError>)
    ensures r.Ok? <==> forall i :: 0 <= i < |entries| ==> !entries[i].EntryNullish?
    ensures r.Ok? ==>
              && |r.value| == |entries|
              && forall i :: 0 <= i < |entries| ==>
                   r.value[i] == (if entries[i].EntryText? then entries[i].text else entries[i].rendered)
  {
    if |entries| == 0 then Ok([])
    else if entries[0].EntryNullish? then Err(NullishSchemaEntry)
    else
      match NormalizeEntries(entries[1..])
      case Err(e) => Err(e)
      case Ok(rest) =>
        var first := if entries[0].EntryText? then entries[0].text else entries[0].rendered;
        Ok([first] + rest)
  }

  /** The schema as a list of strings: a string is one element, a list is converted element by
      element, anything else gives no schemas. */
  function NormalizeSchemas(schema: Schema): (r: Result<seq<string>, EndpointError>)
    ensures schema.SchemaText? ==> r == Ok([schema.text])
    ensures schema.SchemaOther? ==> r == Ok([])
    ensures schema.SchemaList? ==> r == NormalizeEntries(schema.entries)
  {
    match schema
    case SchemaText(s) => Ok([s])
    case SchemaList(entries) => NormalizeEntries(entries)
    case SchemaOther => Ok([])
  }

  /** `/^https?:\/\//`: the text starts with `http://` or `https://`. */
  predicate IsUrl(s: string)
  {
    StartsWith(s, "http://") || StartsWith(s, "https://")
  }

  /** The first schema, in list order, that is a URL. */
  function FirstUrl(schemas: seq<string>): (r: Option<nat>)
    ensures r.None? <==> forall i :: 0 <= i < |schemas| ==> !IsUrl(schemas[i])
    ensures r.Some? ==>
              && r.value < |schemas| && IsUrl(schemas[r.value])
              && forall i :: 0 <= i < r.value ==> !IsUrl(schemas[i])
  {
    if |schemas| == 0 then None
    else if IsUrl(schemas[0]) then Some(0)
    else
      match FirstUrl(schemas[1..])
      case None => None
      case Some(k) => Some(k + 1)
  }

  /** The endpoint record `{ url }` implied by a schema URL. */
  function UrlEndpoint(url: string): Json
  {
    Obj([("url", Str(url))])
  }

  /** `getDefaultEndpointFromSchema`: `{ default: { url } }` for the first URL schema, else undefined. */
  function DefaultEndpointFromSchema(pc: ProjectConfig): (r: Result<Option<EndpointMap>, EndpointError>)
    ensures NormalizeSchemas(pc.schema).Err? ==> r == Err(NormalizeSchemas(pc.schema).error)
    ensures NormalizeSchemas(pc.schema).Ok? ==>
              var schemas := NormalizeSchemas(pc.schema).value;
              && r.Ok?
              && (r.value.None? <==> forall i :: 0 <= i < |schemas| ==> !IsUrl(schemas[i]))
              && (r.value.Some? ==>
                    exists k :: 0 <= k < |schemas| && IsUrl(schemas[k])
                                && (forall i :: 0 <= i < k ==> !IsUrl(schemas[i]))
                                && r.value.value == [(DefaultName, UrlEndpoint(schemas[k]))])
  {
    match NormalizeSchemas(pc.schema)
    case Err(e) => Err(e)
    case Ok(schemas) =>
      match FirstUrl(schemas)
      case None => Ok(None)
      case Some(k) => Ok(Some([(DefaultName, UrlEndpoint(schemas[k]))]))
  }

  // ------------------------------------------------------------ configured list

  /** Declared endpoints take precedence; the schema is only consulted when none are declared. */
  function SelectEndpoints(pc: ProjectConfig): (r: Result<EndpointMap, EndpointError>)
    ensures pc.declared.Some? ==> r == Ok(pc.declared.value)
    ensures pc.declared.None? ==>
              match DefaultEndpointFromSchema(pc)
              case Err(e) => r == Err(e)
              case Ok(None) => r == Err(NoEndpoints)
              case Ok(Some(m)) => r == Ok(m)
  {
    if pc.declared.Some? then Ok(pc.declared.value)
    else
      match DefaultEndpointFromSchema(pc)
      case Err(e) => Err(e)
      case Ok(None) => Err(NoEndpoints)
      case Ok(Some(m)) => Ok(m)
  }

  function Describe(c: Config, entry: (string, Json)): ConfiguredEndpoint
  {
    ConfiguredEndpoint(c.project.name, c.project, c.dirpath, entry.0, entry.1, entry.0 == DefaultName)
  }

  function DescribeAll(c: Config, m: EndpointMap): (r: seq<ConfiguredEndpoint>)
    ensures |r| == |m|
    ensures forall i :: 0 <= i < |m| ==> r[i] == Describe(c, m[i])
  {
    if |m| == 0 then [] else [Describe(c, m[0])] + DescribeAll(c, m[1..])
  }

  /** `getConfiguredEndpoints` after loading: `None` when no configuration was found. */
  function ConfiguredEndpoints(config: Option<Config>): (r: Result<Option<seq<ConfiguredEndpoint>>, EndpointError>)
    ensures config.None? ==> r == Ok(None)
    ensures config.Some? ==>
              match SelectEndpoints(config.value.project)
              case Err(e) => r == Err(e)
              case Ok(m) => r.Ok? && r.value.Some? && |r.value.value| == |m|
  {
    match config
    case None => Ok(None)
    case Some(c) =>
      match SelectEndpoints(c.project)
      case Err(e) => Err(e)
      case Ok(m) => Ok(Some(DescribeAll(c, m)))
  }

  // --------------------------------------------------------------- properties

  /** One result per endpoint key, in key order, all carrying the project's name, its
      configuration and the configuration directory; only the key "default" is the default. */
  lemma ConfiguredEndpointsShape(c: Config)
    requires SelectEndpoints(c.project).Ok?
    ensures var m := SelectEndpoints(c.project).value;
            var r := ConfiguredEndpoints(Some(c));
            && r.Ok? && r.value.Some? && |r.value.value| == |m|
            && forall i :: 0 <= i < |m| ==>
                 var e := r.value.value[i];
                 && e.project == c.project.name && e.projectConfig == c.project
                 && e.configDirPath == c.dirpath
                 && e.endpointName == m[i].0 && e.endpointData == m[i].1
                 && (e.isDefault <==> m[i].0 == "default")
  {
  }

  /** Without declared endpoints, a URL schema yields exactly one endpoint: the default one,
      pointing at the first URL schema. */
  lemma SchemaDefaultIsSoleDefault(c: Config)
    requires c.project.declared.None?
    requires ConfiguredEndpoints(Some(c)).Ok?
    ensures var es := ConfiguredEndpoints(Some(c)).value.value;
            var schemas := NormalizeSchemas(c.project.schema).value;
            && |es| == 1 && es[0].isDefault && es[0].endpointName == "default"
            && exists k :: 0 <= k < |schemas| && IsUrl(schemas[k])
                           && (forall i :: 0 <= i < k ==> !IsUrl(schemas[i]))
                           && es[0].endpointData == Obj([("url", Str(schemas[k]))])
  {
  }

  /** With nothing declared and no URL schema there is no endpoint list at all: the call throws
      instead of returning an empty list. */
  lemma NoUrlSchemaThrows(c: Config)
    requires c.project.declared.None?
    requires NormalizeSchemas(c.project.schema).Ok?
    requires forall s :: s in NormalizeSchemas(c.project.schema).value ==> !IsUrl(s)
    ensures ConfiguredEndpoints(Some(c)) == Err(NoEndpoints)
  {
  }

  /** Declared endpoints win even when the schema names a URL or could not be read. */
  lemma DeclaredEndpointsTakePrecedence(c: Config)
    requires c.project.declared.Some?
    ensures ConfiguredEndpoints(Some(c)) == Ok(Some(DescribeAll(c, c.project.declared.value)))
  {
  }
}
