/** The per-endpoint notebook controllers: one controller and one stored configuration per
    composite id, created on first sight and reused afterwards. Models
    `ControllerManager.ensureControllersFor` in src/controller.ts. */
module ControllerRegistry {
  import opened Results
  import opened JsonValues
  import opened Endpoints

  const NotebookType: string := "gqlnb"
  const Separator: string := " - "

  /** The endpoint and project a controller sends its operations with. */
  datatype Configuration = Configuration(endpoint: Json, projectConfig: ProjectConfig)

  /** A notebook controller; `preferredFor` holds the notebooks that have it as Preferred. */
  datatype Controller = Controller(
    id: string,
    notebookType: string,
    displayName: string,
    supportedLanguages: seq<string>,
    preferredFor: set<string>)

  /** The two maps `controllers` and `configurations`, both keyed by controller id. */
  datatype Registry = Registry(controllers: map<string, Controller>, configurations: map<string, Configuration>)

  /** Every controller has its configuration, and is stored under its own id. */
  ghost predicate Consistent(reg: Registry)
  {
    && reg.controllers.Keys == reg.configurations.Keys
    && forall id :: id in reg.controllers ==> reg.controllers[id].id == id
  }

  /** `configDirPath - project - endpointName`. */
  function ControllerId(e: ConfiguredEndpoint): string
  {
    e.configDirPath + Separator + e.project + Separator + e.endpointName
  }

  /** A controller as first created: under the endpoint's id, for `gqlnb` notebooks, labelled
      `project - endpointName`, running `graphql` cells only, preferred by no notebook yet. */
  function NewController(e: ConfiguredEndpoint): (c: Controller)
    ensures c.id == ControllerId(e) && c.notebookType == NotebookType
    ensures c.displayName == e.project + Separator + e.endpointName
    ensures c.supportedLanguages == ["graphql"] && c.preferredFor == {}
  {
    Controller(ControllerId(e), NotebookType, e.project + Separator + e.endpointName, ["graphql"], {})
  }

  /** The affinities a controller has after one turn of the loop. */
  function PreferredAfter(before: set<string>, notebook: string, e: ConfiguredEndpoint): set<string>
  {
    if e.isDefault then before + {notebook} else before
  }

  /** One turn of the loop: create the controller and store its configuration, both only when
      the id is absent; then mark the controller Preferred if the endpoint is the default. */
  function RegisterEndpoint(reg: Registry, notebook: string, e: ConfiguredEndpoint): (r: Registry)
    ensures var id := ControllerId(e);
            && r.controllers.Keys == reg.controllers.Keys + {id}
            && (id in reg.controllers ==> r.configurations == reg.configurations)
            && (id !in reg.controllers ==>
                  r.configurations == reg.configurations[id := Configuration(e.endpointData, e.projectConfig)])
            && (forall k :: k in reg.controllers && k != id ==> r.controllers[k] == reg.controllers[k])
            && (id in reg.controllers ==>
                  r.controllers[id] == reg.controllers[id].(preferredFor :=
                                         PreferredAfter(reg.controllers[id].preferredFor, notebook, e)))
            && (id !in reg.controllers ==>
                  r.controllers[id] == NewController(e).(preferredFor := PreferredAfter({}, notebook, e)))
  {
    var id := ControllerId(e);
    var created :=
      if id in reg.controllers then reg
      else Registry(reg.controllers[id := NewController(e)],
                    reg.configurations[id := Configuration(e.endpointData, e.projectConfig)]);
    if e.isDefault then
      var c := created.controllers[id];
      created.(controllers := created.controllers[id := c.(preferredFor := c.preferredFor + {notebook})])
    else created
  }

  /** The loop over the configured endpoints. It only ever adds: no controller or configuration
      is removed. */
  function RegisterAll(reg: Registry, notebook: string, es: seq<ConfiguredEndpoint>): (r: Registry)
    ensures reg.controllers.Keys <= r.controllers.Keys
    ensures reg.configurations.Keys <= r.configurations.Keys
    decreases |es|
  {
    if |es| == 0 then reg else RegisterAll(RegisterEndpoint(reg, notebook, es[0]), notebook, es[1..])
  }

  /** `ensureControllersFor` with the result of `getConfiguredEndpoints` already in hand: a
      throwing selection rejects before either map is touched, and "no configuration" is an
      empty list. */
  function EnsureControllersFor(reg: Registry, notebook: string,
                                configured: Result<Option<seq<ConfiguredEndpoint>>, EndpointError>): (r: Result<Registry, EndpointError>)
    ensures configured.Err? <==> r.Err?
    ensures configured == Ok(None) ==> r == Ok(reg)
  {
    match configured
    case Err(e) => Err(e)
    case Ok(None) => Ok(reg)
    case Ok(Some(es)) => Ok(RegisterAll(reg, notebook, es))
  }

  // --------------------------------------------------------------- properties

  ghost predicate HasId(es: seq<ConfiguredEndpoint>, id: string)
  {
    exists i :: 0 <= i < |es| && ControllerId(es[i]) == id
  }

  /** The first endpoint of the list with the given id. */
  function FirstWithId(es: seq<ConfiguredEndpoint>, id: string): (r: Option<ConfiguredEndpoint>)
    ensures r.Some? <==> HasId(es, id)
    ensures r.Some? ==> r.value in es && ControllerId(r.value) == id
  {
    if |es| == 0 then None
    else if ControllerId(es[0]) == id then Some(es[0])
    else
      var r := FirstWithId(es[1..], id);
      assert forall i :: 1 <= i < |es| ==> es[1..][i - 1] == es[i];
      r
  }

  /** The ids after the loop: exactly the earlier ones plus the endpoints' ids. */
  lemma {:induction false} RegisterAllIds(reg: Registry, notebook: string, es: seq<ConfiguredEndpoint>)
    ensures forall id :: id in RegisterAll(reg, notebook, es).controllers <==> id in reg.controllers || HasId(es, id)
    decreases |es|
  {
    if |es| > 0 {
      var next := RegisterEndpoint(reg, notebook, es[0]);
      RegisterAllIds(next, notebook, es[1..]);
      forall id
        ensures id in RegisterAll(reg, notebook, es).controllers <==> id in reg.controllers || HasId(es, id)
      {
        if HasId(es[1..], id) {
          var i :| 0 <= i < |es[1..]| && ControllerId(es[1..][i]) == id;
          assert ControllerId(es[i + 1]) == id;
        }
        if HasId(es, id) && ControllerId(es[0]) != id {
          var i :| 0 <= i < |es| && ControllerId(es[i]) == id;
          assert ControllerId(es[1..][i - 1]) == id;
        }
      }
    }
  }

  /** The loop keeps the two maps consistent: same ids, each controller under its own id. */
  lemma {:induction false} RegisterAllConsistent(reg: Registry, notebook: string, es: seq<ConfiguredEndpoint>)
    requires Consistent(reg)
    ensures Consistent(RegisterAll(reg, notebook, es))
    decreases |es|
  {
    if |es| > 0 {
      var next := RegisterEndpoint(reg, notebook, es[0]);
      assert Consistent(next);
      RegisterAllConsistent(next, notebook, es[1..]);
    }
  }

  /** An existing entry is never overwritten: its configuration stays, and its controller changes
      at most in its affinities. */
  lemma {:induction false} RegisterAllKeepsExisting(reg: Registry, notebook: string, es: seq<ConfiguredEndpoint>, id: string)
    requires Consistent(reg)
    requires id in reg.controllers
    ensures var r := RegisterAll(reg, notebook, es);
            && id in r.controllers && id in r.configurations
            && r.configurations[id] == reg.configurations[id]
            && r.controllers[id] == reg.controllers[id].(preferredFor := r.controllers[id].preferredFor)
    decreases |es|
  {
    RegisterAllConsistent(reg, notebook, es);
    if |es| > 0 {
      var next := RegisterEndpoint(reg, notebook, es[0]);
      assert Consistent(next);
      RegisterAllKeepsExisting(next, notebook, es[1..], id);
    }
  }

  /** A new id stores the configuration of the FIRST endpoint in the list with that id. */
  lemma {:induction false} RegisterAllNewConfiguration(reg: Registry, notebook: string, es: seq<ConfiguredEndpoint>, id: string)
    requires Consistent(reg)
    requires id !in reg.controllers && HasId(es, id)
    ensures var r := RegisterAll(reg, notebook, es);
            var e := FirstWithId(es, id).value;
            id in r.configurations && r.configurations[id] == Configuration(e.endpointData, e.projectConfig)
    decreases |es|
  {
    var next := RegisterEndpoint(reg, notebook, es[0]);
    assert Consistent(next);
    if ControllerId(es[0]) == id {
      RegisterAllKeepsExisting(next, notebook, es[1..], id);
    } else {
      var i :| 0 <= i < |es| && ControllerId(es[i]) == id;
      assert ControllerId(es[1..][i - 1]) == id;
      RegisterAllNewConfiguration(next, notebook, es[1..], id);
    }
  }

  /** Some default endpoint of the list has the given controller id. */
  ghost predicate DefaultWithId(es: seq<ConfiguredEndpoint>, id: string)
  {
    exists i :: 0 <= i < |es| && ControllerId(es[i]) == id && es[i].isDefault
  }

  /** The registry holds a controller `id` that notebook `nb` prefers. */
  predicate Prefers(reg: Registry, id: string, nb: string)
  {
    id in reg.controllers && nb in reg.controllers[id].preferredFor
  }

  /** Affinity after the loop: the notebook prefers a controller iff it did already or some
      default endpoint in the list has that controller's id, whether the controller is new or
      not; other notebooks' affinities are untouched. */
  lemma {:induction false} RegisterAllAffinity(reg: Registry, notebook: string, es: seq<ConfiguredEndpoint>, id: string, other: string)
    requires other != notebook
    ensures Prefers(RegisterAll(reg, notebook, es), id, notebook) <==> Prefers(reg, id, notebook) || DefaultWithId(es, id)
    ensures Prefers(RegisterAll(reg, notebook, es), id, other) <==> Prefers(reg, id, other)
    decreases |es|
  {
    if |es| > 0 {
      var next := RegisterEndpoint(reg, notebook, es[0]);
      RegisterAllAffinity(next, notebook, es[1..], id, other);
      RegisterEndpointAffinity(reg, notebook, es[0], id, other);
      DefaultWithIdFirst(es, id);
    }
  }

  /** One turn of the loop: the notebook comes to prefer `id` iff the endpoint is a default one
      with that id; no other notebook's affinity changes. */
  lemma RegisterEndpointAffinity(reg: Registry, notebook: string, e: ConfiguredEndpoint, id: string, other: string)
    requires other != notebook
    ensures Prefers(RegisterEndpoint(reg, notebook, e), id, notebook) <==>
              Prefers(reg, id, notebook) || (ControllerId(e) == id && e.isDefault)
    ensures Prefers(RegisterEndpoint(reg, notebook, e), id, other) <==> Prefers(reg, id, other)
  {
  }

  lemma DefaultWithIdFirst(es: seq<ConfiguredEndpoint>, id: string)
    requires |es| > 0
    ensures DefaultWithId(es, id) <==> (ControllerId(es[0]) == id && es[0].isDefault) || DefaultWithId(es[1..], id)
  {
    if DefaultWithId(es[1..], id) {
      var i :| 0 <= i < |es[1..]| && ControllerId(es[1..][i]) == id && es[1..][i].isDefault;
      assert es[i + 1] == es[1..][i];
    }
    if DefaultWithId(es, id) {
      var i :| 0 <= i < |es| && ControllerId(es[i]) == id && es[i].isDefault;
      if i > 0 {
        assert es[1..][i - 1] == es[i];
      }
    }
  }

  /** The endpoint has nothing left to do in the registry: its controller exists and, if it
      is a default endpoint, the notebook already prefers that controller. */
  ghost predicate Absorbed(reg: Registry, notebook: string, e: ConfiguredEndpoint)
  {
    && ControllerId(e) in reg.controllers
    && (e.isDefault ==> notebook in reg.controllers[ControllerId(e)].preferredFor)
  }

  lemma RegisterAbsorbed(reg: Registry, notebook: string, e: ConfiguredEndpoint)
    requires Absorbed(reg, notebook, e)
    ensures RegisterEndpoint(reg, notebook, e) == reg
  {
    var id := ControllerId(e);
    if e.isDefault {
      var c := reg.controllers[id];
      assert c.(preferredFor := c.preferredFor + {notebook}) == c;
      assert reg.controllers[id := c] == reg.controllers;
    }
  }

  lemma RegisterKeepsAbsorbed(reg: Registry, notebook: string, e: ConfiguredEndpoint, f: ConfiguredEndpoint)
    requires Absorbed(reg, notebook, f)
    ensures Absorbed(RegisterEndpoint(reg, notebook, e), notebook, f)
  {
  }

  /** After the loop every endpoint of the list is absorbed, and so is everything that was before. */
  lemma {:induction false} RegisterAllAbsorbs(reg: Registry, notebook: string, es: seq<ConfiguredEndpoint>, f: ConfiguredEndpoint)
    requires f in es || Absorbed(reg, notebook, f)
    ensures Absorbed(RegisterAll(reg, notebook, es), notebook, f)
    decreases |es|
  {
    if |es| > 0 {
      var next := RegisterEndpoint(reg, notebook, es[0]);
      if Absorbed(reg, notebook, f) {
        RegisterKeepsAbsorbed(reg, notebook, es[0], f);
      }
      if f != es[0] && f in es {
        assert f in es[1..];
      }
      RegisterAllAbsorbs(next, notebook, es[1..], f);
    }
  }

  lemma {:induction false} RegisterAllOfAbsorbed(reg: Registry, notebook: string, es: seq<ConfiguredEndpoint>)
    requires forall e :: e in es ==> Absorbed(reg, notebook, e)
    ensures RegisterAll(reg, notebook, es) == reg
    decreases |es|
  {
    if |es| > 0 {
      RegisterAbsorbed(reg, notebook, es[0]);
      RegisterAllOfAbsorbed(reg, notebook, es[1..]);
    }
  }

  /** Re-running with the same endpoints changes neither map. */
  lemma RegisterAllIdempotent(reg: Registry, notebook: string, es: seq<ConfiguredEndpoint>)
    ensures RegisterAll(RegisterAll(reg, notebook, es), notebook, es) == RegisterAll(reg, notebook, es)
  {
    forall e | e in es
      ensures Absorbed(RegisterAll(reg, notebook, es), notebook, e)
    {
      RegisterAllAbsorbs(reg, notebook, es, e);
    }
    RegisterAllOfAbsorbed(RegisterAll(reg, notebook, es), notebook, es);
  }

  /** `ensureControllersFor` run twice on the same selection leaves both maps as the first run did. */
  lemma EnsureControllersIdempotent(reg: Registry, notebook: string,
                                    configured: Result<Option<seq<ConfiguredEndpoint>>, EndpointError>)
    ensures var first := EnsureControllersFor(reg, notebook, configured);
            first.Ok? ==> EnsureControllersFor(first.value, notebook, configured) == first
  {
    if configured.Ok? && configured.value.Some? {
      RegisterAllIdempotent(reg, notebook, configured.value.value);
    }
  }

  /** Within one project of one configuration, two endpoints share a controller exactly when
      they have the same name. */
  lemma ControllerIdsWithinProject(e1: ConfiguredEndpoint, e2: ConfiguredEndpoint)
    requires e1.configDirPath == e2.configDirPath && e1.project == e2.project
    ensures ControllerId(e1) == ControllerId(e2) <==> e1.endpointName == e2.endpointName
  {
    var prefix := e1.configDirPath + Separator + e1.project + Separator;
    assert ControllerId(e1) == prefix + e1.endpointName;
    assert ControllerId(e2) == prefix + e2.endpointName;
    if ControllerId(e1) == ControllerId(e2) {
      assert e1.endpointName == ControllerId(e1)[|prefix|..];
      assert e2.endpointName == ControllerId(e2)[|prefix|..];
    }
  }

  /** Distinct endpoints can share an id, because the id is a plain " - " join: the second one's
      configuration is then never stored. */
  lemma ControllerIdCollision(pc: ProjectConfig)
    ensures var a := ConfiguredEndpoint("a - b", pc, "dir", "c", Null, false);
            var b := ConfiguredEndpoint("a", pc, "dir", "b - c", Str("other"), false);
            var r := RegisterAll(Registry(map[], map[]), "nb", [a, b]);
            && a != b && ControllerId(a) == ControllerId(b)
            && r.configurations.Keys == {ControllerId(a)}
            && r.configurations[ControllerId(a)].endpoint == Null
  {
    var a := ConfiguredEndpoint("a - b", pc, "dir", "c", Null, false);
    var b := ConfiguredEndpoint("a", pc, "dir", "b - c", Str("other"), false);
    assert ControllerId(a) == "dir - a - b - c";
    assert ControllerId(b) == "dir - a - b - c";
    var empty := Registry(map[], map[]);
    var r1 := RegisterEndpoint(empty, "nb", a);
    assert r1.configurations == map[ControllerId(a) := Configuration(Null, pc)];
    var r2 := RegisterEndpoint(r1, "nb", b);
    assert r2.configurations == r1.configurations;
    assert [a, b][1..] == [b];
    assert [b][1..] == [];
    assert RegisterAll(empty, "nb", [a, b]) == RegisterAll(r1, "nb", [b]);
    assert RegisterAll(r1, "nb", [b]) == RegisterAll(r2, "nb", []);
  }
}
