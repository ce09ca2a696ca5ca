/** Running notebook cells: one execution task per cell, each template literal dispatched in
    turn, every result callback turned into output on the task. Models `ControllerManager.execute`
    with its update callback, `appendOutput`, `reportError` and `getVariablesFromUser` in
    src/controller.ts. The collaborators (literal extraction, the AST visit, the input box,
    `typeCast`, `executeOperation`, `JSON.parse`) are inputs. */
module CellExecution {
  import opened Results
  import opened Strings
  import opened JsonValues
  import opened Endpoints
  import opened ControllerRegistry

  // --------------------------------------------------------------- inputs

  datatype OperationKind = Query | Mutation | Subscription

  /** One call of the update callback: the result text and the kind of the operation. */
  datatype ResultEvent = ResultEvent(data: string, operation: OperationKind)

  /** A variable's declared type, as the AST gives it. */
  datatype TypeRef = NamedType(name: string) | ListType(itemType: TypeRef) | NonNullType(inner: TypeRef)

  datatype VariableDefinition = VariableDefinition(name: string, varType: TypeRef)

  /** A variable definition found by the AST visit, with what the input box returned for it
      (`None` when the box was dismissed). */
  datatype Prompt = Prompt(definition: VariableDefinition, answer: Option<string>)

  /** One template literal as the run sees it: its variable definitions in visit order with the
      user's answers, the callback events `executeOperation` produces, and the error it throws
      afterwards, if any. */
  datatype LiteralRun = LiteralRun(prompts: seq<Prompt>, events: seq<ResultEvent>, thrown: Option<string>)

  /** The literals extracted from a cell, or the message of the error extraction throws. */
  type Extraction = Result<seq<LiteralRun>, string>

  /** `typeCast(answer, type)`. */
  type Caster = (Option<string>, TypeRef) -> Json

  /** `JSON.parse`, `None` where it throws. */
  type Parser = string -> Option<Json>

  // -------------------------------------------------------------- outputs

  datatype ErrorReason =
    | Message(text: string)     // an `Error` with this message
    | MissingConfiguration      // destructuring the configuration of an unregistered controller
    | MalformedBody             // `JSON.parse` threw on a result body
    | NoDataField               // the parsed body has no `data` member to render

  datatype OutputItem = JsonItem(data: Json) | ErrorItem(reason: ErrorReason)

  /** The calls the code makes on its cell execution task, in order. */
  datatype TaskCall =
    | Start
    | ClearOutput
    | AppendOutput(item: OutputItem)
    | ReplaceOutput(item: OutputItem)
    | End(success: bool)

  /** One `executeOperation` call: the literal's position, the controller's endpoint and project,
      and the variables sent. */
  datatype Dispatch = Dispatch(literal: nat, endpoint: Json, projectConfig: ProjectConfig, variables: map<string, Json>)

  /** Everything one cell's run produced: the `success` flag, the task calls, the input box
      prompts (by variable name) and the dispatches. `rejected` marks a run whose `catch` block
      found its task already ended: the task refuses the error output, so the rejection leaves
      `execute` and the cell's `task.end` is never reached. */
  datatype CellRun = CellRun(success: bool, calls: seq<TaskCall>, prompts: seq<string>, dispatches: seq<Dispatch>,
                             rejected: bool)

  /** A cell's run once its task is started and its output cleared. */
  const Begun: CellRun := CellRun(false, [Start, ClearOutput], [], [], false)

  // ------------------------------------------------------------ variables

  function PromptNames(prompts: seq<Prompt>): (names: seq<string>)
    ensures |names| == |prompts|
    ensures forall i :: 0 <= i < |prompts| ==> names[i] == prompts[i].definition.name
  {
    if |prompts| == 0 then [] else [prompts[0].definition.name] + PromptNames(prompts[1..])
  }

  /** `getVariablesFromUser`: the answers cast and merged into one object, in prompt order. */
  function VariablesFromUser(cast: Caster, prompts: seq<Prompt>): (vars: map<string, Json>)
    ensures |prompts| > 0 ==>
              var last := prompts[|prompts| - 1].definition;
              last.name in vars && vars[last.name] == cast(prompts[|prompts| - 1].answer, last.varType)
    decreases |prompts|
  {
    if |prompts| == 0 then map[]
    else
      var n := |prompts| - 1;
      VariablesFromUser(cast, prompts[..n])[prompts[n].definition.name := cast(prompts[n].answer, prompts[n].definition.varType)]
  }

  /** Some definition of the list has this name. */
  ghost predicate Declares(prompts: seq<Prompt>, name: string)
  {
    exists i :: 0 <= i < |prompts| && prompts[i].definition.name == name
  }

  /** Definition `i` is the last one of its name. */
  ghost predicate LastOfName(prompts: seq<Prompt>, i: nat)
    requires i < |prompts|
  {
    forall j :: i < j < |prompts| ==> prompts[j].definition.name != prompts[i].definition.name
  }

  /** The variables hold exactly one key per declared name. */
  lemma {:induction false} VariablesFromUserKeys(cast: Caster, prompts: seq<Prompt>)
    ensures forall name :: name in VariablesFromUser(cast, prompts) <==> Declares(prompts, name)
    decreases |prompts|
  {
    if |prompts| > 0 {
      var n := |prompts| - 1;
      var front := prompts[..n];
      var vars := VariablesFromUser(cast, prompts);
      assert vars == VariablesFromUser(cast, front)[prompts[n].definition.name := cast(prompts[n].answer, prompts[n].definition.varType)];
      VariablesFromUserKeys(cast, front);
      forall name
        ensures name in vars <==> Declares(prompts, name)
      {
        if name == prompts[n].definition.name {
          assert name in vars;
          assert Declares(prompts, name);
        } else {
          if Declares(front, name) {
            var i :| 0 <= i < n && front[i].definition.name == name;
            assert prompts[i] == front[i];
          }
          if Declares(prompts, name) {
            var i :| 0 <= i < |prompts| && prompts[i].definition.name == name;
            assert front[i] == prompts[i];
            assert Declares(front, name);
          }
        }
      }
    }
  }

  /** A later definition of a name overwrites the value from an earlier one: each name holds the
      cast answer of its last definition. */
  lemma {:induction false} VariablesFromUserLastWins(cast: Caster, prompts: seq<Prompt>, i: nat)
    requires i < |prompts| && LastOfName(prompts, i)
    ensures var vars := VariablesFromUser(cast, prompts);
            var name := prompts[i].definition.name;
            name in vars && vars[name] == cast(prompts[i].answer, prompts[i].definition.varType)
    decreases |prompts|
  {
    var n := |prompts| - 1;
    var front := prompts[..n];
    var vars := VariablesFromUser(cast, prompts);
    assert vars == VariablesFromUser(cast, front)[prompts[n].definition.name := cast(prompts[n].answer, prompts[n].definition.varType)];
    if i < n {
      assert front[i] == prompts[i];
      assert LastOfName(front, i);
      VariablesFromUserLastWins(cast, front, i);
    }
  }

  /** A literal without variable definitions is sent with the empty variable object. */
  lemma NoDefinitionsNoVariables(cast: Caster, prompts: seq<Prompt>)
    requires |prompts| == 0
    ensures VariablesFromUser(cast, prompts) == map[]
  {
  }

  lemma VariablesFromUserStep(cast: Caster, prompts: seq<Prompt>, i: nat)
    requires i < |prompts|
    ensures VariablesFromUser(cast, prompts[..i + 1])
         == VariablesFromUser(cast, prompts[..i])[prompts[i].definition.name := cast(prompts[i].answer, prompts[i].definition.varType)]
  {
    assert prompts[..i + 1][..i] == prompts[..i];
  }

  lemma PromptNamesStep(prompts: seq<Prompt>, i: nat)
    requires i < |prompts|
    ensures PromptNames(prompts[..i + 1]) == PromptNames(prompts[..i]) + [prompts[i].definition.name]
  {
    var a := PromptNames(prompts[..i + 1]);
    var b := PromptNames(prompts[..i]) + [prompts[i].definition.name];
    assert |a| == |b|;
    forall k | 0 <= k < |a|
      ensures a[k] == b[k]
    {
      assert prompts[..i + 1][k] == prompts[k];
      if k < i {
        assert prompts[..i][k] == prompts[k];
      }
    }
  }

  /** The prompt loop as written: one input box per definition, in visit order, each answer cast
      and merged into the object built so far. */
  method PromptForVariables(cast: Caster, prompts: seq<Prompt>) returns (vars: map<string, Json>, asked: seq<string>)
    ensures asked == PromptNames(prompts)
    ensures vars == VariablesFromUser(cast, prompts)
  {
    vars := map[];
    asked := [];
    var i := 0;
    while i < |prompts|
      invariant 0 <= i <= |prompts|
      invariant asked == PromptNames(prompts[..i])
      invariant vars == VariablesFromUser(cast, prompts[..i])
    {
      var node := prompts[i];
      VariablesFromUserStep(cast, prompts, i);
      PromptNamesStep(prompts, i);
      asked := asked + [node.definition.name];
      vars := vars[node.definition.name := cast(node.answer, node.definition.varType)];
      i := i + 1;
    }
    assert prompts[..i] == prompts;
  }

  // --------------------------------------------------------------- output

  /** `appendOutput`'s item: the `data` member of the parsed body, or an error item when the body
      does not parse or has no `data` member; a result is never dropped. */
  function CreateItem(parse: Parser, body: string): (item: OutputItem)
    ensures item.JsonItem? <==> parse(body).Some? && Member(parse(body).value, "data").Some?
    ensures item.JsonItem? ==> item.data == Member(parse(body).value, "data").value
    ensures parse(body).None? ==> item == ErrorItem(MalformedBody)
  {
    match parse(body)
    case None => ErrorItem(MalformedBody)
    case Some(parsed) =>
      match Member(parsed, "data")
      case None => ErrorItem(NoDataField)
      case Some(d) => JsonItem(d)
  }

  /** A result that counts as a success: not from a subscription and not starting with "Error". */
  predicate IsSuccessResult(ev: ResultEvent)
  {
    ev.operation != Subscription && !StartsWith(ev.data, "Error")
  }

  /** Some call of the list ends the task. */
  predicate EndIssued(calls: seq<TaskCall>)
  {
    exists k :: 0 <= k < |calls| && calls[k].End?
  }

  /** The only `end` in `calls` is `end(b)`, at position `k`. */
  predicate SoleEndAt(calls: seq<TaskCall>, k: int, b: bool)
  {
    0 <= k < |calls| && calls[k] == End(b) && forall j :: 0 <= j < |calls| && j != k ==> !calls[j].End?
  }

  /** The only `end` in `calls` is `end(b)`, issued for the result `evs[m]` after position
      `from`: it is followed by one output call for each later result. */
  predicate EndsAtResult(calls: seq<TaskCall>, from: int, evs: seq<ResultEvent>, m: int, b: bool)
  {
    from <= |calls| - (|evs| - m) && SoleEndAt(calls, |calls| - (|evs| - m), b)
  }

  /** `r` continues `p`: earlier calls, prompts and dispatches are kept as they were. */
  predicate Extends(p: CellRun, r: CellRun)
  {
    && |p.calls| <= |r.calls| && r.calls[..|p.calls|] == p.calls
    && |p.prompts| <= |r.prompts| && r.prompts[..|p.prompts|] == p.prompts
    && |p.dispatches| <= |r.dispatches| && r.dispatches[..|p.dispatches|] == p.dispatches
  }

  lemma ExtendsTrans(p: CellRun, q: CellRun, r: CellRun)
    requires Extends(p, q) && Extends(q, r)
    ensures Extends(p, r)
  {
    assert r.calls[..|p.calls|] == r.calls[..|q.calls|][..|p.calls|];
    assert r.prompts[..|p.prompts|] == r.prompts[..|q.prompts|][..|p.prompts|];
    assert r.dispatches[..|p.dispatches|] == r.dispatches[..|q.dispatches|][..|p.dispatches|];
  }

  /** The update callback for one result of literal `i`; `last` says whether `i` is the cell's
      last literal. The output call is awaited before `task.end`: on a task an earlier result
      already ended, the output is refused, the callback rejects there, and `end` is not reached. */
  function OnResult(parse: Parser, p: CellRun, ev: ResultEvent, last: bool): (r: CellRun)
    ensures Extends(p, r) && r.prompts == p.prompts && r.dispatches == p.dispatches && r.rejected == p.rejected
    ensures r.success == (p.success || IsSuccessResult(ev))
    ensures |r.calls| == |p.calls| + (if last && ev.operation != Subscription && !EndIssued(p.calls) then 2 else 1)
    ensures r.calls[|p.calls|] ==
              if ev.operation == Subscription || IsSuccessResult(ev) then AppendOutput(CreateItem(parse, ev.data))
              else ReplaceOutput(ErrorItem(Message(ev.data)))
    ensures last && ev.operation != Subscription && !EndIssued(p.calls) ==> r.calls[|r.calls| - 1] == End(r.success)
  {
    if ev.operation == Subscription then
      p.(calls := p.calls + [AppendOutput(CreateItem(parse, ev.data))])
    else
      var handled :=
        if !StartsWith(ev.data, "Error") then p.(success := true, calls := p.calls + [AppendOutput(CreateItem(parse, ev.data))])
        else p.(calls := p.calls + [ReplaceOutput(ErrorItem(Message(ev.data)))]);
      if last && !EndIssued(p.calls) then handled.(calls := handled.calls + [End(handled.success)]) else handled
  }

  ghost predicate AnySuccess(evs: seq<ResultEvent>)
  {
    exists k :: 0 <= k < |evs| && IsSuccessResult(evs[k])
  }

  ghost predicate AnyNonSubscription(evs: seq<ResultEvent>)
  {
    exists k :: 0 <= k < |evs| && evs[k].operation != Subscription
  }

  /** All callback events of one literal, in order. `success` is sticky: it only turns true. Each
      result makes one output call, and the task is ended at most once. */
  function OnResults(parse: Parser, p: CellRun, evs: seq<ResultEvent>, last: bool): (r: CellRun)
    ensures Extends(p, r) && r.prompts == p.prompts && r.dispatches == p.dispatches && r.rejected == p.rejected
    ensures r.success == (p.success || AnySuccess(evs))
    ensures EndIssued(r.calls[|p.calls|..]) <==> !EndIssued(p.calls) && last && AnyNonSubscription(evs)
    ensures |r.calls| == |p.calls| + |evs| + (if !EndIssued(p.calls) && last && AnyNonSubscription(evs) then 1 else 0)
    decreases |evs|
  {
    if |evs| == 0 then p
    else
      var q := OnResult(parse, p, evs[0], last);
      var r := OnResults(parse, q, evs[1..], last);
      SplitEvents(evs);
      OnResultEnds(parse, p, evs[0], last);
      EndIssuedAcross(p.calls, q.calls, r.calls);
      r
  }

  /** The calls one result adds hold an `end` iff it is the last literal's non-subscription
      result on a task not yet ended. */
  lemma OnResultEnds(parse: Parser, p: CellRun, ev: ResultEvent, last: bool)
    ensures var q := OnResult(parse, p, ev, last);
            && q.calls == p.calls + q.calls[|p.calls|..]
            && (EndIssued(q.calls[|p.calls|..]) <==> !EndIssued(p.calls) && last && ev.operation != Subscription)
  {
    var q := OnResult(parse, p, ev, last);
    assert q.calls == p.calls + q.calls[|p.calls|..];
    if last && ev.operation != Subscription && !EndIssued(p.calls) {
      assert q.calls[|p.calls|..][1].End?;
    } else {
      assert q.calls[|p.calls|..] == [q.calls[|p.calls|]];
    }
  }

  /** The first event and the rest, for the two "some event" predicates. */
  lemma SplitEvents(evs: seq<ResultEvent>)
    requires |evs| > 0
    ensures AnySuccess(evs) <==> IsSuccessResult(evs[0]) || AnySuccess(evs[1..])
    ensures AnyNonSubscription(evs) <==> evs[0].operation != Subscription || AnyNonSubscription(evs[1..])
  {
    if AnySuccess(evs[1..]) {
      var k :| 0 <= k < |evs[1..]| && IsSuccessResult(evs[1..][k]);
      assert IsSuccessResult(evs[k + 1]);
    }
    if AnyNonSubscription(evs[1..]) {
      var k :| 0 <= k < |evs[1..]| && evs[1..][k].operation != Subscription;
      assert evs[k + 1].operation != Subscription;
    }
  }

  /** After a literal's results the task has ended iff it had before, or the literal is the last
      and one of them is not a subscription result. */
  lemma OnResultsEndIssued(parse: Parser, p: CellRun, evs: seq<ResultEvent>, last: bool)
    ensures EndIssued(OnResults(parse, p, evs, last).calls) <==> EndIssued(p.calls) || (last && AnyNonSubscription(evs))
  {
    var r := OnResults(parse, p, evs, last);
    assert r.calls == p.calls + r.calls[|p.calls|..];
    EndIssuedAppend(p.calls, r.calls[|p.calls|..]);
  }

  /** For calls `c` extending `b` extending `a`: what `c` adds after `a` holds an `end` iff what
      `b` adds or what `c` adds after `b` does, and `b` has one iff `a` or its addition does. */
  lemma EndIssuedAcross(a: seq<TaskCall>, b: seq<TaskCall>, c: seq<TaskCall>)
    requires |a| <= |b| <= |c| && b[..|a|] == a && c[..|b|] == b
    ensures EndIssued(c[|a|..]) <==> EndIssued(b[|a|..]) || EndIssued(c[|b|..])
    ensures EndIssued(b) <==> EndIssued(a) || EndIssued(b[|a|..])
  {
    assert c[|a|..] == b[|a|..] + c[|b|..];
    assert b == a + b[|a|..];
    EndIssuedAppend(b[|a|..], c[|b|..]);
    EndIssuedAppend(a, b[|a|..]);
  }

  lemma EndIssuedAppend(a: seq<TaskCall>, b: seq<TaskCall>)
    ensures EndIssued(a + b) <==> EndIssued(a) || EndIssued(b)
  {
    if EndIssued(b) {
      var k :| 0 <= k < |b| && b[k].End?;
      assert (a + b)[|a| + k] == b[k];
    }
    if EndIssued(a) {
      var k :| 0 <= k < |a| && a[k].End?;
      assert (a + b)[k] == a[k];
    }
  }

  // ------------------------------------------------------------ execution

  /** The `catch` block: `success` reset, the output replaced by the error, the task ended.
      On a task some callback already ended, the replacement is refused and rejects `execute`
      before `task.end` is reached. */
  function Catch(p: CellRun, reason: ErrorReason): (r: CellRun)
    ensures Extends(p, r) && !r.success && r.prompts == p.prompts && r.dispatches == p.dispatches
    ensures r.rejected <==> EndIssued(p.calls)
    ensures !EndIssued(p.calls) ==> r.calls[|p.calls|..] == [ReplaceOutput(ErrorItem(reason)), End(false)]
    ensures EndIssued(p.calls) ==> r.calls[|p.calls|..] == [ReplaceOutput(ErrorItem(reason))]
  {
    if EndIssued(p.calls) then
      var r := p.(success := false, calls := p.calls + [ReplaceOutput(ErrorItem(reason))], rejected := true);
      assert r.calls[|p.calls|..] == [ReplaceOutput(ErrorItem(reason))];
      r
    else
      var r := p.(success := false, calls := p.calls + [ReplaceOutput(ErrorItem(reason)), End(false)], rejected := false);
      assert r.calls[|p.calls|..] == [ReplaceOutput(ErrorItem(reason)), End(false)];
      r
  }

  /** The dispatch of literal `i` with configuration `c`. */
  function DispatchFor(cast: Caster, c: Configuration, lits: seq<LiteralRun>, i: nat): Dispatch
    requires i < |lits|
  {
    Dispatch(i, c.endpoint, c.projectConfig, VariablesFromUser(cast, lits[i].prompts))
  }

  /** The loop over the literals from position `i` on. */
  function RunFrom(parse: Parser, cast: Caster, config: Option<Configuration>,
                   lits: seq<LiteralRun>, i: nat, p: CellRun): (r: CellRun)
    requires i <= |lits|
    ensures Extends(p, r)
    ensures config.Some? && !ThrownFrom(lits, i) ==> r.rejected == p.rejected
    decreases |lits| - i
  {
    if i == |lits| then p
    else if config.None? then Catch(p, MissingConfiguration)
    else
      var lit := lits[i];
      var sent := p.(prompts := p.prompts + PromptNames(lit.prompts),
                     dispatches := p.dispatches + [DispatchFor(cast, config.value, lits, i)]);
      var answered := OnResults(parse, sent, lit.events, i == |lits| - 1);
      var r := if lit.thrown.Some? then Catch(answered, Message(lit.thrown.value))
               else RunFrom(parse, cast, config, lits, i + 1, answered);
      assert Extends(p, sent);
      ExtendsTrans(p, sent, answered);
      ExtendsTrans(p, answered, r);
      r
  }

  /** The variable names prompted for by literals `i` up to, not including, `n`, in order. */
  function PromptsBetween(lits: seq<LiteralRun>, i: nat, n: nat): seq<string>
    requires i <= n <= |lits|
    decreases n - i
  {
    if i == n then [] else PromptNames(lits[i].prompts) + PromptsBetween(lits, i + 1, n)
  }

  /** Literals are dispatched in source order, each with its own variables and the controller's
      configuration, at most once; none is dispatched without a configuration. */
  lemma {:induction false} RunFromDispatches(parse: Parser, cast: Caster, config: Option<Configuration>,
                                             lits: seq<LiteralRun>, i: nat, p: CellRun)
    requires i <= |lits| && |p.dispatches| == i
    ensures var r := RunFrom(parse, cast, config, lits, i, p);
            && |r.dispatches| <= |lits|
            && (config.None? ==> r.dispatches == p.dispatches)
            && (config.Some? && !ThrownFrom(lits, i) ==> |r.dispatches| == |lits|)
            && forall k :: i <= k < |r.dispatches| ==>
                 config.Some? && r.dispatches[k] == DispatchFor(cast, config.value, lits, k)
    decreases |lits| - i
  {
    if i < |lits| && config.Some? {
      var lit := lits[i];
      var sent := p.(prompts := p.prompts + PromptNames(lit.prompts),
                     dispatches := p.dispatches + [DispatchFor(cast, config.value, lits, i)]);
      var answered := OnResults(parse, sent, lit.events, i == |lits| - 1);
      assert answered.dispatches[i] == DispatchFor(cast, config.value, lits, i);
      if lit.thrown.None? {
        RunFromDispatches(parse, cast, config, lits, i + 1, answered);
        var r := RunFrom(parse, cast, config, lits, i + 1, answered);
        assert r.dispatches[..|answered.dispatches|] == answered.dispatches;
        assert r.dispatches[i] == answered.dispatches[i];
      }
    }
  }

  /** The prompts of a run that dispatched literals `i` up to `|r.dispatches|`: the names
      prompted for before, then each dispatched literal's variables in order. */
  predicate PromptedThrough(lits: seq<LiteralRun>, i: nat, before: seq<string>, r: CellRun)
  {
    i <= |r.dispatches| <= |lits| && r.prompts == before + PromptsBetween(lits, i, |r.dispatches|)
  }

  /** `getVariablesFromUser` runs for every literal that is dispatched, just before it is sent,
      and for no other; without a configuration nothing is prompted for. */
  lemma {:induction false} RunFromPrompts(parse: Parser, cast: Caster, config: Option<Configuration>,
                                          lits: seq<LiteralRun>, i: nat, p: CellRun)
    requires i <= |lits| && |p.dispatches| == i
    ensures config.None? ==> RunFrom(parse, cast, config, lits, i, p).prompts == p.prompts
    ensures config.Some? ==> PromptedThrough(lits, i, p.prompts, RunFrom(parse, cast, config, lits, i, p))
    decreases |lits| - i
  {
    if i == |lits| {
      assert p.prompts + PromptsBetween(lits, i, i) == p.prompts;
    } else if config.Some? {
      var lit := lits[i];
      var sent := p.(prompts := p.prompts + PromptNames(lit.prompts),
                     dispatches := p.dispatches + [DispatchFor(cast, config.value, lits, i)]);
      var answered := OnResults(parse, sent, lit.events, i == |lits| - 1);
      if lit.thrown.None? {
        RunFromPrompts(parse, cast, config, lits, i + 1, answered);
        var r := RunFrom(parse, cast, config, lits, i + 1, answered);
        assert r == RunFrom(parse, cast, config, lits, i, p);
        assert PromptsBetween(lits, i, |r.dispatches|) == PromptNames(lit.prompts) + PromptsBetween(lits, i + 1, |r.dispatches|);
      } else {
        var r := Catch(answered, Message(lit.thrown.value));
        assert r == RunFrom(parse, cast, config, lits, i, p);
        assert PromptsBetween(lits, i, i + 1) == PromptNames(lit.prompts) + PromptsBetween(lits, i + 1, i + 1);
      }
    }
  }

  /** The run of one cell: start the task, clear its output, then the literals. */
  function ExecuteCell(parse: Parser, cast: Caster, config: Option<Configuration>, extraction: Extraction): (r: CellRun)
    ensures |r.calls| >= 2 && r.calls[..2] == [Start, ClearOutput]
    ensures extraction.Err? ==> r.dispatches == [] && !r.success
  {
    var started := Begun;
    match extraction
    case Err(msg) => Catch(started, Message(msg))
    case Ok(lits) =>
      var begun := if |lits| == 0 then started.(calls := started.calls + [End(false)]) else started;
      var r := RunFrom(parse, cast, config, lits, 0, begun);
      assert r.calls[..2] == r.calls[..|begun.calls|][..2];
      r
  }

  /** The configuration stored for a controller, if any. */
  function ConfigurationOf(reg: Registry, controllerId: string): (r: Option<Configuration>)
    ensures r.Some? <==> controllerId in reg.configurations
    ensures r.Some? ==> r.value == reg.configurations[controllerId]
  {
    if controllerId in reg.configurations then Some(reg.configurations[controllerId]) else None
  }

  /** `execute`: the cells run one after another, each with its own task, each with the
      controller's stored configuration. A rejected run rejects `execute` itself, so no later
      cell runs. */
  function Execute(parse: Parser, cast: Caster, reg: Registry, controllerId: string, cells: seq<Extraction>): (runs: seq<CellRun>)
    ensures |runs| <= |cells|
    ensures forall i :: 0 <= i < |runs| ==> runs[i] == ExecuteCell(parse, cast, ConfigurationOf(reg, controllerId), cells[i])
    ensures forall i :: 0 <= i < |runs| - 1 ==> !runs[i].rejected
    ensures |runs| < |cells| ==> |runs| > 0 && runs[|runs| - 1].rejected
    decreases |cells|
  {
    if |cells| == 0 then []
    else
      var first := ExecuteCell(parse, cast, ConfigurationOf(reg, controllerId), cells[0]);
      if first.rejected then [first]
      else
        var rest := Execute(parse, cast, reg, controllerId, cells[1..]);
        assert forall i :: 1 <= i < |rest| + 1 ==> cells[1..][i - 1] == cells[i];
        [first] + rest
  }

  // -------------------------------------------------------- task lifecycle

  /** The execution task's lifecycle: NotStarted, then Started, then Ended with its result. */
  datatype TaskState = NotStarted | Started | Ended(success: bool)

  datatype Task = Task(state: TaskState, outputs: seq<OutputItem>)

  const NewTask: Task := Task(NotStarted, [])

  /** One call on the task. A task starts once; its output changes and it ends only while it is
      started; `None` marks a call the task does not accept. */
  function Apply(t: Task, c: TaskCall): (r: Option<Task>)
    ensures r.Some? <==> (if c.Start? then t.state == NotStarted else t.state == Started)
    ensures r.Some? && c.End? ==> r.value == Task(Ended(c.success), t.outputs)
  {
    match c
    case Start => if t.state == NotStarted then Some(t.(state := Started)) else None
    case ClearOutput => if t.state == Started then Some(t.(outputs := [])) else None
    case AppendOutput(item) => if t.state == Started then Some(t.(outputs := t.outputs + [item])) else None
    case ReplaceOutput(item) => if t.state == Started then Some(t.(outputs := [item])) else None
    case End(success) => if t.state == Started then Some(t.(state := Ended(success))) else None
  }

  /** The calls applied in order, `None` as soon as one is refused. */
  function Replay(t: Task, calls: seq<TaskCall>): Option<Task>
    decreases |calls|
  {
    if |calls| == 0 then Some(t)
    else
      match Apply(t, calls[0])
      case None => None
      case Some(u) => Replay(u, calls[1..])
  }

  lemma {:induction false} ReplayAppend(t: Task, a: seq<TaskCall>, b: seq<TaskCall>)
    ensures Replay(t, a + b) == match Replay(t, a) case None => None case Some(u) => Replay(u, b)
    decreases |a|
  {
    if |a| == 0 {
      assert a + b == b;
    } else {
      assert (a + b)[0] == a[0];
      assert (a + b)[1..] == a[1..] + b;
      match Apply(t, a[0]) {
        case None =>
        case Some(u) => ReplayAppend(u, a[1..], b);
      }
    }
  }

  lemma ReplayOne(t: Task, c: TaskCall)
    ensures Replay(t, [c]) == Apply(t, c)
  {
    assert [c][1..] == [];
  }

  /** A running task and a cell run that has reached it. */
  ghost predicate RunningAs(p: CellRun, t: Task)
  {
    Replay(NewTask, p.calls) == Some(t) && t.state == Started
  }

  /** The output a result leaves on a running task: a subscription result and a success are
      appended after the earlier output; any other result starting with "Error" replaces ALL
      earlier output with one error item. A non-subscription result of the last literal then
      ends the task with the `success` flag as it stands, so a later error does not reset an
      earlier success. */
  lemma ResultOnTask(parse: Parser, p: CellRun, ev: ResultEvent, last: bool, t: Task)
    requires RunningAs(p, t)
    ensures var u := Replay(NewTask, OnResult(parse, p, ev, last).calls);
            && u.Some?
            && (ev.operation == Subscription || IsSuccessResult(ev) ==>
                  u.value.outputs == t.outputs + [CreateItem(parse, ev.data)])
            && (ev.operation != Subscription && StartsWith(ev.data, "Error") ==>
                  u.value.outputs == [ErrorItem(Message(ev.data))])
            && u.value.state == (if last && ev.operation != Subscription
                                 then Ended(p.success || IsSuccessResult(ev)) else Started)
  {
    RunningHasNotEnded(NewTask, p.calls);
    var r := OnResult(parse, p, ev, last);
    var n := |p.calls|;
    var tail := r.calls[n..];
    assert r.calls == p.calls + tail;
    ReplayAppend(NewTask, p.calls, tail);
    var first := Apply(t, tail[0]).value;
    if last && ev.operation != Subscription {
      assert tail == [tail[0]] + [End(r.success)];
      ReplayAppend(t, [tail[0]], [End(r.success)]);
      ReplayOne(t, tail[0]);
      ReplayOne(first, End(r.success));
    } else {
      assert tail == [tail[0]];
      ReplayOne(t, tail[0]);
    }
  }

  /** The `catch` block on a running task: the output becomes the one error item and the task
      ends unsuccessfully. */
  lemma CatchOnTask(p: CellRun, reason: ErrorReason, t: Task)
    requires RunningAs(p, t)
    ensures Replay(NewTask, Catch(p, reason).calls) == Some(Task(Ended(false), [ErrorItem(reason)]))
  {
    RunningHasNotEnded(NewTask, p.calls);
    var r := Catch(p, reason);
    assert r.calls == p.calls + [ReplaceOutput(ErrorItem(reason)), End(false)];
    ReplayAppend(NewTask, p.calls, [ReplaceOutput(ErrorItem(reason)), End(false)]);
    var u := Task(Started, [ErrorItem(reason)]);
    ReplayAppend(t, [ReplaceOutput(ErrorItem(reason))], [End(false)]);
    assert [ReplaceOutput(ErrorItem(reason)), End(false)] == [ReplaceOutput(ErrorItem(reason))] + [End(false)];
    ReplayOne(t, ReplaceOutput(ErrorItem(reason)));
    ReplayOne(u, End(false));
  }

  /** The `catch` block on a task a callback already ended: the error output is refused, and the
      run is marked rejected. */
  lemma CatchOnEndedTask(p: CellRun, reason: ErrorReason, t: Task)
    requires Replay(NewTask, p.calls) == Some(t) && t.state.Ended?
    ensures Catch(p, reason).rejected
    ensures Replay(NewTask, Catch(p, reason).calls) == None
  {
    EndedHasEndIssued(NewTask, p.calls);
    ReplayAppend(NewTask, p.calls, [ReplaceOutput(ErrorItem(reason))]);
    ReplayOne(t, ReplaceOutput(ErrorItem(reason)));
  }

  /** An ended task accepts no further call. */
  lemma EndedAcceptsNothing(t: Task, calls: seq<TaskCall>)
    requires t.state.Ended? && |calls| > 0
    ensures Replay(t, calls) == None
  {
  }

  /** A task that is still running has never been sent `end`. */
  lemma {:induction false} RunningHasNotEnded(t: Task, calls: seq<TaskCall>)
    ensures Replay(t, calls).Some? && Replay(t, calls).value.state == Started ==> !EndIssued(calls)
    decreases |calls|
  {
    if |calls| > 0 {
      match Apply(t, calls[0]) {
        case None =>
        case Some(u) =>
          RunningHasNotEnded(u, calls[1..]);
          if calls[0].End? && |calls| > 1 {
            EndedAcceptsNothing(u, calls[1..]);
          }
          assert calls == [calls[0]] + calls[1..];
          EndIssuedAppend([calls[0]], calls[1..]);
          assert EndIssued([calls[0]]) <==> calls[0].End?;
      }
    }
  }

  /** A task that has ended, from one that had not, was sent `end`. */
  lemma {:induction false} EndedHasEndIssued(t: Task, calls: seq<TaskCall>)
    requires !t.state.Ended?
    ensures Replay(t, calls).Some? && Replay(t, calls).value.state.Ended? ==> EndIssued(calls)
    decreases |calls|
  {
    if |calls| > 0 {
      match Apply(t, calls[0]) {
        case None =>
        case Some(u) =>
          if calls[0].End? {
            assert calls[0].End?;
          } else {
            EndedHasEndIssued(u, calls[1..]);
            assert calls == [calls[0]] + calls[1..];
            EndIssuedAppend([calls[0]], calls[1..]);
          }
      }
    }
  }

  /** A cell with no literals is started, cleared and ended at once, with `success` false and no
      output. */
  lemma ZeroLiteralsEndUnsuccessful(parse: Parser, cast: Caster, config: Option<Configuration>)
    ensures var r := ExecuteCell(parse, cast, config, Ok([]));
            && r.calls == [Start, ClearOutput, End(false)] && r.dispatches == [] && r.prompts == []
            && Replay(NewTask, r.calls) == Some(Task(Ended(false), []))
  {
    var calls := [Start, ClearOutput, End(false)];
    assert calls[1..] == [ClearOutput, End(false)];
    assert calls[1..][1..] == [End(false)];
    assert calls[1..][1..][1..] == [];
  }

  /** When extraction throws, the cell shows the error alone and ends unsuccessfully; nothing is
      dispatched. */
  lemma ExtractionErrorReported(parse: Parser, cast: Caster, config: Option<Configuration>, msg: string)
    ensures var r := ExecuteCell(parse, cast, config, Err(msg));
            && r.calls == [Start, ClearOutput, ReplaceOutput(ErrorItem(Message(msg))), End(false)]
            && r.dispatches == [] && !r.success
            && Replay(NewTask, r.calls) == Some(Task(Ended(false), [ErrorItem(Message(msg))]))
  {
    var started := Begun;
    StartedIsRunning();
    CatchOnTask(started, Message(msg), Task(Started, []));
  }

  lemma StartedIsRunning()
    ensures RunningAs(Begun, Task(Started, []))
  {
    var calls := [Start, ClearOutput];
    assert calls[1..] == [ClearOutput];
    assert calls[1..][1..] == [];
  }

  // ----------------------------------------------------------- when it ends

  /** Some literal from position `i` on throws. */
  ghost predicate ThrownFrom(lits: seq<LiteralRun>, i: nat)
  {
    exists j :: i <= j < |lits| && lits[j].thrown.Some?
  }

  lemma {:induction false} RunFromEnds(parse: Parser, cast: Caster, config: Option<Configuration>,
                                       lits: seq<LiteralRun>, i: nat, p: CellRun)
    requires i < |lits| && !EndIssued(p.calls)
    ensures EndIssued(RunFrom(parse, cast, config, lits, i, p).calls) <==>
              config.None? || ThrownFrom(lits, i) || AnyNonSubscription(lits[|lits| - 1].events)
    decreases |lits| - i
  {
    if config.None? {
      CatchEnds(p, MissingConfiguration);
    } else {
      var lit := lits[i];
      var last := i == |lits| - 1;
      var sent := p.(prompts := p.prompts + PromptNames(lit.prompts),
                     dispatches := p.dispatches + [DispatchFor(cast, config.value, lits, i)]);
      var answered := OnResults(parse, sent, lit.events, last);
      OnResultsEndIssued(parse, sent, lit.events, last);
      assert ThrownFrom(lits, i) <==> lit.thrown.Some? || ThrownFrom(lits, i + 1);
      if lit.thrown.Some? {
        CatchEnds(answered, Message(lit.thrown.value));
      } else if last {
        assert !ThrownFrom(lits, i + 1);
      } else {
        RunFromEnds(parse, cast, config, lits, i + 1, answered);
      }
    }
  }

  /** After the `catch` block the task has ended: by its own `end`, or by an earlier one when
      its output was refused. */
  lemma CatchEnds(p: CellRun, reason: ErrorReason)
    ensures EndIssued(Catch(p, reason).calls)
  {
    var r := Catch(p, reason);
    assert r.calls == p.calls + r.calls[|p.calls|..];
    EndIssuedAppend(p.calls, r.calls[|p.calls|..]);
    if !EndIssued(p.calls) {
      assert r.calls[|p.calls|..][1].End?;
    }
  }

  /** The task of a cell is ended iff the cell has no literals, extraction or a dispatch throws,
      the controller has no configuration, or the last literal gets a non-subscription result. */
  lemma EndedIff(parse: Parser, cast: Caster, config: Option<Configuration>, extraction: Extraction)
    ensures EndIssued(ExecuteCell(parse, cast, config, extraction).calls) <==>
              || extraction.Err?
              || |extraction.value| == 0
              || config.None?
              || ThrownFrom(extraction.value, 0)
              || AnyNonSubscription(extraction.value[|extraction.value| - 1].events)
  {
    var r := ExecuteCell(parse, cast, config, extraction);
    if extraction.Err? {
      ExtractionErrorReported(parse, cast, config, extraction.error);
      assert r.calls[3].End?;
    } else if |extraction.value| == 0 {
      ZeroLiteralsEndUnsuccessful(parse, cast, config);
      assert r.calls[2].End?;
    } else {
      LiteralsEndedIff(parse, cast, config, extraction.value);
    }
  }

  /** `EndedIff` for a cell with literals: the loop alone decides whether the task ends. */
  lemma LiteralsEndedIff(parse: Parser, cast: Caster, config: Option<Configuration>, lits: seq<LiteralRun>)
    requires |lits| > 0
    ensures EndIssued(ExecuteCell(parse, cast, config, Ok(lits)).calls) <==>
              config.None? || ThrownFrom(lits, 0) || AnyNonSubscription(lits[|lits| - 1].events)
  {
    var r := ExecuteCell(parse, cast, config, Ok(lits));
    assert r == RunFrom(parse, cast, config, lits, 0, Begun);
    assert !EndIssued(Begun.calls) by {
      assert !Begun.calls[0].End? && !Begun.calls[1].End?;
    }
    RunFromEnds(parse, cast, config, lits, 0, Begun);
  }

  /** A cell whose last literal only ever produces subscription results, with nothing thrown, is
      never ended. */
  lemma LastSubscriptionNeverEnds(parse: Parser, cast: Caster, c: Configuration, lits: seq<LiteralRun>)
    requires |lits| > 0
    requires forall j :: 0 <= j < |lits| ==> lits[j].thrown.None?
    requires forall e :: e in lits[|lits| - 1].events ==> e.operation == Subscription
    ensures !EndIssued(ExecuteCell(parse, cast, Some(c), Ok(lits)).calls)
  {
    assert !ThrownFrom(lits, 0);
    var evs := lits[|lits| - 1].events;
    assert !AnyNonSubscription(evs) by {
      forall k | 0 <= k < |evs|
        ensures evs[k].operation == Subscription
      {
        assert evs[k] in evs;
      }
    }
    EndedIff(parse, cast, Some(c), Ok(lits));
  }

  // ----------------------------------------------------------- how it ends

  /** Some literal from position `i` up to, not including, `k` got a successful result. */
  ghost predicate SucceededBetween(lits: seq<LiteralRun>, i: nat, k: nat)
    requires k <= |lits|
  {
    exists j :: i <= j < k && AnySuccess(lits[j].events)
  }

  /** Some literal from position `i` on got a successful result. */
  ghost predicate SucceededFrom(lits: seq<LiteralRun>, i: nat)
  {
    SucceededBetween(lits, i, |lits|)
  }

  lemma SucceededBetweenFirst(lits: seq<LiteralRun>, i: nat, k: nat)
    requires i < k <= |lits|
    ensures SucceededBetween(lits, i, k) <==> AnySuccess(lits[i].events) || SucceededBetween(lits, i + 1, k)
  {
    if SucceededBetween(lits, i, k) && !AnySuccess(lits[i].events) {
      var j :| i <= j < k && AnySuccess(lits[j].events);
      assert i + 1 <= j;
    }
  }

  lemma SucceededBetweenLast(lits: seq<LiteralRun>, i: nat, k: nat)
    requires i <= k < |lits|
    ensures SucceededBetween(lits, i, k + 1) <==> SucceededBetween(lits, i, k) || AnySuccess(lits[k].events)
  {
    if SucceededBetween(lits, i, k + 1) && !AnySuccess(lits[k].events) {
      var j :| i <= j < k + 1 && AnySuccess(lits[j].events);
      assert j < k;
    }
  }

  /** `evs[m]` is the first result that is not a subscription result. */
  predicate FirstNonSubscription(evs: seq<ResultEvent>, m: int)
  {
    0 <= m < |evs| && evs[m].operation != Subscription && forall j :: 0 <= j < m ==> evs[j].operation == Subscription
  }

  lemma {:induction false} OnResultsAppend(parse: Parser, p: CellRun, a: seq<ResultEvent>, b: seq<ResultEvent>, last: bool)
    ensures OnResults(parse, p, a + b, last) == OnResults(parse, OnResults(parse, p, a, last), b, last)
    decreases |a|
  {
    if |a| == 0 {
      assert a + b == b;
    } else {
      assert (a + b)[0] == a[0];
      assert (a + b)[1..] == a[1..] + b;
      OnResultsAppend(parse, OnResult(parse, p, a[0], last), a[1..], b, last);
    }
  }

  /** Subscription results neither set `success` nor end the task. */
  lemma SubscriptionsKeepRunning(parse: Parser, p: CellRun, pre: seq<ResultEvent>, last: bool)
    requires forall x :: x in pre ==> x.operation == Subscription
    ensures var q := OnResults(parse, p, pre, last);
            q.success == p.success && (EndIssued(q.calls) <==> EndIssued(p.calls))
  {
    var q := OnResults(parse, p, pre, last);
    assert !AnyNonSubscription(pre) && !AnySuccess(pre) by {
      forall j | 0 <= j < |pre|
        ensures pre[j].operation == Subscription
      {
        assert pre[j] in pre;
      }
    }
    assert q.calls == p.calls + q.calls[|p.calls|..];
    EndIssuedAppend(p.calls, q.calls[|p.calls|..]);
  }

  /** A list of calls with exactly one `end`, after `head` and one output call. */
  lemma SoleEnd(calls: seq<TaskCall>, head: seq<TaskCall>, out: TaskCall, b: bool, tail: seq<TaskCall>)
    requires calls == head + [out, End(b)] + tail
    requires !EndIssued(head) && !out.End? && !EndIssued(tail)
    ensures SoleEndAt(calls, |head| + 1, b)
  {
    var k := |head| + 1;
    forall j | 0 <= j < |calls| && j != k
      ensures !calls[j].End?
    {
      if j < |head| {
        assert calls[j] == head[j];
      } else if k < j {
        assert calls[j] == tail[j - k - 1];
      }
    }
  }

  /** The last literal's non-subscription result `e` on a task not yet ended ends it; the results
      after it add one output call each and no `end`. */
  lemma EndAfterResult(parse: Parser, q: CellRun, e: ResultEvent, post: seq<ResultEvent>)
    requires !EndIssued(q.calls) && e.operation != Subscription
    ensures var r := OnResults(parse, OnResult(parse, q, e, true), post, true);
            var k := |q.calls| + 1;
            |r.calls| == k + 1 + |post| && SoleEndAt(r.calls, k, q.success || IsSuccessResult(e))
  {
    var q2 := OnResult(parse, q, e, true);
    var r := OnResults(parse, q2, post, true);
    var out := q2.calls[|q.calls|];
    var b := q.success || IsSuccessResult(e);
    assert q2.calls == q.calls + [out, End(b)];
    assert EndIssued(q2.calls) by {
      assert q2.calls[|q2.calls| - 1].End?;
    }
    var tail := r.calls[|q2.calls|..];
    assert r.calls == q.calls + [out, End(b)] + tail;
    SoleEnd(r.calls, q.calls, out, b, tail);
  }

  /** The last literal's callbacks on a task not yet ended: the first non-subscription result
      `evs[m]` ends the task, with the earlier flag or its own success, and it is the only `end`.
      Every later result still makes its output call, on the ended task. */
  lemma OnResultsEnd(parse: Parser, p: CellRun, evs: seq<ResultEvent>, m: int)
    requires !EndIssued(p.calls) && FirstNonSubscription(evs, m)
    ensures EndsAtResult(OnResults(parse, p, evs, true).calls, |p.calls|, evs, m, p.success || IsSuccessResult(evs[m]))
  {
    SplitAtFirstNonSubscription(evs, m);
    var post := evs[m + 1..];
    OnResultsSplitEnd(parse, p, evs[..m], evs[m], post);
    var r := OnResults(parse, p, evs[..m] + [evs[m]] + post, true);
    assert r == OnResults(parse, p, evs, true);
    assert |r.calls| - 1 - |post| == |r.calls| - (|evs| - m);
  }

  lemma SplitAtFirstNonSubscription(evs: seq<ResultEvent>, m: int)
    requires FirstNonSubscription(evs, m)
    ensures evs == evs[..m] + [evs[m]] + evs[m + 1..]
    ensures forall x :: x in evs[..m] ==> x.operation == Subscription
  {
    assert evs == evs[..m] + [evs[m]] + evs[m + 1..];
    forall x | x in evs[..m]
      ensures x.operation == Subscription
    {
      var j :| 0 <= j < m && evs[..m][j] == x;
      assert evs[j] == x;
    }
  }

  lemma OnResultsSplitEnd(parse: Parser, p: CellRun, pre: seq<ResultEvent>, e: ResultEvent, post: seq<ResultEvent>)
    requires !EndIssued(p.calls)
    requires forall x :: x in pre ==> x.operation == Subscription
    requires e.operation != Subscription
    ensures var r := OnResults(parse, p, pre + [e] + post, true);
            var k := |r.calls| - 1 - |post|;
            |p.calls| <= k && SoleEndAt(r.calls, k, p.success || IsSuccessResult(e))
  {
    var q := OnResults(parse, p, pre, true);
    var r := OnResults(parse, OnResult(parse, q, e, true), post, true);
    OnResultsThrough(parse, p, pre, e, post);
    SubscriptionsKeepRunning(parse, p, pre, true);
    EndAfterResult(parse, q, e, post);
    assert |r.calls| - 1 - |post| == |q.calls| + 1;
    assert |p.calls| <= |q.calls|;
  }

  lemma OnResultsThrough(parse: Parser, p: CellRun, pre: seq<ResultEvent>, e: ResultEvent, post: seq<ResultEvent>)
    ensures OnResults(parse, p, pre + [e] + post, true)
         == OnResults(parse, OnResult(parse, OnResults(parse, p, pre, true), e, true), post, true)
  {
    OnResultsAppend(parse, p, pre + [e], post, true);
    OnResultsAppend(parse, p, pre, [e], true);
    assert [e][1..] == [];
  }

  /** Without exceptions, `success` ends up true iff some literal got a successful result; when
      the last literal's only non-subscription result is its last one, the task's last call ends
      it with that flag. */
  lemma RunFromSuccess(parse: Parser, cast: Caster, c: Configuration,
                        lits: seq<LiteralRun>, i: nat, p: CellRun)
    requires i <= |lits|
    requires !ThrownFrom(lits, i)
    ensures var r := RunFrom(parse, cast, Some(c), lits, i, p);
            && r.success == (p.success || SucceededFrom(lits, i))
            && (i < |lits| && !EndIssued(p.calls)
                && FirstNonSubscription(lits[|lits| - 1].events, |lits[|lits| - 1].events| - 1)
                ==> |r.calls| > 0 && r.calls[|r.calls| - 1] == End(r.success))
  {
    RunFromSuccessFlag(parse, cast, c, lits, i, p);
    var m := |lits| - 1;
    if i < |lits| && !EndIssued(p.calls) && FirstNonSubscription(lits[m].events, |lits[m].events| - 1) {
      var evs := lits[m].events;
      RunFromFinalEnd(parse, cast, c, lits, i, p, |evs| - 1);
      SucceededBetweenLast(lits, i, m);
      assert AnySuccess(evs) <==> IsSuccessResult(evs[|evs| - 1]) by {
        if AnySuccess(evs) {
          var j :| 0 <= j < |evs| && IsSuccessResult(evs[j]);
          assert j == |evs| - 1;
        }
      }
    }
  }

  lemma {:induction false} RunFromSuccessFlag(parse: Parser, cast: Caster, c: Configuration,
                                              lits: seq<LiteralRun>, i: nat, p: CellRun)
    requires i <= |lits|
    requires !ThrownFrom(lits, i)
    ensures RunFrom(parse, cast, Some(c), lits, i, p).success == (p.success || SucceededFrom(lits, i))
    decreases |lits| - i
  {
    if i < |lits| {
      var lit := lits[i];
      var sent := p.(prompts := p.prompts + PromptNames(lit.prompts),
                     dispatches := p.dispatches + [DispatchFor(cast, c, lits, i)]);
      var answered := OnResults(parse, sent, lit.events, i == |lits| - 1);
      SucceededBetweenFirst(lits, i, |lits|);
      assert lit.thrown.None? && !ThrownFrom(lits, i + 1);
      RunFromSuccessFlag(parse, cast, c, lits, i + 1, answered);
    }
  }

  /** The `end` of a run that started at literal `i` with flag `before`: exactly one, after the
      calls from `from` on, right after the output of the last literal's first non-subscription
      result `m`, with `true` iff `before`, a literal from `i` on before the last, or that result
      succeeded. */
  ghost predicate FinalEndAt(calls: seq<TaskCall>, from: int, lits: seq<LiteralRun>, i: nat, before: bool, m: int)
  {
    && i < |lits| && FirstNonSubscription(lits[|lits| - 1].events, m)
    && EndsAtResult(calls, from, lits[|lits| - 1].events, m,
                    before || SucceededBetween(lits, i, |lits| - 1) || IsSuccessResult(lits[|lits| - 1].events[m]))
  }

  /** Without exceptions, the task is ended exactly once: by the last literal's first
      non-subscription result `evs[m]`, with `true` iff an earlier literal or that result
      succeeded. Only the output calls of the results after it follow the `end`. */
  lemma {:induction false} RunFromFinalEnd(parse: Parser, cast: Caster, c: Configuration, lits: seq<LiteralRun>, i: nat, p: CellRun, m: int)
    requires i < |lits| && !ThrownFrom(lits, i) && !EndIssued(p.calls)
    requires FirstNonSubscription(lits[|lits| - 1].events, m)
    ensures FinalEndAt(RunFrom(parse, cast, Some(c), lits, i, p).calls, |p.calls|, lits, i, p.success, m)
    decreases |lits| - i, 1
  {
    if i == |lits| - 1 {
      LastLiteralFinalEnd(parse, cast, c, lits, p, m);
    } else {
      EarlierLiteralFinalEnd(parse, cast, c, lits, i, p, m);
    }
  }

  /** The last literal's own run reaches that `end`, with no earlier literal to count. */
  lemma LastLiteralFinalEnd(parse: Parser, cast: Caster, c: Configuration, lits: seq<LiteralRun>, p: CellRun, m: int)
    requires |lits| > 0 && lits[|lits| - 1].thrown.None? && !EndIssued(p.calls)
    requires FirstNonSubscription(lits[|lits| - 1].events, m)
    ensures FinalEndAt(RunFrom(parse, cast, Some(c), lits, |lits| - 1, p).calls, |p.calls|, lits, |lits| - 1, p.success, m)
  {
    LastLiteralEnd(parse, cast, c, lits, p, m);
    assert !SucceededBetween(lits, |lits| - 1, |lits| - 1);
  }

  /** A literal before the last leaves the `end` to the literals after it. */
  lemma {:induction false} EarlierLiteralFinalEnd(parse: Parser, cast: Caster, c: Configuration, lits: seq<LiteralRun>, i: nat, p: CellRun, m: int)
    requires i < |lits| - 1 && !ThrownFrom(lits, i) && !EndIssued(p.calls)
    requires FirstNonSubscription(lits[|lits| - 1].events, m)
    ensures FinalEndAt(RunFrom(parse, cast, Some(c), lits, i, p).calls, |p.calls|, lits, i, p.success, m)
    decreases |lits| - i, 0
  {
    var a := FinalEndStep(parse, cast, c, lits, i, p, m);
    RunFromFinalEnd(parse, cast, c, lits, i + 1, a, m);
  }

  /** The step of `EarlierLiteralFinalEnd`: literal `i` leaves the task running, and the `end`
      the rest of the loop issues is the one the whole loop issues. */
  lemma FinalEndStep(parse: Parser, cast: Caster, c: Configuration, lits: seq<LiteralRun>, i: nat, p: CellRun, m: int)
      returns (a: CellRun)
    requires i < |lits| - 1 && lits[i].thrown.None? && !EndIssued(p.calls)
    ensures !EndIssued(a.calls)
    ensures FinalEndAt(RunFrom(parse, cast, Some(c), lits, i + 1, a).calls, |a.calls|, lits, i + 1, a.success, m)
            ==> FinalEndAt(RunFrom(parse, cast, Some(c), lits, i, p).calls, |p.calls|, lits, i, p.success, m)
  {
    a := RunFromStep(parse, cast, c, lits, i, p, |lits| - 1);
    var calls := RunFrom(parse, cast, Some(c), lits, i + 1, a).calls;
    if FinalEndAt(calls, |a.calls|, lits, i + 1, a.success, m) {
      FinalEndEarlier(calls, |p.calls|, |a.calls|, lits, i, p.success, a.success, m);
    }
  }

  /** One literal earlier: the same `end`, found after an earlier point, with the same flag. */
  lemma FinalEndEarlier(calls: seq<TaskCall>, from: int, later: int, lits: seq<LiteralRun>, i: nat, before: bool, after: bool, m: int)
    requires from <= later && FinalEndAt(calls, later, lits, i + 1, after, m)
    requires (after || SucceededBetween(lits, i + 1, |lits| - 1)) == (before || SucceededBetween(lits, i, |lits| - 1))
    ensures FinalEndAt(calls, from, lits, i, before, m)
  {
  }

  /** One literal before literal `k`, not throwing: dispatched, its results shown, no `end`. */
  lemma RunFromStep(parse: Parser, cast: Caster, c: Configuration, lits: seq<LiteralRun>, i: nat, p: CellRun, k: nat)
      returns (a: CellRun)
    requires i < k < |lits| && lits[i].thrown.None?
    ensures RunFrom(parse, cast, Some(c), lits, i, p) == RunFrom(parse, cast, Some(c), lits, i + 1, a)
    ensures RunTo(parse, cast, c, lits, i, p, k) == RunTo(parse, cast, c, lits, i + 1, a, k)
    ensures |p.calls| <= |a.calls| && (EndIssued(a.calls) <==> EndIssued(p.calls))
    ensures (a.success || SucceededBetween(lits, i + 1, k)) == (p.success || SucceededBetween(lits, i, k))
  {
    var lit := lits[i];
    var sent := p.(prompts := p.prompts + PromptNames(lit.prompts),
                   dispatches := p.dispatches + [DispatchFor(cast, c, lits, i)]);
    a := OnResults(parse, sent, lit.events, false);
    OnResultsEndIssued(parse, sent, lit.events, false);
    SucceededBetweenFirst(lits, i, k);
  }

  /** The last literal, when it does not throw, on a task not yet ended. */
  lemma LastLiteralEnd(parse: Parser, cast: Caster, c: Configuration, lits: seq<LiteralRun>, q: CellRun, m: int)
    requires |lits| > 0 && lits[|lits| - 1].thrown.None? && !EndIssued(q.calls)
    requires FirstNonSubscription(lits[|lits| - 1].events, m)
    ensures EndsAtResult(RunFrom(parse, cast, Some(c), lits, |lits| - 1, q).calls, |q.calls|, lits[|lits| - 1].events, m,
                         q.success || IsSuccessResult(lits[|lits| - 1].events[m]))
  {
    var n := |lits| - 1;
    var sent := q.(prompts := q.prompts + PromptNames(lits[n].prompts),
                   dispatches := q.dispatches + [DispatchFor(cast, c, lits, n)]);
    var answered := OnResults(parse, sent, lits[n].events, true);
    assert RunFrom(parse, cast, Some(c), lits, n + 1, answered) == answered;
    assert RunFrom(parse, cast, Some(c), lits, n, q) == RunFrom(parse, cast, Some(c), lits, n + 1, answered);
    OnResultsEnd(parse, sent, lits[n].events, m);
  }

  /** The cell-level end: a cell whose literals do not throw, and whose last literal's first
      non-subscription result is `evs[m]`, ends its task exactly once, with `true` iff an earlier
      literal or `evs[m]` succeeded, so an error first and a success after end it with `false`.
      The results after `evs[m]` make output calls on the ended task, which refuses them. */
  lemma FinalSuccess(parse: Parser, cast: Caster, c: Configuration, lits: seq<LiteralRun>, m: int)
    requires |lits| > 0 && !ThrownFrom(lits, 0)
    requires FirstNonSubscription(lits[|lits| - 1].events, m)
    ensures EndsAtResult(ExecuteCell(parse, cast, Some(c), Ok(lits)).calls, 2, lits[|lits| - 1].events, m,
                         SucceededBetween(lits, 0, |lits| - 1) || IsSuccessResult(lits[|lits| - 1].events[m]))
    ensures m < |lits[|lits| - 1].events| - 1 ==> Replay(NewTask, ExecuteCell(parse, cast, Some(c), Ok(lits)).calls) == None
  {
    assert !EndIssued(Begun.calls) by {
      assert !Begun.calls[0].End? && !Begun.calls[1].End?;
    }
    RunFromFinalEnd(parse, cast, c, lits, 0, Begun, m);
    var r := ExecuteCell(parse, cast, Some(c), Ok(lits));
    var evs := lits[|lits| - 1].events;
    if m < |evs| - 1 {
      CallsAfterEndRefused(NewTask, r.calls, |r.calls| - (|evs| - m));
    }
  }

  /** A task accepts nothing after an `end`. */
  lemma CallsAfterEndRefused(t: Task, calls: seq<TaskCall>, k: nat)
    requires k < |calls| - 1 && calls[k].End?
    ensures Replay(t, calls) == None
  {
    assert calls == calls[..k + 1] + calls[k + 1..];
    ReplayAppend(t, calls[..k + 1], calls[k + 1..]);
    assert calls[..k + 1] == calls[..k] + [calls[k]];
    ReplayAppend(t, calls[..k], [calls[k]]);
    match Replay(t, calls[..k]) {
      case None =>
      case Some(u) =>
        ReplayOne(u, calls[k]);
        if Apply(u, calls[k]).Some? {
          EndedAcceptsNothing(Apply(u, calls[k]).value, calls[k + 1..]);
        }
    }
  }

  // ------------------------------------------------------------ exceptions

  /** When literal `k` is the first to throw, literals up to `k` are dispatched and no later one.
      The error replaces the output and the task ends unsuccessfully, unless `k` is the last
      literal and one of its results already ended the task: then the replacement is refused
      and the run is rejected. */
  lemma RunFromThrow(parse: Parser, cast: Caster, c: Configuration,
                      lits: seq<LiteralRun>, i: nat, p: CellRun, k: nat)
    requires i <= k < |lits| && |p.dispatches| == i && !EndIssued(p.calls) && !p.rejected
    requires lits[k].thrown.Some? && forall j :: i <= j < k ==> lits[j].thrown.None?
    ensures var r := RunFrom(parse, cast, Some(c), lits, i, p);
            var err := ReplaceOutput(ErrorItem(Message(lits[k].thrown.value)));
            && |r.dispatches| == k + 1 && !r.success
            && (r.rejected <==> k == |lits| - 1 && AnyNonSubscription(lits[k].events))
            && (!r.rejected ==> |r.calls| >= 2 && r.calls[|r.calls| - 2..] == [err, End(false)])
            && (r.rejected ==> |r.calls| >= 1 && r.calls[|r.calls| - 1] == err)
  {
    var q := RunTo(parse, cast, c, lits, i, p, k);
    RunFromRunTo(parse, cast, c, lits, i, p, k);
    RunToFacts(parse, cast, c, lits, i, p, k);
    var lit := lits[k];
    var sent := q.(prompts := q.prompts + PromptNames(lit.prompts),
                   dispatches := q.dispatches + [DispatchFor(cast, c, lits, k)]);
    OnResultsEndIssued(parse, sent, lit.events, k == |lits| - 1);
    CatchTail(OnResults(parse, sent, lit.events, k == |lits| - 1), Message(lit.thrown.value));
  }

  /** The run as literal `k` is reached from literal `i`, when none in between throws. */
  function RunTo(parse: Parser, cast: Caster, c: Configuration, lits: seq<LiteralRun>, i: nat, p: CellRun, k: nat): CellRun
    requires i <= k < |lits|
    decreases k - i
  {
    if i == k then p
    else
      var sent := p.(prompts := p.prompts + PromptNames(lits[i].prompts),
                     dispatches := p.dispatches + [DispatchFor(cast, c, lits, i)]);
      RunTo(parse, cast, c, lits, i + 1, OnResults(parse, sent, lits[i].events, false), k)
  }

  /** `q` is `p` after literals `i` up to `k` ran without ending the task: one dispatch each,
      no `end`, no rejection, and `success` set iff one of them succeeded. */
  ghost predicate QuietlyReached(lits: seq<LiteralRun>, i: nat, k: nat, p: CellRun, q: CellRun)
  {
    && i <= k <= |lits|
    && |q.dispatches| == |p.dispatches| + (k - i) && !EndIssued(q.calls) && q.rejected == p.rejected
    && |p.calls| <= |q.calls|
    && q.success == (p.success || SucceededBetween(lits, i, k))
  }

  /** Literals before `k` that do not throw lead the loop to literal `k`. */
  lemma {:induction false} RunFromRunTo(parse: Parser, cast: Caster, c: Configuration,
                                        lits: seq<LiteralRun>, i: nat, p: CellRun, k: nat)
    requires i <= k < |lits|
    requires forall j :: i <= j < k ==> lits[j].thrown.None?
    ensures RunFrom(parse, cast, Some(c), lits, i, p) == RunFrom(parse, cast, Some(c), lits, k, RunTo(parse, cast, c, lits, i, p, k))
    decreases k - i
  {
    if i < k {
      var a := RunFromStep(parse, cast, c, lits, i, p, k);
      RunFromRunTo(parse, cast, c, lits, i + 1, a, k);
    } else {
      assert RunTo(parse, cast, c, lits, i, p, k) == p;
    }
  }

  /** On the way to literal `k` each literal is dispatched, the task is not ended, and `success`
      collects their results. */
  lemma {:induction false} RunToFacts(parse: Parser, cast: Caster, c: Configuration,
                                      lits: seq<LiteralRun>, i: nat, p: CellRun, k: nat)
    requires i <= k < |lits| && !EndIssued(p.calls)
    ensures QuietlyReached(lits, i, k, p, RunTo(parse, cast, c, lits, i, p, k))
    decreases k - i
  {
    if i < k {
      var a := RunToStep(parse, cast, c, lits, i, p, k);
      RunToFacts(parse, cast, c, lits, i + 1, a, k);
    } else {
      assert RunTo(parse, cast, c, lits, i, p, k) == p;
      assert !SucceededBetween(lits, i, k);
    }
  }

  /** One literal before `k`: it leaves the task running, and what holds of the run from the
      next literal on holds of the run from this one. */
  lemma RunToStep(parse: Parser, cast: Caster, c: Configuration, lits: seq<LiteralRun>, i: nat, p: CellRun, k: nat)
      returns (a: CellRun)
    requires i < k < |lits| && !EndIssued(p.calls)
    ensures !EndIssued(a.calls)
    ensures QuietlyReached(lits, i + 1, k, a, RunTo(parse, cast, c, lits, i + 1, a, k))
            ==> QuietlyReached(lits, i, k, p, RunTo(parse, cast, c, lits, i, p, k))
  {
    var sent := p.(prompts := p.prompts + PromptNames(lits[i].prompts),
                   dispatches := p.dispatches + [DispatchFor(cast, c, lits, i)]);
    a := OnResults(parse, sent, lits[i].events, false);
    OnResultsEndIssued(parse, sent, lits[i].events, false);
    SucceededBetweenFirst(lits, i, k);
  }

  /** Where the `catch` block leaves the last calls. */
  lemma CatchTail(p: CellRun, reason: ErrorReason)
    ensures var r := Catch(p, reason);
            && (!r.rejected ==> |r.calls| >= 2 && r.calls[|r.calls| - 2..] == [ReplaceOutput(ErrorItem(reason)), End(false)])
            && (r.rejected ==> |r.calls| >= 1 && r.calls[|r.calls| - 1] == ReplaceOutput(ErrorItem(reason)))
  {
    var r := Catch(p, reason);
    if r.rejected {
      assert r.calls[|r.calls| - 1] == r.calls[|p.calls|..][0];
    } else {
      assert r.calls[|r.calls| - 2..] == r.calls[|p.calls|..];
    }
  }

  /** The first literal from position `i` on that throws. */
  lemma {:induction false} FirstThrow(lits: seq<LiteralRun>, i: nat) returns (k: nat)
    requires ThrownFrom(lits, i)
    ensures i <= k < |lits| && lits[k].thrown.Some?
    ensures forall j :: i <= j < k ==> lits[j].thrown.None?
    decreases |lits| - i
  {
    if lits[i].thrown.Some? {
      k := i;
    } else {
      var j :| i <= j < |lits| && lits[j].thrown.Some?;
      assert ThrownFrom(lits, i + 1) by {
        assert i + 1 <= j;
      }
      k := FirstThrow(lits, i + 1);
    }
  }

  /** A cell's run is rejected exactly when its last literal is the first to throw and one of
      that literal's results had already ended the task. */
  lemma RejectedIff(parse: Parser, cast: Caster, config: Option<Configuration>, extraction: Extraction)
    ensures ExecuteCell(parse, cast, config, extraction).rejected <==>
              && extraction.Ok? && config.Some? && |extraction.value| > 0
              && extraction.value[|extraction.value| - 1].thrown.Some?
              && (forall j :: 0 <= j < |extraction.value| - 1 ==> extraction.value[j].thrown.None?)
              && AnyNonSubscription(extraction.value[|extraction.value| - 1].events)
  {
    assert !EndIssued(Begun.calls) by {
      assert !Begun.calls[0].End? && !Begun.calls[1].End?;
    }
    if extraction.Ok? && config.Some? && |extraction.value| > 0 {
      var lits := extraction.value;
      if ThrownFrom(lits, 0) {
        var k := FirstThrow(lits, 0);
        RunFromThrow(parse, cast, config.value, lits, 0, Begun, k);
      } else {
        assert lits[|lits| - 1].thrown.None?;
      }
    }
  }

  // ---------------------------------------------------- single-shot cells

  /** A query or mutation literal as the dispatcher promises it: one result, nothing thrown. */
  predicate SingleShot(lit: LiteralRun)
  {
    lit.thrown.None? && |lit.events| == 1 && lit.events[0].operation != Subscription
  }

  lemma {:induction false} RunFromLifecycle(parse: Parser, cast: Caster, c: Configuration,
                                            lits: seq<LiteralRun>, i: nat, p: CellRun, t: Task)
    requires i < |lits| && RunningAs(p, t)
    requires forall j :: i <= j < |lits| ==> SingleShot(lits[j])
    ensures var r := RunFrom(parse, cast, Some(c), lits, i, p);
            Replay(NewTask, r.calls).Some? && Replay(NewTask, r.calls).value.state == Ended(r.success)
    decreases |lits| - i
  {
    var lit := lits[i];
    var last := i == |lits| - 1;
    var sent := p.(prompts := p.prompts + PromptNames(lit.prompts),
                   dispatches := p.dispatches + [DispatchFor(cast, c, lits, i)]);
    assert RunningAs(sent, t);
    ResultOnTask(parse, sent, lit.events[0], last, t);
    assert lit.events[1..] == [];
    var answered := OnResults(parse, sent, lit.events, last);
    var q := OnResult(parse, sent, lit.events[0], last);
    assert OnResults(parse, q, [], last) == q;
    assert answered == q;
    if !last {
      var u := Replay(NewTask, answered.calls).value;
      RunFromLifecycle(parse, cast, c, lits, i + 1, answered, u);
    }
  }

  /** A cell of single-shot literals goes NotStarted, Started, Ended exactly once, every call
      accepted, and ends with `true` iff some literal's result was a success. */
  lemma SingleShotLifecycle(parse: Parser, cast: Caster, c: Configuration, lits: seq<LiteralRun>)
    requires |lits| > 0
    requires forall j :: 0 <= j < |lits| ==> SingleShot(lits[j])
    ensures var r := ExecuteCell(parse, cast, Some(c), Ok(lits));
            && Replay(NewTask, r.calls).Some?
            && Replay(NewTask, r.calls).value.state == Ended(SucceededFrom(lits, 0))
  {
    var started := Begun;
    StartedIsRunning();
    RunFromLifecycle(parse, cast, c, lits, 0, started, Task(Started, []));
    assert !ThrownFrom(lits, 0);
    RunFromSuccess(parse, cast, c, lits, 0, started);
  }

  /** The cells of a registered controller never fail on the configuration lookup: a cell whose
      literals do not throw dispatches every one of them. `Execute` runs each cell it reaches
      through `ExecuteCell` with exactly this configuration. */
  lemma RegisteredCellsDispatchEveryLiteral(parse: Parser, cast: Caster, reg: Registry, controllerId: string,
                                            extraction: Extraction)
    requires Consistent(reg) && controllerId in reg.controllers
    requires extraction.Ok? && !ThrownFrom(extraction.value, 0)
    ensures var run := ExecuteCell(parse, cast, ConfigurationOf(reg, controllerId), extraction);
            |run.dispatches| == |extraction.value| && !run.rejected
  {
    var config := ConfigurationOf(reg, controllerId);
    assert config.Some?;
    var lits := extraction.value;
    var begun := if |lits| == 0 then Begun.(calls := Begun.calls + [End(false)]) else Begun;
    RunFromDispatches(parse, cast, config, lits, 0, begun);
  }

  /** A controller created by the registry always finds its configuration, so its cells never
      fail on the configuration lookup. */
  lemma RegisteredControllerHasConfiguration(reg: Registry, controllerId: string)
    requires Consistent(reg) && controllerId in reg.controllers
    ensures ConfigurationOf(reg, controllerId) == Some(reg.configurations[controllerId])
  {
  }
}
