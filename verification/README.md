# GraphQL notebooks: file format, endpoint selection and cell execution

This project models the notebook side of a VS Code extension for GraphQL, in Dafny, and proves
properties of the model. The model has three parts.

- **Notebook file format** (`NotebookSerializer`, `notebook_serializer.dfy`). A notebook is saved as
  the JSON document `{ "cells": [ { "code", "kind" } ] }`. Loading reads it back, skips elements
  that are not cell records, and throws on malformed documents.
- **Endpoint selection** (`Endpoints`, `endpoints.dfy`). Given a loaded project configuration,
  this works out the endpoints and which one is the default. Declared `extensions.endpoints` come
  first; otherwise the first `http://`/`https://` schema becomes `{ default: { url } }`.
- **Controllers and cell execution** (`ControllerRegistry`, `controller_registry.dfy`;
  `CellExecution`, `cell_execution.dfy`).
  - There is one notebook controller per composite id `configDirPath - project - endpointName`,
    stored with its configuration and created only on first sight.
  - Running a cell creates one execution task. Each template literal is dispatched in source
    order, with variables the user types in. Each result callback becomes output on the task.

JSON values are the `Json` datatype (`json.dfy`). Objects are ordered key/value lists, and a
repeated key reads as its last binding, as `JSON.parse` does. `Option`/`Result` live in
`results.dfy`.

How the model represents the parts of the program it cannot see:
- **Bytes and text.** `Content` is `Empty`, `NotJson`, or `Encoded(json)`. `Encoded` stands for the
  UTF-8 text of `JSON.stringify`. `TextEncoder`/`TextDecoder` and `JSON.stringify`/`JSON.parse` are
  taken to be exact inverses.
- **Collaborators whose code is not part of this model** (`SourceHelper`, `NetworkHelper`, the
  input box, `JSON.parse` on result bodies) are inputs.
  - An extraction is the list of literals, or the error message it throws.
  - Each literal is a `LiteralRun`: its variable definitions in AST-visit order paired with the
    user's answers; the `(data, operation)` callback events `executeOperation` produces, in order;
    and the error it throws afterwards, if any.
  - `typeCast` and result-body parsing are function parameters.
- **The execution task.** The model records the task calls the code makes: start, clear, append,
  replace, end. `Replay` plays them on a task with the editor's lifecycle: NotStarted, then Started,
  then Ended(success). Output changes and `end` are accepted only while the task is started.

Behaviour the model keeps as the code has it:
- A cell with zero literals ends with `success = false`, not as a success.
- Execution does not continue after an exception. The `catch` block ends the cell, and later
  literals are not dispatched.
- The `catch` block can meet a task that is already ended: the last literal's non-subscription
  result ended it, and then `executeOperation` threw. The task then refuses the error output. That
  rejection leaves `execute`, so `task.end` in the `catch` block is never reached and no later
  cell runs. The model marks such a run `rejected`, and `Execute` stops after it.
- `hasOwnProperty` is called on every object element of `cells`. An element with its own
  `hasOwnProperty` key hides the method, so the call throws a TypeError and loading fails
  (`HasOwnPropertyNotCallable`). A parsed JSON value is never a function.
- A `cells` element whose `code` and `kind` are present is kept, whatever `kind` holds. Any `kind`
  other than `"code"` gives a markup cell.
- When a project declares no endpoints and has no URL schema, `Object.keys(undefined)` throws. The
  selection then fails, rather than yielding an empty list. `ensureControllersFor` rejects before
  touching either map, so `EnsureControllersFor` returns `Err` and registers nothing.
- A parsed result body without a `data` member becomes an error item. `Buffer.from(undefined)`
  throws there, and so does `null["data"]`.
- A `code` value that is not a string makes loading fail (`CellValueNotString`). The editor's
  `NotebookCellData` constructor rejects a non-string value. That constructor is not part of this
  model.

## Model

| member | source | states |
|---|---|---|
| `NotebookSerializer.CreateNew` | src/client/notebook-serializer.ts:5-9 | a new notebook has exactly one cell: kind Code, empty text, language `graphql` |
| `NotebookSerializer.SerializeJson` | src/client/notebook-serializer.ts:12-15 | the saved document has exactly one key, `cells`, holding an array with one element per cell |
| `NotebookSerializer.SerializeNotebook` | src/client/notebook-serializer.ts:11-16 | what is saved is always a JSON document, and reading that document back gives the same cells with the languages their kinds imply |
| `NotebookSerializer.SerializedCellRecords` | src/client/notebook-serializer.ts:11-16 | the saved document is `{cells}` with one record per cell in cell order; the record's `code` is the cell text; its `kind` is `"markdown"` iff the cell is Markup and `"code"` iff it is Code |
| `NotebookSerializer.MakeCell` | src/client/notebook-serializer.ts:33-37 | a record becomes a Code cell in `graphql` iff its `kind` is exactly the string `"code"`; any other kind gives a Markup cell in `markdown`; the text is the record's `code` |
| `NotebookSerializer.DecodeCell` | src/client/notebook-serializer.ts:27-39 | an object with its own `hasOwnProperty` key throws, record or not; otherwise an element that is not an object, is null, or lacks `code` or `kind` yields no cell and no error; a record loads iff its `code` is a string, and then yields exactly one cell |
| `NotebookSerializer.Survivors` | src/client/notebook-serializer.ts:27-45 | a dropped element contributes no cells; every element contributes at most one cell |
| `NotebookSerializer.DecodeCells` | src/client/notebook-serializer.ts:27-45 | loading the array never yields more cells than elements |
| `NotebookSerializer.DecodeDocument` | src/client/notebook-serializer.ts:20-26 | null or a primitive throws a TypeError; an array or an object without `cells` throws the missing-`cells` error; a non-array `cells` throws the not-an-array error; success implies `cells` is an array whose elements load to the result |
| `NotebookSerializer.DeserializeNotebook` | src/client/notebook-serializer.ts:18-20 | text that is not JSON throws a syntax error; non-empty content is read as its parsed document |
| `NotebookSerializer.EmptyContentIsNewNotebook` | src/client/notebook-serializer.ts:19 | empty content loads exactly as the new notebook: one empty Code cell in `graphql` |
| `NotebookSerializer.RoundTrip` | src/client/notebook-serializer.ts:11-47 | for every list of cells, including the empty one, loading what was saved succeeds, with the same number of cells and the same texts and kinds in the same order; the language follows the kind |
| `NotebookSerializer.SaveAfterLoadIsStable` | src/client/notebook-serializer.ts:11-47 | saving a notebook that was just loaded from a save writes the identical document |
| `NotebookSerializer.DecodeCellsAppend` | src/client/notebook-serializer.ts:27-45 | loading a concatenation of two arrays is the concatenation of the loaded parts; the first error wins, so surviving cells keep their relative order |
| `NotebookSerializer.DroppedElementIsInvisible` | src/client/notebook-serializer.ts:27-45 | inserting a non-record element that does not shadow `hasOwnProperty` anywhere in `cells` changes nothing in the result |
| `NotebookSerializer.ShadowedHasOwnPropertyThrows` | src/client/notebook-serializer.ts:28-31 | an object element with its own `hasOwnProperty` key makes loading throw, wherever it stands, unless an earlier element already threw |
| `NotebookSerializer.CellRecordSurvives` | src/client/notebook-serializer.ts:31-38 | an object with a string `code`, a `kind` and no own `hasOwnProperty` key loads as exactly one cell built from them |
| `JsonValues.Get` | src/client/notebook-serializer.ts:31-36 | a property read finds a value iff the object has that own key; the value is the one of the key's last binding |
| `JsonValues.Member` | src/controller.ts:184-185 | `parsed["data"]` finds a value iff the parsed body is an object with an own `data` key |
| `Endpoints.NormalizeEntries` | src/endpoints.ts:53-56 | a schema list converts element by element, in order, each to its string form; a null or undefined entry throws |
| `Endpoints.NormalizeSchemas` | src/endpoints.ts:49-57 | a string schema is a one-element list, a list is converted element by element, anything else gives no schemas |
| `Endpoints.FirstUrl` | src/endpoints.ts:59-60 | the position of the first schema starting with `http://` or `https://`; none iff no schema does |
| `Endpoints.DefaultEndpointFromSchema` | src/endpoints.ts:48-68 | `{default: {url: s}}` where `s` is the first URL schema in list order; undefined iff no schema is a URL |
| `Endpoints.SelectEndpoints` | src/endpoints.ts:30-34 | declared endpoints are used as they are; otherwise the schema default is used, and its absence throws |
| `Endpoints.DescribeAll` | src/endpoints.ts:34-43 | one result per endpoint key, in key order, each built from its key and value |
| `Endpoints.ConfiguredEndpoints` | src/endpoints.ts:25-45 | no configuration gives undefined, not an empty list; a selection that throws makes the call throw; otherwise there is one result per selected endpoint |
| `Endpoints.ConfiguredEndpointsShape` | src/endpoints.ts:34-43 | every result carries the project's name, its configuration and the configuration directory, plus its key and data; `isDefault` holds exactly for the key `"default"` |
| `Endpoints.SchemaDefaultIsSoleDefault` | src/endpoints.ts:30-66 | without declared endpoints a successful selection yields exactly one endpoint; it is named `default`, is marked default, and points at the first URL schema |
| `Endpoints.NoUrlSchemaThrows` | src/endpoints.ts:30-34 | nothing declared and no URL schema makes the selection throw |
| `Endpoints.DeclaredEndpointsTakePrecedence` | src/endpoints.ts:30-32 | declared endpoints decide the list even when the schema names a URL or cannot be read |
| `ControllerRegistry.ControllerIdsWithinProject` | src/controller.ts:65 | within one project of one configuration directory, two endpoints get the same controller id iff they have the same name |
| `ControllerRegistry.NewController` | src/controller.ts:69-78 | a created controller has the endpoint's id, is for `gqlnb` notebooks, is labelled `project - endpointName`, supports only `graphql`, and is preferred by no notebook yet |
| `ControllerRegistry.RegisterAll` | src/controller.ts:64-93 | the loop never removes a controller or a configuration |
| `ControllerRegistry.RegisterEndpoint` | src/controller.ts:65-92 | one loop turn: the id is added; the controller and its configuration are created together, and only when the id is absent; other controllers are unchanged; a default endpoint adds the notebook to the controller's Preferred set, new or existing |
| `ControllerRegistry.EnsureControllersFor` | src/controller.ts:58-64 | a throwing selection makes the call reject; no configuration (undefined) is treated as an empty list and changes nothing |
| `ControllerRegistry.RegisterAllIds` | src/controller.ts:64-85 | after the loop the ids are exactly the earlier ids plus the endpoints' ids |
| `ControllerRegistry.RegisterAllConsistent` | src/controller.ts:79-84 | the loop keeps both maps on the same ids, each controller stored under its own id |
| `ControllerRegistry.RegisterAllKeepsExisting` | src/controller.ts:67-85 | an existing entry is never overwritten: its configuration stays, and its controller changes only in affinity |
| `ControllerRegistry.RegisterAllNewConfiguration` | src/controller.ts:69-85 | a new id stores the configuration of the first endpoint in the list with that id |
| `ControllerRegistry.RegisterAllAffinity` | src/controller.ts:87-92 | for any id, the notebook prefers that controller after the loop iff it did before or some default endpoint has that id; other notebooks' affinities are untouched |
| `ControllerRegistry.RegisterEndpointAffinity` | src/controller.ts:87-92 | one loop turn makes the notebook prefer a controller iff it did already or the endpoint is a default one with that id; no other notebook's affinity changes |
| `ControllerRegistry.RegisterAllIdempotent` | src/controller.ts:64-93 | running the loop again with the same endpoints leaves both maps unchanged |
| `ControllerRegistry.EnsureControllersIdempotent` | src/controller.ts:58-94 | a second `ensureControllersFor` on the same selection returns the registry the first produced |
| `ControllerRegistry.ControllerIdCollision` | src/controller.ts:65-85 | two distinct endpoints can share an id, because the id is a plain `" - "` join; the second endpoint's configuration is then never stored |
| `CellExecution.VariablesFromUser` | src/controller.ts:207-225 | the last definition's variable always holds its own cast answer |
| `CellExecution.VariablesFromUserKeys` | src/controller.ts:204-226 | the variable object has exactly one key per declared variable name |
| `CellExecution.VariablesFromUserLastWins` | src/controller.ts:208-224 | each name holds the cast answer of its last definition, so a later duplicate overwrites an earlier one |
| `CellExecution.PromptForVariables` | src/controller.ts:204-226 | the prompt loop asks for the variables in visit order and builds the same object as the closed form |
| `CellExecution.NoDefinitionsNoVariables` | src/controller.ts:148-168 | a literal without variable definitions is sent with the empty variable object |
| `CellExecution.PromptNames` | src/controller.ts:208-217 | one prompt per definition, in visit order, naming its variable |
| `CellExecution.CreateItem` | src/controller.ts:181-196 | a result body gives a data item iff it parses to an object with a `data` member, and the item holds that member; a body that does not parse gives an error item, so no result is dropped |
| `CellExecution.OnResult` | src/controller.ts:120-136 | a subscription result and a successful result append an item; an `"Error"` result replaces the output; `success` becomes true only on a non-subscription, non-`"Error"` result and never goes back; `end` follows, with the current flag, only for the last literal's non-subscription result and only while the task has not ended, because the awaited output call on an ended task is refused and `end` is never reached |
| `CellExecution.OnResults` | src/controller.ts:120-136 | after a literal's callbacks `success` is the old flag or any successful result; they issue an `end` iff the task had not ended, the literal is the last, and some result is not a subscription result; each result adds one output call, plus one for that `end` |
| `CellExecution.OnResultsEndIssued` | src/controller.ts:120-136 | after a literal's results the task has ended iff it had before, or the literal is the last and one result is not a subscription result |
| `CellExecution.Catch` | src/controller.ts:170-177 | an exception resets `success` and replaces the output with the error; the task is then ended unsuccessfully, unless it had already ended, in which case the run is rejected and `end` is not reached |
| `CellExecution.CatchEnds` | src/controller.ts:170-176 | after the `catch` block the task has always ended, by its own `end` or by an earlier one |
| `CellExecution.RunFrom` | src/controller.ts:118-169 | the loop only adds calls, prompts and dispatches after the ones already made |
| `CellExecution.RunFromDispatches` | src/controller.ts:118-169 | literals are dispatched in source order, at most once each, with their own variables and the controller's endpoint and project; none is dispatched without a configuration; with a configuration and no exception, every literal is dispatched |
| `CellExecution.RunFromPrompts` | src/controller.ts:138-168 | the variables of each dispatched literal are prompted for just before it is sent, in source order, and nothing else is prompted for; without a configuration nothing is prompted for |
| `CellExecution.ExecuteCell` | src/controller.ts:101-116 | every cell's task is started and cleared before anything else; when extraction throws nothing is dispatched and `success` is false |
| `CellExecution.ConfigurationOf` | src/controller.ts:139-141 | the configuration lookup finds a value iff the controller id has one stored |
| `CellExecution.Execute` | src/controller.ts:96-178 | one run, and so one task, per cell, in cell order, each using the controller's stored configuration; only the last run can be rejected, and fewer runs than cells means the last one was rejected |
| `CellExecution.ResultOnTask` | src/controller.ts:120-136 | on a running task, subscription and successful results are appended after the earlier output; an `"Error"` result leaves only its error item; the last literal's non-subscription result ends the task with the earlier flag or this result's success, so a later error does not reset success |
| `CellExecution.CatchOnTask` | src/controller.ts:170-177 | after an exception the task holds only the error item and has ended unsuccessfully |
| `CellExecution.ZeroLiteralsEndUnsuccessful` | src/controller.ts:104-116 | a cell with no literals is started, cleared and ended with `success = false`, with no output and no dispatch |
| `CellExecution.ExtractionErrorReported` | src/controller.ts:109-177 | when extraction throws, the calls are start, clear, the error, and an unsuccessful end; nothing is dispatched |
| `CellExecution.RunFromEnds` | src/controller.ts:118-177 | from literal `i` on, the loop ends the task iff the configuration is missing, some later literal throws, or the last literal gets a non-subscription result |
| `CellExecution.EndedIff` | src/controller.ts:101-177 | a cell's task is ended iff extraction throws, there are no literals, the configuration is missing, a dispatch throws, or the last literal gets a non-subscription result |
| `CellExecution.LastSubscriptionNeverEnds` | src/controller.ts:121-123 | if nothing throws and the last literal only gets subscription results, the task is never ended |
| `CellExecution.RunFromSuccess` | src/controller.ts:104-136 | without exceptions, the final flag is the initial one or any successful result of any remaining literal; when the last literal's only non-subscription result is its last result, the last call ends the task with that flag |
| `CellExecution.OnResultsEnd` | src/controller.ts:120-136 | for the last literal on a running task, the one `end` is issued right after the output of its first non-subscription result, with the earlier flag or that result's success; every later result adds only an output call |
| `CellExecution.RunFromFinalEnd` | src/controller.ts:118-136 | without exceptions, the loop issues exactly one `end`, right after the last literal's first non-subscription result, with the initial flag, any success of an earlier literal, or that result's success |
| `CellExecution.FinalSuccess` | src/controller.ts:104-136 | for a cell whose literals do not throw, the task gets exactly one `end`, right after the last literal's first non-subscription result; it is `end(true)` iff an earlier literal or that result succeeded, even if errors followed; when more results follow, the ended task refuses them |
| `CellExecution.CallsAfterEndRefused` | src/controller.ts:125-134 | a task refuses the whole call sequence when any call follows its `end` |
| `CellExecution.RunFromThrow` | src/controller.ts:118-177 | when literal `k` is the first to throw, exactly literals up to `k` are dispatched; the error replaces the output and an unsuccessful end follows, unless `k` is the last literal and one of its results ended the task, in which case the run is rejected after the refused replacement |
| `CellExecution.RunToFacts` | src/controller.ts:118-136 | on the way to a later literal each literal is dispatched once, the task is not ended, nothing is rejected, and `success` is set iff one of them succeeded |
| `CellExecution.RejectedIff` | src/controller.ts:118-177 | a cell's run is rejected iff there is a configuration and the last literal is the first to throw, after one of its results was not a subscription result |
| `CellExecution.CatchOnEndedTask` | src/controller.ts:170-176 | on an ended task the `catch` block's output is refused and the run is rejected |
| `CellExecution.RunFromLifecycle` | src/controller.ts:118-136 | when every remaining literal yields one non-subscription result, the running task's calls are all accepted and it ends with the final flag |
| `CellExecution.SingleShotLifecycle` | src/controller.ts:101-136 | a cell whose literals each yield one query or mutation result goes NotStarted, Started, Ended exactly once, every call accepted; it ends successful iff some literal succeeded |
| `CellExecution.RegisteredControllerHasConfiguration` | src/controller.ts:139-141 | a controller in a consistent registry always finds its configuration |
| `CellExecution.RegisteredCellsDispatchEveryLiteral` | src/controller.ts:101-169 | for a controller of a consistent registry, the run of a cell whose literals do not throw (the run `execute` produces for every cell it reaches) dispatches all of them and is not rejected |

## Left out

- Loading configuration: `loadConfig`, `getProjectForFile`, saving untitled notebooks, and the
  workspace-folder lookup are environment I/O. The loaded configuration is an input.
- `Object.keys` ordering of integer-like keys: an endpoints object is given as the key/value list in
  the order `Object.keys` enumerates it.
- Bytes, `TextEncoder`/`TextDecoder`, 4-space pretty-printing, `Buffer`, and MIME types are left
  out. Output items hold abstract `Json` values.
- JSON numbers are unbounded integers here. The serializer and controller never inspect numbers.
- `SourceHelper` (template-literal extraction, `validate`, `typeCast`, type of a variable definition)
  and `NetworkHelper.executeOperation` are not part of this model. They are inputs, and variable
  validation rules are not modelled.
- `typeCast` is taken not to throw, and the input box to always return, with a dismissed box
  giving `None`.
- Async interleaving and cancellation tokens are left out. The code accepts tokens but never uses
  them, and execution is a sequential trace of callback events.
- CellExecution.Execute: an output call refused inside the update callback is not followed back
  into `execute`. This is output after the last literal's first non-subscription result. The
  callback stops there, so no second `end` is issued. Whether the callback's rejection reaches
  `execute` depends on how `executeOperation` treats the callback's promise, and
  `executeOperation` is not part of this model. `Replay` reports such a call as `None`. Only the
  refusal in the `catch` block, which the code awaits, stops `Execute`.
- CellExecution.VariablesFromUser: the variables are a `map`, which has no key order. The object
  `getVariablesFromUser` builds keeps its keys in first-definition order, and that order is not
  modelled.
- Error texts of runtime TypeErrors are not modelled. They appear as the error kinds
  `NotAnObject`, `MissingConfiguration`, `NoDataField` and `NullishSchemaEntry`.
- Controller disposal and the open-notebook event subscription are registration glue.
- The earlier inline notebook controller in src/extension.ts and the browser entry point are not
  part of this model.
