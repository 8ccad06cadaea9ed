# evalidator engine, modelled in Dafny

This project models the rule-execution and aggregation engine of evalidator, an
object-validation library for JavaScript. The engine keeps rule groups in a registry.
Some groups always run; others are scoped to a named scenario. A `validate` call
resolves each rule's attribute on the target object. Attribute names may be dotted
paths. The call then runs the rules: validator descriptors, 2-argument functions and
3-argument callback functions. It collects each attribute's messages into a per-group
error map and merges the groups' maps into a read-only `Result`.

Modules, leaves first:

- `JsValue` (js_value.dfy): JavaScript values, truthiness, and `split`/`join` on `.`.
- `Resolver` (resolver.dfy): `extractValue_`. A literal key is looked up first.
  Otherwise the dotted path is walked until the first falsy intermediate.
- `Rules` (rules.dfy): `execRule_`. It dispatches on the rule's shape. A user
  function's `ctx.addError` and `ctx.attr` calls are applied to the step.
- `Group` (group.dfy): `execGroup_`. It flattens the group into one task list and
  runs it in series into a shared error map. A hard failure stops the list.
- `Merging` (merge.dfy): `getResult_`. The group maps are concatenated per attribute,
  in group order.
- `Results` (results.dfy): `Result` from lib/result.js, with `hasError` and `getErrors`.
- `Engine` (engine.dfy): the `EValidator` class. It holds the always-groups and the
  scenario table, which `AddRules` updates in place. It also has `validate`'s argument
  checks, group selection, and the loop that runs the selected groups.

The validator library is a parameter (`Library`). It consists of the set of names its
prototype has and a check function. A check passes, fails with its default message,
or throws some other exception. A user rule function is also given as data: a body
that maps the resolved value and the current target to the context calls the rule
makes, in order, and the value it settles with. That value is the rejection reason of
a returned promise, or the first argument passed to `done`.

The series logic is stated once for any way of running a step. `Group.RunTasks` and
`Group.Trace` take the step as a function (`Executor`). `Engine.RunGroups` takes the
group runner as a function (`GroupRunner`). The engine uses `execRule_` and
`execGroup_` over one library for these (`Group.StepWith`, `Engine.GroupWith`).

The target object is passed explicitly and returned with the outcome. Writes by
`ctx.attr` go into the target the next step reads. Each step re-resolves its value
from that target.

Three facts about the code shape the model:

- `validate` throws "Object to validate is invalid." on a target that is not an object
  (lib/evalidator.js:239-241). See `Validate`.
- The rule context has only `attr` and `addError`; there is no early-exit token such as
  `ctx.yield()`. A rule's outcome is success, messages, or a hard failure.
- The validator has no `hasScenario` method.

## Model

| member | source | states |
|---|---|---|
| `JsValue.Split` | lib/evalidator.js:28 | `attr.split('.')` always yields at least one segment, and no segment contains the separator |
| `JsValue.JoinSplit` | lib/evalidator.js:28 | joining the segments of a split with the separator gives back the attribute path |
| `JsValue.SplitJoin` | lib/evalidator.js:28 | splitting the join of separator-free segments gives back the segments |
| `JsValue.SplitIsSingleIff` | lib/evalidator.js:28-29 | a path has more than one segment exactly when it contains a dot |
| `Resolver.Resolve` | lib/evalidator.js:24-36 | a literal key of the object wins even if it contains dots; an absent single-segment name is undefined; an absent dotted name is the walk of its segments from the object |
| `Resolver.ExtractValue` | lib/evalidator.js:24-36 | the literal-key test and the `for` loop over the segments compute exactly `Resolve` |
| `Resolver.WalkSplit` | lib/evalidator.js:30-33 | walking a path equals walking a prefix and then the rest from where the prefix stopped |
| `Resolver.WalkFromFalsy` | lib/evalidator.js:31 | the walk does not step past a falsy value |
| `Resolver.StopsAtFalsyIntermediate` | lib/evalidator.js:29-33 | when the value reached after k segments is falsy, that falsy value is what the attribute resolves to |
| `Resolver.MissingSegmentIsUndefined` | lib/evalidator.js:29-33 | when the walk reaches an object lacking the next segment, the attribute resolves to undefined |
| `Resolver.NestedPathResolves` | lib/evalidator.js:29-33 | when the dotted path exists through nested objects, the attribute resolves to the nested leaf |
| `Rules.Messages` | lib/evalidator.js:63-65 | the step's messages come only from `addError` calls, at most one per call |
| `Rules.MessagesOfCall` | lib/evalidator.js:52-65 | an `addError(m)` call contributes exactly `m`; an `attr` call contributes nothing |
| `Rules.MessagesCons` | lib/evalidator.js:63-65 | a call in front contributes its message, if any, before those of the later calls |
| `Rules.MessagesAppend` | lib/evalidator.js:63-65 | the messages of consecutive calls are those of each part, in call order, so every `addError` call's message is pushed at its own position |
| `Rules.ApplyWrites` | lib/evalidator.js:52-59 | `ctx.attr(name, value)` adds or replaces exactly the names written with a truthy value, each then holds a truthy value, and every other property keeps its value |
| `Rules.ExecRule` | lib/evalidator.js:38-118 | a descriptor never writes the target and adds at most one message; an unknown validator name is a hard failure even when `allowEmpty` would skip; `allowEmpty` with a falsy value gives no message and no failure; an arity other than 2 or 3 and any other rule shape are hard failures; a user rule fails only with a truthy settle value; no property of the target is lost through `ctx.attr` |
| `Rules.DescriptorCheckOutcome` | lib/evalidator.js:85-99 | when the check runs, a failed check adds exactly the descriptor's message, or the validator's own message when none is given; a non-ValidatorError exception is a hard failure; a passing check adds nothing |
| `Rules.FunctionStep` | lib/evalidator.js:100-111 | a 2- or 3-argument function gets the re-resolved value; its messages are its `addError` calls in order; the target is its writes applied; it fails exactly when it settles with a truthy value |
| `Rules.FinalWriteIsKept` | lib/evalidator.js:52-56 | a truthy `ctx.attr(name, value)` write that no later truthy write to `name` follows leaves exactly `value` under `name` |
| `Rules.WriteIsVisible` | lib/evalidator.js:24-56 | after such a write, resolving `name` on the new target gives the written value |
| `Group.Expand` | lib/evalidator.js:129-136 | an attribute contributes one task per rule, each for that attribute |
| `Group.ExpandInOrder` | lib/evalidator.js:129-136 | task i of an attribute carries that attribute's rule i, so its rules keep their array order |
| `Group.FlattenAppend` | lib/evalidator.js:129-137 | flattening distributes over concatenation of groups, so attributes' tasks come in declaration order |
| `Group.BuildTasks` | lib/evalidator.js:120-137 | the `push_` loops build exactly the flattened task list |
| `Group.Record` | lib/evalidator.js:41-43 | `finish_` appends a step's messages to its attribute's list, creates no empty entry, and leaves other attributes alone |
| `Group.ExecGroup` | lib/evalidator.js:120-147 | running the tasks in series and stopping at the first hard failure gives exactly `RunGroup`'s outcome and final target |
| `Group.Trace` | lib/evalidator.js:139-146 | the executed steps are at most the tasks, at least one when there is a task, and every executed step but the last succeeded |
| `Group.StepsSeeEarlierWrites` | lib/evalidator.js:38-59 | the first step runs against the initial target, and step j+1 runs against the target step j left |
| `Group.NextRuleSeesWrite` | lib/evalidator.js:38-59 | when a rule writes its attribute with `ctx.attr`, does not overwrite it later (other calls such as `addError` may follow) and completes normally, the next rule for that attribute resolves the written value |
| `Group.StopsAtFirstFailure` | lib/evalidator.js:139-146 | the group fails exactly when the last executed step failed, with that failure; without a failure every task ran |
| `Group.FinalTargetIsLastStep` | lib/evalidator.js:139-146 | the target a group leaves is the one its last executed step left, or the initial one when it has no tasks |
| `Group.MessagesForEmptyIff` | lib/evalidator.js:41-43 | an attribute's collected messages are non-empty exactly when some executed step for it produced one |
| `Group.ErrorMapFollowsTrace` | lib/evalidator.js:41-146 | the group's map gives each attribute its earlier list followed by the executed steps' messages for it, in execution order, with no empty entry |
| `Group.GroupErrorMap` | lib/evalidator.js:41-146 | after a group completes, attribute a is a key exactly when some executed step for a produced a message, and its list is those messages in flattened execution order |
| `Results.Result.HasError` | lib/result.js:8-10 | `hasError()` is true exactly when the map has a key |
| `Results.Result.GetErrors` | lib/result.js:17-22 | a truthy name gives its stored list, or an empty list when it is not a key; an absent or empty name gives the whole map |
| `Merging.MergeKeys` | lib/evalidator.js:149-157 | the merged keys are the union of the group keys; no groups give the empty map |
| `Merging.MergeGathers` | lib/evalidator.js:149-157 | each attribute's merged list is its lists concatenated in group order |
| `Merging.MergedResult` | lib/evalidator.js:149-157 | the result of merging maps without empty lists has none; an attribute is a key exactly when some map has it; `hasError()` is true exactly when some map is non-empty |
| `Merging.MergeNoEmptyEntries` | lib/evalidator.js:151-155 | merging maps without empty entries creates none |
| `Merging.GetResult` | lib/evalidator.js:149-157 | the `forEach` and `_.each` loops produce exactly the merged map |
| `Engine.ExecGroups` | lib/evalidator.js:186-196 | running the selected groups keeps each group's map in group order, and the first hard failure ends the run |
| `Engine.CompletedRunIsPerGroup` | lib/evalidator.js:186-196 | a completed run has one map per group, and map i is group i's report when run from the target the earlier groups left |
| `Engine.StoppedRunIsFirstFailure` | lib/evalidator.js:186-191 | a stopped run's failure and target are those of the first failing group, and every earlier group completed |
| `Engine.GroupsReportNoEmptyEntries` | lib/evalidator.js:120-147 | no map a group reports holds an empty list |
| `Engine.CompletedMapsHaveNoEmptyEntries` | lib/evalidator.js:186-196 | when no group reports an empty list, no map of a completed run holds one |
| `Engine.PassedResultMergesGroups` | lib/evalidator.js:149-196 | a completed run passes with the merge of the group maps; an attribute is a key exactly when some group collected a message for it; `hasError()` is true exactly when some group map is non-empty |
| `Engine.NoGroupsGiveEmptyResult` | lib/evalidator.js:197-200 | with no groups the result is the empty map and the target is unchanged |
| `Engine.EValidator.constructor` | lib/evalidator.js:13-22 | `options.rules`, when given, is the only always-group, and there are no scenarios |
| `Engine.EValidator.AddRules` | lib/evalidator.js:208-218 | a truthy scenario name gets the group appended to its list, which is created when missing; otherwise the group is appended to the always-groups; nothing else changes |
| `Engine.EValidator.Validate` | lib/evalidator.js:226-248 | a missing target, a non-object target and an unregistered scenario throw before any rule runs; without a scenario only the always-groups run; with one, the always-groups then that scenario's groups, in `addRules` order |
| `Engine.EValidator.ValidateSelected` | lib/evalidator.js:166-201 | the outcome is the run of the always-groups followed by the scenario's groups |

## Left out

- The shared instance field `obj_` is not modelled. The target is passed explicitly and
  the final target is returned in the outcome, not mutated in place. Concurrent
  `validate` calls on one instance, which share `obj_` in the source, are not modelled.
- `async.parallel` interleaving is not modelled. Groups run one after another. That is
  the source's schedule only when every rule is a descriptor or a 3-argument function
  that calls `done` before returning. A 2-argument rule, even a plain synchronous one,
  is settled through `Promise.cast(...).then(...)` (lib/evalidator.js:105), whose
  handlers run later, so `async.parallel` starts the next group before that group's
  next step. Groups then interleave, and `ctx.attr` writes of one group may be seen by
  another in any order.
- `Engine.ExecGroups`: after a hard failure, later groups do not run. In the source,
  the failure callback sets `obj_ = null` while `async.parallel` still starts the
  remaining groups. Those groups then throw a TypeError in `extractValue_(null, …)`
  before any rule runs. The model keeps "no rule runs after the failing group" and
  does not model that TypeError.
- `Engine.StoppedRunIsFirstFailure`: the reported failure is the first in group order.
  When any group has a 2-argument rule or an asynchronous one, the source reports
  whichever failing group settles first.
- Promise and callback plumbing is not modelled. This covers `Promise.cast`, the promise
  returned when no callback is given, the callback argument shuffling, and the
  "Callback argument is not a function." check (lib/evalidator.js:232-237, 247-258).
  `Validate` returns the outcome directly. Chaining (`addRules` returning `this`) is not
  modelled either.
- Arity detection through `rule.length` becomes the explicit `arity` field of a
  `Function` rule.
- `Rules.ExecRule`: a user rule runs with `this` bound to the target
  (`rule.call(obj_, …)`, lib/evalidator.js:105 and 111), and an object-valued attribute
  resolves to the target's own sub-object. A rule can therefore change or delete target
  properties without `ctx.attr`. `Behaviour` carries only `ctx.attr` writes, so "no
  property of the target is lost" and every other property keeping its value hold in
  the model only; this aliasing is not modelled.
- User rule bodies are foreign code, modelled as a given `Behaviour`. Not modelled:
  a synchronous throw escaping a 2-argument rule, a callback called twice or never,
  `addError` calls after the rule completed, and a `ctx.attr` read used by later calls
  (the body already receives the whole target).
- The validator library (`validator`'s `Validator.prototype`, and lib/validators.js)
  is a parameter. Not modelled: its predicates, its default messages, its string
  conversion of the checked value, and a `message` given as an object.
- A descriptor `message` of "" stands for an absent message; both fall back to the
  validator's message.
- Descriptor `args` that are a truthy non-array are not modelled. Absent `args` and an
  empty list behave the same.
- Values are simplified. Numbers are integers, so NaN and floats are not modelled.
  Property access on a truthy primitive (a string's `length` or index) reads as
  undefined. Arrays and functions as targets or values are not modelled.
- Names inherited from `Object.prototype` are not modelled. JavaScript's `in` sees
  them in `extractValue_`, in the scenario check and in `getErrors`.
- The order of keys in an error map is not modelled (maps are unordered). Message
  order within an attribute is modelled. The order in which `_.each` visits a rule
  group's attributes is the sequence order of `RuleGroup`; JavaScript's rule that
  integer-like keys come first is not modelled.
- lib/validators.js and test/main.js are not part of this model.
