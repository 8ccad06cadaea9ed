/** One rule group run to completion (`execGroup_` in lib/evalidator.js): every attribute's
    rules flattened into one task list and run in series into a shared error map. */
module Group {
  import opened JsValue
  import opened Resolver
  import opened Rules

  /** The rules registered for one attribute: one rule, or an array of rules. */
  datatype RuleSpec = Single(rule: Rule) | List(rules: seq<Rule>)

  /** A rule group: attribute paths with their rules, in declaration order. */
  type RuleGroup = seq<(string, RuleSpec)>

  /** One entry of the flattened task list. */
  datatype Task = Task(attr: string, rule: Rule)

  /** Attribute path to its messages, in the order they were collected. */
  type ErrorMap = map<string, seq<string>>

  /** No attribute is mapped to an empty list. */
  predicate NoEmptyEntries(em: ErrorMap) {
    forall a :: a in em ==> em[a] != []
  }

  /** The tasks one attribute contributes, in the order of its rules. */
  function Expand(attr: string, rules: seq<Rule>): (ts: seq<Task>)
    ensures |ts| == |rules|
    ensures forall i :: 0 <= i < |rules| ==> ts[i].attr == attr
    decreases |rules|
  {
    if |rules| == 0 then [] else Expand(attr, rules[..|rules| - 1]) + [Task(attr, rules[|rules| - 1])]
  }

  /** Task `i` of an attribute is that attribute with its rule `i`: the rules keep their
      array order. */
  lemma {:induction false} ExpandInOrder(attr: string, rules: seq<Rule>)
    ensures forall i :: 0 <= i < |rules| ==> Expand(attr, rules)[i] == Task(attr, rules[i])
    decreases |rules|
  {
    if |rules| > 0 {
      var init := rules[..|rules| - 1];
      ExpandInOrder(attr, init);
      forall i | 0 <= i < |rules| - 1 ensures Expand(attr, rules)[i] == Task(attr, rules[i]) {
        assert init[i] == rules[i];
      }
    }
  }

  function RulesOf(spec: RuleSpec): seq<Rule> {
    match spec
    case Single(r) => [r]
    case List(rs) => rs
  }

  /** The task list: attributes in declaration order, each attribute's rules in array order. */
  function Flatten(g: RuleGroup): seq<Task>
    decreases |g|
  {
    if |g| == 0 then []
    else Flatten(g[..|g| - 1]) + Expand(g[|g| - 1].0, RulesOf(g[|g| - 1].1))
  }

  /** Flattening distributes over group concatenation, so one attribute's tasks all come
      before the next attribute's. */
  lemma {:induction false} FlattenAppend(g1: RuleGroup, g2: RuleGroup)
    ensures Flatten(g1 + g2) == Flatten(g1) + Flatten(g2)
    decreases |g2|
  {
    if |g2| > 0 {
      var g := g1 + g2;
      assert g[..|g| - 1] == g1 + g2[..|g2| - 1];
      assert g[|g| - 1] == g2[|g2| - 1];
      FlattenAppend(g1, g2[..|g2| - 1]);
    } else {
      assert g1 + g2 == g1;
    }
  }

  /** The `_.each` over the group with `push_`: builds the task list. */
  method BuildTasks(g: RuleGroup) returns (tasks: seq<Task>)
    ensures tasks == Flatten(g)
  {
    tasks := [];
    var i := 0;
    while i < |g|
      invariant 0 <= i <= |g|
      invariant tasks == Flatten(g[..i])
    {
      var attr := g[i].0;
      match g[i].1 {
        case Single(r) =>
          assert Expand(attr, [r]) == [Task(attr, r)];
          tasks := tasks + [Task(attr, r)];
        case List(rs) =>
          var j := 0;
          while j < |rs|
            invariant 0 <= j <= |rs|
            invariant tasks == Flatten(g[..i]) + Expand(attr, rs[..j])
          {
            assert rs[..j + 1][..j] == rs[..j];
            tasks := tasks + [Task(attr, rs[j])];
            j := j + 1;
          }
          assert rs[..j] == rs;
      }
      assert g[..i + 1][..i] == g[..i];
      i := i + 1;
    }
    assert g[..i] == g;
  }

  /** The list an error map holds for `a`, empty when `a` is not a key. */
  function Prior(em: ErrorMap, a: string): seq<string> {
    if a in em then em[a] else []
  }

  /** `finish_`: a step's messages, if any, are appended to the attribute's list. */
  function Record(em: ErrorMap, attr: string, msgs: seq<string>): (r: ErrorMap)
    ensures r.Keys == if msgs == [] then em.Keys else em.Keys + {attr}
    ensures forall a :: a in r && a != attr ==> r[a] == em[a]
    ensures attr in r ==> r[attr] == Prior(em, attr) + msgs
    ensures NoEmptyEntries(em) ==> NoEmptyEntries(r)
  {
    if msgs == [] then em
    else em[attr := if attr in em then em[attr] + msgs else msgs]
  }

  /** Recording appends to the recorded attribute's list and leaves the others alone. */
  lemma RecordPrior(em: ErrorMap, attr: string, msgs: seq<string>, a: string)
    ensures Prior(Record(em, attr, msgs), a) == Prior(em, a) + (if attr == a then msgs else [])
  {
  }

  /** One recorded step followed by later messages: the earlier list, the step's own
      messages for `a`, then the later ones. */
  lemma RecordThenLater(em: ErrorMap, attr: string, msgs: seq<string>, a: string, after: seq<string>, later: seq<string>)
    requires after == Prior(Record(em, attr, msgs), a) + later
    ensures after == Prior(em, a) + ((if attr == a then msgs else []) + later)
  {
  }

  /** What a group reports: a hard failure, or its error map. */
  datatype GroupOutcome = GroupFailed(failure: Failure) | GroupDone(errors: ErrorMap)

  /** How one task runs against the current target. The series below is stated for any
      such step; a group runs each task with `execRule_` over one library (`StepWith`). */
  type Executor = (map<string, Value>, Task) -> Step

  /** `execRule_` for a task, with the validator library fixed. */
  function StepWith(lib: Library): Executor {
    (t: map<string, Value>, task: Task) => ExecRule(lib, t, task.attr, task.rule)
  }

  /** `async.series` over the tasks: run them in order, each against the target the previous
      one left; stop at the first hard failure. Returns the outcome and the final target. */
  function RunTasks(step: Executor, target: map<string, Value>, em: ErrorMap, tasks: seq<Task>): (GroupOutcome, map<string, Value>)
    decreases |tasks|
  {
    if |tasks| == 0 then (GroupDone(em), target)
    else
      var st := step(target, tasks[0]);
      if st.failure.Some? then (GroupFailed(st.failure.value), st.target)
      else RunTasks(step, st.target, Record(em, tasks[0].attr, st.messages), tasks[1..])
  }

  /** A whole group, from an empty error map. */
  function RunGroup(lib: Library, target: map<string, Value>, g: RuleGroup): (GroupOutcome, map<string, Value>) {
    RunTasks(StepWith(lib), target, map[], Flatten(g))
  }

  /** `execGroup_`: the task list run in series, each step's messages recorded in the shared
      error map; a hard failure stops the list and is reported instead of the map. */
  method ExecGroup(lib: Library, target: map<string, Value>, g: RuleGroup) returns (out: GroupOutcome, after: map<string, Value>)
    ensures (out, after) == RunGroup(lib, target, g)
  {
    var tasks := BuildTasks(g);
    var errorMap: ErrorMap := map[];
    var obj := target;
    var i := 0;
    while i < |tasks|
      invariant 0 <= i <= |tasks|
      invariant RunTasks(StepWith(lib), obj, errorMap, tasks[i..]) == RunTasks(StepWith(lib), target, map[], tasks)
    {
      assert tasks[i..][1..] == tasks[i + 1..];
      var st := ExecRule(lib, obj, tasks[i].attr, tasks[i].rule);
      assert st == StepWith(lib)(obj, tasks[i]);
      errorMap := Record(errorMap, tasks[i].attr, st.messages);
      obj := st.target;
      if st.failure.Some? {
        return GroupFailed(st.failure.value), obj;
      }
      i := i + 1;
    }
    return GroupDone(errorMap), obj;
  }

  /** The steps that actually run, in order: up to and including the first that fails. */
  function Trace(step: Executor, target: map<string, Value>, tasks: seq<Task>): (t: seq<Step>)
    ensures |t| <= |tasks|
    ensures |tasks| > 0 ==> |t| > 0
    // every executed step but the last succeeded: nothing runs after a hard failure
    ensures forall j :: 0 <= j < |t| - 1 ==> t[j].failure.None?
    decreases |tasks|
  {
    if |tasks| == 0 then []
    else
      var st := step(target, tasks[0]);
      if st.failure.Some? then [st] else [st] + Trace(step, st.target, tasks[1..])
  }

  /** Each executed step resolves its value from the target the previous step left: the
      first from the initial target, step j+1 from step j's target. So a `ctx.attr` write of
      an earlier rule is seen by every later rule of the group. */
  lemma {:induction false} StepsSeeEarlierWrites(step: Executor, target: map<string, Value>, tasks: seq<Task>)
    requires |tasks| > 0
    ensures var t := Trace(step, target, tasks);
            && t[0] == step(target, tasks[0])
            && forall j :: 0 <= j < |t| - 1 ==> t[j + 1] == step(t[j].target, tasks[j + 1])
    decreases |tasks|
  {
    var t := Trace(step, target, tasks);
    var st := step(target, tasks[0]);
    if st.failure.None? && |tasks| > 1 {
      var rest := Trace(step, st.target, tasks[1..]);
      StepsSeeEarlierWrites(step, st.target, tasks[1..]);
      assert t == [st] + rest;
      forall j | 0 <= j < |t| - 1
        ensures t[j + 1] == step(t[j].target, tasks[j + 1])
      {
        if j > 0 {
          assert t[j] == rest[j - 1] && t[j + 1] == rest[j];
          assert tasks[j + 1] == tasks[1..][j];
        }
      }
    }
  }

  /** A rule that writes an attribute with `ctx.attr` (and does not overwrite it later) and
      completes normally: the next rule of the group, for that attribute, runs against the
      written value. */
  lemma NextRuleSeesWrite(lib: Library, target: map<string, Value>, attr: string, arity: int,
                          body: (Value, map<string, Value>) -> Behaviour, next: Rule, k: int, v: Value)
    requires arity == 2 || arity == 3
    requires var b := body(Resolve(target, attr), target);
             FinalWriteAt(b.calls, k) && b.calls[k] == Attr(attr, v) && !Truthy(b.settled)
    ensures var t := Trace(StepWith(lib), target, [Task(attr, Function(arity, body)), Task(attr, next)]);
            && |t| == 2
            && t[1] == ExecRule(lib, t[0].target, attr, next)
            && Resolve(t[0].target, attr) == v
  {
    var tasks := [Task(attr, Function(arity, body)), Task(attr, next)];
    var b := body(Resolve(target, attr), target);
    StepsSeeEarlierWrites(StepWith(lib), target, tasks);
    WriteIsVisible(target, b.calls, k, attr, v);
    var t := Trace(StepWith(lib), target, tasks);
    assert t[0].target == ApplyWrites(target, b.calls);
    assert tasks[1..] == [Task(attr, next)];
  }

  /** The group fails exactly when the last executed step failed, and with that step's
      failure; when it does not fail, every task ran. */
  ghost predicate StopsAtLastStep(step: Executor, target: map<string, Value>, em: ErrorMap, tasks: seq<Task>) {
    var t := Trace(step, target, tasks);
    var out := RunTasks(step, target, em, tasks).0;
    && (out.GroupFailed? <==> |t| > 0 && t[|t| - 1].failure.Some?)
    && (out.GroupFailed? ==> out.failure == t[|t| - 1].failure.value)
    && (out.GroupDone? ==> |t| == |tasks|)
  }

  /** The inductive step: when the first task succeeds and the rest of the list stops at
      its last step, so does the whole list. */
  lemma StopsAtLastStepCons(step: Executor, target: map<string, Value>, em: ErrorMap, tasks: seq<Task>)
    requires |tasks| > 0
    requires var st := step(target, tasks[0]);
             st.failure.None? ==> StopsAtLastStep(step, st.target, Record(em, tasks[0].attr, st.messages), tasks[1..])
    ensures StopsAtLastStep(step, target, em, tasks)
  {
    var st := step(target, tasks[0]);
    var t := Trace(step, target, tasks);
    var out := RunTasks(step, target, em, tasks).0;
    if st.failure.Some? {
      assert t == [st];
      assert out == GroupFailed(st.failure.value);
    } else {
      var em' := Record(em, tasks[0].attr, st.messages);
      var rest := Trace(step, st.target, tasks[1..]);
      assert t == [st] + rest;
      assert out == RunTasks(step, st.target, em', tasks[1..]).0;
      if |rest| > 0 {
        assert t[|t| - 1] == rest[|rest| - 1];
      } else {
        assert |tasks[1..]| == 0;
      }
    }
  }

  /** A hard failure at a step stops the group: the group fails exactly when the last
      executed step failed, and with that step's failure; when it does not fail, every task
      ran. */
  lemma {:induction false} StopsAtFirstFailure(step: Executor, target: map<string, Value>, em: ErrorMap, tasks: seq<Task>)
    ensures var t := Trace(step, target, tasks);
            var out := RunTasks(step, target, em, tasks).0;
            && (out.GroupFailed? <==> |t| > 0 && t[|t| - 1].failure.Some?)
            && (out.GroupFailed? ==> out.failure == t[|t| - 1].failure.value)
            && (out.GroupDone? ==> |t| == |tasks|)
    decreases |tasks|
  {
    if |tasks| > 0 {
      var st := step(target, tasks[0]);
      if st.failure.None? {
        StopsAtFirstFailure(step, st.target, Record(em, tasks[0].attr, st.messages), tasks[1..]);
      }
      StopsAtLastStepCons(step, target, em, tasks);
    }
  }

  /** The target a group leaves is the one its last executed step left (the initial target
      when there are no tasks). */
  lemma {:induction false} FinalTargetIsLastStep(step: Executor, target: map<string, Value>, em: ErrorMap, tasks: seq<Task>)
    ensures var t := Trace(step, target, tasks);
            RunTasks(step, target, em, tasks).1 == if |t| == 0 then target else t[|t| - 1].target
    decreases |tasks|
  {
    if |tasks| > 0 {
      var st := step(target, tasks[0]);
      if st.failure.None? {
        var em' := Record(em, tasks[0].attr, st.messages);
        var rest := Trace(step, st.target, tasks[1..]);
        FinalTargetIsLastStep(step, st.target, em', tasks[1..]);
        var t := Trace(step, target, tasks);
        assert t == [st] + rest;
        assert RunTasks(step, target, em, tasks).1 == RunTasks(step, st.target, em', tasks[1..]).1;
        if |rest| > 0 {
          assert t[|t| - 1] == rest[|rest| - 1];
        }
      }
    }
  }

  /** The messages the executed steps collected for attribute `a`, in execution order. */
  function MessagesFor(tasks: seq<Task>, steps: seq<Step>, a: string): seq<string>
    requires |steps| <= |tasks|
    decreases |steps|
  {
    if |steps| == 0 then []
    else (if tasks[0].attr == a then steps[0].messages else []) + MessagesFor(tasks[1..], steps[1..], a)
  }

  /** Those messages are empty exactly when no executed step for `a` produced one. */
  lemma {:induction false} MessagesForEmptyIff(tasks: seq<Task>, steps: seq<Step>, a: string)
    requires |steps| <= |tasks|
    ensures MessagesFor(tasks, steps, a) != [] <==>
            exists j :: 0 <= j < |steps| && tasks[j].attr == a && steps[j].messages != []
    decreases |steps|
  {
    if |steps| > 0 {
      MessagesForEmptyIff(tasks[1..], steps[1..], a);
      if exists j :: 0 < j < |steps| && tasks[j].attr == a && steps[j].messages != [] {
        var j :| 0 < j < |steps| && tasks[j].attr == a && steps[j].messages != [];
        assert tasks[1..][j - 1] == tasks[j] && steps[1..][j - 1] == steps[j];
      }
      if exists j :: 0 <= j < |steps| - 1 && tasks[1..][j].attr == a && steps[1..][j].messages != [] {
        var j :| 0 <= j < |steps| - 1 && tasks[1..][j].attr == a && steps[1..][j].messages != [];
        assert tasks[j + 1] == tasks[1..][j] && steps[j + 1] == steps[1..][j];
      }
    }
  }

  /** The error map a group returns, from a given starting map: each attribute's list is its
      earlier list followed by the messages the executed steps for it collected, in
      execution order; no attribute maps to an empty list. */
  lemma {:induction false} ErrorMapFollowsTrace(step: Executor, target: map<string, Value>, em: ErrorMap, tasks: seq<Task>)
    requires NoEmptyEntries(em)
    ensures var out := RunTasks(step, target, em, tasks).0;
            out.GroupDone? ==>
              && NoEmptyEntries(out.errors)
              && forall a :: Prior(out.errors, a) == Prior(em, a) + MessagesFor(tasks, Trace(step, target, tasks), a)
    decreases |tasks|
  {
    if |tasks| > 0 {
      var st := step(target, tasks[0]);
      if st.failure.None? {
        var em' := Record(em, tasks[0].attr, st.messages);
        var rest := Trace(step, st.target, tasks[1..]);
        ErrorMapFollowsTrace(step, st.target, em', tasks[1..]);
        var t := Trace(step, target, tasks);
        assert t == [st] + rest;
        assert t[1..] == rest;
        var out := RunTasks(step, target, em, tasks).0;
        assert out == RunTasks(step, st.target, em', tasks[1..]).0;
        if out.GroupDone? {
          forall a ensures Prior(out.errors, a) == Prior(em, a) + MessagesFor(tasks, t, a) {
            var later := MessagesFor(tasks[1..], rest, a);
            assert Prior(out.errors, a) == Prior(em', a) + later;
            assert MessagesFor(tasks, t, a) == (if tasks[0].attr == a then st.messages else []) + later;
            RecordThenLater(em, tasks[0].attr, st.messages, a, Prior(out.errors, a), later);
          }
        }
      }
    }
  }

  /** After a group runs without a hard failure, attribute `a` is a key of its error map
      exactly when some executed step for `a` produced a message, and its list is those
      messages in flattened execution order. */
  lemma GroupErrorMap(lib: Library, target: map<string, Value>, g: RuleGroup)
    ensures var tasks := Flatten(g);
            var t := Trace(StepWith(lib), target, tasks);
            var out := RunGroup(lib, target, g).0;
            out.GroupDone? ==>
              && |t| == |tasks|
              && NoEmptyEntries(out.errors)
              && forall a ::
                   && (a in out.errors <==> exists j :: 0 <= j < |t| && tasks[j].attr == a && t[j].messages != [])
                   && (a in out.errors ==> out.errors[a] == MessagesFor(tasks, t, a))
  {
    var tasks := Flatten(g);
    var t := Trace(StepWith(lib), target, tasks);
    ErrorMapFollowsTrace(StepWith(lib), target, map[], tasks);
    StopsAtFirstFailure(StepWith(lib), target, map[], tasks);
    var out := RunGroup(lib, target, g).0;
    if out.GroupDone? {
      forall a
        ensures a in out.errors <==> exists j :: 0 <= j < |t| && tasks[j].attr == a && t[j].messages != []
        ensures a in out.errors ==> out.errors[a] == MessagesFor(tasks, t, a)
      {
        MessagesForEmptyIff(tasks, t, a);
        assert Prior(out.errors, a) == MessagesFor(tasks, t, a);
      }
    }
  }
}
