/** The validator object (`EValidator` in lib/evalidator.js): its registry of rule groups,
    the argument checks of `validate`, group selection, running the selected groups and
    merging their maps. */
module Engine {
  import opened JsValue
  import opened Rules
  import opened Group
  import opened Merging
  import opened Results

  /** How a `validate` call ends: a synchronous throw before any rule runs, a hard failure
      delivered to the caller, or a result. The last two carry the target as the rules left it. */
  datatype Outcome =
    | Thrown(failure: Failure)
    | Failed(failure: Failure, target: map<string, Value>)
    | Passed(result: Result, target: map<string, Value>)

  /** The selected groups run one after another: stopped by a group's hard failure, or
      completed with every group's error map in group order. */
  datatype Run =
    | Stopped(failure: Failure, target: map<string, Value>)
    | Completed(maps: seq<ErrorMap>, target: map<string, Value>)

  /** A scenario argument that selects a scenario: present and truthy. */
  predicate Named(scenario: Option<string>) {
    scenario.Some? && scenario.value != ""
  }

  /** The groups registered under a scenario, none if it was never registered. */
  function Registered(table: map<string, seq<RuleGroup>>, name: string): seq<RuleGroup> {
    if name in table then table[name] else []
  }

  /** How one group runs against the current target. The run below is stated for any such
      runner; `validate_` runs each group with `execGroup_` over one library (`GroupWith`). */
  type GroupRunner = (map<string, Value>, RuleGroup) -> (GroupOutcome, map<string, Value>)

  /** `execGroup_`, with the validator library fixed. */
  function GroupWith(lib: Library): GroupRunner {
    (t: map<string, Value>, g: RuleGroup) => RunGroup(lib, t, g)
  }

  /** The selected groups in order, each from the target the previous one left; the first
      group that fails ends the run. */
  function RunGroups(runGroup: GroupRunner, target: map<string, Value>, groups: seq<RuleGroup>): Run
    decreases |groups|
  {
    if |groups| == 0 then Completed([], target)
    else
      var (out, after) := runGroup(target, groups[0]);
      match out
      case GroupFailed(e) => Stopped(e, after)
      case GroupDone(m) =>
        match RunGroups(runGroup, after, groups[1..])
        case Stopped(e, t) => Stopped(e, t)
        case Completed(ms, t) => Completed([m] + ms, t)
  }

  /** The outcome of running `groups` on the target: the first hard failure, or the merged
      maps as a result. */
  function Orchestrate(lib: Library, target: map<string, Value>, groups: seq<RuleGroup>): Outcome {
    match RunGroups(GroupWith(lib), target, groups)
    case Stopped(e, t) => Failed(e, t)
    case Completed(ms, t) => Passed(Result(Merge(ms)), t)
  }

  /** The target group `i` starts from: the one the groups before it left. */
  function Before(runGroup: GroupRunner, target: map<string, Value>, groups: seq<RuleGroup>, i: nat): map<string, Value>
    requires i <= |groups|
    decreases i
  {
    if i == 0 then target else Before(runGroup, runGroup(target, groups[0]).1, groups[1..], i - 1)
  }

  /** Group `i`, run from the target the groups before it left, completes with map `m`
      and leaves the target group `i + 1` starts from. */
  ghost predicate DoneAt(runGroup: GroupRunner, target: map<string, Value>, groups: seq<RuleGroup>, i: nat, m: ErrorMap) {
    i < |groups| && runGroup(Before(runGroup, target, groups, i), groups[i]) == (GroupDone(m), Before(runGroup, target, groups, i + 1))
  }

  /** A group that completes among the groups after the first completes at the next
      position of the whole list. */
  lemma DoneAtShift(runGroup: GroupRunner, target: map<string, Value>, groups: seq<RuleGroup>, i: nat, m: ErrorMap)
    requires |groups| > 0 && DoneAt(runGroup, runGroup(target, groups[0]).1, groups[1..], i, m)
    ensures DoneAt(runGroup, target, groups, i + 1, m)
  {
    var after := runGroup(target, groups[0]).1;
    assert Before(runGroup, target, groups, i + 1) == Before(runGroup, after, groups[1..], i);
    assert Before(runGroup, target, groups, i + 2) == Before(runGroup, after, groups[1..], i + 1);
    assert groups[i + 1] == groups[1..][i];
  }

  /** When every group completes: there is one map per group, in group order (not in order
      of completion), and map `i` is what group `i` reports when run from the target the
      groups before it left. */
  lemma {:induction false} CompletedRunIsPerGroup(runGroup: GroupRunner, target: map<string, Value>, groups: seq<RuleGroup>)
    ensures var run := RunGroups(runGroup, target, groups);
            run.Completed? ==>
              && |run.maps| == |groups|
              && (forall i :: 0 <= i < |groups| ==> DoneAt(runGroup, target, groups, i, run.maps[i]))
              && run.target == Before(runGroup, target, groups, |groups|)
    decreases |groups|
  {
    var run := RunGroups(runGroup, target, groups);
    if |groups| > 0 && run.Completed? {
      var (out, after) := runGroup(target, groups[0]);
      CompletedRunIsPerGroup(runGroup, after, groups[1..]);
      var rest := RunGroups(runGroup, after, groups[1..]);
      assert run.maps == [out.errors] + rest.maps;
      assert DoneAt(runGroup, target, groups, 0, run.maps[0]);
      forall i | 0 < i < |groups| ensures DoneAt(runGroup, target, groups, i, run.maps[i]) {
        assert run.maps[i] == rest.maps[i - 1];
        DoneAtShift(runGroup, target, groups, i - 1, rest.maps[i - 1]);
      }
      assert Before(runGroup, target, groups, |groups|) == Before(runGroup, after, groups[1..], |groups| - 1);
    }
  }

  /** Group `k` is the first to fail: every group before it completed, and group `k`, run
      from the target the earlier groups left, fails with `e` leaving target `t`. */
  ghost predicate FailsFirstAt(runGroup: GroupRunner, target: map<string, Value>, groups: seq<RuleGroup>, k: nat, e: Failure, t: map<string, Value>) {
    && k < |groups|
    && (forall i :: 0 <= i < k ==> runGroup(Before(runGroup, target, groups, i), groups[i]).0.GroupDone?)
    && runGroup(Before(runGroup, target, groups, k), groups[k]) == (GroupFailed(e), t)
  }

  /** A first failure among the groups after a completed first group is the first failure
      of the whole list, one position later. */
  lemma FailsFirstAtShift(runGroup: GroupRunner, target: map<string, Value>, groups: seq<RuleGroup>, k: nat, e: Failure, t: map<string, Value>)
    requires |groups| > 0 && runGroup(target, groups[0]).0.GroupDone?
    requires FailsFirstAt(runGroup, runGroup(target, groups[0]).1, groups[1..], k, e, t)
    ensures FailsFirstAt(runGroup, target, groups, k + 1, e, t)
  {
    var after := runGroup(target, groups[0]).1;
    forall i | 0 <= i < k + 1 ensures runGroup(Before(runGroup, target, groups, i), groups[i]).0.GroupDone? {
      if i > 0 {
        assert Before(runGroup, target, groups, i) == Before(runGroup, after, groups[1..], i - 1);
        assert groups[i] == groups[1..][i - 1];
      }
    }
    assert Before(runGroup, target, groups, k + 1) == Before(runGroup, after, groups[1..], k);
    assert groups[k + 1] == groups[1..][k];
  }

  /** When a group fails: every group before it completed, and the failure and the final
      target are the failing group's; no later group runs. */
  lemma {:induction false} StoppedRunIsFirstFailure(runGroup: GroupRunner, target: map<string, Value>, groups: seq<RuleGroup>)
    ensures var run := RunGroups(runGroup, target, groups);
            run.Stopped? ==> exists k :: FailsFirstAt(runGroup, target, groups, k, run.failure, run.target)
    decreases |groups|
  {
    var run := RunGroups(runGroup, target, groups);
    if |groups| > 0 && run.Stopped? {
      var (out, after) := runGroup(target, groups[0]);
      if out.GroupFailed? {
        assert FailsFirstAt(runGroup, target, groups, 0, run.failure, run.target);
      } else {
        StoppedRunIsFirstFailure(runGroup, after, groups[1..]);
        var k :| FailsFirstAt(runGroup, after, groups[1..], k, run.failure, run.target);
        FailsFirstAtShift(runGroup, target, groups, k, run.failure, run.target);
      }
    }
  }

  /** No map the runner reports holds an empty list. */
  ghost predicate ReportsNoEmptyEntries(runGroup: GroupRunner) {
    forall t, g :: runGroup(t, g).0.GroupDone? ==> NoEmptyEntries(runGroup(t, g).0.errors)
  }

  /** `execGroup_` only ever creates an attribute's list with a message in it. */
  lemma GroupsReportNoEmptyEntries(lib: Library)
    ensures ReportsNoEmptyEntries(GroupWith(lib))
  {
    forall t, g ensures GroupWith(lib)(t, g).0.GroupDone? ==> NoEmptyEntries(GroupWith(lib)(t, g).0.errors) {
      GroupErrorMap(lib, t, g);
    }
  }

  /** Every map of a completed run holds no empty list. */
  lemma {:induction false} CompletedMapsHaveNoEmptyEntries(runGroup: GroupRunner, target: map<string, Value>, groups: seq<RuleGroup>)
    requires ReportsNoEmptyEntries(runGroup)
    ensures var run := RunGroups(runGroup, target, groups);
            run.Completed? ==> forall i :: 0 <= i < |run.maps| ==> NoEmptyEntries(run.maps[i])
    decreases |groups|
  {
    if |groups| > 0 {
      var (out, after) := runGroup(target, groups[0]);
      CompletedMapsHaveNoEmptyEntries(runGroup, after, groups[1..]);
    }
  }

  /** A passing outcome's result is the merge of the groups' maps: each attribute's list is
      its lists in every group concatenated in group order, an attribute is a key exactly
      when some group collected a message for it, and `hasError()` is true exactly when
      some group did. */
  lemma PassedResultMergesGroups(lib: Library, target: map<string, Value>, groups: seq<RuleGroup>)
    ensures var run := RunGroups(GroupWith(lib), target, groups);
            var out := Orchestrate(lib, target, groups);
            run.Completed? ==>
              && out.Passed?
              && NoEmptyEntries(out.result.results)
              && (forall a :: Prior(out.result.results, a) == Gather(run.maps, a))
              && (forall a :: a in out.result.results <==> exists i :: 0 <= i < |run.maps| && a in run.maps[i])
              && (out.result.HasError() <==> exists i :: 0 <= i < |run.maps| && run.maps[i] != map[])
  {
    var run := RunGroups(GroupWith(lib), target, groups);
    if run.Completed? {
      GroupsReportNoEmptyEntries(lib);
      CompletedMapsHaveNoEmptyEntries(GroupWith(lib), target, groups);
      MergedResult(run.maps);
    }
  }

  /** With no groups to run, the result is the empty map and the target is untouched. */
  lemma NoGroupsGiveEmptyResult(lib: Library, target: map<string, Value>)
    ensures Orchestrate(lib, target, []) == Passed(Result(map[]), target)
    ensures !Orchestrate(lib, target, []).result.HasError()
  {
  }

  class EValidator {
    /** The validator library whose prototype descriptors name. */
    const library: Library
    /** `alwaysGroups_`: groups run on every call, in `addRules` order. */
    var alwaysGroups: seq<RuleGroup>
    /** `scenarioGroups_`: per scenario name, its groups in `addRules` order. */
    var scenarioGroups: map<string, seq<RuleGroup>>

    /** `new EValidator(options)`: `options.rules`, when given, is the first always-group. */
    constructor (library: Library, rules: Option<RuleGroup>)
      ensures this.library == library
      ensures alwaysGroups == (if rules.Some? then [rules.value] else [])
      ensures scenarioGroups == map[]
    {
      this.library := library;
      alwaysGroups := if rules.Some? then [rules.value] else [];
      scenarioGroups := map[];
    }

    /** `addRules(group, scenario)`: appends the group to the named scenario's list (creating
        it), or to the always-groups when no scenario is named. */
    method AddRules(group: RuleGroup, scenario: Option<string>)
      modifies this
      ensures Named(scenario) ==>
                && alwaysGroups == old(alwaysGroups)
                && scenarioGroups == old(scenarioGroups)[scenario.value := Registered(old(scenarioGroups), scenario.value) + [group]]
      ensures !Named(scenario) ==>
                && alwaysGroups == old(alwaysGroups) + [group]
                && scenarioGroups == old(scenarioGroups)
    {
      if Named(scenario) {
        var name := scenario.value;
        if name !in scenarioGroups {
          scenarioGroups := scenarioGroups[name := []];
        }
        scenarioGroups := scenarioGroups[name := scenarioGroups[name] + [group]];
      } else {
        alwaysGroups := alwaysGroups + [group];
      }
    }

    /** The groups a call runs: the always-groups, then the named scenario's groups. */
    function SelectGroups(scenario: Option<string>): seq<RuleGroup>
      reads this
      requires Named(scenario) ==> scenario.value in scenarioGroups
    {
      alwaysGroups + (if Named(scenario) then scenarioGroups[scenario.value] else [])
    }

    /** `validate(obj, scenario)`: the argument checks throw before any rule runs (a missing
        target, a non-object target, an unregistered scenario); otherwise the always-groups
        run, then the scenario's groups when one is named, and the outcome is theirs. */
    method Validate(target: Option<Value>, scenario: Option<string>) returns (out: Outcome)
      ensures target.None? ==> out == Thrown(TargetRequired)
      ensures target.Some? && !target.value.Obj? ==> out == Thrown(InvalidTarget)
      ensures target.Some? && target.value.Obj? && Named(scenario) && scenario.value !in scenarioGroups ==>
                out == Thrown(ScenarioNotFound(scenario.value))
      ensures target.Some? && target.value.Obj? && !Named(scenario) ==>
                out == Orchestrate(library, target.value.props, alwaysGroups)
      ensures target.Some? && target.value.Obj? && Named(scenario) && scenario.value in scenarioGroups ==>
                out == Orchestrate(library, target.value.props, alwaysGroups + scenarioGroups[scenario.value])
    {
      if target.None? {
        return Thrown(TargetRequired);
      }
      if !target.value.Obj? {
        return Thrown(InvalidTarget);
      }
      if Named(scenario) && scenario.value !in scenarioGroups {
        return Thrown(ScenarioNotFound(scenario.value));
      }
      out := ValidateSelected(target.value.props, scenario);
      assert !Named(scenario) ==> SelectGroups(scenario) == alwaysGroups;
    }

    /** `validate_`: collect the groups, run each one, and either report the first hard
        failure or merge the maps in group order; with no groups the result is empty. */
    method ValidateSelected(obj: map<string, Value>, scenario: Option<string>) returns (out: Outcome)
      requires Named(scenario) ==> scenario.value in scenarioGroups
      ensures out == Orchestrate(library, obj, SelectGroups(scenario))
    {
      var tasks := alwaysGroups;
      if Named(scenario) {
        tasks := tasks + scenarioGroups[scenario.value];
      }
      assert tasks == SelectGroups(scenario);
      if |tasks| == 0 {
        NoGroupsGiveEmptyResult(library, obj);
        return Passed(Result(map[]), obj);
      }
      var run := ExecGroups(library, obj, tasks);
      match run {
        case Stopped(e, t) =>
          out := Failed(e, t);
        case Completed(maps, t) =>
          var result := GetResult(maps);
          out := Passed(result, t);
      }
    }
  }

  /** `async.parallel` over the selected groups, run one after another: each group's map is
      kept in group order, and the first hard failure ends the run. */
  method ExecGroups(lib: Library, obj: map<string, Value>, groups: seq<RuleGroup>) returns (run: Run)
    ensures run == RunGroups(GroupWith(lib), obj, groups)
  {
    var maps: seq<ErrorMap> := [];
    var current := obj;
    var i := 0;
    while i < |groups|
      invariant 0 <= i <= |groups|
      invariant Resume(maps, RunGroups(GroupWith(lib), current, groups[i..])) == RunGroups(GroupWith(lib), obj, groups)
    {
      var groupOut, after := ExecGroup(lib, current, groups[i]);
      ResumeStep(GroupWith(lib), maps, current, groups, i, groupOut, after);
      current := after;
      match groupOut {
        case GroupFailed(e) =>
          return Stopped(e, current);
        case GroupDone(m) =>
          maps := maps + [m];
      }
      i := i + 1;
    }
    assert groups[i..] == [];
    return Completed(maps, current);
  }

  /** One group of a run: a failure stops the run there; a map is appended to those
      collected so far and the run goes on from the target the group left. */
  lemma ResumeStep(runGroup: GroupRunner, maps: seq<ErrorMap>, current: map<string, Value>, groups: seq<RuleGroup>,
                   i: nat, out: GroupOutcome, after: map<string, Value>)
    requires i < |groups| && runGroup(current, groups[i]) == (out, after)
    ensures out.GroupFailed? ==> Resume(maps, RunGroups(runGroup, current, groups[i..])) == Stopped(out.failure, after)
    ensures out.GroupDone? ==>
              Resume(maps, RunGroups(runGroup, current, groups[i..])) == Resume(maps + [out.errors], RunGroups(runGroup, after, groups[i + 1..]))
  {
    assert groups[i..][0] == groups[i];
    assert groups[i..][1..] == groups[i + 1..];
    if out.GroupDone? {
      var rest := RunGroups(runGroup, after, groups[i + 1..]);
      if rest.Completed? {
        assert maps + [out.errors] + rest.maps == maps + ([out.errors] + rest.maps);
      }
    }
  }

  /** A run continued after the maps already collected. */
  function Resume(maps: seq<ErrorMap>, run: Run): Run {
    match run
    case Stopped(e, t) => Stopped(e, t)
    case Completed(ms, t) => Completed(maps + ms, t)
  }
}
