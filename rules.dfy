/** One rule run against one attribute (`execRule_` in lib/evalidator.js): a validator
    descriptor, a user function, or anything else. */
module Rules {
  import opened JsValue
  import opened Resolver

  /** A call a user rule makes on its context object: `ctx.addError(msg)`, or
      `ctx.attr(name, value)`, which writes `obj[name]` when `value` is truthy and is
      otherwise a read (whose result the rule body already sees through the target). */
  datatype CtxCall = AddError(message: string) | Attr(name: string, value: Value)

  /** What a user rule function does when called: its context calls, in order, and the
      value it settles with (the rejection reason of the returned promise, or the first
      argument it passes to `done`); undefined for a normal completion. */
  datatype Behaviour = Behaviour(calls: seq<CtxCall>, settled: Value)

  /** A rule as registered for an attribute. `message` "" stands for an absent message. */
  datatype Rule =
    | Descriptor(validator: string, args: seq<Value>, message: string, allowEmpty: bool)
      // {validator, args, message, allowEmpty}
    | Function(arity: int, body: (Value, map<string, Value>) -> Behaviour)
      // a user function with `rule.length == arity`; its body gets the value and the target
    | Other
      // any other value: a string, a number, an array nested in a rule list, ...

  /** What one check of the validator library does: pass, throw a ValidatorError carrying
      its default message, or throw some other exception. */
  datatype CheckOutcome = Valid | ValidatorError(defaultMessage: string) | Threw(error: string)

  /** The validator library: the names its prototype has, and its checks. */
  datatype Library = Library(known: set<string>, check: (string, Value, seq<Value>) -> CheckOutcome)

  /** Hard failures: reported to the caller instead of a result. */
  datatype Failure =
    | ValidatorNotFound(name: string)       // 'Validator not found: ' + name
    | InvalidFunction(attr: string)         // "Invalid validate function for '" + attr + "'"
    | InvalidRule(attr: string)             // "Invalid validate rule for '" + attr + "'"
    | ValidatorThrew(error: string)         // a non-ValidatorError exception of a check
    | RuleFailed(reason: Value)             // a user rule settled with a truthy error
    | TargetRequired                        // 'Validation target object is required.'
    | InvalidTarget                         // 'Object to validate is invalid.'
    | ScenarioNotFound(scenario: string)    // 'Scenario not found.'

  /** The effect of one step: the messages it collected, the target after it, and its
      hard failure if any. */
  datatype Step = Step(messages: seq<string>, target: map<string, Value>, failure: Option<Failure>)

  /** The messages of a rule's `ctx.addError` calls, in call order. */
  function Messages(calls: seq<CtxCall>): (msgs: seq<string>)
    ensures |msgs| <= |calls|
    ensures forall m :: m in msgs ==> AddError(m) in calls
    decreases |calls|
  {
    if |calls| == 0 then []
    else (if calls[0].AddError? then [calls[0].message] else []) + Messages(calls[1..])
  }

  /** One context call contributes its message when it is `addError`, and nothing when it
      is `attr`. */
  lemma MessagesOfCall(c: CtxCall)
    ensures Messages([c]) == if c.AddError? then [c.message] else []
  {
    assert [c][1..] == [];
  }

  /** A call in front contributes its own message, if any, before the rest. */
  lemma MessagesCons(c: CtxCall, cs: seq<CtxCall>)
    ensures Messages([c] + cs) == (if c.AddError? then [c.message] else []) + Messages(cs)
  {
    assert ([c] + cs)[0] == c;
    assert ([c] + cs)[1..] == cs;
  }

  /** The messages of consecutive calls are the messages of each part, in call order: every
      `addError` call contributes its message at its own position. */
  lemma {:induction false} MessagesAppend(c1: seq<CtxCall>, c2: seq<CtxCall>)
    ensures Messages(c1 + c2) == Messages(c1) + Messages(c2)
    decreases |c1|
  {
    if |c1| > 0 {
      assert c1 + c2 == [c1[0]] + (c1[1..] + c2);
      assert c1 == [c1[0]] + c1[1..];
      MessagesCons(c1[0], c1[1..] + c2);
      MessagesCons(c1[0], c1[1..]);
      MessagesAppend(c1[1..], c2);
    } else {
      assert c1 + c2 == c2;
    }
  }

  /** The names a rule's `ctx.attr` calls write: those called with a truthy value. */
  function Written(calls: seq<CtxCall>): set<string> {
    set i | 0 <= i < |calls| && calls[i].Attr? && Truthy(calls[i].value) :: calls[i].name
  }

  /** The target after a rule's `ctx.attr` calls: the written names are added or replaced
      and hold truthy values; every other property is left as it was. */
  function ApplyWrites(target: map<string, Value>, calls: seq<CtxCall>): (after: map<string, Value>)
    ensures forall k :: k in after <==> k in target || k in Written(calls)
    ensures forall k :: k in target && k !in Written(calls) ==> after[k] == target[k]
    ensures forall k :: k in Written(calls) ==> Truthy(after[k])
    decreases |calls|
  {
    if |calls| == 0 then target
    else
      var c := calls[0];
      var next := if c.Attr? && Truthy(c.value) then target[c.name := c.value] else target;
      assert forall k :: k in Written(calls) <==> k in Written(calls[1..]) || (c.Attr? && Truthy(c.value) && k == c.name) by {
        forall k ensures k in Written(calls) ==> k in Written(calls[1..]) || (c.Attr? && Truthy(c.value) && k == c.name) {
          if k in Written(calls) {
            var i :| 0 <= i < |calls| && calls[i].Attr? && Truthy(calls[i].value) && calls[i].name == k;
            if i > 0 { assert calls[1..][i - 1] == calls[i]; }
          }
        }
        forall k | k in Written(calls[1..]) ensures k in Written(calls) {
          var i :| 0 <= i < |calls[1..]| && calls[1..][i].Attr? && Truthy(calls[1..][i].value) && calls[1..][i].name == k;
          assert calls[i + 1] == calls[1..][i];
        }
      }
      ApplyWrites(next, calls[1..])
  }

  /** `execRule_`: resolve the attribute's value from the current target, then dispatch on
      the shape of the rule. */
  function ExecRule(lib: Library, target: map<string, Value>, attr: string, rule: Rule): (st: Step)
    // a validator descriptor never writes the target and collects at most one message
    ensures rule.Descriptor? ==> st.target == target && |st.messages| <= 1
    // an unknown validator name is a hard failure, checked before allowEmpty
    ensures rule.Descriptor? && rule.validator != "" && rule.validator !in lib.known ==>
              st.failure == Some(ValidatorNotFound(rule.validator))
    // allowEmpty with a falsy value: no message and no failure
    ensures rule.Descriptor? && rule.validator != "" && rule.validator in lib.known && rule.allowEmpty && !Truthy(Resolve(target, attr)) ==>
              st == Step([], target, None)
    // a function whose arity is neither 2 nor 3, and any other shape, are hard failures
    ensures rule.Function? && rule.arity != 2 && rule.arity != 3 ==> st == Step([], target, Some(InvalidFunction(attr)))
    ensures (rule.Other? || (rule.Descriptor? && rule.validator == "")) ==> st == Step([], target, Some(InvalidRule(attr)))
    // only a truthy settle value makes a user rule fail
    ensures st.failure.Some? && st.failure.value.RuleFailed? ==> rule.Function? && Truthy(st.failure.value.reason)
    // every property of the target survives the step
    ensures target.Keys <= st.target.Keys
  {
    var value := Resolve(target, attr);
    match rule
    case Descriptor(name, args, message, allowEmpty) =>
      if name == "" then Step([], target, Some(InvalidRule(attr)))
      else if name !in lib.known then Step([], target, Some(ValidatorNotFound(name)))
      else if allowEmpty && !Truthy(value) then Step([], target, None)
      else
        (match lib.check(name, value, args)
         case Valid => Step([], target, None)
         case ValidatorError(d) => Step([if message != "" then message else d], target, None)
         case Threw(e) => Step([], target, Some(ValidatorThrew(e))))
    case Function(arity, body) =>
      if arity == 2 || arity == 3 then
        var b := body(value, target);
        Step(Messages(b.calls), ApplyWrites(target, b.calls),
             if Truthy(b.settled) then Some(RuleFailed(b.settled)) else None)
      else Step([], target, Some(InvalidFunction(attr)))
    case Other => Step([], target, Some(InvalidRule(attr)))
  }

  /** A descriptor whose check runs: a failed check appends the descriptor's message, or
      the validator's own message when the descriptor has none; any other exception of the
      check is a hard failure; a passing check adds nothing. */
  lemma DescriptorCheckOutcome(lib: Library, target: map<string, Value>, attr: string,
                               name: string, args: seq<Value>, message: string, allowEmpty: bool)
    requires name != "" && name in lib.known
    requires !allowEmpty || Truthy(Resolve(target, attr))
    ensures var st := ExecRule(lib, target, attr, Descriptor(name, args, message, allowEmpty));
            var c := lib.check(name, Resolve(target, attr), args);
            && (st.messages != [] <==> c.ValidatorError?)
            && (c.ValidatorError? ==> st.messages == [if message != "" then message else c.defaultMessage])
            && (st.failure.Some? <==> c.Threw?)
            && (c.Threw? ==> st.failure == Some(ValidatorThrew(c.error)))
  {
  }

  /** A user function collects exactly its `addError` messages, in call order, whatever it
      writes, and it is called with the attribute's value re-resolved from the target it
      is given. */
  lemma {:induction false} FunctionStep(lib: Library, target: map<string, Value>, attr: string, arity: int,
                                        body: (Value, map<string, Value>) -> Behaviour)
    requires arity == 2 || arity == 3
    ensures var b := body(Resolve(target, attr), target);
            var st := ExecRule(lib, target, attr, Function(arity, body));
            && st.messages == Messages(b.calls)
            && st.target == ApplyWrites(target, b.calls)
            && (st.failure.None? <==> !Truthy(b.settled))
  {
  }

  /** Call `i` is a truthy `ctx.attr` write, and no later call writes the same name with a
      truthy value. */
  predicate FinalWriteAt(calls: seq<CtxCall>, i: int) {
    && 0 <= i < |calls|
    && calls[i].Attr? && Truthy(calls[i].value)
    && forall j :: i < j < |calls| && calls[j].Attr? && Truthy(calls[j].value) ==> calls[j].name != calls[i].name
  }

  /** `ctx.attr(name, value)` stores `value`: after a rule's calls, a name holds the value of
      its last truthy write. */
  lemma {:induction false} FinalWriteIsKept(target: map<string, Value>, calls: seq<CtxCall>, i: int)
    requires FinalWriteAt(calls, i)
    ensures ApplyWrites(target, calls)[calls[i].name] == calls[i].value
    decreases |calls|
  {
    var c := calls[0];
    var next := if c.Attr? && Truthy(c.value) then target[c.name := c.value] else target;
    assert ApplyWrites(target, calls) == ApplyWrites(next, calls[1..]);
    if i == 0 {
      forall j | 0 <= j < |calls[1..]| && calls[1..][j].Attr? && Truthy(calls[1..][j].value)
        ensures calls[1..][j].name != c.name
      {
        assert calls[1..][j] == calls[j + 1];
      }
      assert c.name !in Written(calls[1..]);
    } else {
      assert calls[1..][i - 1] == calls[i];
      assert FinalWriteAt(calls[1..], i - 1) by {
        forall j | i - 1 < j < |calls[1..]| && calls[1..][j].Attr? && Truthy(calls[1..][j].value)
          ensures calls[1..][j].name != calls[i].name
        {
          assert calls[1..][j] == calls[j + 1];
        }
      }
      FinalWriteIsKept(next, calls[1..], i - 1);
    }
  }

  /** A `ctx.attr` write with a truthy value is what later reads of that name see: when no
      later call of the rule writes `name` with a truthy value, resolving `name` on the
      target after the step gives the written value. */
  lemma WriteIsVisible(target: map<string, Value>, calls: seq<CtxCall>, i: int, name: string, v: Value)
    requires FinalWriteAt(calls, i) && calls[i] == Attr(name, v)
    ensures Resolve(ApplyWrites(target, calls), name) == v
  {
    FinalWriteIsKept(target, calls, i);
    assert name in Written(calls);
  }
}
