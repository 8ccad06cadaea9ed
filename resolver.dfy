/** Attribute resolution: reading a possibly dotted attribute path from the object under
    validation (`extractValue_` in lib/evalidator.js). */
module Resolver {
  import opened JsValue

  /** The walk of the path segments: step into `v[seg]` while the current value is truthy,
      and stop at the first falsy one or when the segments run out. */
  function Walk(v: Value, segs: seq<string>): Value
    decreases |segs|
  {
    if |segs| == 0 || !Truthy(v) then v else Walk(Member(v, segs[0]), segs[1..])
  }

  /** The value of attribute `attr` on `obj`: a literal key first, otherwise the dotted path
      walked from the object, and undefined for an absent single-segment name. */
  function Resolve(obj: map<string, Value>, attr: string): (v: Value)
    ensures attr in obj ==> v == obj[attr]
    ensures attr !in obj && '.' !in attr ==> v == Undefined
    ensures attr !in obj && '.' in attr ==> v == Walk(Obj(obj), Split(attr, '.'))
  {
    SplitIsSingleIff(attr, '.');
    if attr in obj then obj[attr]
    else
      var segs := Split(attr, '.');
      if |segs| > 1 then Walk(Obj(obj), segs) else Undefined
  }

  /** `extractValue_`: the literal-key test, then the `for` loop over the segments. */
  method ExtractValue(obj: map<string, Value>, attr: string) returns (v: Value)
    ensures v == Resolve(obj, attr)
  {
    if attr in obj {
      return obj[attr];
    }
    var segments := Split(attr, '.');
    if |segments| > 1 {
      var parent := Obj(obj);
      var i := 0;
      while Truthy(parent) && i < |segments|
        invariant 0 <= i <= |segments|
        invariant Walk(parent, segments[i..]) == Walk(Obj(obj), segments)
      {
        assert segments[i..][1..] == segments[i + 1..];
        parent := Member(parent, segments[i]);
        i := i + 1;
      }
      v := parent;
    } else {
      v := Undefined;
    }
  }

  /** Walking a path is walking a prefix and then the rest from where the prefix ended. */
  lemma {:induction false} WalkSplit(v: Value, segs: seq<string>, k: nat)
    requires k <= |segs|
    ensures Walk(v, segs) == Walk(Walk(v, segs[..k]), segs[k..])
    decreases k
  {
    if k > 0 && Truthy(v) {
      assert segs[..k][1..] == segs[1..][..k - 1];
      assert segs[k..] == segs[1..][k - 1..];
      WalkSplit(Member(v, segs[0]), segs[1..], k - 1);
    } else if k > 0 {
      assert !Truthy(Walk(v, segs[k..]));
    }
  }

  /** A falsy value is a fixed point of the walk. */
  lemma {:induction false} WalkFromFalsy(v: Value, segs: seq<string>)
    requires !Truthy(v)
    ensures Walk(v, segs) == v
  {
  }

  /** The walk stops at the first falsy intermediate and returns it: if the value reached
      after `k` segments is falsy, it is the resolved value. */
  lemma StopsAtFalsyIntermediate(obj: map<string, Value>, attr: string, k: nat)
    requires attr !in obj && '.' in attr
    requires k <= |Split(attr, '.')|
    requires !Truthy(Walk(Obj(obj), Split(attr, '.')[..k]))
    ensures Resolve(obj, attr) == Walk(Obj(obj), Split(attr, '.')[..k])
  {
    var segs := Split(attr, '.');
    WalkSplit(Obj(obj), segs, k);
    WalkFromFalsy(Walk(Obj(obj), segs[..k]), segs[k..]);
  }

  /** A missing segment gives undefined: if the walk reaches an object that lacks the next
      segment, the attribute resolves to undefined. */
  lemma MissingSegmentIsUndefined(obj: map<string, Value>, attr: string, k: nat)
    requires attr !in obj && '.' in attr
    requires k < |Split(attr, '.')|
    requires Walk(Obj(obj), Split(attr, '.')[..k]).Obj?
    requires Split(attr, '.')[k] !in Walk(Obj(obj), Split(attr, '.')[..k]).props
    ensures Resolve(obj, attr) == Undefined
  {
    var segs := Split(attr, '.');
    WalkSplit(Obj(obj), segs, k);
    assert segs[k..][1..] == segs[k + 1..];
    WalkFromFalsy(Undefined, segs[k + 1..]);
  }

  /** Plain nested lookup: `Some` of the leaf when every segment names a property of an object. */
  function Lookup(v: Value, segs: seq<string>): Option<Value>
    decreases |segs|
  {
    if |segs| == 0 then Some(v)
    else if v.Obj? && segs[0] in v.props then Lookup(v.props[segs[0]], segs[1..])
    else None
  }

  /** When the dotted path exists through nested objects (and is not a literal key), the
      attribute resolves to the nested leaf. */
  lemma {:induction false} WalkFollowsLookup(v: Value, segs: seq<string>)
    requires Lookup(v, segs).Some?
    ensures Walk(v, segs) == Lookup(v, segs).value
    decreases |segs|
  {
    if |segs| > 0 {
      WalkFollowsLookup(v.props[segs[0]], segs[1..]);
    }
  }

  lemma NestedPathResolves(obj: map<string, Value>, attr: string)
    requires attr !in obj && '.' in attr
    requires Lookup(Obj(obj), Split(attr, '.')).Some?
    ensures Resolve(obj, attr) == Lookup(Obj(obj), Split(attr, '.')).value
  {
    WalkFollowsLookup(Obj(obj), Split(attr, '.'));
  }
}
