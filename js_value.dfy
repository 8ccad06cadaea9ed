/** JavaScript values as the validation engine sees them, and the string splitting
    that attribute paths rely on. */
module JsValue {

  datatype Option<T> = None | Some(value: T)

  /** A JavaScript value. Objects are string-keyed records of their own properties;
      numbers are integers (floating point and NaN are not modelled). */
  datatype Value =
    | Obj(props: map<string, Value>)
    | Str(s: string)
    | Num(n: int)
    | Bool(b: bool)
    | Null
    | Undefined

  /** JavaScript truthiness: "", 0, false, null and undefined are falsy, every object is truthy. */
  predicate Truthy(v: Value) {
    match v
    case Obj(_) => true
    case Str(s) => s != ""
    case Num(n) => n != 0
    case Bool(b) => b
    case Null => false
    case Undefined => false
  }

  /** Property access `v[key]` on a truthy value; an absent key reads as undefined. */
  function Member(v: Value, key: string): Value {
    if v.Obj? && key in v.props then v.props[key] else Undefined
  }

  /** `s.split(sep)` for a one-character separator: always at least one part, and no part
      contains the separator. */
  function Split(s: string, sep: char): (parts: seq<string>)
    ensures |parts| >= 1
    ensures forall i :: 0 <= i < |parts| ==> sep !in parts[i]
    decreases |s|
  {
    if |s| == 0 then [""]
    else
      var rest := Split(s[1..], sep);
      if s[0] == sep then [""] + rest
      else [[s[0]] + rest[0]] + rest[1..]
  }

  /** `parts.join(sep)`. */
  function Join(parts: seq<string>, sep: char): string
    decreases |parts|
  {
    if |parts| == 0 then ""
    else if |parts| == 1 then parts[0]
    else parts[0] + [sep] + Join(parts[1..], sep)
  }

  /** Joining the parts of a split gives back the string. */
  lemma {:induction false} JoinSplit(s: string, sep: char)
    ensures Join(Split(s, sep), sep) == s
    decreases |s|
  {
    if |s| > 0 {
      var rest := Split(s[1..], sep);
      JoinSplit(s[1..], sep);
      if s[0] == sep {
        assert Join([""] + rest, sep) == "" + [sep] + Join(rest, sep);
      } else if |rest| == 1 {
        assert Join(rest, sep) == rest[0];
      } else {
        var parts := [[s[0]] + rest[0]] + rest[1..];
        assert parts[1..] == rest[1..];
        assert Join(rest, sep) == rest[0] + [sep] + Join(rest[1..], sep);
        assert Join(parts, sep) == [s[0]] + rest[0] + [sep] + Join(rest[1..], sep);
      }
    }
  }

  /** Joining parts whose first one is empty puts the separator first. */
  lemma JoinEmptyHead(parts: seq<string>, sep: char)
    requires |parts| > 1 && parts[0] == ""
    ensures Join(parts, sep) == [sep] + Join(parts[1..], sep)
  {
    assert Join(parts, sep) == "" + [sep] + Join(parts[1..], sep);
  }

  /** Joining parts whose first one is non-empty starts with that part's first character,
      followed by the join with that character dropped. */
  lemma JoinHeadChar(parts: seq<string>, sep: char)
    requires |parts| >= 1 && |parts[0]| > 0
    ensures Join(parts, sep) == [parts[0][0]] + Join([parts[0][1..]] + parts[1..], sep)
  {
    var head := parts[0];
    var shorter := [head[1..]] + parts[1..];
    assert shorter[0] == head[1..];
    assert head == [head[0]] + head[1..];
    if |parts| > 1 {
      assert shorter[1..] == parts[1..];
    }
  }

  /** Splitting the join of separator-free parts gives back the parts. */
  lemma {:induction false} SplitJoin(parts: seq<string>, sep: char)
    requires |parts| >= 1
    requires forall i :: 0 <= i < |parts| ==> sep !in parts[i]
    ensures Split(Join(parts, sep), sep) == parts
    decreases |parts|, |parts[0]|
  {
    var head := parts[0];
    var s := Join(parts, sep);
    if |head| == 0 {
      if |parts| > 1 {
        var tail := parts[1..];
        SplitJoin(tail, sep);
        JoinEmptyHead(parts, sep);
        assert s[1..] == Join(tail, sep);
        assert parts == [""] + tail;
      }
    } else {
      var shorter := [head[1..]] + parts[1..];
      assert forall i :: 0 < i < |shorter| ==> shorter[i] == parts[i];
      assert sep !in head[1..] by { assert forall k :: 0 <= k < |head[1..]| ==> head[1..][k] == head[k + 1]; }
      SplitJoin(shorter, sep);
      JoinHeadChar(parts, sep);
      assert s[1..] == Join(shorter, sep);
      assert s[0] != sep;
      assert [s[0]] + shorter[0] == head;
      assert parts == [head] + shorter[1..];
    }
  }

  /** A string splits into more than one part exactly when it contains the separator. */
  lemma {:induction false} SplitIsSingleIff(s: string, sep: char)
    ensures |Split(s, sep)| == 1 <==> sep !in s
    decreases |s|
  {
    if |s| > 0 {
      SplitIsSingleIff(s[1..], sep);
      assert s == [s[0]] + s[1..];
      assert sep in s <==> s[0] == sep || sep in s[1..];
    }
  }
}
