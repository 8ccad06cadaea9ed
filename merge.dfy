/** Merging the per-group error maps into one result (`getResult_` in lib/evalidator.js). */
module Merging {
  import opened Group
  import opened Results

  /** One group map folded into the accumulated one: each attribute's list gets the group's
      list appended. */
  function MergeInto(acc: ErrorMap, m: ErrorMap): ErrorMap {
    map a | a in acc.Keys + m.Keys :: Prior(acc, a) + Prior(m, a)
  }

  /** Folding in an empty map changes nothing. */
  lemma MergeIntoEmpty(acc: ErrorMap)
    ensures MergeInto(acc, map[]) == acc
  {
    assert forall a :: a in acc ==> Prior(acc, a) + Prior(map[], a) == acc[a];
  }

  /** The part of `m` whose keys are in `keys`. */
  function Restrict(m: ErrorMap, keys: set<string>): ErrorMap {
    map a | a in keys && a in m :: m[a]
  }

  /** Folding in one more attribute of a map appends its list to that attribute only. */
  lemma MergeIntoStep(acc: ErrorMap, m: ErrorMap, visited: set<string>, a: string)
    requires a in m && a !in visited
    ensures var before := MergeInto(acc, Restrict(m, visited));
            MergeInto(acc, Restrict(m, visited + {a})) == before[a := Prior(before, a) + m[a]]
  {
    var before := MergeInto(acc, Restrict(m, visited));
    var after := MergeInto(acc, Restrict(m, visited + {a}));
    assert Prior(before, a) == Prior(acc, a);
    assert after.Keys == before.Keys + {a};
    forall b | b in after ensures after[b] == before[a := Prior(before, a) + m[a]][b] {
      if b != a {
        assert Prior(Restrict(m, visited + {a}), b) == Prior(Restrict(m, visited), b);
      }
    }
  }

  /** The merged map: the group maps folded in, in the order of the results array. */
  function Merge(maps: seq<ErrorMap>): ErrorMap
    decreases |maps|
  {
    if |maps| == 0 then map[] else MergeInto(Merge(maps[..|maps| - 1]), maps[|maps| - 1])
  }

  /** The reference for one attribute: its lists in every group map, concatenated in group
      order. */
  function Gather(maps: seq<ErrorMap>, a: string): seq<string>
    decreases |maps|
  {
    if |maps| == 0 then [] else Gather(maps[..|maps| - 1], a) + Prior(maps[|maps| - 1], a)
  }

  /** The merged map's keys are the union of the group maps' keys; with no groups the map
      is empty. */
  lemma {:induction false} MergeKeys(maps: seq<ErrorMap>)
    ensures |maps| == 0 ==> Merge(maps) == map[]
    ensures forall a :: a in Merge(maps) <==> exists i :: 0 <= i < |maps| && a in maps[i]
    decreases |maps|
  {
    if |maps| > 0 {
      var init := maps[..|maps| - 1];
      MergeKeys(init);
      forall a ensures a in Merge(maps) <==> exists i :: 0 <= i < |maps| && a in maps[i] {
        if a in Merge(init) {
          var i :| 0 <= i < |init| && a in init[i];
          assert maps[i] == init[i];
        }
        if exists i :: 0 <= i < |maps| && a in maps[i] {
          var i :| 0 <= i < |maps| && a in maps[i];
          if i < |maps| - 1 { assert init[i] == maps[i]; }
        }
      }
    }
  }

  /** Each attribute's merged list is the concatenation of its lists across the group maps,
      in group order. */
  lemma {:induction false} MergeGathers(maps: seq<ErrorMap>)
    ensures forall a :: Prior(Merge(maps), a) == Gather(maps, a)
    decreases |maps|
  {
    if |maps| > 0 {
      MergeGathers(maps[..|maps| - 1]);
    }
  }

  /** When no group map holds an empty list, neither does the merged map, so an attribute
      is a key of it exactly when some group collected a message for it. */
  lemma {:induction false} MergeNoEmptyEntries(maps: seq<ErrorMap>)
    requires forall i :: 0 <= i < |maps| ==> NoEmptyEntries(maps[i])
    ensures NoEmptyEntries(Merge(maps))
    decreases |maps|
  {
    if |maps| > 0 {
      MergeNoEmptyEntries(maps[..|maps| - 1]);
    }
  }

  /** The result built from group maps without empty lists: each attribute's list is its
      lists in every group in group order, an attribute is a key exactly when some group
      collected a message for it, no list is empty, and `hasError()` is true exactly when
      some group map is non-empty. */
  lemma MergedResult(maps: seq<ErrorMap>)
    requires forall i :: 0 <= i < |maps| ==> NoEmptyEntries(maps[i])
    ensures var r := Result(Merge(maps));
            && NoEmptyEntries(r.results)
            && (forall a :: Prior(r.results, a) == Gather(maps, a))
            && (forall a :: a in r.results <==> exists i :: 0 <= i < |maps| && a in maps[i])
            && (r.HasError() <==> exists i :: 0 <= i < |maps| && maps[i] != map[])
  {
    MergeKeys(maps);
    MergeGathers(maps);
    MergeNoEmptyEntries(maps);
    var merged := Merge(maps);
    if exists i :: 0 <= i < |maps| && maps[i] != map[] {
      var i :| 0 <= i < |maps| && maps[i] != map[];
      var a :| a in maps[i];
      assert a in merged;
    }
    if Result(merged).HasError() {
      var a :| a in merged;
      var i :| 0 <= i < |maps| && a in maps[i];
      assert maps[i] != map[];
    }
  }

  /** `getResult_`: the `forEach` over the group maps with the inner `_.each` over each
      map's attributes, appending into `merged`. */
  method GetResult(maps: seq<ErrorMap>) returns (r: Result)
    ensures r == Result(Merge(maps))
  {
    var merged: ErrorMap := map[];
    var i := 0;
    while i < |maps|
      invariant 0 <= i <= |maps|
      invariant merged == Merge(maps[..i])
    {
      var m := maps[i];
      var keys := m.Keys;
      ghost var visited: set<string> := {};
      assert Restrict(m, visited) == map[];
      MergeIntoEmpty(merged);
      while keys != {}
        invariant keys + visited == m.Keys && keys !! visited
        invariant merged == MergeInto(Merge(maps[..i]), Restrict(m, visited))
        decreases keys
      {
        var a :| a in keys;
        MergeIntoStep(Merge(maps[..i]), m, visited, a);
        merged := merged[a := Prior(merged, a) + m[a]];
        keys := keys - {a};
        visited := visited + {a};
      }
      assert Restrict(m, visited) == m;
      assert maps[..i + 1][..i] == maps[..i];
      i := i + 1;
    }
    assert maps[..i] == maps;
    r := Result(merged);
  }
}
