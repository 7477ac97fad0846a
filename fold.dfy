/**
 * The relational fold every with-relations read runs after its join: LINQ's
 * `GroupBy(key)` (groups in first-seen key order, each group's elements in
 * input order), `Select` over the groups, `SelectMany` to concatenate child
 * lists, and `GroupBy(id).Select(g => g.First())` to drop duplicate children.
 *
 * `GroupBy` is written the way LINQ builds its lookup: one pass over the
 * input, appending each element to the group of its key or opening a new group
 * at the end. It is proved equal to a reference definition made of `Keys`
 * (distinct keys in first-seen order) and `Matching` (the elements with one
 * key, in input order).
 */
module Fold {
  import opened Common

  /** One group of `GroupBy`: the key and the elements that carry it. */
  datatype Grouping<T> = Grouping(key: int, items: seq<T>)

  /** `Select`: applies `f` to every element, keeping order and length. */
  function Map<T, U>(xs: seq<T>, f: T -> U): (ys: seq<U>)
    ensures |ys| == |xs|
    ensures forall i :: 0 <= i < |xs| ==> ys[i] == f(xs[i])
  {
    seq(|xs|, i requires 0 <= i < |xs| => f(xs[i]))
  }

  /** `SelectMany`: the concatenation of every element's child list, in order. */
  function SelectMany<T, C>(xs: seq<T>, kids: T -> seq<C>): seq<C>
  {
    if xs == [] then [] else SelectMany(xs[..|xs| - 1], kids) + kids(xs[|xs| - 1])
  }

  // ---------------------------------------------------------------------------
  // Reference definitions

  /** The distinct keys of `xs`, each once, in the order they are first seen. */
  function Keys<T>(xs: seq<T>, key: T -> int): (ks: seq<int>)
    ensures forall i, j :: 0 <= i < j < |ks| ==> ks[i] != ks[j]
    ensures forall k :: k in ks <==> exists i :: 0 <= i < |xs| && key(xs[i]) == k
  {
    if xs == [] then []
    else
      var p := xs[..|xs| - 1];
      var ks := Keys(p, key);
      var k := key(xs[|xs| - 1]);
      assert forall i :: 0 <= i < |p| ==> xs[i] == p[i];
      if k in ks then ks else ks + [k]
  }

  /** The elements of `xs` whose key is `k`, in input order. */
  function Matching<T>(xs: seq<T>, key: T -> int, k: int): (ys: seq<T>)
    ensures |ys| <= |xs|
    ensures forall i :: 0 <= i < |ys| ==> ys[i] in xs && key(ys[i]) == k
    ensures ys == [] <==> forall i :: 0 <= i < |xs| ==> key(xs[i]) != k
  {
    if xs == [] then []
    else
      var p := xs[..|xs| - 1];
      assert forall i :: 0 <= i < |p| ==> p[i] == xs[i];
      Matching(p, key, k) + (if key(xs[|xs| - 1]) == k then [xs[|xs| - 1]] else [])
  }

  /** The index of the first element of `xs` whose key is `k`, or -1. */
  function IndexOfKey<T>(xs: seq<T>, key: T -> int, k: int): (i: int)
    ensures -1 <= i < |xs|
    ensures 0 <= i ==> key(xs[i]) == k && forall j :: 0 <= j < i ==> key(xs[j]) != k
    ensures i == -1 ==> forall j :: 0 <= j < |xs| ==> key(xs[j]) != k
  {
    if xs == [] then -1
    else
      var p := xs[..|xs| - 1];
      var i := IndexOfKey(p, key, k);
      if 0 <= i then i
      else if key(xs[|xs| - 1]) == k then |xs| - 1
      else -1
  }

  // ---------------------------------------------------------------------------
  // LINQ's one-pass grouping

  /** Appends `x` to the group of its key, or opens a new group at the end. */
  function AddToGroup<T>(gs: seq<Grouping<T>>, x: T, key: T -> int): (r: seq<Grouping<T>>)
    ensures (forall i :: 0 <= i < |gs| ==> |gs[i].items| > 0) ==>
              forall i :: 0 <= i < |r| ==> |r[i].items| > 0
  {
    if gs == [] then [Grouping(key(x), [x])]
    else if gs[0].key == key(x) then [Grouping(gs[0].key, gs[0].items + [x])] + gs[1..]
    else [gs[0]] + AddToGroup(gs[1..], x, key)
  }

  /** `GroupBy(key)`: one pass over `xs`, building groups in first-seen order. */
  function GroupBy<T>(xs: seq<T>, key: T -> int): (gs: seq<Grouping<T>>)
    ensures forall i :: 0 <= i < |gs| ==> |gs[i].items| > 0
  {
    if xs == [] then [] else AddToGroup(GroupBy(xs[..|xs| - 1], key), xs[|xs| - 1], key)
  }

  /**
   * `GroupBy(key).Select(g => merge(g.First(), g))`: one output per group, built
   * from the group's first element and all of its elements.
   */
  function FoldGroups<T, U>(xs: seq<T>, key: T -> int, merge: (T, seq<T>) -> U): (ys: seq<U>)
  {
    var gs := GroupBy(xs, key);
    seq(|gs|, i requires 0 <= i < |gs| => merge(gs[i].items[0], gs[i].items))
  }

  /** `GroupBy(key).Select(g => g.First())`: the first element of every key. */
  function DistinctBy<T>(xs: seq<T>, key: T -> int): (ys: seq<T>)
  {
    var gs := GroupBy(xs, key);
    seq(|gs|, i requires 0 <= i < |gs| => gs[i].items[0])
  }

  // ---------------------------------------------------------------------------
  // GroupBy agrees with the reference definitions

  lemma {:induction false} AddToGroupExisting<T>(gs: seq<Grouping<T>>, x: T, key: T -> int, j: int)
    requires 0 <= j < |gs| && gs[j].key == key(x)
    requires forall i :: 0 <= i < j ==> gs[i].key != key(x)
    ensures AddToGroup(gs, x, key) == gs[j := Grouping(gs[j].key, gs[j].items + [x])]
  {
    if j > 0 {
      AddToGroupExisting(gs[1..], x, key, j - 1);
    }
  }

  lemma {:induction false} AddToGroupNew<T>(gs: seq<Grouping<T>>, x: T, key: T -> int)
    requires forall i :: 0 <= i < |gs| ==> gs[i].key != key(x)
    ensures AddToGroup(gs, x, key) == gs + [Grouping(key(x), [x])]
  {
    if gs != [] {
      AddToGroupNew(gs[1..], x, key);
    }
  }

  /** No element carries a key that `Keys` does not list. */
  lemma MatchingOfAbsentKey<T>(xs: seq<T>, key: T -> int, k: int)
    requires k !in Keys(xs, key)
    ensures Matching(xs, key, k) == []
  {
  }

  /**
   * The one-pass grouping yields one group per distinct key, in first-seen
   * order, and the group of a key holds exactly the elements with that key,
   * in input order.
   */
  lemma {:induction false} GroupByIsKeyedMatching<T>(xs: seq<T>, key: T -> int)
    ensures |GroupBy(xs, key)| == |Keys(xs, key)|
    ensures forall i :: 0 <= i < |Keys(xs, key)| ==>
              GroupBy(xs, key)[i] == Grouping(Keys(xs, key)[i], Matching(xs, key, Keys(xs, key)[i]))
  {
    if xs != [] {
      var p, x := xs[..|xs| - 1], xs[|xs| - 1];
      GroupByIsKeyedMatching(p, key);
      var ks, gs := Keys(p, key), GroupBy(p, key);
      assert GroupBy(xs, key) == AddToGroup(gs, x, key);
      if key(x) in ks {
        var j :| 0 <= j < |ks| && ks[j] == key(x);
        AddToGroupExisting(gs, x, key, j);
        assert Keys(xs, key) == ks;
        forall i | 0 <= i < |ks|
          ensures GroupBy(xs, key)[i] == Grouping(ks[i], Matching(xs, key, ks[i]))
        {
          assert Matching(xs, key, ks[i]) == Matching(p, key, ks[i]) + (if key(x) == ks[i] then [x] else []);
        }
      } else {
        AddToGroupNew(gs, x, key);
        MatchingOfAbsentKey(p, key, key(x));
        var ks' := ks + [key(x)];
        assert Keys(xs, key) == ks';
        forall i | 0 <= i < |ks'|
          ensures GroupBy(xs, key)[i] == Grouping(ks'[i], Matching(xs, key, ks'[i]))
        {
          assert Matching(xs, key, ks'[i]) == Matching(p, key, ks'[i]) + (if key(x) == ks'[i] then [x] else []);
        }
      }
    }
  }

  // ---------------------------------------------------------------------------
  // Properties of the reference definitions

  /** A key is listed exactly when some element carries it. */
  lemma KeyListedIffIndexed<T>(xs: seq<T>, key: T -> int, k: int)
    ensures k in Keys(xs, key) <==> 0 <= IndexOfKey(xs, key, k)
  {
  }

  /** The elements with a key start at the first element with that key. */
  lemma {:induction false} MatchingStartsAtFirst<T>(xs: seq<T>, key: T -> int, k: int)
    requires 0 <= IndexOfKey(xs, key, k)
    ensures |Matching(xs, key, k)| > 0 && Matching(xs, key, k)[0] == xs[IndexOfKey(xs, key, k)]
  {
    var p := xs[..|xs| - 1];
    if 0 <= IndexOfKey(p, key, k) {
      MatchingStartsAtFirst(p, key, k);
    }
  }

  /** `Keys` lists keys in the order of their first occurrence. */
  lemma {:induction false} KeysInFirstSeenOrder<T>(xs: seq<T>, key: T -> int)
    ensures forall a, b :: 0 <= a < b < |Keys(xs, key)| ==>
              0 <= IndexOfKey(xs, key, Keys(xs, key)[a]) < IndexOfKey(xs, key, Keys(xs, key)[b])
  {
    if xs != [] {
      var p, x := xs[..|xs| - 1], xs[|xs| - 1];
      KeysInFirstSeenOrder(p, key);
      var ks := Keys(p, key);
      forall a | 0 <= a < |ks|
        ensures 0 <= IndexOfKey(p, key, ks[a]) && IndexOfKey(xs, key, ks[a]) == IndexOfKey(p, key, ks[a])
      {
        KeyListedIffIndexed(p, key, ks[a]);
      }
      if key(x) in ks {
        assert Keys(xs, key) == ks;
        forall a, b | 0 <= a < b < |ks|
          ensures 0 <= IndexOfKey(xs, key, ks[a]) < IndexOfKey(xs, key, ks[b])
        {
          assert IndexOfKey(p, key, ks[a]) < IndexOfKey(p, key, ks[b]);
        }
      } else {
        var ks' := ks + [key(x)];
        assert Keys(xs, key) == ks';
        KeyListedIffIndexed(p, key, key(x));
        assert IndexOfKey(xs, key, key(x)) == |xs| - 1;
        forall a, b | 0 <= a < b < |ks'|
          ensures 0 <= IndexOfKey(xs, key, ks'[a]) < IndexOfKey(xs, key, ks'[b])
        {
          if b < |ks| {
            assert ks'[a] == ks[a] && ks'[b] == ks[b];
          } else {
            assert ks'[a] == ks[a];
          }
        }
      }
    } else {
      assert Keys(xs, key) == [];
    }
  }

  /** When every element carries the key `k`, there is one key and one group of everything. */
  lemma OneKey<T>(xs: seq<T>, key: T -> int, k: int)
    requires xs != []
    requires forall i :: 0 <= i < |xs| ==> key(xs[i]) == k
    ensures Keys(xs, key) == [k]
    ensures Matching(xs, key, k) == xs
    ensures IndexOfKey(xs, key, k) == 0
  {
    OneKeyKeys(xs, key, k);
    OneKeyMatching(xs, key, k);
  }

  lemma {:induction false} OneKeyKeys<T>(xs: seq<T>, key: T -> int, k: int)
    requires xs != []
    requires forall i :: 0 <= i < |xs| ==> key(xs[i]) == k
    ensures Keys(xs, key) == [k]
  {
    var p := xs[..|xs| - 1];
    if p != [] {
      assert forall i :: 0 <= i < |p| ==> p[i] == xs[i];
      OneKeyKeys(p, key, k);
      assert key(xs[|xs| - 1]) in Keys(p, key);
    } else {
      assert Keys(p, key) == [];
    }
  }

  lemma {:induction false} OneKeyMatching<T>(xs: seq<T>, key: T -> int, k: int)
    requires forall i :: 0 <= i < |xs| ==> key(xs[i]) == k
    ensures Matching(xs, key, k) == xs
  {
    if xs != [] {
      var p, x := xs[..|xs| - 1], xs[|xs| - 1];
      assert xs == p + [x];
      assert forall i :: 0 <= i < |p| ==> key(p[i]) == k;
      OneKeyMatching(p, key, k);
    }
  }

  /** Two elements with different keys make at least two keys. */
  lemma TwoKeys<T>(xs: seq<T>, key: T -> int, i: int, j: int)
    requires 0 <= i < |xs| && 0 <= j < |xs| && key(xs[i]) != key(xs[j])
    ensures |Keys(xs, key)| >= 2
  {
    var ks := Keys(xs, key);
    assert key(xs[i]) in ks && key(xs[j]) in ks;
    var a :| 0 <= a < |ks| && ks[a] == key(xs[i]);
    var b :| 0 <= b < |ks| && ks[b] == key(xs[j]);
    assert a != b;
  }

  // ---------------------------------------------------------------------------
  // Reading a fold over the rows of a query

  /** Matching commutes with a per-row mapping that keeps the key. */
  lemma {:induction false} MatchingOfMap<R, T>(rows: seq<R>, f: R -> T, key: T -> int, rkey: R -> int, k: int)
    requires forall r :: key(f(r)) == rkey(r)
    ensures Matching(Map(rows, f), key, k) == Map(Matching(rows, rkey, k), f)
  {
    if rows != [] {
      var p := rows[..|rows| - 1];
      assert Map(rows, f)[..|rows| - 1] == Map(p, f);
      MatchingOfMap(p, f, key, rkey, k);
    }
  }

  /** Keys and first indices are unchanged by a per-row mapping that keeps the key. */
  lemma {:induction false} KeysOfMap<R, T>(rows: seq<R>, f: R -> T, key: T -> int, rkey: R -> int)
    requires forall r :: key(f(r)) == rkey(r)
    ensures Keys(Map(rows, f), key) == Keys(rows, rkey)
    ensures forall k :: IndexOfKey(Map(rows, f), key, k) == IndexOfKey(rows, rkey, k)
  {
    if rows != [] {
      var p := rows[..|rows| - 1];
      assert Map(rows, f)[..|rows| - 1] == Map(p, f);
      KeysOfMap(p, f, key, rkey);
    }
  }

  /** When every mapped row contributes exactly one child, `SelectMany` lists one child per row. */
  lemma {:induction false} SelectManyOfSingletons<R, T, C>(rows: seq<R>, f: R -> T, kids: T -> seq<C>, child: R -> C)
    requires forall r :: kids(f(r)) == [child(r)]
    ensures SelectMany(Map(rows, f), kids) == Map(rows, child)
  {
    if rows != [] {
      var p := rows[..|rows| - 1];
      assert Map(rows, f)[..|rows| - 1] == Map(p, f);
      assert Map(rows, child) == Map(p, child) + [child(rows[|rows| - 1])];
      SelectManyOfSingletons(p, f, kids, child);
    }
  }

  /**
   * The fold of the mapped rows of a query: one output per distinct row key,
   * in first-seen order, each merged from the mapped first row with that key
   * and the mapped rows with that key in row order.
   */
  lemma FoldOfRows<R, T, U>(rows: seq<R>, f: R -> T, key: T -> int, rkey: R -> int, merge: (T, seq<T>) -> U)
    requires forall r :: key(f(r)) == rkey(r)
    ensures |FoldGroups(Map(rows, f), key, merge)| == |Keys(rows, rkey)|
    ensures forall i :: 0 <= i < |Keys(rows, rkey)| ==>
              0 <= IndexOfKey(rows, rkey, Keys(rows, rkey)[i]) &&
              FoldGroups(Map(rows, f), key, merge)[i] ==
                merge(f(rows[IndexOfKey(rows, rkey, Keys(rows, rkey)[i])]),
                      Map(Matching(rows, rkey, Keys(rows, rkey)[i]), f))
  {
    var xs := Map(rows, f);
    GroupByIsKeyedMatching(xs, key);
    KeysOfMap(rows, f, key, rkey);
    var ks := Keys(rows, rkey);
    forall i | 0 <= i < |ks|
      ensures 0 <= IndexOfKey(rows, rkey, ks[i])
      ensures FoldGroups(xs, key, merge)[i] ==
                merge(f(rows[IndexOfKey(rows, rkey, ks[i])]), Map(Matching(rows, rkey, ks[i]), f))
    {
      KeyListedIffIndexed(rows, rkey, ks[i]);
      KeyListedIffIndexed(xs, key, ks[i]);
      MatchingStartsAtFirst(xs, key, ks[i]);
      MatchingOfMap(rows, f, key, rkey, ks[i]);
    }
  }

  /**
   * Dropping duplicates by id keeps one element per distinct id, in
   * first-seen order, and the one it keeps is the first with that id.
   */
  lemma DistinctByKeepsFirsts<T>(xs: seq<T>, key: T -> int)
    ensures |DistinctBy(xs, key)| == |Keys(xs, key)| <= |xs|
    ensures forall i :: 0 <= i < |Keys(xs, key)| ==>
              0 <= IndexOfKey(xs, key, Keys(xs, key)[i]) &&
              DistinctBy(xs, key)[i] == xs[IndexOfKey(xs, key, Keys(xs, key)[i])]
  {
    var ys, ks := DistinctBy(xs, key), Keys(xs, key);
    GroupByIsKeyedMatching(xs, key);
    forall i | 0 <= i < |ks|
      ensures 0 <= IndexOfKey(xs, key, ks[i]) && ys[i] == xs[IndexOfKey(xs, key, ks[i])]
    {
      KeyListedIffIndexed(xs, key, ks[i]);
      MatchingStartsAtFirst(xs, key, ks[i]);
    }
    KeysNoMoreThanElements(xs, key);
  }

  /**
   * After dropping duplicates by id the kept ids are pairwise distinct, every
   * id of the input is still present, and a non-empty input stays non-empty.
   */
  lemma DistinctByIdsUnique<T>(xs: seq<T>, key: T -> int)
    ensures forall i, j :: 0 <= i < j < |DistinctBy(xs, key)| ==>
              key(DistinctBy(xs, key)[i]) != key(DistinctBy(xs, key)[j])
    ensures forall i :: 0 <= i < |xs| ==>
              exists j :: 0 <= j < |DistinctBy(xs, key)| && key(DistinctBy(xs, key)[j]) == key(xs[i])
    ensures forall j :: 0 <= j < |DistinctBy(xs, key)| ==> DistinctBy(xs, key)[j] in xs
    ensures xs != [] ==> DistinctBy(xs, key) != []
  {
    var ys, ks := DistinctBy(xs, key), Keys(xs, key);
    DistinctByKeepsFirsts(xs, key);
    assert forall j :: 0 <= j < |ys| ==> key(ys[j]) == ks[j];
    forall i | 0 <= i < |xs|
      ensures exists j :: 0 <= j < |ys| && key(ys[j]) == key(xs[i])
    {
      assert key(xs[i]) in ks;
      var j :| 0 <= j < |ks| && ks[j] == key(xs[i]);
      assert key(ys[j]) == key(xs[i]);
    }
    if xs != [] {
      assert key(xs[0]) in ks;
    }
  }

  lemma {:induction false} KeysNoMoreThanElements<T>(xs: seq<T>, key: T -> int)
    ensures |Keys(xs, key)| <= |xs|
  {
    if xs != [] {
      KeysNoMoreThanElements(xs[..|xs| - 1], key);
    }
  }

  // ---------------------------------------------------------------------------
  // Single-parent reads: `...Select(...).SingleOrDefault()`

  /** Every row carries the same key (and there is at least one row). */
  ghost predicate SingleKeyed<T>(xs: seq<T>, key: T -> int)
  {
    xs != [] && forall i :: 0 <= i < |xs| ==> key(xs[i]) == key(xs[0])
  }

  /** Two rows carry different keys. */
  ghost predicate MixedKeys<T>(xs: seq<T>, key: T -> int)
  {
    exists i, j :: 0 <= i < |xs| && 0 <= j < |xs| && key(xs[i]) != key(xs[j])
  }

  /** Rows are either none, or all of one key, or of two keys at least. */
  lemma KeysTrichotomy<T>(xs: seq<T>, key: T -> int)
    ensures xs == [] || SingleKeyed(xs, key) || MixedKeys(xs, key)
  {
    if xs != [] && !SingleKeyed(xs, key) {
      var i :| 0 <= i < |xs| && key(xs[i]) != key(xs[0]);
      assert key(xs[i]) != key(xs[0]);
    }
  }

  /**
   * A fold read with `SingleOrDefault`: null for no rows, the one group
   * merged from the first row and all rows when every row has the same key,
   * and an exception when the rows carry two keys.
   */
  lemma SingleOrDefaultOfFold<R, T, U>(rows: seq<R>, f: R -> T, key: T -> int, rkey: R -> int, merge: (T, seq<T>) -> U)
    requires forall r :: key(f(r)) == rkey(r)
    ensures SingleOrDefault(FoldGroups(Map(rows, f), key, merge)).Null? <==> rows == []
    ensures SingleKeyed(rows, rkey) ==>
              SingleOrDefault(FoldGroups(Map(rows, f), key, merge)) == Found(merge(f(rows[0]), Map(rows, f)))
    ensures MixedKeys(rows, rkey) ==> SingleOrDefault(FoldGroups(Map(rows, f), key, merge)).Throws?
    ensures SingleOrDefault(FoldGroups(Map(rows, f), key, merge)).Found? ==> SingleKeyed(rows, rkey)
  {
    FoldOfRows(rows, f, key, rkey, merge);
    if rows == [] {
      assert Keys(rows, rkey) == [];
    } else if SingleKeyed(rows, rkey) {
      OneKey(rows, rkey, rkey(rows[0]));
    } else {
      assert rkey(rows[0]) in Keys(rows, rkey);
      var i :| 0 <= i < |rows| && rkey(rows[i]) != rkey(rows[0]);
      TwoKeys(rows, rkey, i, 0);
    }
  }

  /** Dropping duplicates from rows that all carry one key leaves the first row alone. */
  lemma DistinctByOfSingleKeyed<T>(xs: seq<T>, key: T -> int)
    requires SingleKeyed(xs, key)
    ensures DistinctBy(xs, key) == [xs[0]]
  {
    OneKey(xs, key, key(xs[0]));
    DistinctByKeepsFirsts(xs, key);
  }

  /** The first element survives duplicate removal, at the front. */
  lemma DistinctByHead<T>(xs: seq<T>, key: T -> int)
    requires xs != []
    ensures DistinctBy(xs, key) != [] && DistinctBy(xs, key)[0] == xs[0]
  {
    var ks := Keys(xs, key);
    DistinctByKeepsFirsts(xs, key);
    KeysInFirstSeenOrder(xs, key);
    assert key(xs[0]) in ks;
    var a :| 0 <= a < |ks| && ks[a] == key(xs[0]);
    assert IndexOfKey(xs, key, key(xs[0])) == 0;
  }

  /**
   * When no two elements share a key, every element is a group of its own:
   * the keys are the elements' keys in order and each element is found alone.
   */
  lemma {:induction false} UniqueKeys<T>(xs: seq<T>, key: T -> int)
    requires forall i, j :: 0 <= i < j < |xs| ==> key(xs[i]) != key(xs[j])
    ensures |Keys(xs, key)| == |xs|
    ensures forall i :: 0 <= i < |xs| ==>
              Keys(xs, key)[i] == key(xs[i]) && IndexOfKey(xs, key, key(xs[i])) == i &&
              Matching(xs, key, key(xs[i])) == [xs[i]]
  {
    if xs != [] {
      var p, x := xs[..|xs| - 1], xs[|xs| - 1];
      assert forall i :: 0 <= i < |p| ==> p[i] == xs[i];
      UniqueKeys(p, key);
      assert key(x) !in Keys(p, key);
      assert Keys(xs, key) == Keys(p, key) + [key(x)];
      forall i | 0 <= i < |xs|
        ensures IndexOfKey(xs, key, key(xs[i])) == i
      {
        var j := IndexOfKey(xs, key, key(xs[i]));
        assert 0 <= j && key(xs[j]) == key(xs[i]);
      }
      forall i | 0 <= i < |xs|
        ensures Matching(xs, key, key(xs[i])) == [xs[i]]
      {
        if i < |p| {
          assert Matching(xs, key, key(xs[i])) == Matching(p, key, key(p[i]));
        } else {
          assert Matching(p, key, key(x)) == [];
        }
      }
    }
  }
}
