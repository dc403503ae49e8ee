/** Python's `itertools.groupby`: split a sequence into maximal runs of
    adjacent elements that share a key. */
module PyIter {

  /** One `(key, items)` pair yielded by `groupby`. */
  datatype Group<K, T> = Group(key: K, items: seq<T>)

  /** The groups' items laid end to end. */
  function Flatten<K, T>(gs: seq<Group<K, T>>): seq<T> {
    if |gs| == 0 then [] else gs[0].items + Flatten(gs[1..])
  }

  /** A non-empty run whose items all carry the group's key. */
  ghost predicate IsRun<K, T>(g: Group<K, T>, key: T -> K) {
    |g.items| > 0 && forall j :: 0 <= j < |g.items| ==> key(g.items[j]) == g.key
  }

  /** Every group is a run, and neighbouring groups have different keys (so
      every run is maximal). */
  ghost predicate WellGrouped<K, T>(gs: seq<Group<K, T>>, key: T -> K) {
    && (forall g :: 0 <= g < |gs| ==> IsRun(gs[g], key))
    && (forall g :: 0 < g < |gs| ==> gs[g - 1].key != gs[g].key)
  }

  /** `groupby(xs, key)` as the list of its `(key, items)` pairs. */
  function GroupBy<T, K(==)>(xs: seq<T>, key: T -> K): (gs: seq<Group<K, T>>)
    ensures Flatten(gs) == xs
    ensures WellGrouped(gs, key)
    ensures |xs| > 0 ==> |gs| > 0 && gs[0].key == key(xs[0])
  {
    if |xs| == 0 then []
    else
      var rest := GroupBy(xs[1..], key);
      assert xs == [xs[0]] + xs[1..];
      if |rest| > 0 && rest[0].key == key(xs[0]) then
        GroupJoin(xs[0], key, rest);
        [Group(key(xs[0]), [xs[0]] + rest[0].items)] + rest[1..]
      else
        GroupStart(xs[0], key, rest);
        [Group(key(xs[0]), [xs[0]])] + rest
  }

  /** An item whose key is the first group's joins that group. */
  lemma GroupJoin<K, T>(x: T, key: T -> K, rest: seq<Group<K, T>>)
    requires |rest| > 0 && WellGrouped(rest, key) && rest[0].key == key(x)
    ensures WellGrouped([Group(key(x), [x] + rest[0].items)] + rest[1..], key)
    ensures Flatten([Group(key(x), [x] + rest[0].items)] + rest[1..]) == [x] + Flatten(rest)
  {
    var g := Group(key(x), [x] + rest[0].items);
    var gs := [g] + rest[1..];
    FlattenJoin(x, rest);
    assert IsRun(rest[0], key);
    RunJoin(x, key, rest[0]);
    assert forall t :: 0 < t < |gs| ==> gs[t] == rest[t];
  }

  /** Prepending an item with the run's key extends the run. */
  lemma RunJoin<K, T>(x: T, key: T -> K, r: Group<K, T>)
    requires IsRun(r, key) && r.key == key(x)
    ensures IsRun(Group(r.key, [x] + r.items), key)
  {
    var items := [x] + r.items;
    forall j | 0 < j < |items|
      ensures key(items[j]) == r.key
    {
      assert items[j] == r.items[j - 1];
    }
  }

  /** Prepending an item to the first group prepends it to the flattening. */
  lemma FlattenJoin<K, T>(x: T, rest: seq<Group<K, T>>)
    requires |rest| > 0
    ensures Flatten([Group(rest[0].key, [x] + rest[0].items)] + rest[1..]) == [x] + Flatten(rest)
  {
    var g := Group(rest[0].key, [x] + rest[0].items);
    calc {
      Flatten([g] + rest[1..]);
      { FlattenCons(g, rest[1..]); }
      ([x] + rest[0].items) + Flatten(rest[1..]);
      [x] + (rest[0].items + Flatten(rest[1..]));
      { FlattenCons(rest[0], rest[1..]); assert rest == [rest[0]] + rest[1..]; }
      [x] + Flatten(rest);
    }
  }

  /** An item whose key differs from the first group's starts a new group. */
  lemma GroupStart<K, T>(x: T, key: T -> K, rest: seq<Group<K, T>>)
    requires WellGrouped(rest, key) && (|rest| > 0 ==> rest[0].key != key(x))
    ensures WellGrouped([Group(key(x), [x])] + rest, key)
    ensures Flatten([Group(key(x), [x])] + rest) == [x] + Flatten(rest)
  {
    var gs := [Group(key(x), [x])] + rest;
    FlattenCons(Group(key(x), [x]), rest);
    assert IsRun(gs[0], key);
    assert forall t :: 0 < t < |gs| ==> gs[t] == rest[t - 1];
  }

  lemma FlattenCons<K, T>(g: Group<K, T>, gs: seq<Group<K, T>>)
    ensures Flatten([g] + gs) == g.items + Flatten(gs)
  {
    assert ([g] + gs)[1..] == gs;
  }

  /** Dropping the first group keeps a split well grouped. */
  lemma WellGroupedTail<K, T>(gs: seq<Group<K, T>>, key: T -> K)
    requires |gs| > 0 && WellGrouped(gs, key)
    ensures WellGrouped(gs[1..], key)
  {
    var tail := gs[1..];
    forall t | 0 < t < |tail|
      ensures tail[t - 1].key != tail[t].key
    {
      assert tail[t - 1] == gs[t] && tail[t] == gs[t + 1];
    }
  }

  /** Dropping the first item of a first group of two or more keeps a split
      well grouped. */
  lemma WellGroupedShrink<K, T>(gs: seq<Group<K, T>>, key: T -> K)
    requires |gs| > 0 && |gs[0].items| > 1 && WellGrouped(gs, key)
    ensures WellGrouped([Group(gs[0].key, gs[0].items[1..])] + gs[1..], key)
  {
    var g := gs[0];
    var tail := [Group(g.key, g.items[1..])] + gs[1..];
    forall t, j | 0 <= t < |tail| && 0 <= j < |tail[t].items|
      ensures key(tail[t].items[j]) == tail[t].key
    {
      if t == 0 {
        assert tail[0].items[j] == g.items[j + 1];
      } else {
        assert tail[t] == gs[t];
      }
    }
    forall t | 0 < t < |tail|
      ensures tail[t - 1].key != tail[t].key
    {
      assert tail[t] == gs[t];
      assert tail[t - 1].key == gs[t - 1].key;
    }
  }

  /** A well-grouped split of `xs` is the one `groupby` yields: the groups
      of a sequence are determined by the sequence and the key alone. */
  lemma {:induction false} GroupByUnique<T, K>(xs: seq<T>, key: T -> K, gs: seq<Group<K, T>>)
    requires WellGrouped(gs, key)
    requires Flatten(gs) == xs
    ensures GroupBy(xs, key) == gs
    decreases |xs|
  {
    if |xs| > 0 {
      assert |gs| > 0;
      var g := gs[0];
      assert xs == g.items + Flatten(gs[1..]);
      assert xs[1..] == g.items[1..] + Flatten(gs[1..]);
      if |g.items| == 1 {
        WellGroupedTail(gs, key);
        GroupByUnique(xs[1..], key, gs[1..]);
        GroupBySingleton(xs, key, gs);
      } else {
        var tail := [Group(g.key, g.items[1..])] + gs[1..];
        WellGroupedShrink(gs, key);
        FlattenCons(Group(g.key, g.items[1..]), gs[1..]);
        GroupByUnique(xs[1..], key, tail);
        GroupByExtend(xs, key, gs);
      }
    }
  }

  /** Inductive step of `GroupByUnique` when the first group is one item. */
  lemma GroupBySingleton<T, K>(xs: seq<T>, key: T -> K, gs: seq<Group<K, T>>)
    requires |xs| > 0 && |gs| > 0 && WellGrouped(gs, key)
    requires gs[0].items == [xs[0]]
    requires GroupBy(xs[1..], key) == gs[1..]
    ensures GroupBy(xs, key) == gs
  {
    assert key(xs[0]) == gs[0].key by {
      assert gs[0].items[0] == xs[0];
    }
    assert |gs[1..]| > 0 ==> gs[1..][0].key != gs[0].key by {
      if |gs| > 1 {
        assert gs[1..][0] == gs[1];
      }
    }
    assert gs == [Group(key(xs[0]), [xs[0]])] + gs[1..];
  }

  /** Inductive step of `GroupByUnique` when the first group has more items. */
  lemma GroupByExtend<T, K>(xs: seq<T>, key: T -> K, gs: seq<Group<K, T>>)
    requires |xs| > 0 && |gs| > 0 && |gs[0].items| > 1 && WellGrouped(gs, key)
    requires gs[0].items[0] == xs[0]
    requires GroupBy(xs[1..], key) == [Group(gs[0].key, gs[0].items[1..])] + gs[1..]
    ensures GroupBy(xs, key) == gs
  {
    var g := gs[0];
    assert key(xs[0]) == g.key by {
      assert g.items[0] == xs[0];
    }
    assert [xs[0]] + g.items[1..] == g.items;
    assert ([Group(g.key, g.items[1..])] + gs[1..])[1..] == gs[1..];
    assert gs == [g] + gs[1..];
  }

  /** Flattening distributes over concatenation. */
  lemma {:induction false} FlattenAppend<K, T>(xs: seq<Group<K, T>>, ys: seq<Group<K, T>>)
    ensures Flatten(xs + ys) == Flatten(xs) + Flatten(ys)
    decreases |xs|
  {
    if |xs| > 0 {
      assert (xs + ys)[0] == xs[0];
      assert Flatten(xs + ys) == xs[0].items + Flatten((xs + ys)[1..]);
      assert (xs + ys)[1..] == xs[1..] + ys;
      FlattenAppend(xs[1..], ys);
    } else {
      assert xs + ys == ys;
    }
  }

}
