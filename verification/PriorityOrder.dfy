/** What `HdfSListAddOrder` does to a list that it keeps in order. */
module PriorityOrder {
  import opened Base
  import opened SList

  ghost predicate TotalPreorder<T(!new)>(le: (T, T) -> bool) {
    && (forall a, b :: le(a, b) || le(b, a))
    && (forall a, b, c :: le(a, b) && le(b, c) ==> le(a, c))
  }

  ghost predicate SortedBy<T>(le: (T, T) -> bool, s: seq<T>) {
    forall i, j :: 0 <= i < j < |s| ==> le(s[i], s[j])
  }

  function InsertOrdered<T>(s: seq<T>, x: T, le: (T, T) -> bool): seq<T> {
    var p := OrderPos(s, x, le);
    s[..p] + [x] + s[p..]
  }

  /** The list after adding the items of `config` one after the other to an empty list. */
  function AddAll<T>(config: seq<T>, le: (T, T) -> bool): seq<T> {
    if config == [] then []
    else InsertOrdered(AddAll(config[..|config| - 1], le), config[|config| - 1], le)
  }

  function Filter<T>(s: seq<T>, keep: T -> bool): seq<T> {
    if s == [] then []
    else
      var most, last := s[..|s| - 1], s[|s| - 1];
      if keep(last) then Filter(most, keep) + [last] else Filter(most, keep)
  }

  lemma {:induction false} MidPosSplits<T(!new)>(s: seq<T>, x: T, le: (T, T) -> bool, i: nat)
    requires TotalPreorder(le) && SortedBy(le, s) && i < |s| && !le(x, s[i])
    ensures
      var p := MidPos(s, x, le, i);
      !le(x, s[p - 1]) && (p < |s| ==> le(x, s[p]))
    decreases |s| - i
  {
    if i + 1 < |s| && !(le(s[i], x) && le(x, s[i + 1])) {
      assert le(s[i], x);
      MidPosSplits(s, x, le, i + 1);
    }
  }

  /** In a sorted list the new item goes in front of exactly the items that it may stand before: after
      all smaller items and before all equal ones. */
  lemma PositionSplits<T(!new)>(s: seq<T>, x: T, le: (T, T) -> bool)
    requires TotalPreorder(le) && SortedBy(le, s)
    ensures
      var p := OrderPos(s, x, le);
      forall i :: 0 <= i < |s| ==> (le(x, s[i]) <==> i >= p)
  {
    var p := OrderPos(s, x, le);
    if s != [] && !le(x, s[0]) {
      MidPosSplits(s, x, le, 0);
    }
    forall i | 0 <= i < |s| ensures le(x, s[i]) <==> i >= p {
      if i < p - 1 {
        assert le(s[i], s[p - 1]);
      } else if p < i {
        assert le(s[p], s[i]);
      }
    }
  }

  lemma InsertKeepsSorted<T(!new)>(s: seq<T>, x: T, le: (T, T) -> bool)
    requires TotalPreorder(le) && SortedBy(le, s)
    ensures SortedBy(le, InsertOrdered(s, x, le))
    ensures multiset(InsertOrdered(s, x, le)) == multiset(s) + multiset{x}
  {
    var p := OrderPos(s, x, le);
    PositionSplits(s, x, le);
    assert s == s[..p] + s[p..];
    assert forall i :: 0 <= i < p ==> le(s[i], x);
    SortedSplice(s, p, x, le);
  }

  lemma SortedSplice<T>(s: seq<T>, p: nat, x: T, le: (T, T) -> bool)
    requires p <= |s| && SortedBy(le, s)
    requires (forall i :: 0 <= i < p ==> le(s[i], x)) && (forall i :: p <= i < |s| ==> le(x, s[i]))
    ensures SortedBy(le, s[..p] + [x] + s[p..])
  {
    var r := s[..p] + [x] + s[p..];
    assert forall i :: 0 <= i < |r| ==> r[i] == if i < p then s[i] else if i == p then x else s[i - 1];
  }

  lemma {:induction false} FilterConcat<T>(a: seq<T>, b: seq<T>, keep: T -> bool)
    ensures Filter(a + b, keep) == Filter(a, keep) + Filter(b, keep)
    decreases |b|
  {
    if b == [] {
      assert a + b == a;
    } else {
      var n := |b| - 1;
      assert (a + b)[..|a| + n] == a + b[..n];
      FilterConcat(a, b[..n], keep);
    }
  }

  lemma {:induction false} FilterNone<T>(s: seq<T>, keep: T -> bool)
    requires forall i :: 0 <= i < |s| ==> !keep(s[i])
    ensures Filter(s, keep) == []
  {
    if s != [] {
      FilterNone(s[..|s| - 1], keep);
    }
  }

  predicate Tied<T>(le: (T, T) -> bool, a: T, b: T) {
    le(a, b) && le(b, a)
  }

  /** The items tied with `y`, in the order in which they stand. */
  function Ties<T>(s: seq<T>, y: T, le: (T, T) -> bool): seq<T> {
    Filter(s, z => Tied(le, y, z))
  }

  lemma FilterSplice<T>(s: seq<T>, p: nat, x: T, keep: T -> bool)
    requires p <= |s|
    ensures Filter(s, keep) == Filter(s[..p], keep) + Filter(s[p..], keep)
    ensures Filter(s[..p] + [x] + s[p..], keep) ==
      Filter(s[..p], keep) + (if keep(x) then [x] else []) + Filter(s[p..], keep)
  {
    assert s == s[..p] + s[p..] && [x][..0] == [];
    assert Filter([x], keep) == if keep(x) then [x] else [];
    hide Filter;
    FilterConcat(s[..p], s[p..], keep);
    FilterConcat(s[..p] + [x], s[p..], keep);
    FilterConcat(s[..p], [x], keep);
  }

  lemma NotTied<T(!new)>(le: (T, T) -> bool, x: T, y: T, z: T)
    requires TotalPreorder(le) && Tied(le, y, x) && !le(x, z)
    ensures !Tied(le, y, z)
  {
  }

  lemma TiesAfterInsert<T(!new)>(s: seq<T>, x: T, y: T, le: (T, T) -> bool)
    requires TotalPreorder(le) && SortedBy(le, s)
    ensures Ties(InsertOrdered(s, x, le), y, le) == (if Tied(le, y, x) then [x] else []) + Ties(s, y, le)
  {
    hide SortedBy, TotalPreorder, Tied, OrderPos;
    var p := OrderPos(s, x, le);
    var keep := z => Tied(le, y, z);
    PositionSplits(s, x, le);
    FilterSplice(s, p, x, keep);
    if Tied(le, y, x) {
      forall i | 0 <= i < p ensures !keep(s[i]) {
        NotTied(le, x, y, s[i]);
      }
      FilterNone(s[..p], keep);
    }
  }

  /** Whatever the configuration, the list holds its items, in order, with ties in the reverse of the
      order in which they were configured. */
  lemma {:induction false} AddAllSortsReversingTies<T(!new)>(config: seq<T>, le: (T, T) -> bool)
    requires TotalPreorder(le)
    ensures SortedBy(le, AddAll(config, le)) && multiset(AddAll(config, le)) == multiset(config)
    ensures forall y :: Ties(AddAll(config, le), y, le) == Reverse(Ties(config, y, le))
  {
    if config != [] {
      var n := |config| - 1;
      AddAllSortsReversingTies(config[..n], le);
      InsertKeepsSorted(AddAll(config[..n], le), config[n], le);
      assert config == config[..n] + [config[n]];
      forall y ensures Ties(AddAll(config, le), y, le) == Reverse(Ties(config, y, le)) {
        TiesAfterInsert(AddAll(config[..n], le), config[n], y, le);
        ReverseConcat(Ties(config[..n], y, le), [config[n]]);
        assert Reverse([config[n]]) == [config[n]];
        assert [] + Ties(AddAll(config[..n], le), y, le) == Ties(AddAll(config[..n], le), y, le);
      }
    }
  }

  // The order in full: which item of the configuration stands where.

  /** `order` names every position below `n` once. */
  ghost predicate Permutation(order: seq<nat>, n: nat) {
    && |order| == n && (forall k :: 0 <= k < n ==> order[k] < n) && Distinct(order)
    && forall i: nat :: i < n ==> i in order
  }

  /** `a` stands before `b`: it comes first by `le`, and later in the configuration if they are tied. */
  predicate StandsBefore<T>(config: seq<T>, le: (T, T) -> bool, a: nat, b: nat)
    requires a < |config| && b < |config|
  {
    le(config[a], config[b]) && (le(config[b], config[a]) ==> a > b)
  }

  lemma OrderWithLast(order: seq<nat>, p: nat)
    requires Permutation(order, |order|) && p <= |order|
    ensures Permutation(order[..p] + [|order|] + order[p..], |order| + 1)
  {
    var n := |order|;
    var all := order[..p] + [n] + order[p..];
    assert forall k :: 0 <= k < |all| ==> all[k] == if k < p then order[k] else if k == p then n else order[k - 1];
    forall i: nat | i <= n ensures i in all {
      if i < n {
        assert i in order;
        var k :| 0 <= k < |order| && order[k] == i;
        assert all[if k < p then k else k + 1] == i;
      } else {
        assert all[p] == i;
      }
    }
  }

  /** `list` is the configuration in this order, in which every item stands before those behind it. */
  ghost predicate Ordered<T>(config: seq<T>, le: (T, T) -> bool, list: seq<T>, order: seq<nat>) {
    && Permutation(order, |config|) && |list| == |config|
    && (forall k :: 0 <= k < |list| ==> order[k] < |config| && list[k] == config[order[k]])
    && forall k, l :: 0 <= k < l < |list| ==>
         order[k] < |config| && order[l] < |config| && StandsBefore(config, le, order[k], order[l])
  }

  /** The list is the configuration in a new order, in which every item stands before those behind it. */
  lemma AddAllInOrder<T(!new)>(config: seq<T>, le: (T, T) -> bool) returns (order: seq<nat>)
    requires TotalPreorder(le)
    ensures Permutation(order, |config|) && |AddAll(config, le)| == |config|
    ensures forall k :: 0 <= k < |config| ==> AddAll(config, le)[k] == config[order[k]]
    ensures forall k, l :: 0 <= k < l < |config| ==> StandsBefore(config, le, order[k], order[l])
  {
    order := AllOrdered(config, le);
  }

  lemma {:induction false} AllOrdered<T(!new)>(config: seq<T>, le: (T, T) -> bool) returns (order: seq<nat>)
    requires TotalPreorder(le)
    ensures Ordered(config, le, AddAll(config, le), order)
  {
    hide Ordered, TotalPreorder, OrderPos;
    if config == [] {
      order := [];
      NothingOrdered(le);
    } else {
      var n := |config| - 1;
      var before := AllOrdered(config[..n], le);
      AddAllSorted(config[..n], le);
      order := OneMoreOrdered(config, le, AddAll(config[..n], le), before);
    }
  }

  lemma AddAllSorted<T(!new)>(config: seq<T>, le: (T, T) -> bool)
    requires TotalPreorder(le)
    ensures SortedBy(le, AddAll(config, le))
  {
    AddAllSortsReversingTies(config, le);
  }

  lemma NothingOrdered<T>(le: (T, T) -> bool)
    ensures Ordered([], le, [], [])
  {
  }

  lemma OneMoreOrdered<T(!new)>(config: seq<T>, le: (T, T) -> bool, list: seq<T>, before: seq<nat>)
    returns (order: seq<nat>)
    requires TotalPreorder(le) && config != []
    requires Ordered(config[..|config| - 1], le, list, before) && SortedBy(le, list)
    ensures Ordered(config, le, InsertOrdered(list, config[|config| - 1], le), order)
  {
    var p := OrderPos(list, config[|before|], le);
    var n: nat := |before|;
    PositionSplits(list, config[n], le);
    order := before[..p] + [n] + before[p..];
    hide OrderPos, SortedBy;
    OrderWithLast(before, p);
    hide Permutation;
    InsertedInOrder(config, le, list, before, order, p);
  }

  lemma InsertedInOrder<T(!new)>(config: seq<T>, le: (T, T) -> bool, list: seq<T>, before: seq<nat>, order: seq<nat>,
                                 p: nat)
    requires TotalPreorder(le) && config != [] && |list| == |before| == |config| - 1 && p <= |list|
    requires forall k :: 0 <= k < |before| ==> before[k] < |before| && list[k] == config[before[k]]
    requires order == before[..p] + [|before|] + before[p..]
    requires forall k, l :: 0 <= k < l < |before| ==> StandsBefore(config[..|before|], le, before[k], before[l])
    requires forall k :: 0 <= k < |list| ==> (le(config[|before|], list[k]) <==> k >= p)
    ensures forall k :: 0 <= k < |order| ==>
      order[k] < |config| && (list[..p] + [config[|before|]] + list[p..])[k] == config[order[k]]
    ensures forall k, l :: 0 <= k < l < |order| ==> StandsBefore(config, le, order[k], order[l])
  {
    var n := |before|;
    assert forall k :: 0 <= k < |order| ==>
      order[k] == if k < p then before[k] else if k == p then n else before[k - 1];
    forall k, l | 0 <= k < l < |order| ensures StandsBefore(config, le, order[k], order[l]) {
      if k != p && l != p {
        assert StandsBefore(config[..n], le, order[k], order[l]);
      }
    }
  }

  /** Where the items come from that a filter keeps: `from` lists their positions, in order. */
  lemma {:induction false} FilterFrom<T>(s: seq<T>, keep: T -> bool) returns (from: seq<nat>)
    ensures |from| == |Filter(s, keep)|
    ensures forall k :: 0 <= k < |from| ==> from[k] < |s| && keep(s[from[k]]) && Filter(s, keep)[k] == s[from[k]]
    ensures forall k, l :: 0 <= k < l < |from| ==> from[k] < from[l]
    ensures forall i: nat :: i < |s| && keep(s[i]) ==> i in from
  {
    if s == [] {
      from := [];
    } else {
      from := FilterFrom(s[..|s| - 1], keep);
      if keep(s[|s| - 1]) {
        var before: seq<nat> := from;
        from := from + [|s| - 1];
        assert forall i :: i in before || i == |s| - 1 ==> i in from;
      }
    }
  }
}
