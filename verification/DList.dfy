/** The circular doubly linked list of `include/utils/hdf_dlist.h`, pointer by pointer. */
module DList {
  import opened Base

  /** `struct DListHead`, with the structure it is embedded in as `item`; list heads use the same type.
      The ghost fields name the structure whose list a linked node belongs to, and the step that linked it. */
  class DNode<T(0)> {
    var next: DNode?<T>
    var prev: DNode?<T>
    var item: T
    ghost var owner: object?
    ghost var since: nat

    constructor (item: T)
      ensures this.item == item && next == null && prev == null && owner == null
    {
      this.item := item;
      next, prev, owner, since := null, null, null, 0;
    }

    constructor Head()
      ensures Ring([this])
    {
      new;
      next, prev := this, this;
    }
  }

  /** The head `r[0]` and its nodes form one ring in both directions. */
  ghost predicate Ring<T(0)>(r: seq<DNode<T>>)
    reads r
  {
    && |r| > 0 && Distinct(r)
    && (forall i {:trigger r[i].next} :: 0 <= i < |r| ==> r[i].next == if i + 1 < |r| then r[i + 1] else r[0])
    && (forall i {:trigger r[i].prev} :: 0 <= i < |r| ==> r[i].prev == if i > 0 then r[i - 1] else r[|r| - 1])
    && (forall i {:trigger r[i].owner} :: 0 <= i < |r| ==> r[i].owner == r[0].owner)
  }

  /** The lists of different structures have no node in common. */
  lemma RingsAreDisjoint<T(0)>(r: seq<DNode<T>>, q: seq<DNode<T>>)
    requires Ring(r) && Ring(q) && r[0].owner != q[0].owner
    ensures forall i, j :: 0 <= i < |r| && 0 <= j < |q| ==> r[i] != q[j]
  {
    assert forall i :: 0 <= i < |r| ==> r[i].owner == r[0].owner;
  }

  method IsEmpty<T(0)>(head: DNode<T>, ghost r: seq<DNode<T>>) returns (empty: bool)
    requires Ring(r) && r[0] == head
    ensures empty <==> |r| == 1
  {
    empty := head.next == head;
  }

  method InsertHead<T(0)>(entry: DNode<T>, head: DNode<T>, ghost r: seq<DNode<T>>) returns (ghost t: seq<DNode<T>>)
    requires Ring(r) && r[0] == head && entry !in r
    modifies entry`next, entry`prev, entry`owner, head`next, head.next`prev
    ensures t == [head, entry] + r[1..] && Ring(t)
  {
    entry.next := head.next;
    entry.prev := head;
    head.next.prev := entry;
    head.next := entry;
    entry.owner := head.owner;
    t := [head, entry] + r[1..];
    assert forall i :: 0 <= i < |t| ==> t[i] == if i == 0 then head else if i == 1 then entry else r[i - 1];
  }

  method InsertTail<T(0)>(entry: DNode<T>, head: DNode<T>, ghost r: seq<DNode<T>>) returns (ghost t: seq<DNode<T>>)
    requires Ring(r) && r[0] == head && entry !in r
    modifies entry`next, entry`prev, entry`owner, head`prev, head.prev`next
    ensures t == r + [entry] && Ring(t)
  {
    entry.next := head;
    entry.prev := head.prev;
    head.prev.next := entry;
    head.prev := entry;
    entry.owner := head.owner;
    t := r + [entry];
  }

  lemma ClosedUp<T(0)>(r: seq<DNode<T>>, k: nat)
    requires 0 < k < |r| && Distinct(r)
    requires forall i {:trigger r[i].next} :: 0 <= i < |r| && i != k && i != k - 1 ==>
      r[i].next == if i + 1 < |r| then r[i + 1] else r[0]
    requires forall i {:trigger r[i].prev} :: 0 <= i < |r| && i != k && i != (if k + 1 < |r| then k + 1 else 0) ==>
      r[i].prev == if i > 0 then r[i - 1] else r[|r| - 1]
    requires r[k - 1].next == if k + 1 < |r| then r[k + 1] else r[0]
    requires (if k + 1 < |r| then r[k + 1] else r[0]).prev == r[k - 1]
    requires forall i {:trigger r[i].owner} :: 0 <= i < |r| && i != k ==> r[i].owner == r[0].owner
    ensures Ring(Without(r, k)) && Without(r, k)[0] == r[0]
  {
    var t := Without(r, k);
    WithoutAt(r, k);
    hide Without;
    assert t[0] == r[0];
    forall i {:trigger t[i].next} {:trigger t[i].prev} {:trigger t[i].owner} | 0 <= i < |t|
      ensures t[i].next == if i + 1 < |t| then t[i + 1] else t[0]
      ensures t[i].prev == if i > 0 then t[i - 1] else t[|t| - 1]
      ensures t[i].owner == t[0].owner
    {
      var j := if i < k then i else i + 1;
      assert t[i] == r[j];
    }
  }

  method Remove<T(0)>(entry: DNode<T>, ghost r: seq<DNode<T>>, ghost k: nat) returns (ghost t: seq<DNode<T>>)
    requires Ring(r) && 0 < k < |r| && r[k] == entry
    modifies entry`next, entry`prev, entry`owner, entry.prev`next, entry.next`prev
    ensures t == Without(r, k) && Ring(t) && t[0] == r[0]
    ensures entry.next == null && entry.prev == null && entry.owner == null
  {
    hide Without;
    entry.prev.next := entry.next;
    entry.next.prev := entry.prev;
    entry.prev := null;
    entry.next := null;
    entry.owner := null;
    t := Without(r, k);
    ClosedUp(r, k);
  }

  /** The ring after `list` has been merged into the front of `head`. */
  function Merged<X>(list: seq<X>, head: seq<X>): (t: seq<X>)
    requires |list| > 0 && |head| > 0
  {
    head[..1] + list[1..] + head[1..]
  }

  lemma MergedAt<X>(list: seq<X>, head: seq<X>)
    requires |list| > 0 && |head| > 0
    ensures var t := Merged(list, head); |t| == |list| + |head| - 1
    ensures forall i {:trigger Merged(list, head)[i]} :: 0 <= i < |Merged(list, head)| ==>
      Merged(list, head)[i] == if i == 0 then head[0] else if i < |list| then list[i] else head[i - |list| + 1]
  {
  }

  lemma JoinedUp<T(0)>(p: seq<DNode<T>>, q: seq<DNode<T>>)
    requires |p| > 1 && |q| > 0 && Distinct(p) && Distinct(q)
    requires forall i, j :: 0 <= i < |p| && 0 <= j < |q| ==> p[i] != q[j]
    requires forall i {:trigger p[i].next} :: 0 < i < |p| - 1 ==> p[i].next == p[i + 1]
    requires forall i {:trigger p[i].prev} :: 1 < i < |p| ==> p[i].prev == p[i - 1]
    requires forall i {:trigger q[i].next} :: 0 < i < |q| ==> q[i].next == if i + 1 < |q| then q[i + 1] else q[0]
    requires forall i {:trigger q[i].prev} :: 1 < i < |q| ==> q[i].prev == q[i - 1]
    requires q[0].next == p[1] && p[1].prev == q[0]
    requires p[|p| - 1].next == if |q| > 1 then q[1] else q[0]
    requires |q| > 1 ==> q[1].prev == p[|p| - 1]
    requires q[0].prev == if |q| > 1 then q[|q| - 1] else p[|p| - 1]
    requires forall i {:trigger p[i].owner} :: 0 < i < |p| ==> p[i].owner == q[0].owner
    requires forall i {:trigger q[i].owner} :: 0 <= i < |q| ==> q[i].owner == q[0].owner
    ensures Ring(Merged(p, q))
  {
    var t := Merged(p, q);
    MergedAt(p, q);
    hide Merged;
    forall i {:trigger t[i].next} {:trigger t[i].prev} {:trigger t[i].owner} | 0 <= i < |t|
      ensures t[i].next == if i + 1 < |t| then t[i + 1] else t[0]
      ensures t[i].prev == if i > 0 then t[i - 1] else t[|t| - 1]
      ensures t[i].owner == t[0].owner
    {
      assert t[i] == if i == 0 then q[0] else if i < |p| then p[i] else q[i - |p| + 1];
    }
    assert Distinct(t);
  }

  /** No ring leads from its head to a node that points to itself. */
  lemma NoWayToAStrayNode<T(0)>(list: DNode<T>, r: seq<DNode<T>>)
    requires Ring(r) && list != r[0] && list.next == list
    ensures r[0].next != list
  {
    assert |r| > 1 ==> r[1].next != r[1];
  }

  /** Moves every node of `list` to the front of `head`, if there is one. If there is none, `head.next` ends at
      `list`, which points to itself, so that `head` is then the head of no ring at all. */
  method Merge<T(0)>(list: DNode<T>, head: DNode<T>, ghost p: seq<DNode<T>>, ghost q: seq<DNode<T>>)
    requires Ring(p) && p[0] == list && Ring(q) && q[0] == head && list.owner != head.owner
    modifies p, q
    ensures Ring([list])
    ensures forall n :: n in p || n in q ==> n.item == old(n.item)
    ensures |p| > 1 ==> Ring(Merged(p, q))
    ensures |p| == 1 ==> head.next == list && list.next == list
  {
    RingsAreDisjoint(p, q);
    hide Merged;
    list.next.prev := head;
    list.prev.next := head.next;
    head.next.prev := list.prev;
    head.next := list.next;
    list.next, list.prev := list, list;
    forall i | 0 < i < |p| { p[i].owner := head.owner; }
    if |p| > 1 {
      JoinedUp(p, q);
    }
  }

  // `DLIST_FOR_EACH_ENTRY` and `DLIST_FOR_EACH_ENTRY_REVERSE` with a body that only notes the entry.

  method Forward<T(0)>(head: DNode<T>, ghost r: seq<DNode<T>>) returns (visited: seq<DNode<T>>)
    requires Ring(r) && r[0] == head
    ensures visited == r[1..]
  {
    var pos := head.next;
    visited := [];
    while pos != head
      invariant |visited| < |r| && visited == r[1..][..|visited|]
      invariant pos == if |visited| + 1 < |r| then r[|visited| + 1] else head
      decreases |r| - |visited|
    {
      visited := visited + [pos];
      pos := pos.next;
    }
  }

  method Backward<T(0)>(head: DNode<T>, ghost r: seq<DNode<T>>) returns (visited: seq<DNode<T>>)
    requires Ring(r) && r[0] == head
    ensures visited == Reverse(r[1..])
  {
    var pos := head.prev;
    visited := [];
    ghost var k := |r|;
    while pos != head
      invariant 1 <= k <= |r| && visited == Reverse(r[k..])
      invariant pos == if k > 1 then r[k - 1] else head
      decreases k
    {
      visited := visited + [pos];
      k := k - 1;
      pos := pos.prev;
    }
  }

  method GetCount<T(0)>(head: DNode<T>, ghost r: seq<DNode<T>>) returns (count: nat)
    requires Ring(r) && r[0] == head
    ensures count == |r| - 1
  {
    var next := head.next;
    count := 0;
    while next != head
      invariant 0 <= count < |r|
      invariant next == if count + 1 < |r| then r[count + 1] else head
      decreases |r| - count
    {
      next := next.next;
      count := count + 1;
    }
  }
}
