/** The singly linked list of `utils/src/hdf_slist.c`, pointer by pointer.
    The C code casts the list itself to a node whose `next` field is the root;
    here that node is `anchor`, and `spine` lists the anchor and then every linked node. */
module SList {
  import opened Base

  class Node<T(0)> {
    var next: Node?<T>
    var item: T

    constructor (item: T)
      ensures this.item == item && next == null
    {
      this.item := item;
      next := null;
    }

    constructor Anchor()
      ensures next == null
    {
      next := null;
    }
  }

  /** Each node of `s` points to the one after it, and the last to null. */
  ghost predicate Chain<T(0)>(s: seq<Node<T>>)
    reads s`next
  {
    && |s| > 0
    && (forall i {:trigger s[i].next} :: 0 <= i < |s| - 1 ==> s[i].next == s[i + 1])
    && s[|s| - 1].next == null
  }

  /** A chain that ends visits no node twice. */
  lemma {:induction false} ChainIsDistinct<T(0)>(s: seq<Node<T>>)
    requires Chain(s)
    ensures Distinct(s)
  {
    forall i, j | 0 <= i < j < |s| ensures s[i] != s[j] {
      NoNodeTwice(s, i, j);
    }
  }

  lemma {:induction false} NoNodeTwice<T(0)>(s: seq<Node<T>>, i: nat, j: nat)
    requires Chain(s) && i < j < |s|
    ensures s[i] != s[j]
    decreases |s| - j
  {
    assert s[i].next == s[i + 1];
    if j + 1 < |s| {
      assert s[j].next == s[j + 1];
      NoNodeTwice(s, i + 1, j + 1);
    }
  }

  /** Redirecting `s[k]` through `link` makes a chain with `link` after `s[k]`. */
  lemma Splice<T(0)>(s: seq<Node<T>>, k: nat, link: Node<T>) returns (t: seq<Node<T>>)
    requires k < |s| && Distinct(s) && link !in s
    requires forall i {:trigger s[i].next} :: 0 <= i < |s| - 1 && i != k ==> s[i].next == s[i + 1]
    requires k < |s| - 1 ==> s[|s| - 1].next == null
    requires s[k].next == link && link.next == if k + 1 < |s| then s[k + 1] else null
    ensures Chain(t) && |t| == |s| + 1 && t[0] == s[0] && t[k + 1] == link
    ensures t == s[..k + 1] + [link] + s[k + 1..]
    ensures k + 2 < |t| ==> t[k + 2] == s[k + 1]
  {
    t := s[..k + 1] + [link] + s[k + 1..];
    forall i {:trigger t[i].next} | 0 <= i < |t| ensures t[i].next == if i + 1 < |t| then t[i + 1] else null {
      assert t[i] == if i <= k then s[i] else if i == k + 1 then link else s[i - 1];
      assert i + 1 < |t| ==> t[i + 1] == if i < k then s[i + 1] else if i == k then link else s[i];
      if i < k {
        assert s[i].next == s[i + 1];
      } else if i > k + 1 {
        assert s[i - 1].next == if i < |s| then s[i] else null;
      }
    }
  }

  /** With an unlinked node `c` that still points to what follows `s[k]` put back, `s` is a chain but
      for the link out of `s[k]`. */
  lemma PutBack<T(0)>(s: seq<Node<T>>, k: nat, c: Node<T>) returns (t: seq<Node<T>>)
    requires k < |s| && Chain(s) && c !in s
    requires c.next == if k + 1 < |s| then s[k + 1] else null
    ensures t == s[..k + 1] + [c] + s[k + 1..]
    ensures |t| == |s| + 1 && Distinct(t) && t[0] == s[0] && t[k] == s[k] && t[k + 1] == c
    ensures forall n :: n in t ==> n in s || n == c
    ensures forall i {:trigger t[i].next} :: 0 <= i < |t| - 1 && i != k ==> t[i].next == t[i + 1]
    ensures t[|t| - 1].next == null
  {
    ChainIsDistinct(s);
    t := s[..k + 1] + [c] + s[k + 1..];
    assert forall i :: 0 <= i < |t| ==> t[i] == if i <= k then s[i] else if i == k + 1 then c else s[i - 1];
    forall i {:trigger t[i].next} | 0 <= i < |t| && i != k ensures t[i].next == if i + 1 < |t| then t[i + 1] else null {
      if i < k {
        assert s[i].next == s[i + 1] == t[i + 1];
      } else if i > k + 1 {
        assert s[i - 1].next == if i < |s| then s[i] else null;
      }
    }
  }

  /** Pointing `s[k]` past its successor makes a chain without that successor. */
  lemma Cut<T(0)>(s: seq<Node<T>>, k: nat) returns (t: seq<Node<T>>)
    requires k + 1 < |s| && Distinct(s)
    requires forall i {:trigger s[i].next} :: 0 <= i < |s| - 1 && i != k ==> s[i].next == s[i + 1]
    requires k + 2 < |s| ==> s[|s| - 1].next == null
    requires s[k].next == if k + 2 < |s| then s[k + 2] else null
    ensures Chain(t) && t[0] == s[0] && k < |t| && t[k] == s[k]
    ensures t == s[..k + 1] + s[k + 2..]
    ensures k + 1 < |t| ==> t[k + 1] == s[k + 2]
  {
    t := s[..k + 1] + s[k + 2..];
    forall i {:trigger t[i].next} | 0 <= i < |t| ensures t[i].next == if i + 1 < |t| then t[i + 1] else null {
      assert t[i] == if i <= k then s[i] else s[i + 1];
      assert i + 1 < |t| ==> t[i + 1] == if i < k then s[i + 1] else s[i + 2];
      if i < k {
        assert s[i].next == s[i + 1];
      } else if i > k {
        assert s[i + 1].next == if i + 2 < |s| then s[i + 2] else null;
      }
    }
  }

  /** Each node of `p` but the last points to the one after it. */
  ghost predicate Path<T(0)>(p: seq<Node<T>>)
    reads p`next
  {
    forall i {:trigger p[i].next} :: 0 <= i < |p| - 1 ==> p[i].next == p[i + 1]
  }

  lemma {:induction false} PathLeadsAlong<T(0)>(c: seq<Node<T>>, p: seq<Node<T>>, n: nat)
    requires Chain(c) && Path(p) && n < |p| && c[0] == p[0]
    ensures n < |c| && c[n] == p[n]
  {
    if n > 0 {
      PathLeadsAlong(c, p, n - 1);
      assert p[n - 1].next == p[n];
    }
  }

  /** Where a path comes back to one of its nodes, no chain that ends begins. */
  lemma NoWayOut<T(0)>(p: seq<Node<T>>, i: nat)
    requires Path(p) && i + 1 < |p| && p[i] == p[|p| - 1]
    ensures forall c: seq<Node<T>> :: Chain(c) ==> c[0] != p[0]
  {
    forall c: seq<Node<T>> | Chain(c) ensures c[0] != p[0] {
      if c[0] == p[0] {
        PathLeadsAlong(c, p, i);
        PathLeadsAlong(c, p, |p| - 1);
        NoNodeTwice(c, i, |p| - 1);
      }
    }
  }

  /** Pointing `s[i]` past the nodes up to `s[k]` makes a chain without them. */
  lemma CutOut<T(0)>(s: seq<Node<T>>, i: nat, k: nat) returns (t: seq<Node<T>>)
    requires i < k < |s|
    requires forall j {:trigger s[j].next} :: 0 <= j < |s| - 1 && j != i && j != k ==> s[j].next == s[j + 1]
    requires k + 1 < |s| ==> s[|s| - 1].next == null
    requires s[i].next == if k + 1 < |s| then s[k + 1] else null
    ensures Chain(t) && t == s[..i + 1] + s[k + 1..]
    ensures i + 1 < |t| ==> t[i + 1] == s[k + 1]
  {
    t := s[..i + 1] + s[k + 1..];
    forall j {:trigger t[j].next} | 0 <= j < |t| ensures t[j].next == if j + 1 < |t| then t[j + 1] else null {
      assert t[j] == if j <= i then s[j] else s[k + j - i];
    }
  }

  ghost function Items<T(0)>(s: seq<Node<T>>): (items: seq<T>)
    reads s
    ensures |items| == |s| && forall i :: 0 <= i < |s| ==> items[i] == s[i].item
  {
    seq(|s|, i requires 0 <= i < |s| reads s => s[i].item)
  }

  lemma ItemsAfterInsert<T(0)>(s: seq<Node<T>>, i: nat, n: Node<T>)
    requires 0 < i <= |s|
    ensures
      var q := Items(s[1..]);
      Items((s[..i] + [n] + s[i..])[1..]) == q[..i - 1] + [n.item] + q[i - 1..]
  {
    assert (s[..i] + [n] + s[i..])[1..] == s[1..i] + [n] + s[i..];
  }

  lemma ItemsAfterCut<T(0)>(s: seq<Node<T>>, i: nat)
    requires 0 < i < |s|
    ensures
      var q := Items(s[1..]);
      Items((s[..i] + s[i + 1..])[1..]) == q[..i - 1] + q[i..]
  {
    assert (s[..i] + s[i + 1..])[1..] == s[1..i] + s[i + 1..];
  }

  /** Where `HdfSListAddOrder` links a node holding `x`: the branches of the C code, for any comparer
      and any list. */
  function OrderPos<T>(s: seq<T>, x: T, le: (T, T) -> bool): (p: nat)
    ensures p <= |s|
  {
    if s == [] || le(x, s[0]) then 0 else MidPos(s, x, le, 0)
  }

  function MidPos<T>(s: seq<T>, x: T, le: (T, T) -> bool, i: nat): (p: nat)
    requires i < |s|
    ensures i < p <= |s|
    decreases |s| - i
  {
    if i + 1 == |s| then |s|
    else if le(s[i], x) && le(x, s[i + 1]) then i + 1
    else MidPos(s, x, le, i + 1)
  }

  /** In front if the list is empty or the first item allows it, else between the first two neighbours that do, else at
      the end. */
  lemma OrderPosMeans<T>(s: seq<T>, x: T, le: (T, T) -> bool)
    ensures var p := OrderPos(s, x, le);
      && (p == 0 <==> s == [] || le(x, s[0]))
      && (0 < p < |s| ==> le(s[p - 1], x) && le(x, s[p]))
      && forall i {:trigger s[i]} :: 0 < i < p ==> !(le(s[i - 1], x) && le(x, s[i]))
  {
    if s != [] {
      MidPosMeans(s, x, le, 0);
    }
  }

  lemma {:induction false} MidPosMeans<T>(s: seq<T>, x: T, le: (T, T) -> bool, i: nat)
    requires i < |s|
    ensures var p := MidPos(s, x, le, i);
      && (p < |s| ==> le(s[p - 1], x) && le(x, s[p]))
      && forall j {:trigger s[j]} :: i < j < p ==> !(le(s[j - 1], x) && le(x, s[j]))
    decreases |s| - i
  {
    if i + 1 < |s| {
      MidPosMeans(s, x, le, i + 1);
    }
  }

  class List<T(0)> {
    const anchor: Node<T>
    /** The anchor, and then the linked nodes from the root on. */
    ghost var spine: seq<Node<T>>

    ghost predicate Valid()
      reads this, spine`next
    {
      Chain(spine) && spine[0] == anchor
    }

    /** The items of the linked nodes, from the root on. */
    ghost function Contents(): seq<T>
      requires Valid()
      reads this, spine
    {
      Items(spine[1..])
    }

    constructor ()
      ensures Valid() && spine == [anchor] && fresh(anchor)
    {
      anchor := new Node<T>.Anchor();
      new;
      spine := [anchor];
    }

    method IsEmpty() returns (empty: bool)
      requires Valid()
      ensures empty <==> |spine| == 1
    {
      empty := anchor.next == null;
    }

    method GetLast() returns (last: Node?<T>)
      requires Valid()
      ensures last == if |spine| == 1 then null else spine[|spine| - 1]
    {
      last := null;
      var it := anchor.next;
      ghost var k := 1;
      while it != null
        invariant 1 <= k <= |spine|
        invariant it == if k < |spine| then spine[k] else null
        invariant last == if k == 1 then null else spine[k - 1]
        decreases |spine| - k
      {
        last := it;
        it := it.next;
        k := k + 1;
      }
    }

    method Count() returns (n: nat)
      requires Valid()
      ensures n == |spine| - 1
    {
      n := 0;
      var it := anchor;
      while it.next != null
        invariant n < |spine| && it == spine[n]
        decreases |spine| - n
      {
        it := it.next;
        n := n + 1;
      }
    }

    /** `HdfSListAdd`: the new node becomes the root. If it was linked before, no walk along the list ends any more. */
    method Add(link: Node<T>)
      requires Valid() && link != anchor
      modifies `spine, anchor`next, link`next
      ensures link !in old(spine) ==> Valid() && spine == [anchor, link] + old(spine)[1..]
      ensures link in old(spine) ==> forall c: seq<Node<T>> :: Chain(c) ==> c[0] != anchor
    {
      ghost var s := spine;
      ChainIsDistinct(s);
      link.next := anchor.next;
      anchor.next := link;
      if link !in s {
        spine := [anchor, link] + s[1..];
      } else {
        ghost var i :| 0 < i < |s| && s[i] == link;
        ghost var p := [anchor, link] + s[1..i + 1];
        assert forall j :: 1 < j < |p| ==> p[j] == s[j - 1];
        NoWayOut(p, 1);
      }
    }

    /** `HdfSListAddTail`: appends, unless the node is linked already. */
    method AddTail(link: Node<T>)
      requires Valid() && link != anchor
      modifies `spine, spine`next, link`next
      ensures Valid()
      ensures spine == if link in old(spine) then old(spine) else old(spine) + [link]
    {
      var it := anchor;
      ghost var k := 0;
      while it.next != null
        invariant 0 <= k < |spine| && it == spine[k]
        invariant link !in spine[..k + 1]
        decreases |spine| - k
      {
        if it.next == link {
          assert link == spine[k + 1];
          return;
        }
        it := it.next;
        k := k + 1;
      }
      ChainIsDistinct(spine);
      link.next := null;
      it.next := link;
      spine := spine + [link];
    }

    /** `HdfSListRemove`: unlinks the node if it is linked; its own `next` field is left alone. */
    method Remove(link: Node<T>) returns (ghost i: nat)
      requires Valid() && link != anchor
      modifies `spine, spine`next
      ensures Valid() && link.next == old(link.next)
      ensures 0 < i <= |old(spine)| && (i == |old(spine)| <==> link !in old(spine))
      ensures i == |old(spine)| ==> spine == old(spine)
      ensures i < |old(spine)| ==> old(spine)[i] == link && spine == old(spine)[..i] + old(spine)[i + 1..]
    {
      var it: Node?<T> := anchor;
      i := 1;
      while it != null
        invariant 0 < i <= |spine| + 1
        invariant it == if i <= |spine| then spine[i - 1] else null
        invariant link !in spine[..if i <= |spine| then i else i - 1]
        decreases |spine| + 1 - i
      {
        if it.next == link {
          assert link == spine[i];
          ChainIsDistinct(spine);
          it.next := link.next;
          spine := Cut(spine, i - 1);
          return;
        }
        it := it.next;
        i := i + 1;
      }
      i := |spine|;
    }

    /** `HdfSListAddOrder`: refuses a node that is linked already; otherwise links it at the
        position that OrderPos computes. A null operand makes the C comparers answer false. */
    method AddOrder(link: Node<T>, le: (T, T) -> bool) returns (ok: bool)
      requires Valid() && link != anchor
      modifies `spine, spine`next, link`next
      ensures Valid()
      ensures ok <==> link !in old(spine)
      ensures !ok ==> spine == old(spine)
      ensures ok ==>
        var p := old(OrderPos(Contents(), link.item, le));
        spine == old(spine)[..p + 1] + [link] + old(spine)[p + 1..]
    {
      var it := anchor.next;
      ghost var k := 1;
      while it != null
        invariant 1 <= k <= |spine|
        invariant it == if k < |spine| then spine[k] else null
        invariant link !in spine[..k]
        decreases |spine| - k
      {
        if it == link {
          assert link == spine[k];
          return false;
        }
        it := it.next;
        k := k + 1;
      }
      var pred: Node<T>;
      ghost var p: nat;
      pred, p := OrderPredecessor(link.item, le);
      LinkAfter(pred, link, p);
      return true;
    }

    /** The two assignments with which `HdfSListAddOrder` links its node. */
    method LinkAfter(pred: Node<T>, link: Node<T>, ghost p: nat)
      requires Valid() && link !in spine
      requires p < |spine| && spine[p] == pred
      modifies `spine, pred`next, link`next
      ensures Valid() && spine == old(spine)[..p + 1] + [link] + old(spine)[p + 1..]
    {
      ghost var s := spine;
      ChainIsDistinct(s);
      link.next := pred.next;
      pred.next := link;
      spine := Splice(s, p, link);
    }

    /** The node after which `HdfSListAddOrder` links a node holding `x`: the anchor when `x` goes to
        the front or the list is empty, the last node when the loop finds no place. */
    method OrderPredecessor(x: T, le: (T, T) -> bool) returns (it: Node<T>, ghost p: nat)
      requires Valid()
      ensures p < |spine| && it == spine[p] && p == OrderPos(Contents(), x, le)
    {
      if anchor.next == null || le(x, anchor.next.item) {
        return anchor, 0;
      }
      it, p := anchor.next, 1;
      while it.next != null
        invariant 1 <= p < |spine| && it == spine[p]
        invariant OrderPos(Contents(), x, le) == MidPos(Contents(), x, le, p - 1)
        decreases |spine| - p
      {
        if le(it.item, x) && le(x, it.next.item) {
          return;
        }
        it := it.next;
        p := p + 1;
      }
    }

    /** `HdfSListPop`. */
    method Pop() returns (first: Node?<T>)
      requires Valid()
      modifies `spine, anchor`next
      ensures Valid()
      ensures first == if |old(spine)| == 1 then null else old(spine)[1]
      ensures spine == if |old(spine)| == 1 then old(spine) else [anchor] + old(spine)[2..]
    {
      ChainIsDistinct(spine);
      first := anchor.next;
      if first != null {
        anchor.next := first.next;
        spine := [anchor] + spine[2..];
      }
    }
  }

  /** `struct HdfSListIterator`: `prev` is the node `spine[k]`, and `curr` the one after it. */
  class Iterator<T(0)> {
    const list: List<T>
    var prev: Node<T>
    var curr: Node?<T>
    var stepOnNext: bool
    ghost var k: nat

    ghost predicate Valid()
      reads this, list, list.spine`next, (if curr == null then {} else {curr})`next
    {
      && list.Valid()
      && k < |list.spine| && prev == list.spine[k]
      && if CurrentUnlinked() then
           stepOnNext && curr.next == if k + 1 < |list.spine| then list.spine[k + 1] else null
         else
           curr == if k + 1 < |list.spine| then list.spine[k + 1] else null
    }

    ghost predicate CurrentUnlinked()
      reads this, list
    {
      curr != null && curr !in list.spine
    }

    /** The spine with an unlinked current node put back in its place. */
    ghost function Relinked(): seq<Node<T>>
      requires Valid()
      reads this, list, list.spine, curr
    {
      if CurrentUnlinked() then
        var c: Node<T> := curr;
        list.spine[..k + 1] + [c] + list.spine[k + 1..]
      else list.spine
    }

    /** The position in the spine of the node that Next will return. */
    ghost function NextPos(): nat
      reads this, list
    {
      if stepOnNext && curr != null && !CurrentUnlinked() then k + 2 else k + 1
    }

    constructor (list: List<T>)
      requires list.Valid()
      ensures this.list == list && Valid() && k == 0 && !stepOnNext && !CurrentUnlinked()
    {
      this.list := list;
      stepOnNext := false;
      prev := list.anchor;
      curr := list.anchor.next;
      k := 0;
    }

    method HasNext() returns (more: bool)
      requires Valid()
      ensures more <==> NextPos() < |list.spine|
    {
      if curr == null {
        return false;
      }
      if !stepOnNext {
        return curr != null;
      }
      if prev.next != curr {
        return prev.next != null;
      }
      return curr.next != null;
    }

    /** Next steps over the node it returned before, unless a removal did so already. */
    method Next() returns (r: Node?<T>)
      requires Valid()
      modifies this
      ensures Valid() && !CurrentUnlinked()
      ensures r == curr == if old(NextPos()) < |list.spine| then list.spine[old(NextPos())] else null
      ensures k == if old(stepOnNext && curr != null && !CurrentUnlinked()) then old(k) + 1 else old(k)
      ensures stepOnNext <==> old(stepOnNext) || old(curr) != null
    {
      if curr == null {
        return null;
      }
      if stepOnNext {
        if prev.next == curr {
          prev := curr;
          curr := curr.next;
          k := k + 1;
        } else {
          curr := prev.next;
        }
      } else {
        stepOnNext := true;
      }
      return curr;
    }

    /** `HdfSListIteratorRemove`: unlinks the current node, if it is still linked; the one after it
        becomes current. */
    method Remove()
      requires Valid()
      modifies this, list`spine, prev`next
      ensures Valid() && prev == old(prev) && k == old(k) && !CurrentUnlinked()
      ensures stepOnNext <==> old(stepOnNext) && old(curr) == null
      ensures list.spine ==
        if old(curr == null || CurrentUnlinked()) then old(list.spine)
        else old(list.spine)[..k + 1] + old(list.spine)[k + 2..]
    {
      if curr == null {
        return;
      }
      ghost var s := list.spine;
      ghost var linked := !CurrentUnlinked();
      ChainIsDistinct(s);
      curr := curr.next;
      prev.next := curr;
      stepOnNext := false;
      if linked {
        list.spine := Cut(s, k);
      }
    }

    /** `HdfSListIteratorInsert`: links a node before the current one. When the current node had been unlinked by
        `HdfSListRemove`, the insertion links it again. A node that is linked already, at position `i`, cuts out what
        stands between it and the current node, if it stands before the previous node; otherwise no walk along the
        list ends any more. */
    method Insert(link: Node<T>) returns (ghost i: nat)
      requires Valid() && link != list.anchor
      modifies this, list`spine, prev`next, link`next
      ensures curr == old(curr) && stepOnNext == old(stepOnNext) && prev == link
      ensures i <= |old(Relinked())|
      ensures (if i < |old(Relinked())| then old(Relinked())[i] == link else link !in old(Relinked()))
      ensures i == |old(Relinked())| ==>
        && Valid() && !CurrentUnlinked() && k == old(k) + 1
        && list.spine == old(Relinked())[..k] + [link] + old(Relinked())[k..]
      ensures i < old(k) ==>
        && Valid() && !CurrentUnlinked() && k == i
        && list.spine == old(Relinked())[..i + 1] + old(Relinked())[old(k) + 1..]
      ensures old(k) <= i < |old(Relinked())| ==> forall c: seq<Node<T>> :: Chain(c) ==> c[0] != list.anchor
    {
      hide *;
      ghost var s, j := Relinked(), k;
      RelinkedIsChainBut();
      i := PlaceOf(s, j, link);
      LinkBeforeCurrent(link);
      ghost var t := Rejoined(s, i, j, link);
      if i < j || i == |s| {
        list.spine := t;
        k := if i < j then i else j + 1;
        RejoinedIsValid(s, i, j, link);
      }
    }

    lemma PlaceOf(s: seq<Node<T>>, j: nat, link: Node<T>) returns (i: nat)
      requires Distinct(s) && j < |s|
      ensures i <= |s| && (if i < |s| then s[i] == link else link !in s)
      ensures forall n {:trigger s[n]} :: 0 <= n < |s| && n != j ==> s[n] != s[j]
      ensures forall n {:trigger s[n]} :: 0 <= n < |s| && n != i ==> s[n] != link
    {
      i := |s|;
      if link in s {
        i :| 0 <= i < |s| && s[i] == link;
      }
    }

    /** The chain after the assignments, if there is one. */
    lemma Rejoined(s: seq<Node<T>>, i: nat, j: nat, link: Node<T>) returns (t: seq<Node<T>>)
      requires j < |s| && i <= |s| && Distinct(s) && (if i < |s| then s[i] == link else link !in s)
      requires forall n {:trigger s[n].next} :: 0 <= n < |s| - 1 && n != i && n != j ==> s[n].next == s[n + 1]
      requires i != |s| - 1 && j < |s| - 1 ==> s[|s| - 1].next == null
      requires s[j].next == link
      requires link.next == if i == j then link else if j + 1 < |s| then s[j + 1] else null
      ensures i == |s| ==> Chain(t) && t == s[..j + 1] + [link] + s[j + 1..]
      ensures i < j ==> Chain(t) && t == s[..i + 1] + s[j + 1..]
      ensures j <= i < |s| ==> forall c: seq<Node<T>> :: Chain(c) ==> c[0] != s[0]
    {
      hide Chain, Distinct;
      t := s;
      if i == |s| {
        t := Splice(s, j, link);
      } else if i < j {
        t := CutOut(s, i, j);
      } else {
        LinkedTwice(s, i, j, link);
      }
    }

    lemma RejoinedIsValid(s: seq<Node<T>>, i: nat, j: nat, link: Node<T>)
      requires j < |s| && i <= |s| && s[0] == list.anchor && (i < |s| ==> s[i] == link)
      requires curr == (if j + 1 < |s| then s[j + 1] else null) && prev == link && Chain(list.spine)
      requires i == |s| ==> list.spine == s[..j + 1] + [link] + s[j + 1..] && k == j + 1
      requires i < |s| ==> i < j && list.spine == s[..i + 1] + s[j + 1..] && k == i
      ensures Valid() && !CurrentUnlinked()
      ensures i == |s| ==> list.spine == s[..k] + [link] + s[k..]
    {
      hide Chain;
      assert curr != null ==> curr == list.spine[k + 1];
    }

    /** The three assignments of `HdfSListIteratorInsert`. */
    method LinkBeforeCurrent(link: Node<T>)
      modifies `prev, prev`next, link`next
      ensures prev == link && old(prev).next == link
      ensures link.next == if old(prev) == link then link else curr
    {
      link.next := curr;
      prev.next := link;
      prev := link;
    }

    lemma LinkedTwice(s: seq<Node<T>>, i: nat, j: nat, link: Node<T>)
      requires j <= i < |s| && s[i] == link && Distinct(s)
      requires forall n {:trigger s[n].next} :: 0 <= n < |s| - 1 && n != i && n != j ==> s[n].next == s[n + 1]
      requires s[j].next == link && (i > j ==> link.next == s[j + 1])
      ensures forall c: seq<Node<T>> :: Chain(c) ==> c[0] != s[0]
    {
      var p := s[..j + 1] + [link] + if i > j then s[j + 1..i + 1] else [];
      assert forall n :: 0 <= n < |p| ==> p[n] == if n <= j then s[n] else if n == j + 1 then link else s[n - 1];
      NoWayOut(p, if i > j then j + 1 else j);
    }

    lemma RelinkedIsChainBut()
      requires Valid()
      ensures var s := Relinked();
        && Distinct(s) && k < |s| && s[k] == prev && s[0] == list.anchor
        && curr == (if k + 1 < |s| then s[k + 1] else null)
        && (forall n :: n in s <==> n in list.spine || n == curr)
        && (forall i {:trigger s[i]} :: 0 <= i < |s| ==> s[i] in list.spine || s[i] == curr)
        && (forall i {:trigger s[i].next} :: 0 <= i < |s| - 1 && i != k ==> s[i].next == s[i + 1])
        && (k < |s| - 1 ==> s[|s| - 1].next == null)
    {
      ChainIsDistinct(list.spine);
      if CurrentUnlinked() {
        var s := PutBack(list.spine, k, curr);
      }
    }
  }
}
