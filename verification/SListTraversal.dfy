/** Loops over a list with the iterator of `utils/src/hdf_slist.c`, editing the list on the way. */
module SListTraversal {
  import opened Base
  import opened SList

  /** The loop that `HdfSListSearch` and the message queue share: Next until an item is accepted. */
  method SeekFirst<T(0)>(it: Iterator<T>, accept: T -> bool) returns (r: Node?<T>, ghost i: nat)
    requires it.Valid() && it.k == 0 && !it.stepOnNext && !it.CurrentUnlinked()
    modifies it
    ensures it.Valid() && !it.CurrentUnlinked()
    ensures 0 < i <= |it.list.spine| && r == if i < |it.list.spine| then it.list.spine[i] else null
    ensures r != null ==> accept(r.item) && it.k + 1 == i && it.curr == r
    ensures forall j :: 0 < j < i ==> !accept(it.list.spine[j].item)
  {
    hide Chain;
    var more := it.HasNext();
    while more
      invariant it.Valid() && !it.CurrentUnlinked() && 1 <= it.NextPos() <= |it.list.spine|
      invariant more <==> it.NextPos() < |it.list.spine|
      invariant forall j :: 0 < j < it.NextPos() ==> !accept(it.list.spine[j].item)
      decreases |it.list.spine| - it.NextPos()
    {
      i := it.NextPos();
      r := it.Next();
      if accept(r.item) {
        return;
      }
      more := it.HasNext();
    }
    r, i := null, it.NextPos();
  }

  /** `HdfSListSearch`: the first node whose item the comparer accepts. */
  method Search<T(0)>(list: List<T>, comparer: T -> bool) returns (r: Node?<T>, ghost i: nat)
    requires list.Valid()
    ensures 0 < i <= |list.spine| && r == if i < |list.spine| then list.spine[i] else null
    ensures r != null ==> comparer(r.item)
    ensures forall j :: 0 < j < i ==> !comparer(list.spine[j].item)
  {
    var it := new Iterator(list);
    r, i := SeekFirst(it, comparer);
  }

  /** The state of an iterator, as a value: `behind` is the anchor and the nodes up to `prev`, `ahead` the
      current node and those after it. `unlinked` says that the current node was taken out of the list
      behind the iterator's back, by `HdfSListRemove`. */
  datatype Cursor<N> = Cursor(behind: seq<N>, ahead: seq<N>, unlinked: bool, stepOnNext: bool) {
    /** The list under the iterator, anchor first. */
    ghost function Spine(): seq<N> {
      behind + if unlinked && ahead != [] then ahead[1..] else ahead
    }

    /** The node is linked, or is the unlinked current node. */
    ghost predicate Has(n: N) {
      n in behind || n in ahead
    }

    ghost function Next(): Cursor<N> {
      if ahead == [] then this
      else if !stepOnNext then this.(stepOnNext := true)
      else if unlinked then Cursor(behind, ahead[1..], false, true)
      else Cursor(behind + [ahead[0]], ahead[1..], false, true)
    }

    ghost function Remove(): Cursor<N> {
      if ahead == [] then this else Cursor(behind, ahead[1..], false, false)
    }

    /** An insertion puts an unlinked current node back into the list. */
    ghost function Insert(link: N): Cursor<N> {
      Cursor(behind + [link], ahead, false, stepOnNext)
    }

    /** `HdfSListRemove` on the current node. */
    ghost function ListRemove(): Cursor<N> {
      this.(unlinked := true)
    }
  }

  ghost function Zip<N>(s: seq<N>, k: nat, unlinked: bool, stepOnNext: bool): Cursor<N>
    requires k < |s|
  {
    Cursor(s[..k + 1], s[k + 1..], unlinked, stepOnNext)
  }

  ghost function View<T(0)>(it: Iterator<T>): Cursor<Node<T>>
    requires it.Valid()
    reads it, it.list, it.list.spine, it.curr
  {
    Zip(it.Relinked(), it.k, it.CurrentUnlinked(), it.stepOnNext)
  }

  lemma ZipInsert<N>(s: seq<N>, k: nat, link: N)
    requires k < |s|
    ensures var t := s[..k + 1] + [link] + s[k + 1..];
      && t[..k + 2] == s[..k + 1] + [link] && t[k + 2..] == s[k + 1..]
      && t[..k + 1] == s[..k + 1] && t[k + 1..] == [link] + s[k + 1..] && t[k + 1..][1..] == s[k + 1..]
  {
  }

  lemma ZipRemove<N>(s: seq<N>, k: nat)
    requires k + 1 < |s|
    ensures var t := s[..k + 1] + s[k + 2..];
      && t[..k + 1] == s[..k + 1] && t[k + 1..] == s[k + 1..][1..]
      && t[..k + 1] + [s[k + 1]] + t[k + 1..] == s
  {
  }

  lemma ViewFacts<T(0)>(it: Iterator<T>)
    requires it.Valid()
    ensures
      var c := View(it);
      && it.list.spine == c.Spine() && it.Relinked() == c.behind + c.ahead
      && |c.behind| == it.k + 1 && it.prev == c.behind[it.k]
      && it.curr == (if c.ahead == [] then null else c.ahead[0])
      && (c.unlinked ==> c.ahead != [])
  {
    hide Chain;
    var s := it.list.spine;
    assert it.Relinked() == it.Relinked()[..it.k + 1] + it.Relinked()[it.k + 1..];
    if it.CurrentUnlinked() {
      ZipInsert(s, it.k, it.curr);
      assert s == s[..it.k + 1] + s[it.k + 1..];
    }
  }

  /** Whatever is linked shows in the view. */
  lemma LinkedShows<T(0)>(it: Iterator<T>)
    requires it.Valid()
    ensures forall n :: n in it.list.spine ==> View(it).Has(n)
  {
    hide Chain;
    ViewFacts(it);
    var c := View(it);
    forall n | n in it.list.spine ensures c.Has(n) {
      assert n in c.Spine();
    }
  }

  method IteratorInsert<T(0)>(it: Iterator<T>, link: Node<T>)
    requires it.Valid() && !View(it).Has(link)
    modifies it, it.list`spine, it.prev`next, link`next
    ensures it.Valid() && it.prev == link && View(it) == old(View(it)).Insert(link)
  {
    hide Chain;
    ViewFacts(it);
    LinkedShows(it);
    ZipInsert(it.Relinked(), it.k, link);
    ghost var at := it.Insert(link);
  }

  method IteratorRemove<T(0)>(it: Iterator<T>)
    requires it.Valid()
    modifies it, it.list`spine, it.prev`next
    ensures it.Valid() && it.prev == old(it.prev) && View(it) == old(View(it)).Remove()
  {
    hide Chain;
    ViewFacts(it);
    ghost var s, k, c := it.list.spine, it.k, View(it);
    if it.CurrentUnlinked() {
      ZipInsert(s, k, it.curr);
    } else if it.curr != null {
      ZipRemove(s, k);
    }
    it.Remove();
    assert View(it).behind == c.behind;
  }

  method IteratorNext<T(0)>(it: Iterator<T>) returns (r: Node?<T>)
    requires it.Valid()
    modifies it
    ensures it.Valid() && View(it) == old(View(it)).Next() && r == it.curr
  {
    hide Chain;
    ghost var s, k, c := it.list.spine, it.k, View(it);
    if it.CurrentUnlinked() {
      ZipInsert(s, k, it.curr);
    } else if k + 1 < |s| {
      assert s[..k + 2] == s[..k + 1] + [s[k + 1]];
    }
    r := it.Next();
  }

  lemma NextOfCurrent<T(0)>(it: Iterator<T>)
    requires it.Valid() && it.curr != null && !it.CurrentUnlinked()
    ensures it.curr.next == if it.k + 2 < |it.list.spine| then it.list.spine[it.k + 2] else null
  {
    assert it.list.spine[it.k + 1] == it.curr;
  }

  method RemoveLinked<T(0)>(it: Iterator<T>)
    requires it.Valid() && it.stepOnNext && it.curr != null && !it.CurrentUnlinked()
    modifies it.list`spine, it.list.spine`next
    ensures it.Valid() && it.CurrentUnlinked()
    ensures it.list.spine == old(it.list.spine)[..it.k + 1] + old(it.list.spine)[it.k + 2..]
  {
    hide Chain;
    ghost var s := it.list.spine;
    ChainIsDistinct(s);
    NextOfCurrent(it);
    ghost var i := it.list.Remove(it.curr);
    assert i == it.k + 1;
  }

  method UnlinkCurrent<T(0)>(it: Iterator<T>)
    requires it.Valid() && it.stepOnNext && it.curr != null && !it.CurrentUnlinked()
    modifies it.list`spine, it.list.spine`next
    ensures it.Valid() && View(it) == old(View(it)).ListRemove()
  {
    hide Chain;
    ZipRemove(it.list.spine, it.k);
    RemoveLinked(it);
  }

  /** What a loop body may do with the list after a call of Next. */
  datatype Op<N> = Insert(link: N) | Remove | ListRemove

  ghost function Do<N>(c: Cursor<N>, op: Op<N>): Cursor<N> {
    match op
    case Insert(link) => c.Insert(link)
    case Remove => c.Remove()
    case ListRemove => c.ListRemove()
  }

  ghost function DoAll<N>(c: Cursor<N>, ops: seq<Op<N>>): Cursor<N> {
    if ops == [] then c else Do(DoAll(c, ops[..|ops| - 1]), ops[|ops| - 1])
  }

  /** Every node of the cursor lies in `frame`. */
  ghost predicate Within<N>(c: Cursor<N>, frame: set<N>) {
    && (forall i :: 0 <= i < |c.behind| ==> c.behind[i] in frame)
    && (forall i :: 0 <= i < |c.ahead| ==> c.ahead[i] in frame)
  }

  lemma WithinAfterDo<N>(c: Cursor<N>, op: Op<N>, frame: set<N>)
    requires Within(c, frame) && (op.Insert? ==> op.link in frame)
    ensures Within(Do(c, op), frame)
  {
  }

  /** A loop body inserts nodes that are not linked, and removes only the node that Next returned. */
  ghost predicate Allowed<N>(c: Cursor<N>, op: Op<N>) {
    match op
    case Insert(link) => !c.Has(link)
    case Remove => c.ahead != [] && c.stepOnNext
    case ListRemove => c.ahead != [] && c.stepOnNext && !c.unlinked
  }

  ghost predicate AllAllowed<N>(c: Cursor<N>, ops: seq<Op<N>>) {
    forall i :: 0 <= i < |ops| ==> Allowed(DoAll(c, ops[..i]), ops[i])
  }

  method Perform<T(0)>(it: Iterator<T>, op: Op<Node<T>>, ghost frame: set<Node<T>>)
    requires it.Valid() && Allowed(View(it), op)
    requires Within(View(it), frame) && (op.Insert? ==> op.link in frame)
    modifies it, it.list`spine, frame`next
    ensures it.Valid() && View(it) == Do(old(View(it)), op) && Within(View(it), frame)
  {
    hide Chain;
    WithinAfterDo(View(it), op, frame);
    ViewFacts(it);
    match op {
      case Insert(link) => IteratorInsert(it, link);
      case Remove => IteratorRemove(it);
      case ListRemove => UnlinkCurrent(it);
    }
  }

  /** The nodes inserted by a loop body, in order. */
  ghost function Inserts<N>(ops: seq<Op<N>>): seq<N> {
    if ops == [] then []
    else
      var last := ops[|ops| - 1];
      Inserts(ops[..|ops| - 1]) + if last.Insert? then [last.link] else []
  }

  ghost predicate RemovedThroughIterator<N>(ops: seq<Op<N>>) {
    exists i :: 0 <= i < |ops| && ops[i].Remove?
  }

  /** The current node stays in the list: it is not removed through the iterator, and every removal by
      `HdfSListRemove` is undone by a later insertion through the iterator. */
  ghost predicate Survives<N>(ops: seq<Op<N>>) {
    && !RemovedThroughIterator(ops)
    && forall i :: 0 <= i < |ops| && ops[i].ListRemove? ==> exists j :: i < j < |ops| && ops[j].Insert?
  }

  /** What one loop body leaves in place of node `n`. */
  ghost function Outcome<N>(n: N, ops: seq<Op<N>>): seq<N> {
    Inserts(ops) + if Survives(ops) then [n] else []
  }

  /** What a round leaves in place of its node: what it inserted, in order, and the node itself unless it was removed
      through the iterator, or by `HdfSListRemove` without an insertion afterwards. */
  lemma OutcomeMeans<N>(n: N, ops: seq<Op<N>>)
    ensures
      var removed := exists i :: 0 <= i < |ops| && ops[i].Remove?;
      var undone := forall i :: 0 <= i < |ops| && ops[i].ListRemove? ==> exists j :: i < j < |ops| && ops[j].Insert?;
      Outcome(n, ops) == if removed || !undone then Inserts(ops) else Inserts(ops) + [n]
  {
    hide Inserts;
    assert Inserts(ops) + [] == Inserts(ops);
  }

  lemma InsertsMean<N>(ops: seq<Op<N>>, op: Op<N>)
    ensures Inserts<N>([]) == [] && Inserts(ops + [op]) == Inserts(ops) + if op.Insert? then [op.link] else []
  {
    assert (ops + [op])[..|ops|] == ops;
  }

  lemma SurvivesLast<N>(ops: seq<Op<N>>)
    requires ops != []
    ensures
      var most, last := ops[..|ops| - 1], ops[|ops| - 1];
      && (RemovedThroughIterator(ops) <==> RemovedThroughIterator(most) || last.Remove?)
      && (last.Insert? ==> (Survives(ops) <==> !RemovedThroughIterator(most)))
      && (!last.Insert? ==> !Survives(ops))
  {
    var most, last := ops[..|ops| - 1], ops[|ops| - 1];
    assert ops == most + [last];
    if RemovedThroughIterator(most) {
      var i :| 0 <= i < |most| && most[i].Remove?;
      assert ops[i].Remove?;
    }
    if last.Remove? {
      assert ops[|ops| - 1].Remove?;
    }
    if last.Insert? {
      assert ops[|ops| - 1].Insert?;
    }
  }

  /** Where a loop body has brought the cursor: `inserted` stands before the current node, which was removed through
      the iterator, or else is linked or not. */
  ghost predicate InBody<N>(c: Cursor<N>, d: Cursor<N>, inserted: seq<N>, removed: bool, survives: bool)
    requires c.ahead != []
  {
    && d.behind == c.behind + inserted
    && (if removed then !d.stepOnNext && !d.unlinked && d.ahead == c.ahead[1..] && !survives
        else d.stepOnNext && d.ahead == c.ahead && (d.unlinked <==> !survives))
  }

  lemma OneOp<N>(c: Cursor<N>, d: Cursor<N>, inserted: seq<N>, removed: bool, survives: bool, op: Op<N>)
    requires c.ahead != [] && InBody(c, d, inserted, removed, survives) && Allowed(d, op)
    ensures InBody(c, Do(d, op), inserted + if op.Insert? then [op.link] else [], removed || op.Remove?,
                   op.Insert? && !removed)
  {
  }

  lemma {:induction false} BodyOutcome<N>(c: Cursor<N>, ops: seq<Op<N>>)
    requires c.ahead != [] && c.stepOnNext && !c.unlinked && AllAllowed(c, ops)
    ensures
      var d := DoAll(c, ops);
      && d.behind == c.behind + Inserts(ops)
      && (if RemovedThroughIterator(ops)
          then !d.stepOnNext && !d.unlinked && d.ahead == c.ahead[1..] && !Survives(ops)
          else d.stepOnNext && d.ahead == c.ahead && (d.unlinked <==> !Survives(ops)))
  {
    if ops != [] {
      var most, last := ops[..|ops| - 1], ops[|ops| - 1];
      assert forall i :: 0 <= i < |most| ==> most[..i] == ops[..i];
      BodyOutcome(c, most);
      assert Allowed(DoAll(c, most), last);
      SurvivesLast(ops);
      hide Do, Allowed, AllAllowed, RemovedThroughIterator, Survives;
      OneOp(c, DoAll(c, most), Inserts(most), RemovedThroughIterator(most), Survives(most), last);
    }
  }

  /** The nodes the loop is done with, and those that Next will still return. */
  ghost function Done<N>(c: Cursor<N>): seq<N> {
    if c.stepOnNext && c.ahead != [] && !c.unlinked then c.behind + [c.ahead[0]] else c.behind
  }

  ghost function Rest<N>(c: Cursor<N>): seq<N> {
    if c.stepOnNext && c.ahead != [] then c.ahead[1..] else c.ahead
  }

  /** The iterator after as many rounds of Next and loop body as `script` has entries. */
  ghost function Run<N>(c: Cursor<N>, script: seq<seq<Op<N>>>): Cursor<N> {
    if script == [] then c
    else DoAll(Run(c, script[..|script| - 1]).Next(), script[|script| - 1])
  }

  ghost predicate Permitted<N>(c: Cursor<N>, script: seq<seq<Op<N>>>) {
    forall i :: 0 <= i < |script| ==> AllAllowed(Run(c, script[..i]).Next(), script[i])
  }

  ghost function Outcomes<N>(nodes: seq<N>, script: seq<seq<Op<N>>>): seq<N>
    requires |nodes| == |script|
  {
    if nodes == [] then []
    else
      var i := |nodes| - 1;
      Outcomes(nodes[..i], script[..i]) + Outcome(nodes[i], script[i])
  }

  /** One round returns the next original node and leaves its outcome behind. */
  lemma Round<N>(c: Cursor<N>, ops: seq<Op<N>>)
    requires Rest(c) != [] && (c.unlinked ==> c.stepOnNext) && AllAllowed(c.Next(), ops)
    ensures
      var d := DoAll(c.Next(), ops);
      && c.Next().ahead == Rest(c) && c.Next().behind == Done(c)
      && Done(d) == Done(c) + Outcome(Rest(c)[0], ops) && Rest(d) == Rest(c)[1..]
      && (d.unlinked ==> d.stepOnNext)
  {
    BodyOutcome(c.Next(), ops);
  }

  lemma PermittedPrefix<N>(c: Cursor<N>, script: seq<seq<Op<N>>>, n: nat)
    requires n < |script| && Permitted(c, script)
    ensures Permitted(c, script[..n]) && AllAllowed(Run(c, script[..n]).Next(), script[n])
  {
    assert forall i :: 0 <= i < n ==> script[..n][..i] == script[..i];
  }

  /** After `i` rounds each body has left its outcome in the place of its node, and the nodes still to
      come are the original ones. */
  ghost predicate Rounds<N>(c: Cursor<N>, base: seq<N>, nodes: seq<N>, script: seq<seq<Op<N>>>)
    requires |script| <= |nodes|
  {
    && Done(c) == base + Outcomes(nodes[..|script|], script)
    && Rest(c) == nodes[|script|..]
    && (c.unlinked ==> c.stepOnNext)
  }

  lemma Associative<X>(a: seq<X>, b: seq<X>, c: seq<X>)
    ensures (a + b) + c == a + (b + c)
  {
  }

  lemma OutcomesLast<N>(nodes: seq<N>, script: seq<seq<Op<N>>>, ops: seq<Op<N>>)
    requires |script| < |nodes|
    ensures Outcomes(nodes[..|script| + 1], script + [ops]) ==
      Outcomes(nodes[..|script|], script) + Outcome(nodes[|script|], ops)
  {
    hide Outcomes;
    var n := |script|;
    assert nodes[..n + 1] == nodes[..n] + [nodes[n]];
    OutcomesAppend(nodes[..n], script, nodes[n], ops);
  }

  lemma OutcomesAppend<N>(nodes: seq<N>, script: seq<seq<Op<N>>>, n: N, ops: seq<Op<N>>)
    requires |script| == |nodes|
    ensures Outcomes(nodes + [n], script + [ops]) == Outcomes(nodes, script) + Outcome(n, ops)
  {
    hide Outcome;
    assert (script + [ops])[..|script|] == script && (nodes + [n])[..|nodes|] == nodes;
  }

  lemma OneMoreRound<N>(c: Cursor<N>, base: seq<N>, nodes: seq<N>, script: seq<seq<Op<N>>>, ops: seq<Op<N>>)
    requires |script| < |nodes| && Rounds(c, base, nodes, script) && AllAllowed(c.Next(), ops)
    ensures Rounds(DoAll(c.Next(), ops), base, nodes, script + [ops])
    ensures c.Next().ahead == nodes[|script|..] && c.Next().stepOnNext && !c.Next().unlinked
  {
    OutcomesLast(nodes, script, ops);
    assert Rest(c)[0] == nodes[|script|] && Rest(c)[1..] == nodes[|script| + 1..];
    var d := DoAll(c.Next(), ops);
    assert Done(d) == Done(c) + Outcome(nodes[|script|], ops) && Rest(d) == nodes[|script| + 1..]
      && (d.unlinked ==> d.stepOnNext) && c.Next().ahead == nodes[|script|..] by {
      Round(c, ops);
    }
    Associative(base, Outcomes(nodes[..|script|], script), Outcome(nodes[|script|], ops));
    assert |script + [ops]| == |script| + 1;
  }

  lemma NoRounds<N>(c: Cursor<N>)
    requires !c.stepOnNext && !c.unlinked
    ensures Rounds(c, c.behind, c.ahead, [])
  {
    assert c.ahead[..0] == [] && c.ahead[0..] == c.ahead;
  }

  lemma {:induction false} RunOutcomes<N>(c: Cursor<N>, script: seq<seq<Op<N>>>)
    requires !c.stepOnNext && !c.unlinked && |script| <= |c.ahead| && Permitted(c, script)
    ensures Rounds(Run(c, script), c.behind, c.ahead, script)
  {
    hide AllAllowed, Rounds, DoAll, Permitted;
    if script == [] {
      NoRounds(c);
    } else {
      var n := |script| - 1;
      PermittedPrefix(c, script, n);
      RunOutcomes(c, script[..n]);
      OneMoreRound(Run(c, script[..n]), c.behind, c.ahead, script[..n], script[n]);
      assert script == script[..n] + [script[n]];
    }
  }

  lemma SpineIsDoneAndRest<N>(c: Cursor<N>)
    requires c.unlinked ==> c.stepOnNext && c.ahead != []
    ensures c.Spine() == Done(c) + Rest(c)
  {
  }

  method IteratorHasNext<T(0)>(it: Iterator<T>) returns (more: bool)
    requires it.Valid()
    ensures more <==> Rest(View(it)) != []
  {
    ViewFacts(it);
    more := it.HasNext();
  }

  /** The body of the loop in `HdfSListFlush`. */
  method TakeNext<T(0)>(it: Iterator<T>) returns (node: Node<T>)
    requires it.Valid() && View(it).ahead != [] && !View(it).stepOnNext && !View(it).unlinked
    modifies it, it.list`spine, it.prev`next
    ensures it.Valid() && it.prev == old(it.prev)
    ensures View(it) == old(View(it)).(ahead := old(View(it)).ahead[1..]) && node == old(View(it)).ahead[0]
  {
    hide Chain;
    ViewFacts(it);
    var n := IteratorNext(it);
    ViewFacts(it);
    node := n;
    IteratorRemove(it);
  }

  /** `HdfSListFlush`: unlinks every node and hands it to the deleter, in order. */
  method Flush<T(0)>(list: List<T>) returns (deleted: seq<Node<T>>)
    requires list.Valid()
    modifies list`spine, list.anchor`next
    ensures list.Valid() && list.spine == [list.anchor] && deleted == old(list.spine)[1..]
  {
    hide *;
    deleted := [];
    var it := new Iterator(list);
    ghost var c := InitialView(it);
    ghost var rest := c.ahead;
    var more := MoreToTake(it);
    while more
      invariant it.Valid() && it.list == list && fresh(it) && it.prev == list.anchor
      invariant View(it) == Cursor(c.behind, rest, false, false) && c.ahead == deleted + rest
      invariant more <==> rest != []
      decreases rest
    {
      assert rest == [rest[0]] + rest[1..];
      Associative(deleted, [rest[0]], rest[1..]);
      var node := TakeNext(it);
      deleted, rest := deleted + [node], rest[1..];
      more := MoreToTake(it);
    }
    NothingLeft(it);
  }

  method MoreToTake<T(0)>(it: Iterator<T>) returns (more: bool)
    requires it.Valid() && !View(it).stepOnNext
    ensures more <==> View(it).ahead != []
  {
    more := IteratorHasNext(it);
  }

  lemma NothingLeft<T(0)>(it: Iterator<T>)
    requires it.Valid() && View(it).ahead == []
    ensures it.list.Valid() && it.list.spine == View(it).behind
  {
    ViewFacts(it);
  }

  lemma InitialView<T(0)>(it: Iterator<T>) returns (c: Cursor<Node<T>>)
    requires it.Valid() && it.k == 0 && !it.stepOnNext && !it.CurrentUnlinked()
    ensures c == View(it) == Cursor([it.list.anchor], it.list.spine[1..], false, false)
    ensures it.prev == it.list.anchor
  {
    c := View(it);
  }

  lemma DoOneMore<N>(c: Cursor<N>, ops: seq<Op<N>>, i: nat)
    requires i < |ops|
    ensures DoAll(c, ops[..i + 1]) == Do(DoAll(c, ops[..i]), ops[i])
  {
    assert ops[..i + 1][..i] == ops[..i];
  }

  method PerformAll<T(0)>(it: Iterator<T>, ops: seq<Op<Node<T>>>, ghost frame: set<Node<T>>)
    requires it.Valid() && AllAllowed(View(it), ops)
    requires Within(View(it), frame) && forall i :: 0 <= i < |ops| && ops[i].Insert? ==> ops[i].link in frame
    modifies it, it.list`spine, frame`next
    ensures it.Valid() && View(it) == DoAll(old(View(it)), ops) && Within(View(it), frame)
  {
    var i := 0;
    ghost var c, v := View(it), View(it);
    assert ops[..0] == [];
    while i < |ops|
      invariant 0 <= i <= |ops|
      invariant it.Valid() && View(it) == v && Within(v, frame) && v == DoAll(c, ops[..i])
    {
      assert Allowed(DoAll(c, ops[..i]), ops[i]);
      DoOneMore(c, ops, i);
      v := Do(v, ops[i]);
      Perform(it, ops[i], frame);
      i := i + 1;
    }
    assert ops[..|ops|] == ops;
  }

  /** What the loop below knows before round `i`. */
  lemma RoundOf<N>(c: Cursor<N>, script: seq<seq<Op<N>>>, i: nat)
    requires !c.stepOnNext && !c.unlinked && |script| == |c.ahead| && Permitted(c, script) && i <= |script|
    ensures
      var v := Run(c, script[..i]);
      && (Rest(v) != [] <==> i < |script|)
      && (i < |script| ==>
            && v.Next().ahead != [] && v.Next().ahead[0] == c.ahead[i]
            && AllAllowed(v.Next(), script[i]) && DoAll(v.Next(), script[i]) == Run(c, script[..i + 1]))
      && (i == |script| ==> Done(v) == c.behind + Outcomes(c.ahead, script))
  {
    PermittedPart(c, script, i);
    RunOutcomes(c, script[..i]);
    if i < |script| {
      PermittedPrefix(c, script, i);
      OneMoreRound(Run(c, script[..i]), c.behind, c.ahead, script[..i], script[i]);
      assert script[..i + 1][..i] == script[..i];
    } else {
      assert script[..i] == script && c.ahead[..i] == c.ahead;
    }
  }

  lemma PermittedPart<N>(c: Cursor<N>, script: seq<seq<Op<N>>>, n: nat)
    requires n <= |script| && Permitted(c, script)
    ensures Permitted(c, script[..n])
  {
    assert forall i :: 0 <= i < n ==> script[..n][..i] == script[..i];
  }

  lemma WithinAfterNext<N>(c: Cursor<N>, frame: set<N>)
    requires Within(c, frame)
    ensures Within(c.Next(), frame)
  {
  }

  ghost predicate LinksWithin<N>(script: seq<seq<Op<N>>>, frame: set<N>) {
    forall i, j :: 0 <= i < |script| && 0 <= j < |script[i]| && script[i][j].Insert? ==> script[i][j].link in frame
  }

  /** The loop has gone through `i` rounds of the script. */
  ghost predicate AtRound<T(0)>(it: Iterator<T>, c: Cursor<Node<T>>, script: seq<seq<Op<Node<T>>>>,
                             i: nat, frame: set<Node<T>>)
    reads it, it.list, it.list.spine, it.curr
  {
    it.Valid() && i <= |script| && View(it) == Run(c, script[..i]) && Within(View(it), frame)
  }

  method NextRound<T(0)>(it: Iterator<T>, ghost c: Cursor<Node<T>>, script: seq<seq<Op<Node<T>>>>, i: nat,
    ghost frame: set<Node<T>>) returns (node: Node<T>)
    requires !c.stepOnNext && !c.unlinked && |script| == |c.ahead| && Permitted(c, script) && LinksWithin(script, frame)
    requires i < |script| && AtRound(it, c, script, i, frame)
    modifies it, it.list`spine, frame`next
    ensures AtRound(it, c, script, i + 1, frame) && node == c.ahead[i]
  {
    RoundOf(c, script, i);
    WithinAfterNext(View(it), frame);
    var n := IteratorNext(it);
    ViewFacts(it);
    node := n;
    PerformAll(it, script[i], frame);
  }

  method MoreRounds<T(0)>(it: Iterator<T>, ghost c: Cursor<Node<T>>, script: seq<seq<Op<Node<T>>>>, ghost i: nat,
    ghost frame: set<Node<T>>) returns (more: bool)
    requires !c.stepOnNext && !c.unlinked && |script| == |c.ahead| && Permitted(c, script)
    requires AtRound(it, c, script, i, frame)
    ensures more <==> i < |script|
  {
    RoundOf(c, script, i);
    more := IteratorHasNext(it);
  }

  /** A loop over the whole list whose body, in round `i`, performs the operations `script[i]`. */
  method AllRounds<T(0)>(it: Iterator<T>, ghost c: Cursor<Node<T>>, script: seq<seq<Op<Node<T>>>>,
                      ghost frame: set<Node<T>>)
    returns (visited: seq<Node<T>>)
    requires !c.stepOnNext && !c.unlinked && |script| == |c.ahead| && Permitted(c, script) && LinksWithin(script, frame)
    requires AtRound(it, c, script, 0, frame)
    modifies it, it.list`spine, frame`next
    ensures AtRound(it, c, script, |script|, frame) && visited == c.ahead
  {
    hide AtRound;
    visited := [];
    var i := 0;
    var more := MoreRounds(it, c, script, 0, frame);
    while more
      invariant 0 <= i <= |script| && AtRound(it, c, script, i, frame)
      invariant visited == c.ahead[..i]
      invariant more <==> i < |script|
      decreases |script| - i
    {
      var node := NextRound(it, c, script, i, frame);
      visited := visited + [node];
      i := i + 1;
      more := MoreRounds(it, c, script, i, frame);
    }
    assert c.ahead[..i] == c.ahead;
  }

  lemma AfterAllRounds<T(0)>(it: Iterator<T>, c: Cursor<Node<T>>, script: seq<seq<Op<Node<T>>>>, frame: set<Node<T>>)
    requires !c.stepOnNext && !c.unlinked && |script| == |c.ahead| && Permitted(c, script)
    requires AtRound(it, c, script, |script|, frame)
    ensures it.list.spine == c.behind + Outcomes(c.ahead, script)
  {
    RoundOf(c, script, |script|);
    ViewFacts(it);
    SpineIsDoneAndRest(View(it));
  }

  /** A traversal returns every original node once, in order, whatever the loop bodies insert or remove,
      and leaves the outcome of each body in the place of its node. */
  method Traverse<T(0)>(list: List<T>, script: seq<seq<Op<Node<T>>>>, ghost frame: set<Node<T>>)
    returns (visited: seq<Node<T>>)
    requires list.Valid() && |script| == |list.spine| - 1
    requires Permitted(Cursor(list.spine[..1], list.spine[1..], false, false), script)
    requires (forall i :: 0 <= i < |list.spine| ==> list.spine[i] in frame) && LinksWithin(script, frame)
    modifies list`spine, frame`next
    ensures list.Valid() && visited == old(list.spine)[1..]
    ensures list.spine == [list.anchor] + Outcomes(old(list.spine)[1..], script)
  {
    var it := new Iterator(list);
    ghost var c := View(it);
    assert c.behind == [list.anchor] && c.ahead == list.spine[1..] && script[..0] == [];
    visited := AllRounds(it, c, script, frame);
    AfterAllRounds(it, c, script, frame);
  }
}
