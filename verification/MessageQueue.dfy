/** The message queue and the looper on the linked list: `utils/src/osal_msg_queue.c` and
    `utils/src/hdf_message_looper.c`. */
module MessageQueue {
  import opened Base
  import opened SList
  import opened SListTraversal
  import opened MessageOrder
  import LooperRuns

  lemma LatePosIs(q: seq<Message>, t: nat, p: nat)
    requires p <= |q| && (forall i :: 0 <= i < p ==> q[i].timeStamp <= t) && (p < |q| ==> q[p].timeStamp > t)
    ensures LatePos(q, t) == p
  {
  }

  lemma DuePosIs(q: seq<Message>, t: nat, p: nat)
    requires p <= |q| && (forall i :: 0 <= i < p ==> q[i].timeStamp > t) && (p < |q| ==> q[p].timeStamp <= t)
    ensures DuePos(q, t) == p
  {
  }

  /** The position `i` of the first node whose item is accepted. */
  ghost predicate FirstAt<T(0)>(s: seq<Node<T>>, accept: T -> bool, i: nat)
    requires 0 < i <= |s|
    reads s
  {
    && (forall j :: 0 < j < i ==> !accept(s[j].item))
    && (i < |s| ==> accept(s[i].item))
  }

  /** The place of a node in a list, or the length of the spine if it is not there. */
  ghost predicate PlacedAt<T(0)>(s: seq<Node<T>>, node: Node<T>, x: nat) {
    0 < x <= |s| && if x < |s| then s[x] == node else node !in s
  }

  lemma PlaceIn<T(0)>(list: List<T>, node: Node<T>) returns (x: nat)
    requires list.Valid() && node != list.anchor
    ensures PlacedAt(list.spine, node, x)
  {
    x := |list.spine|;
    if node in list.spine {
      x :| 0 <= x < |list.spine| && list.spine[x] == node;
    }
  }

  lemma PlacedOnce<T(0)>(s: seq<Node<T>>, node: Node<T>, x: nat, y: nat)
    requires Distinct(s) && PlacedAt(s, node, x)
    requires y <= |s| && if y < |s| then s[y] == node else node !in s
    ensures x == y
  {
  }

  /** The loop of `HdfMessageQueueEnqueue`: before the first accepted node, or at the end. A node that is in the list
      already, at `x`, stays the last one, cuts out what stands between it and the accepted node, or makes a circle. */
  method InsertBeforeFirst<T(0)>(list: List<T>, node: Node<T>, accept: T -> bool, ghost x: nat) returns (ghost i: nat)
    requires list.Valid() && node != list.anchor && PlacedAt(list.spine, node, x)
    modifies list`spine, list.spine`next, node`next
    ensures 0 < i <= |old(list.spine)| && FirstAt(old(list.spine), accept, i)
    ensures x == |old(list.spine)| ==>
      list.Valid() && list.spine == old(list.spine)[..i] + [node] + old(list.spine)[i..]
    ensures x < |old(list.spine)| == i ==> list.Valid() && list.spine == old(list.spine)
    ensures x + 1 < i < |old(list.spine)| ==>
      list.Valid() && list.spine == old(list.spine)[..x + 1] + old(list.spine)[i..]
    ensures i <= x + 1 && x < |old(list.spine)| && i < |old(list.spine)| ==>
      forall c: seq<Node<T>> :: Chain(c) ==> c[0] != list.anchor
  {
    ghost var s := list.spine;
    ChainIsDistinct(s);
    hide Chain, Distinct;
    var it := new Iterator(list);
    var next: Node?<T>;
    next, i := SeekFirst(it, accept);
    if next != null {
      ghost var at := it.Insert(node);
      PlacedOnce(s, node, x, at);
    } else {
      list.AddTail(node);
      assert s[..i] + [node] + s[i..] == s + [node];
    }
  }

  /** The loop of `HdfMessageQueueNext`: unlinks the first accepted node. */
  method TakeFirst<T(0)>(list: List<T>, accept: T -> bool) returns (node: Node?<T>, ghost i: nat)
    requires list.Valid()
    modifies list`spine, list.spine`next
    ensures list.Valid() && 0 < i <= |old(list.spine)| && FirstAt(old(list.spine), accept, i)
    ensures
      if i == |old(list.spine)| then node == null && list.spine == old(list.spine)
      else node == old(list.spine)[i] && list.spine == old(list.spine)[..i] + old(list.spine)[i + 1..]
  {
    hide Chain;
    var it := new Iterator(list);
    node, i := SeekFirst(it, accept);
    if node != null {
      it.Remove();
    }
  }

  lemma LateFromFirst(s: seq<Node<Message>>, t: nat, i: nat)
    requires 0 < i <= |s| && FirstAt(s, (m: Message) => m.timeStamp > t, i)
    ensures LatePos(Items(s[1..]), t) == i - 1
  {
    LatePosIs(Items(s[1..]), t, i - 1);
  }

  lemma DueFromFirst(s: seq<Node<Message>>, t: nat, i: nat)
    requires 0 < i <= |s| && FirstAt(s, (m: Message) => m.timeStamp <= t, i)
    ensures DuePos(Items(s[1..]), t) == i - 1
  {
    DuePosIs(Items(s[1..]), t, i - 1);
  }

  lemma ItemsAfterCutOut<T(0)>(s: seq<Node<T>>, x: nat, i: nat)
    requires 0 < x < i < |s|
    ensures
      var q := Items(s[1..]);
      Items((s[..x + 1] + s[i..])[1..]) == q[..x] + q[i - 1..]
  {
    assert (s[..x + 1] + s[i..])[1..] == s[1..x + 1] + s[i..];
  }

  /** The message at place `p` of `q` is inserted again in front of a message at place `l`, behind no other one. */
  ghost predicate MakesCircle(q: seq<Message>, p: nat, l: nat) {
    l <= p + 1 && l < |q|
  }

  /** The queue after that, if it is no circle: the message stays the last one, or cuts out those between. */
  ghost function Requeued(q: seq<Message>, p: nat, l: nat): seq<Message>
    requires p < |q| && l <= |q| && !MakesCircle(q, p, l)
  {
    if l == |q| then q else q[..p + 1] + q[l..]
  }

  class Queue {
    const list: List<Message>
    var semaphore: nat

    ghost predicate Valid()
      reads list, list.spine
    {
      list.Valid()
    }

    ghost function Messages(): seq<Message>
      requires Valid()
      reads list, list.spine
    {
      list.Contents()
    }

    constructor ()
      ensures Valid() && Messages() == [] && semaphore == 0 && fresh(list) && fresh(list.spine)
    {
      list := new List<Message>();
      semaphore := 0;
    }

    /** The part of `HdfMessageQueueEnqueue` under the lock, for a message that has been stamped. */
    method Link(node: Node<Message>, ghost p: nat)
      requires Valid() && node != list.anchor && PlacedAt(list.spine, node, p + 1) && p <= |Messages()|
      modifies list`spine, list.spine`next, node`next
      ensures p == |old(Messages())| ==> Valid() && Messages() == InsertByTime(old(Messages()), node.item)
      ensures p < |old(Messages())| ==>
        var q := old(Messages());
        var l := LatePos(q, node.item.timeStamp);
        if MakesCircle(q, p, l) then forall c: seq<Node<Message>> :: Chain(c) ==> c[0] != list.anchor
        else Valid() && Messages() == Requeued(q, p, l)
    {
      hide Chain, FirstAt, LatePos;
      ghost var s, q := list.spine, Messages();
      var t := node.item.timeStamp;
      ghost var i := InsertBeforeFirst(list, node, (m: Message) => m.timeStamp > t, p + 1);
      LateFromFirst(s, t, i);
      assert Items(s[1..]) == q;
      hide Items;
      if p == |q| {
        ItemsAfterInsert(s, i, node);
      } else if p + 2 < i < |s| {
        ItemsAfterCutOut(s, p + 1, i);
      }
    }

    /** Other messages keep their stamps. */
    lemma OneStamped(node: Node<Message>, q: seq<Message>, p: nat)
      requires Valid() && |q| + 1 == |list.spine| && PlacedAt(list.spine, node, p + 1)
      requires forall i {:trigger list.spine[i]} :: 0 < i < |list.spine| && i != p + 1 ==>
        list.spine[i].item == q[i - 1]
      ensures Messages() == if p < |q| then q[p := node.item] else q
    {
      hide Chain;
    }

    lemma PlaceOf(node: Node<Message>) returns (p: nat)
      requires Valid() && node != list.anchor
      ensures PlacedAt(list.spine, node, p + 1)
      ensures forall i {:trigger list.spine[i]} :: 0 < i < |list.spine| && i != p + 1 ==> list.spine[i] != node
      ensures |Messages()| + 1 == |list.spine|
    {
      var x := PlaceIn(list, node);
      p := x - 1;
      ChainIsDistinct(list.spine);
    }

    method StampNode(node: Node<Message>, now: nat) returns (ghost p: nat)
      requires Valid() && node != list.anchor
      modifies node`item
      ensures Valid() && PlacedAt(list.spine, node, p + 1) && p <= |old(Messages())|
      ensures node.item == Stamp(old(node.item), now)
      ensures Messages() == if p < |old(Messages())| then old(Messages())[p := node.item] else old(Messages())
    {
      hide Chain;
      ghost var q := Messages();
      p := PlaceOf(node);
      node.item := Stamp(node.item, now);
      OneStamped(node, q, p);
    }

    /** `HdfMessageQueueEnqueue`: stamp, insert before the first later message, post. A message that is in the queue
        already, at place `p`, is stamped there and inserted like any other. */
    method Enqueue(node: Node<Message>, now: nat) returns (ghost p: nat)
      requires Valid() && node != list.anchor
      modifies `semaphore, list`spine, list.spine`next, node
      ensures node.item == Stamp(old(node.item), now) && semaphore == old(semaphore) + 1
      ensures PlacedAt(old(list.spine), node, p + 1)
      ensures p == |old(Messages())| ==> Valid() && Messages() == InsertByTime(old(Messages()), node.item)
      ensures p < |old(Messages())| ==>
        var q := old(Messages())[p := node.item];
        var l := LatePos(q, node.item.timeStamp);
        if MakesCircle(q, p, l) then forall c: seq<Node<Message>> :: Chain(c) ==> c[0] != list.anchor
        else Valid() && Messages() == Requeued(q, p, l)
    {
      hide *;
      p := StampNode(node, now);
      Link(node, p);
      semaphore := semaphore + 1;
    }

    /** The part of `HdfMessageQueueNext` under the lock: take the first message that is due. */
    method TakeDue(now: nat) returns (node: Node?<Message>)
      requires Valid()
      modifies list`spine, list.spine`next
      ensures Valid() && forall n :: n in list.spine ==> n in old(list.spine)
      ensures
        var q, p := old(Messages()), DuePos(old(Messages()), now);
        if p == |q| then node == null && Messages() == q
        else node != null && node.item == q[p] && Messages() == q[..p] + q[p + 1..]
    {
      hide Chain, FirstAt, DuePos;
      ghost var s, q := list.spine, Messages();
      ghost var i: nat;
      node, i := TakeFirst(list, (m: Message) => m.timeStamp <= now);
      DueFromFirst(s, now, i);
      assert Items(s[1..]) == q;
      if node != null {
        ItemsAfterCut(s, i);
      }
    }

    /** `OsalSemWait` without a timeout: it takes one unit, or blocks. */
    method SemWait() returns (passed: bool)
      requires Valid()
      modifies `semaphore
      ensures Valid() && Messages() == old(Messages())
      ensures passed <==> old(semaphore) > 0
      ensures semaphore == if passed then old(semaphore) - 1 else old(semaphore)
    {
      passed := semaphore > 0;
      if passed {
        semaphore := semaphore - 1;
      }
    }

    /** `OsalMessageQueueDestroy`: hands every message to the deleter. */
    method Destroy() returns (deleted: seq<Message>)
      requires Valid()
      modifies list`spine, list.anchor`next
      ensures Valid() && Messages() == [] && deleted == old(Messages()) && list.spine == [list.anchor]
    {
      ghost var s := list.spine;
      var nodes := Flush(list);
      deleted := seq(|nodes|, i requires 0 <= i < |nodes| reads nodes => nodes[i].item);
    }
  }

  /** The messages that reach a task. */
  function Targeted(out: seq<Message>): seq<Message> {
    if out == [] then []
    else
      var m := out[|out| - 1];
      Targeted(out[..|out| - 1]) + if !m.stop && m.hasTarget then [m] else []
  }

  lemma AnchorLinked<T(0)>(list: List<T>)
    requires list.Valid()
    ensures list.anchor in list.spine
  {
  }

  lemma TargetedLast(out: seq<Message>, m: Message)
    ensures Targeted(out + [m]) == Targeted(out) + if !m.stop && m.hasTarget then [m] else []
  {
    assert (out + [m])[..|out|] == out;
  }

  /** After `i` passes: how many took a message, took a unit of the semaphore, or blocked; `was` are the messages taken
      before, and `units` is what the semaphore held. */
  ghost predicate Balanced(q: seq<Message>, sem: int, out: seq<Message>, was: seq<Message>, units: int,
                           clocks: seq<nat>, i: nat, waits: nat, blocked: bool, goOn: bool)
    requires i <= |clocks|
  {
    && sem == units - waits && was <= out && i == |out| - |was| + waits + (if blocked then 1 else 0)
    && (blocked ==> !goOn && i > 0 && sem == 0 && forall j :: 0 <= j < |q| ==> q[j].timeStamp > clocks[i - 1])
    && (!goOn && !blocked ==> |was| < |out| && out[|out| - 1].stop && q == [])
  }

  lemma BalancedAtFirst(q: seq<Message>, units: int, was: seq<Message>, clocks: seq<nat>)
    ensures Balanced(q, units, was, was, units, clocks, 0, 0, false, true)
  {
  }

  lemma BalancedAfter(q: seq<Message>, sem: int, out: seq<Message>, was: seq<Message>, units: int, clocks: seq<nat>,
                      i: nat, waits: nat, q': seq<Message>, sem': int, out': seq<Message>, goOn: bool)
    requires i < |clocks| && Balanced(q, sem, out, was, units, clocks, i, waits, false, true) && sem >= 0
    requires var p := DuePos(q, clocks[i]);
      if p == |q| then q' == q && out' == out && (goOn <==> sem > 0) && sem' == sem - (if goOn then 1 else 0)
      else sem' == sem && (goOn <==> !q[p].stop) && out' == out + [q[p]] && (q[p].stop ==> q' == [])
    ensures var taken := DuePos(q, clocks[i]) < |q|;
      Balanced(q', sem', out', was, units, clocks, i + 1, if !taken && goOn then waits + 1 else waits,
               !taken && !goOn, goOn)
  {
  }

  lemma BalancedMeans(q: seq<Message>, sem: int, out: seq<Message>, was: seq<Message>, units: int,
                      clocks: seq<nat>, i: nat, waits: nat, blocked: bool, goOn: bool)
    requires i <= |clocks| && Balanced(q, sem, out, was, units, clocks, i, waits, blocked, goOn)
    ensures sem == units - waits && was <= out && i == |out| - |was| + waits + if blocked then 1 else 0
    ensures blocked ==> i > 0 && sem == 0 && forall j :: 0 <= j < |q| ==> q[j].timeStamp > clocks[i - 1]
    ensures !goOn && !blocked ==> |was| < |out| && out[|out| - 1].stop && q == []
  {
  }

  class Looper {
    const queue: Queue
    var dispatched: seq<Message>
    var flushed: seq<Message>
    ghost var out: seq<Message>

    ghost predicate Valid()
      reads this, queue, queue.list, queue.list.spine
    {
      queue.Valid() && dispatched == Targeted(out)
    }

    /** The looper and its queue are in state `s` of the step model. */
    ghost predicate Shows(s: LooperRuns.State)
      reads this, queue, queue.list, queue.list.spine
    {
      Valid() && queue.Messages() == s.queue && queue.semaphore == s.sem && out == s.out && flushed == s.flushed
    }

    constructor ()
      ensures Shows(LooperRuns.Start(0)) && fresh(queue) && fresh(queue.list) && fresh(queue.list.spine)
    {
      queue := new Queue();
      dispatched, flushed, out := [], [], [];
    }

    /** `HdfMessageLooperStop` enqueues an undelayed stop message, if memory can be allocated for it. */
    method Stop(id: nat, now: nat, ok: bool)
      requires Valid()
      modifies queue`semaphore, queue.list`spine, queue.list.spine`next
      ensures Valid() && queue.semaphore == old(queue.semaphore) + if ok then 1 else 0
      ensures queue.Messages() ==
        if ok then InsertByTime(old(queue.Messages()), Stamp(Message(id, 0, true, false, 0), now))
        else old(queue.Messages())
    {
      if ok {
        var node := new Node(Message(id, 0, true, false, 0));
        ghost var p := queue.Enqueue(node, now);
      }
    }

    /** The body of the loop in `HdfMessageLooperStart`, for a message that was taken. */
    method Handle(message: Message) returns (goOn: bool)
      requires Valid()
      modifies this, queue.list`spine, queue.list.anchor`next
      ensures Valid() && out == old(out) + [message] && (goOn <==> !message.stop)
      ensures dispatched == old(dispatched) + if !message.stop && message.hasTarget then [message] else []
      ensures queue.list.spine == if message.stop then [queue.list.anchor] else old(queue.list.spine)
      ensures queue.Messages() == if message.stop then [] else old(queue.Messages())
      ensures flushed == if message.stop then old(queue.Messages()) else old(flushed)
    {
      hide Chain, Targeted;
      TargetedLast(out, message);
      out := out + [message];
      if message.stop {
        flushed := queue.Destroy();
        return false;
      } else if message.hasTarget {
        dispatched := dispatched + [message];
      }
      return true;
    }

    /** One pass of the loop in `HdfMessageLooperStart`, with the clock reading `now`: the first message that is due is
        taken, and delivered if it has a target and is no stop message; if none is due, one unit of the semaphore is
        taken and the loop goes on, or it blocks at zero. */
    method OnePass(ghost s: LooperRuns.State, now: nat) returns (goOn: bool)
      requires Shows(s) && s.phase == LooperRuns.Top && s.clock <= now < WORD
      modifies this, queue`semaphore, queue.list`spine, queue.list.spine`next
      ensures Shows(LooperRuns.Pass(s, now)) && (goOn <==> LooperRuns.Pass(s, now).phase == LooperRuns.Top)
      ensures
        var q, p := old(queue.Messages()), DuePos(old(queue.Messages()), now);
        if p == |q| then
          && queue.Messages() == q && out == old(out) && dispatched == old(dispatched) && flushed == old(flushed)
          && (goOn <==> old(queue.semaphore) > 0)
          && queue.semaphore == old(queue.semaphore) - (if goOn then 1 else 0)
        else
          && queue.semaphore == old(queue.semaphore) && (goOn <==> !q[p].stop) && out == old(out) + [q[p]]
          && dispatched == old(dispatched) + (if !q[p].stop && q[p].hasTarget then [q[p]] else [])
          && queue.Messages() == (if q[p].stop then [] else q[..p] + q[p + 1..])
          && flushed == (if q[p].stop then q[..p] + q[p + 1..] else old(flushed))
      ensures forall n :: n in queue.list.spine ==> n in old(queue.list.spine)
    {
      hide Chain, DuePos, Targeted, Items;
      AnchorLinked(queue.list);
      var node := queue.TakeDue(now);
      if node == null {
        goOn := queue.SemWait();
      } else {
        goOn := Handle(node.item);
      }
    }

    /** `HdfMessageLooperStart` over any readings of the clock, until the stop message or until the looper blocks. Of
        `n` readings used, `waits` found nothing due and took a unit of the semaphore, one more, if the looper is
        `blocked`, found it at zero, and each other one took a message. */
    method Start(ghost s: LooperRuns.State, clocks: seq<nat>)
      returns (ghost n: nat, ghost waits: nat, ghost blocked: bool)
      requires Shows(s) && s.phase == LooperRuns.Top && LooperRuns.Rising(s.clock, clocks)
      modifies this, queue`semaphore, queue.list`spine, queue.list.spine`next
      ensures Shows(LooperRuns.Passes(s, clocks)) && n <= |clocks|
      ensures queue.semaphore == old(queue.semaphore) - waits
      ensures old(out) <= out && n == |out| - |old(out)| + waits + if blocked then 1 else 0
      ensures blocked ==>
        && n > 0 && queue.semaphore == 0
        && forall i :: 0 <= i < |queue.Messages()| ==> queue.Messages()[i].timeStamp > clocks[n - 1]
      ensures n < |clocks| && !blocked ==> |old(out)| < |out| && out[|out| - 1].stop && queue.Messages() == []
    {
      hide Chain, DuePos, Targeted, Items, LooperRuns.Pass, Balanced;
      ghost var at, was, units := s, out, queue.semaphore;
      var goOn, i := true, 0;
      waits, blocked := 0, false;
      BalancedAtFirst(queue.Messages(), units, was, clocks);
      while goOn && i < |clocks|
        invariant 0 <= i <= |clocks| && Shows(at) && (goOn <==> at.phase == LooperRuns.Top)
        invariant forall n :: n in queue.list.spine ==> n in old(queue.list.spine)
        invariant LooperRuns.Rising(at.clock, clocks[i..])
        invariant LooperRuns.Passes(s, clocks) == LooperRuns.Passes(at, clocks[i..])
        invariant blocked ==> !goOn
        invariant Balanced(queue.Messages(), queue.semaphore, out, was, units, clocks, i, waits, blocked, goOn)
      {
        assert clocks[i..][1..] == clocks[i + 1..];
        assert forall i :: 0 <= i < |queue.list.spine| ==> queue.list.spine[i] in old(queue.list.spine);
        ghost var taken := DuePos(queue.Messages(), clocks[i]) < |queue.Messages()|;
        ghost var q, o, u := queue.Messages(), out, queue.semaphore;
        goOn := OnePass(at, clocks[i]);
        BalancedAfter(q, u, o, was, units, clocks, i, waits, queue.Messages(), queue.semaphore, out, goOn);
        LooperRuns.PassClock(at, clocks[i]);
        at := LooperRuns.Pass(at, clocks[i]);
        waits, blocked := if !taken && goOn then waits + 1 else waits, !taken && !goOn;
        i := i + 1;
      }
      n := i;
      BalancedMeans(queue.Messages(), queue.semaphore, out, was, units, clocks, i, waits, blocked, goOn);
    }
  }
}
