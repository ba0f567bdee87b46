/** What the looper of `utils/src/hdf_message_looper.c` does with the messages, when each call of
    `HdfMessageQueueEnqueue` runs as one step. */
module LooperOrder {
  import opened MessageOrder
  import opened LooperRuns

  /** `enqueued` lists the stamped messages in the order of the calls; a message's number is its place. */
  datatype History = History(s: State, enqueued: seq<Message>)

  datatype Event =
    | Send(delay: nat, stop: bool, hasTarget: bool)
    | Move(step: Step)

  /** Stamp, insert and post at once. */
  function Enqueue(s: State, m: Message): State
    requires Enabled(s, StampMsg(m))
  {
    var s := Apply(s, StampMsg(m));
    var s := Apply(s, InsertMsg(m.id));
    Apply(s, PostMsg(m.id))
  }

  function NewMessage(h: History, e: Event): Message
    requires e.Send?
  {
    Message(|h.enqueued|, e.delay, e.stop, e.hasTarget, e.delay)
  }

  predicate Possible(h: History, e: Event) {
    match e
    case Send(delay, stop, hasTarget) => Enabled(h.s, StampMsg(NewMessage(h, e)))
    case Move(step) => !step.StampMsg? && !step.InsertMsg? && !step.PostMsg? && Enabled(h.s, step)
  }

  function Happen(h: History, e: Event): History
    requires Possible(h, e)
  {
    match e
    case Send(delay, stop, hasTarget) =>
      var m := NewMessage(h, e);
      History(Enqueue(h.s, m), h.enqueued + [Stamp(m, h.s.clock)])
    case Move(step) => h.(s := Apply(h.s, step))
  }

  ghost predicate Leads(h: History, events: seq<Event>, h': History)
    decreases |events|
  {
    if events == [] then h' == h
    else Possible(h, events[0]) && Leads(Happen(h, events[0]), events[1..], h')
  }

  /** Nothing taken so far is later than the message that is sent. */
  ghost predicate Timely(h: History, e: Event) {
    e.Send? ==>
      forall i :: 0 <= i < |h.s.out| ==> h.s.out[i].timeStamp <= Stamp(NewMessage(h, e), h.s.clock).timeStamp
  }

  ghost predicate AllTimely(h: History, events: seq<Event>)
    decreases |events|
  {
    events == [] ||
    (Possible(h, events[0]) && Timely(h, events[0]) && AllTimely(Happen(h, events[0]), events[1..]))
  }

  /** The messages in the order in which the looper took them, takes them, or flushed them. */
  function Line(s: State): seq<Message> {
    s.out + s.queue + s.flushed
  }

  /** Conservation: each message enqueued is in exactly one place. */
  ghost predicate Conserved(h: History) {
    && multiset(Line(h.s)) == multiset(h.enqueued)
    && (forall i :: 0 <= i < |h.enqueued| ==> h.enqueued[i].id == i)
  }

  ghost predicate OutIsPast(s: State) {
    && s.clock < WORD
    && (forall i :: 0 <= i < |s.out| ==> s.out[i].timeStamp <= s.clock)
    && (s.phase.Reading? ==> s.phase.t <= s.clock)
  }

  ghost predicate StopEnds(s: State) {
    if s.phase == Stopped then
      && s.queue == [] && s.out != [] && s.out[|s.out| - 1].stop
      && (forall i :: 0 <= i < |s.out| - 1 ==> !s.out[i].stop)
      && InOrder([s.out[|s.out| - 1]] + s.flushed)
    else s.flushed == [] && forall i :: 0 <= i < |s.out| ==> !s.out[i].stop
  }

  /** An undelayed message is not stamped later than those enqueued after it, unless their delay wraps round. */
  ghost predicate UndelayedFirst(h: History) {
    && (forall i :: 0 <= i < |h.enqueued| && h.enqueued[i].delay == 0 ==> h.enqueued[i].timeStamp <= h.s.clock)
    && (forall i, j ::
          0 <= i < j < |h.enqueued| && h.enqueued[i].delay == 0 && h.enqueued[j].delay <= h.enqueued[j].timeStamp ==>
            h.enqueued[i].timeStamp <= h.enqueued[j].timeStamp)
  }

  ghost predicate Idle(h: History) {
    h.s.senders == map[] && forall id :: id in h.s.posted ==> id < |h.enqueued|
  }

  ghost predicate Inv(h: History) {
    && InOrder(h.s.queue) && Conserved(h) && OutIsPast(h.s) && StopEnds(h.s)
    && UndelayedFirst(h) && Idle(h)
  }

  lemma EnqueueInserts(s: State, m: Message)
    requires Enabled(s, StampMsg(m)) && s.senders == map[]
    ensures
      var d := Enqueue(s, m);
      && d == s.(queue := InsertByTime(s.queue, Stamp(m, s.clock)), sem := s.sem + 1,
                  posted := s.posted[m.id := s.clock])
  {
    var mm := Stamp(m, s.clock);
    assert (s.senders[m.id := Stamped(mm)])[m.id := Inserted(mm)] - {m.id} == map[];
  }

  lemma ConservedIds(h: History, x: Message)
    requires Conserved(h) && x in Line(h.s)
    ensures x.id < |h.enqueued| && h.enqueued[x.id] == x
  {
    assert x in multiset(Line(h.s));
    assert x in multiset(h.enqueued);
  }

  /** A new message has a larger number than all others. */
  lemma LargestId(h: History, i: nat)
    requires Conserved(h) && i < |Line(h.s)|
    ensures Line(h.s)[i].id < |h.enqueued|
  {
    ConservedIds(h, Line(h.s)[i]);
  }

  lemma InsertIntoQueue(q: seq<Message>, m: Message)
    requires InOrder(q) && forall i :: 0 <= i < |q| ==> q[i].id < m.id
    ensures InOrder(InsertByTime(q, m))
  {
    hide InOrder, InsertByTime;
    assert [] + q == q && [] + InsertByTime(q, m) == InsertByTime(q, m);
    InsertKeepsOrder([], q, m);
  }

  lemma SendKeepsQueue(h: History, e: Event)
    requires Inv(h) && e.Send? && Possible(h, e)
    ensures InOrder(Happen(h, e).s.queue)
  {
    EnqueueInserts(h.s, NewMessage(h, e));
    var q := h.s.queue;
    forall i | 0 <= i < |q| ensures q[i].id < |h.enqueued| {
      assert Line(h.s)[|h.s.out| + i] == q[i];
      LargestId(h, |h.s.out| + i);
    }
    hide InOrder, InsertByTime, Conserved, OutIsPast, UndelayedFirst, StopEnds;
    InsertIntoQueue(q, Stamp(NewMessage(h, e), h.s.clock));
  }

  lemma SendConserves(h: History, e: Event)
    requires Conserved(h) && Idle(h) && h.s.flushed == [] && e.Send? && Possible(h, e)
    ensures Conserved(Happen(h, e))
  {
    hide InsertByTime;
    EnqueueInserts(h.s, NewMessage(h, e));
    InsertMembers(h.s.queue, Stamp(NewMessage(h, e), h.s.clock));
  }

  /** The stamp of a message whose delay does not wrap round is that of a later clock. */
  lemma StampAndDelay(m: Message, now: nat)
    requires m.timeStamp == m.delay < WORD && now < WORD
    ensures var t := Stamp(m, now).timeStamp;
            && (m.delay + now < WORD ==> t == m.delay + now)
            && (m.delay + now >= WORD ==> t == m.delay + now - WORD)
            && (m.delay <= t <==> m.delay + now < WORD)
  {
    StampIsNotEarly(m, now);
  }

  lemma SendKeepsInv(h: History, e: Event)
    requires Inv(h) && e.Send? && Possible(h, e)
    ensures Inv(Happen(h, e))
  {
    hide InsertByTime, InOrder, Conserved, Stamp;
    SendKeepsQueue(h, e);
    SendConserves(h, e);
    EnqueueInserts(h.s, NewMessage(h, e));
    StampKeepsRest(NewMessage(h, e), h.s.clock);
    StampAndDelay(NewMessage(h, e), h.s.clock);
  }

  lemma StampKeepsRest(m: Message, now: nat)
    ensures Stamp(m, now) == m.(timeStamp := Stamp(m, now).timeStamp)
  {
  }

  /** What a look leads to, when it finds the head of the queue due. */
  function Taken(s: State): State
    requires s.queue != []
  {
    var q := s.queue;
    if q[0].stop then s.(queue := [], flushed := q[1..], out := s.out + [q[0]], phase := Stopped)
    else s.(queue := q[1..], out := s.out + [q[0]], phase := Top)
  }

  /** Whatever the time stamps, the queue is looked at from the front only. */
  lemma LookTakesHead(s: State)
    requires Enabled(s, Look) && InOrder(s.queue)
    ensures
      var q := s.queue;
      Apply(s, Look) ==
        if q == [] || q[0].timeStamp > s.phase.t then s.(phase := Waiting(s.phase.t)) else Taken(s)
  {
    OrderGivesTimeOrder(s.queue);
    hide InOrder, TimeOrdered;
    DueIsFirst(s.queue, s.phase.t);
    if s.queue != [] {
      assert s.queue[..0] + s.queue[1..] == s.queue[1..];
    }
  }

  lemma TakeFirst(out: seq<Message>, q: seq<Message>)
    requires q != []
    ensures (out + [q[0]]) + q[1..] + [] == out + q + []
    ensures (out + [q[0]]) + [] + q[1..] == out + q + []
    ensures [q[0]] + q[1..] == q
    ensures InOrder(q) ==> InOrder(q[1..])
  {
  }

  lemma SameLine(h: History, h': History)
    requires Conserved(h) && Line(h'.s) == Line(h.s) && h'.enqueued == h.enqueued
    ensures Conserved(h')
  {
  }

  lemma TakenKeepsParts(s: State)
    requires s.phase.Reading? && s.queue != [] && s.queue[0].timeStamp <= s.phase.t
    requires InOrder(s.queue) && StopEnds(s) && OutIsPast(s)
    ensures var t := Taken(s); InOrder(t.queue) && StopEnds(t) && OutIsPast(t) && Line(t) == Line(s)
  {
    NoneInOrder();
    TakeFirst(s.out, s.queue);
    hide InOrder;
  }

  lemma LookKeepsParts(s: State)
    requires Enabled(s, Look) && InOrder(s.queue) && StopEnds(s) && OutIsPast(s)
    ensures var t := Apply(s, Look);
      && InOrder(t.queue) && StopEnds(t) && OutIsPast(t) && Line(t) == Line(s) && t.clock == s.clock
      && t.senders == s.senders && t.posted == s.posted
  {
    hide InOrder, AfterLook;
    LookTakesHead(s);
    if s.queue != [] && s.queue[0].timeStamp <= s.phase.t {
      TakenKeepsParts(s);
      assert Apply(s, Look) == Taken(s);
    } else {
      assert Apply(s, Look) == s.(phase := Waiting(s.phase.t));
    }
  }

  lemma LookKeepsInv(h: History)
    requires Inv(h) && Enabled(h.s, Look)
    ensures Inv(Happen(h, Move(Look))) && Line(Apply(h.s, Look)) == Line(h.s)
  {
    LookKeepsParts(h.s);
    hide Apply, InOrder, Conserved, UndelayedFirst, StopEnds, OutIsPast, Line;
    SameLine(h, Happen(h, Move(Look)));
    SamePast(h, Happen(h, Move(Look)));
  }

  lemma SamePast(h: History, h': History)
    requires UndelayedFirst(h) && h'.enqueued == h.enqueued && h'.s.clock >= h.s.clock
    ensures UndelayedFirst(h')
  {
  }

  lemma NoneInOrder()
    ensures InOrder([])
  {
  }

  lemma MoveKeepsInv(h: History, e: Event)
    requires Inv(h) && e.Move? && Possible(h, e)
    ensures Inv(Happen(h, e)) && Line(Happen(h, e).s) == Line(h.s)
  {
    hide InOrder, AfterLook;
    match e.step
    case Tick(now) =>
    case ReadClock =>
    case Look => LookKeepsInv(h);
    case Wake =>
  }

  lemma EventKeepsInv(h: History, e: Event)
    requires Inv(h) && Possible(h, e)
    ensures Inv(Happen(h, e))
  {
    if e.Send? {
      SendKeepsInv(h, e);
    } else {
      MoveKeepsInv(h, e);
    }
  }

  lemma {:induction false} RunKeepsInv(h: History, events: seq<Event>, h': History)
    requires Inv(h) && Leads(h, events, h')
    ensures Inv(h')
    decreases |events|
  {
    if events != [] {
      EventKeepsInv(h, events[0]);
      RunKeepsInv(Happen(h, events[0]), events[1..], h');
    }
  }

  lemma StartsInOrder(clock: nat)
    requires clock < WORD
    ensures Inv(History(Start(clock), [])) && InOrder(Line(Start(clock)))
  {
  }

  /** Every message enqueued is processed, flushed by the stop message, or still queued, and in exactly one of these
      places. The queue is in order of time stamps, and in order of enqueuing where those are equal; what the looper
      took is past. */
  lemma ConservationAndOrder(clock: nat, events: seq<Event>, h: History)
    requires clock < WORD && Leads(History(Start(clock), []), events, h)
    ensures multiset(h.s.out) + multiset(h.s.queue) + multiset(h.s.flushed) == multiset(h.enqueued)
    ensures forall i, j :: 0 <= i < j < |h.enqueued| ==> h.enqueued[i] != h.enqueued[j]
    ensures InOrder(h.s.queue) && forall i :: 0 <= i < |h.s.out| ==> h.s.out[i].timeStamp <= h.s.clock
    ensures h.s.phase != Stopped ==> h.s.flushed == []
  {
    StartsInOrder(clock);
    RunKeepsInv(History(Start(clock), []), events, h);
  }

  // When the messages are taken in order.

  lemma InOrderWithout(s: seq<Message>, a: nat, m: Message)
    requires a <= |s| && InOrder(s[..a] + [m] + s[a..])
    ensures InOrder(s) && forall i :: 0 <= i < a ==> Before(s[i], m)
  {
    var r := s[..a] + [m] + s[a..];
    assert r[a] == m;
    forall i, j | 0 <= i < j < |s| ensures Before(s[i], s[j]) {
      assert s[i] == r[if i < a then i else i + 1] && s[j] == r[if j < a then j else j + 1];
    }
    forall i | 0 <= i < a ensures Before(s[i], m) {
      assert r[i] == s[i];
    }
  }

  /** The line, with a message put where its time stamp puts it in the queue, is in order exactly when it was and
      nothing taken so far is later. */
  lemma InsertAndOrder(out: seq<Message>, q: seq<Message>, m: Message)
    requires forall i :: 0 <= i < |out + q| ==> (out + q)[i].id < m.id
    ensures InOrder(out + InsertByTime(q, m)) <==>
      InOrder(out + q) && forall i :: 0 <= i < |out| ==> out[i].timeStamp <= m.timeStamp
  {
    if InOrder(out + InsertByTime(q, m)) {
      var line, a := out + q, |out| + LatePos(q, m.timeStamp);
      assert out + InsertByTime(q, m) == line[..a] + [m] + line[a..];
      InOrderWithout(line, a, m);
      forall i | 0 <= i < |out| ensures out[i].timeStamp <= m.timeStamp {
        assert Before(line[i], m);
      }
    } else if InOrder(out + q) && forall i :: 0 <= i < |out| ==> out[i].timeStamp <= m.timeStamp {
      InsertKeepsOrder(out, q, m);
    }
  }

  lemma SendAndOrder(h: History, e: Event)
    requires Inv(h) && e.Send? && Possible(h, e)
    ensures InOrder(Line(Happen(h, e).s)) <==> InOrder(Line(h.s)) && Timely(h, e)
  {
    hide InsertByTime, InOrder, OutIsPast, UndelayedFirst;
    var s, m := h.s, Stamp(NewMessage(h, e), h.s.clock);
    EnqueueInserts(s, NewMessage(h, e));
    assert Line(s) == s.out + s.queue && Line(Happen(h, e).s) == s.out + InsertByTime(s.queue, m);
    forall i | 0 <= i < |Line(s)| ensures Line(s)[i].id < m.id {
      ConservedIds(h, Line(s)[i]);
    }
    InsertAndOrder(s.out, s.queue, m);
  }

  lemma {:induction false} RunAndOrder(h: History, events: seq<Event>, h': History)
    requires Inv(h) && Leads(h, events, h')
    ensures InOrder(Line(h'.s)) <==> InOrder(Line(h.s)) && AllTimely(h, events)
    decreases |events|
  {
    if events != [] {
      var next := Happen(h, events[0]);
      EventKeepsInv(h, events[0]);
      if events[0].Send? {
        SendAndOrder(h, events[0]);
      } else {
        MoveKeepsInv(h, events[0]);
      }
      hide Inv, InOrder, Line, Happen, Possible;
      RunAndOrder(next, events[1..], h');
    }
  }

  /** In every run, what the looper took, takes and flushed is in order exactly when no message was sent with a time
      stamp that an earlier one had already passed. */
  lemma OrderedIffTimely(clock: nat, events: seq<Event>, h: History)
    requires clock < WORD && Leads(History(Start(clock), []), events, h)
    ensures InOrder(h.s.out + h.s.queue + h.s.flushed) <==> AllTimely(History(Start(clock), []), events)
  {
    StartsInOrder(clock);
    RunAndOrder(History(Start(clock), []), events, h);
  }

  /** That is the case unless the sum of delay and clock wraps round to before something that was taken. */
  lemma TimelyUnlessItWraps(h: History, e: Event)
    requires Inv(h) && e.Send? && Possible(h, e)
    ensures Timely(h, e) <==>
      || e.delay + h.s.clock < WORD
      || forall i :: 0 <= i < |h.s.out| ==> h.s.out[i].timeStamp <= e.delay + h.s.clock - WORD
  {
    StampAndDelay(NewMessage(h, e), h.s.clock);
  }

  /** No message is sent with a delay whose sum with the clock wraps round. */
  ghost predicate NeverWraps(h: History, events: seq<Event>)
    decreases |events|
  {
    events == [] ||
    (Possible(h, events[0]) && (events[0].Send? ==> events[0].delay + h.s.clock < WORD) &&
     NeverWraps(Happen(h, events[0]), events[1..]))
  }

  lemma {:induction false} TimelyWithoutWraps(h: History, events: seq<Event>)
    requires Inv(h) && NeverWraps(h, events)
    ensures AllTimely(h, events)
    decreases |events|
  {
    if events != [] {
      hide Inv, Happen, Possible;
      EventKeepsInv(h, events[0]);
      if events[0].Send? {
        TimelyUnlessItWraps(h, events[0]);
      }
      TimelyWithoutWraps(Happen(h, events[0]), events[1..]);
    }
  }

  /** As long as no sender's sum wraps round, everything is taken and flushed in order. */
  lemma InOrderWithoutWraps(clock: nat, events: seq<Event>, h: History)
    requires clock < WORD && Leads(History(Start(clock), []), events, h)
    requires NeverWraps(History(Start(clock), []), events)
    ensures InOrder(h.s.out + h.s.queue + h.s.flushed)
  {
    StartsInOrder(clock);
    TimelyWithoutWraps(History(Start(clock), []), events);
    OrderedIffTimely(clock, events, h);
  }

  // What the stop message cuts off.

  lemma InLine(h: History, m: Message)
    requires Conserved(h) && m in h.enqueued
    ensures m in h.s.out || m in h.s.queue || m in h.s.flushed
  {
    assert m in multiset(h.enqueued);
    assert m in multiset(Line(h.s)) && m in Line(h.s);
  }

  /** What was flushed is ordered after the stop message. */
  lemma FlushedIsAfter(h: History, m: Message)
    requires Inv(h) && h.s.phase == Stopped && m in h.s.flushed
    ensures Before(h.s.out[|h.s.out| - 1], m)
  {
    var i :| 0 <= i < |h.s.flushed| && h.s.flushed[i] == m;
    var tail := [h.s.out[|h.s.out| - 1]] + h.s.flushed;
    assert tail[0] == h.s.out[|h.s.out| - 1] && tail[1 + i] == m;
  }

  lemma TakenIsBefore(h: History, m: Message)
    requires h.s.out != [] && InOrder(Line(h.s)) && m in h.s.out
    ensures m == h.s.out[|h.s.out| - 1] || Before(m, h.s.out[|h.s.out| - 1])
  {
    var i :| 0 <= i < |h.s.out| && h.s.out[i] == m;
    assert Line(h.s)[i] == m && Line(h.s)[|h.s.out| - 1] == h.s.out[|h.s.out| - 1];
  }

  /** When the loop has ended, the messages ordered before the stop message were processed, and no others if
      everything was taken in order. */
  lemma StopSplitsLine(h: History, m: Message)
    requires Inv(h) && h.s.phase == Stopped && m in h.enqueued
    ensures
      var stop := h.s.out[|h.s.out| - 1];
      && (m == stop || Before(m, stop) ==> m in h.s.out)
      && (InOrder(Line(h.s)) && m in h.s.out ==> m == stop || Before(m, stop))
  {
    hide InOrder, Conserved, OutIsPast, UndelayedFirst;
    InLine(h, m);
    if m in h.s.flushed {
      FlushedIsAfter(h, m);
    }
    if InOrder(Line(h.s)) && m in h.s.out {
      TakenIsBefore(h, m);
    }
  }

  /** Every undelayed message enqueued before the stop message is processed before the loop ends, unless the stop
      message was sent with a delay that wraps round. */
  lemma ProcessedBeforeStop(clock: nat, events: seq<Event>, h: History, i: nat, j: nat)
    requires clock < WORD && Leads(History(Start(clock), []), events, h)
    requires h.s.phase == Stopped && i < j < |h.enqueued|
    requires h.enqueued[i].delay == 0 && h.s.out != [] && h.enqueued[j] == h.s.out[|h.s.out| - 1]
    requires h.enqueued[j].delay <= h.enqueued[j].timeStamp
    ensures h.enqueued[i] in h.s.out
  {
    StartsInOrder(clock);
    RunKeepsInv(History(Start(clock), []), events, h);
    StopSplitsLine(h, h.enqueued[i]);
  }

  // The order can fail.

  /** One message processed at time 5. */
  function OneProcessed(): History {
    var m := Message(0, 0, false, true, 5);
    History(State(5, [], 1, map[], Top, [m], [], map[0 := 5]), [m])
  }

  lemma Prepend(h: History, e: Event, rest: seq<Event>, h': History) returns (events: seq<Event>)
    requires Possible(h, e) && Leads(Happen(h, e), rest, h')
    ensures events == [e] + rest && Leads(h, events, h')
  {
    events := [e] + rest;
    assert events[1..] == rest;
  }

  /** A message is sent to an idle looper, which then reads the clock and takes it. */
  lemma SentAndTaken(h: History, e: Event, rest: seq<Event>, h': History) returns (events: seq<Event>)
    requires e.Send? && Possible(h, e) && h.s.phase == Top && h.s.queue == [] && h.s.senders == map[] && !e.stop
    requires var m := Stamp(NewMessage(h, e), h.s.clock);
      && m.timeStamp <= h.s.clock
      && Leads(History(h.s.(sem := h.s.sem + 1, posted := h.s.posted[m.id := h.s.clock], out := h.s.out + [m]),
                       h.enqueued + [m]), rest, h')
    ensures events == [e, Move(ReadClock), Move(Look)] + rest && Leads(h, events, h')
  {
    hide Leads, Stamp;
    var m := Stamp(NewMessage(h, e), h.s.clock);
    StampKeepsRest(NewMessage(h, e), h.s.clock);
    EnqueueInserts(h.s, NewMessage(h, e));
    assert InsertByTime([], m) == [m] && DuePos([m], h.s.clock) == 0 && [m][..0] + [m][1..] == [];
    var sent := Happen(h, e);
    var read := Happen(sent, Move(ReadClock));
    events := Prepend(read, Move(Look), rest, h');
    events := Prepend(sent, Move(ReadClock), events, h');
    events := Prepend(h, e, events, h');
  }

  /** From the start: a message is taken at time 5, and then one whose delay wraps round is stamped with time 4 and
      taken after it. */
  lemma WrapBreaksOrder() returns (h: History)
    ensures Leads(History(Start(5), []), [Send(0, false, true), Move(ReadClock), Move(Look)], OneProcessed())
    ensures Leads(History(Start(5), []),
                  [Send(0, false, true), Move(ReadClock), Move(Look)] +
                  [Send(WORD - 1, false, true), Move(ReadClock), Move(Look)], h)
    ensures !InOrder(h.s.out)
  {
    var first, second := Send(0, false, true), Send(WORD - 1, false, true);
    var a, b := Message(0, 0, false, true, 5), Message(1, WORD - 1, false, true, 4);
    assert Stamp(NewMessage(History(Start(5), []), first), 5) == a;
    assert Stamp(NewMessage(OneProcessed(), second), 5) == b;
    h := History(OneProcessed().s.(sem := 2, posted := map[0 := 5, 1 := 5], out := [a] + [b]), [a] + [b]);
    assert map[0 := 5][1 := 5] == map[0 := 5, 1 := 5] && [] + [a] == [a];
    assert Leads(h, [], h) && Leads(OneProcessed(), [], OneProcessed());
    hide Leads, InOrder;
    var events := SentAndTaken(History(Start(5), []), first, [], OneProcessed());
    assert [first, Move(ReadClock), Move(Look)] + [] == [first, Move(ReadClock), Move(Look)];
    events := SentAndTaken(OneProcessed(), second, [], h);
    assert [second, Move(ReadClock), Move(Look)] + [] == [second, Move(ReadClock), Move(Look)];
    events := SentAndTaken(History(Start(5), []), first, events, h);
    NotInOrder(a, b);
  }

  lemma NotInOrder(a: Message, b: Message)
    requires !Before(a, b)
    ensures !InOrder([a] + [b])
  {
    var s := [a] + [b];
    assert s[0] == a && s[1] == b;
  }
}
