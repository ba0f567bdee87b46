/** Any number of senders and one looper on a message queue: the steps of `HdfMessageQueueEnqueue` and
    `HdfMessageQueueNext` in every order that the mutex and the semaphore allow. */
module LooperRuns {
  import opened MessageOrder

  /** Where the looper stands: about to read the clock, about to look at the queue, blocked on the
      semaphore, or past the stop message. `t` is the time it read last. */
  datatype Phase = Top | Reading(t: nat) | Waiting(t: nat) | Stopped

  /** Where a sender stands between its three actions. */
  datatype Stage = Stamped(m: Message) | Inserted(m: Message)

  /** `posted` gives the time at which each sender posted the semaphore; `out` are the messages the looper
      took, in order, and `flushed` those that the stop message found in the queue. */
  datatype State = State(clock: nat, queue: seq<Message>, sem: nat, senders: map<nat, Stage>, phase: Phase,
                         out: seq<Message>, flushed: seq<Message>, posted: map<nat, nat>)

  function Start(clock: nat): State {
    State(clock, [], 0, map[], Top, [], [], map[])
  }

  datatype Step =
    | Tick(now: nat)
    | StampMsg(m: Message)
    | InsertMsg(id: nat)
    | PostMsg(id: nat)
    | ReadClock
    | Look
    | Wake

  predicate Enabled(s: State, step: Step) {
    match step
    case Tick(now) => s.clock <= now < WORD
    case StampMsg(m) =>
      s.phase != Stopped && m.id !in s.senders && m.id !in s.posted && m.timeStamp == m.delay < WORD
    case InsertMsg(id) => s.phase != Stopped && id in s.senders && s.senders[id].Stamped?
    case PostMsg(id) => s.phase != Stopped && id in s.senders && s.senders[id].Inserted?
    case ReadClock => s.phase == Top
    case Look => s.phase.Reading?
    case Wake => s.phase.Waiting? && s.sem > 0
  }

  function Apply(s: State, step: Step): State
    requires Enabled(s, step)
  {
    match step
    case Tick(now) => s.(clock := now)
    case StampMsg(m) => s.(senders := s.senders[m.id := Stamped(Stamp(m, s.clock))])
    case InsertMsg(id) =>
      var m := s.senders[id].m;
      s.(queue := InsertByTime(s.queue, m), senders := s.senders[id := Inserted(m)])
    case PostMsg(id) => s.(sem := s.sem + 1, senders := s.senders - {id}, posted := s.posted[id := s.clock])
    case ReadClock => s.(phase := Reading(s.clock))
    case Look => AfterLook(s, DuePos(s.queue, s.phase.t))
    case Wake => s.(sem := s.sem - 1, phase := Top)
  }

  /** The looper takes the message at position `p`, or goes to wait. The stop message ends the loop and
      destroys the queue. */
  function AfterLook(s: State, p: nat): State
    requires s.phase.Reading? && p <= |s.queue|
  {
    if p == |s.queue| then s.(phase := Waiting(s.phase.t))
    else
      var m, rest := s.queue[p], s.queue[..p] + s.queue[p + 1..];
      if m.stop then s.(queue := [], flushed := rest, out := s.out + [m], phase := Stopped)
      else s.(queue := rest, out := s.out + [m], phase := Top)
  }

  /** `s'` follows from `s` by `steps`, each of which is enabled when its turn comes. */
  ghost predicate Leads(s: State, steps: seq<Step>, s': State)
    decreases |steps|
  {
    if steps == [] then s' == s
    else Enabled(s, steps[0]) && Leads(Apply(s, steps[0]), steps[1..], s')
  }

  // ----- no wake-up is lost

  /** A message in the queue belongs to a sender that has yet to post, or was posted. */
  ghost predicate Accounted(s: State) {
    forall i :: 0 <= i < |s.queue| ==>
      var m := s.queue[i];
      if m.id in s.senders then s.senders[m.id] == Inserted(m) else m.id in s.posted
  }

  /** Undelayed messages are due as soon as they are stamped. */
  ghost predicate UndelayedDue(s: State) {
    && (forall id :: id in s.senders && s.senders[id].m.delay == 0 ==> s.senders[id].m.timeStamp <= s.clock)
    && (forall i :: 0 <= i < |s.queue| && s.queue[i].delay == 0 && s.queue[i].id in s.posted ==>
          s.queue[i].timeStamp <= s.posted[s.queue[i].id])
  }

  /** The looper has yet to look, or will be woken, or has seen that the message is not due. */
  ghost predicate Noticed(s: State, m: Message)
    requires m.id in s.posted
  {
    match s.phase
    case Top => true
    case Reading(t) => s.sem > 0 || s.posted[m.id] <= t
    case Waiting(t) => s.sem > 0 || s.posted[m.id] <= t < m.timeStamp
    case Stopped => true
  }

  ghost predicate AllNoticed(s: State) {
    forall i :: 0 <= i < |s.queue| && s.queue[i].id in s.posted ==> Noticed(s, s.queue[i])
  }

  ghost predicate Clocked(s: State) {
    && s.clock < WORD
    && (forall id :: id in s.posted ==> s.posted[id] <= s.clock)
    && (forall id :: id in s.senders ==> id !in s.posted && s.senders[id].m.id == id)
    && (s.phase.Reading? || s.phase.Waiting? ==> s.phase.t <= s.clock)
  }

  ghost predicate Inv(s: State) {
    Accounted(s) && UndelayedDue(s) && AllNoticed(s) && Clocked(s)
  }

  lemma StepKeepsInv(s: State, step: Step)
    requires Inv(s) && Enabled(s, step)
    ensures Inv(Apply(s, step))
  {
    match step
    case Tick(now) =>
    case StampMsg(m) =>
      StampIsNotEarly(m, s.clock);
    case InsertMsg(id) =>
      InsertMsgKeepsInv(s, id);
    case PostMsg(id) =>
    case ReadClock =>
    case Look =>
      LookKeepsInv(s);
    case Wake =>
  }

  lemma InsertedWhere(q: seq<Message>, m: Message, i: nat)
    requires i < |InsertByTime(q, m)|
    ensures InsertByTime(q, m)[i] == m || exists j :: 0 <= j < |q| && q[j] == InsertByTime(q, m)[i]
  {
    var p := LatePos(q, m.timeStamp);
    assert i != p ==> InsertByTime(q, m)[i] == q[if i < p then i else i - 1];
  }

  lemma InsertMsgKeepsInv(s: State, id: nat)
    requires Inv(s) && Enabled(s, InsertMsg(id))
    ensures Inv(Apply(s, InsertMsg(id)))
  {
    hide InsertByTime;
    var m := s.senders[id].m;
    var q := InsertByTime(s.queue, m);
    forall i | 0 <= i < |q| ensures q[i] == m || exists j :: 0 <= j < |s.queue| && s.queue[j] == q[i] {
      InsertedWhere(s.queue, m, i);
    }
  }

  lemma LookKeepsInv(s: State)
    requires Inv(s) && Enabled(s, Look)
    ensures Inv(Apply(s, Look))
  {
    var p := DuePos(s.queue, s.phase.t);
    if p < |s.queue| {
      var rest := s.queue[..p] + s.queue[p + 1..];
      assert forall i :: 0 <= i < |rest| ==> rest[i] == s.queue[if i < p then i else i + 1];
    }
  }

  lemma {:induction false} RunKeepsInv(s: State, steps: seq<Step>, s': State)
    requires Inv(s) && Leads(s, steps, s')
    ensures Inv(s')
    decreases |steps|
  {
    if steps != [] {
      StepKeepsInv(s, steps[0]);
      RunKeepsInv(Apply(s, steps[0]), steps[1..], s');
    }
  }

  /** When the looper is blocked and nothing can wake it, each message in the queue belongs to a sender
      that has not posted yet, or was not due when the looper looked, after that sender had posted. No
      such message was enqueued without a delay. */
  lemma NoLostWakeUp(clock: nat, steps: seq<Step>, s: State, m: Message)
    requires clock < WORD && Leads(Start(clock), steps, s)
    requires s.phase.Waiting? && s.sem == 0 && m in s.queue
    ensures
      || (m.id in s.senders && s.senders[m.id] == Inserted(m))
      || (m.id in s.posted && s.posted[m.id] <= s.phase.t < m.timeStamp && m.delay > 0)
  {
    RunKeepsInv(Start(clock), steps, s);
    var i :| 0 <= i < |s.queue| && s.queue[i] == m;
  }

  /** The looper is blocked for good, and a message that was posted is due. */
  ghost predicate LeftBehind(s: State, m: Message) {
    s.phase.Waiting? && s.sem == 0 && m in s.queue && m.id in s.posted && m.timeStamp <= s.clock
  }

  /** `steps` leave behind a message of this delay. */
  ghost predicate Strands(clock: nat, steps: seq<Step>, s: State, m: Message, delay: nat) {
    clock < WORD && Leads(Start(clock), steps, s) && LeftBehind(s, m) && m.delay == delay
  }

  /** The looper waits without a timeout: a message of any positive delay can come due while the looper waits, and
      stays in the queue, as no step of the looper is enabled. */
  lemma DelayedMessageStaysBehind(delay: nat) returns (steps: seq<Step>, s: State)
    requires 0 < delay < WORD
    ensures Leads(Start(0), steps, s)
    ensures |s.queue| == 1 && s.queue[0].delay == delay && LeftBehind(s, s.queue[0]) && s.senders == map[]
    ensures forall step :: Enabled(s, step) ==> step.Tick? || step.StampMsg?
  {
    hide Leads;
    var m := Message(7, delay, false, true, delay);
    var posted := Posted(0, m, 1);
    var blocked := Posted(0, m, 0).(phase := Waiting(0));
    s := blocked.(clock := delay);
    NoSteps(s);
    assert DuePos([m], 0) == 1;
    hide DuePos;
    steps := Prepend(blocked, Tick(delay), [], s);
    steps := LookInVain(Posted(0, m, 0), steps, s);
    steps := Prepend(posted.(phase := Waiting(0)), Wake, steps, s);
    steps := LookInVain(posted, steps, s);
    steps := EnqueuedFirst(m, steps, s);
    assert s.queue[0] == m;
  }

  /** A message has been enqueued, and the looper is about to read the clock. */
  function Posted(clock: nat, m: Message, sem: nat): State {
    Start(clock).(queue := [m], sem := sem, posted := map[m.id := clock])
  }

  lemma EnqueuedFirst(m: Message, rest: seq<Step>, s': State) returns (steps: seq<Step>)
    requires m.timeStamp == m.delay < WORD && Leads(Posted(0, m, 1), rest, s')
    ensures Leads(Start(0), steps, s')
  {
    hide Leads;
    assert Stamp(m, 0) == m && InsertByTime([], m) == [m];
    var s1 := Start(0).(senders := map[m.id := Stamped(m)]);
    var s2 := s1.(senders := map[m.id := Inserted(m)], queue := [m]);
    assert s1.senders[m.id := Inserted(m)] == s2.senders && s2.senders - {m.id} == map[];
    assert s2.posted[m.id := 0] == map[m.id := 0];
    steps := Prepend(s2, PostMsg(m.id), rest, s');
    steps := Prepend(s1, InsertMsg(m.id), steps, s');
    steps := Prepend(Start(0), StampMsg(m), steps, s');
  }

  /** A blocked looper can leave a posted message behind exactly when the message was enqueued with a delay. */
  lemma LeftBehindIffDelayed(delay: nat)
    requires delay < WORD
    ensures (exists clock, steps, s, m :: Strands(clock, steps, s, m, delay)) <==> delay > 0
  {
    hide Leads;
    if delay > 0 {
      var steps, s := DelayedMessageStaysBehind(delay);
      assert Strands(0, steps, s, s.queue[0], delay);
    } else {
      forall clock, steps, s, m ensures !Strands(clock, steps, s, m, 0) {
        if Strands(clock, steps, s, m, 0) {
          NoLostWakeUp(clock, steps, s, m);
          RunKeepsInv(Start(clock), steps, s);
        }
      }
    }
  }

  /** The looper reads the clock, finds nothing due, and goes to wait. */
  lemma LookInVain(s: State, rest: seq<Step>, s': State) returns (steps: seq<Step>)
    requires s.phase == Top && DuePos(s.queue, s.clock) == |s.queue|
    requires Leads(s.(phase := Waiting(s.clock)), rest, s')
    ensures Leads(s, steps, s')
  {
    hide Leads;
    steps := Prepend(s.(phase := Reading(s.clock)), Look, rest, s');
    steps := Prepend(s, ReadClock, steps, s');
  }

  lemma NoSteps(s: State)
    ensures Leads(s, [], s)
  {
  }

  lemma Prepend(s: State, step: Step, rest: seq<Step>, s': State) returns (steps: seq<Step>)
    requires Enabled(s, step) && Leads(Apply(s, step), rest, s')
    ensures steps == [step] + rest && Leads(s, steps, s')
  {
    steps := [step] + rest;
    assert steps[1..] == rest;
  }

  // ----- one pass of the looper's loop

  /** Read the clock, look, and wait if nothing is due. A looper that finds the semaphore at zero stays
      where it waits. */
  function Pass(s: State, now: nat): State
    requires s.phase == Top && s.clock <= now < WORD
  {
    var looked := AfterLook(s.(clock := now, phase := Reading(now)), DuePos(s.queue, now));
    if looked.phase.Waiting? && looked.sem > 0 then Apply(looked, Wake) else looked
  }

  function Passes(s: State, clocks: seq<nat>): State
    requires Rising(s.clock, clocks)
    decreases |clocks|
  {
    if clocks == [] || s.phase != Top then s else Passes(Pass(s, clocks[0]), clocks[1..])
  }

  /** Readings of a clock that does not run backwards, from `from` on. */
  predicate Rising(from: nat, clocks: seq<nat>)
    decreases |clocks|
  {
    clocks == [] || (from <= clocks[0] < WORD && Rising(clocks[0], clocks[1..]))
  }

  /** A pass that finds a message due takes the first such one, and leaves the semaphore alone; one that finds none
      takes one unit of the semaphore and the loop goes on, or it blocks at zero. */
  lemma PassMeans(s: State, now: nat)
    requires s.phase == Top && s.clock <= now < WORD
    ensures
      var t, q := Pass(s, now), s.queue;
      var p := DuePos(q, now);
      && t.clock == now && t.senders == s.senders && t.posted == s.posted
      && (p == |q| ==>
          && t.queue == q && t.out == s.out && t.flushed == s.flushed
          && (s.sem > 0 ==> t.sem == s.sem - 1 && t.phase == Top)
          && (s.sem == 0 ==> t.sem == 0 && t.phase == Waiting(now)))
      && (p < |q| ==>
          && t.sem == s.sem && t.out == s.out + [q[p]]
          && (q[p].stop ==> t.queue == [] && t.flushed == q[..p] + q[p + 1..] && t.phase == Stopped)
          && (!q[p].stop ==> t.queue == q[..p] + q[p + 1..] && t.flushed == s.flushed && t.phase == Top))
  {
  }

  lemma PassClock(s: State, now: nat)
    requires s.phase == Top && s.clock <= now < WORD
    ensures Pass(s, now).clock == now
  {
  }

  /** What the loop does is a run of the step model. */
  lemma PassIsRun(s: State, now: nat) returns (steps: seq<Step>)
    requires s.phase == Top && s.clock <= now < WORD
    ensures Leads(s, steps, Pass(s, now))
  {
    hide Leads, AfterLook;
    var s1 := Apply(s, Tick(now));
    var s2 := Apply(s1, ReadClock);
    var s3 := Apply(s2, Look);
    NoSteps(Pass(s, now));
    steps := [];
    if s3.phase.Waiting? && s3.sem > 0 {
      steps := Prepend(s3, Wake, steps, Pass(s, now));
    }
    steps := Prepend(s2, Look, steps, Pass(s, now));
    steps := Prepend(s1, ReadClock, steps, Pass(s, now));
    steps := Prepend(s, Tick(now), steps, Pass(s, now));
  }
}
