/** What `utils/src/osal_msg_queue.c` does to the list of messages, on values. */
module MessageOrder {

  const WORD: nat := 0x1_0000_0000_0000_0000

  /** `timeStamp` is an unsigned 64-bit field. What its owner has left there serves as the delay when the message is
      enqueued and stamped: the argument of that name of `HdfMessageQueueEnqueue` is not used, and `HdfMessageObtain`
      leaves 0. The model keeps that value as `delay`, and a number `id` that tells messages apart. */
  datatype Message = Message(id: nat, delay: nat, stop: bool, hasTarget: bool, timeStamp: nat)

  function Stamp(m: Message, now: nat): Message {
    m.(timeStamp := (m.timeStamp + now) % WORD)
  }

  /** The sum is what the caller means unless it wraps round. */
  lemma StampIsNotEarly(m: Message, now: nat)
    requires m.timeStamp < WORD && now < WORD
    ensures Stamp(m, now).timeStamp >= now <==> m.timeStamp + now < WORD
    ensures Stamp(m, now) == m.(timeStamp :=
      if m.timeStamp + now < 0x1_0000_0000_0000_0000 then m.timeStamp + now
      else m.timeStamp + now - 0x1_0000_0000_0000_0000)
  {
    if m.timeStamp + now >= WORD {
      assert (m.timeStamp + now) % WORD == m.timeStamp + now - WORD;
    }
  }

  /** The position of the first message later than `t`. */
  function LatePos(q: seq<Message>, t: nat): (p: nat)
    ensures p <= |q|
    ensures forall i :: 0 <= i < p ==> q[i].timeStamp <= t
    ensures p < |q| ==> q[p].timeStamp > t
  {
    if q == [] || q[0].timeStamp > t then 0 else 1 + LatePos(q[1..], t)
  }

  function InsertByTime(q: seq<Message>, m: Message): seq<Message> {
    var p := LatePos(q, m.timeStamp);
    q[..p] + [m] + q[p..]
  }

  /** The position of the first message that is due at time `t`. */
  function DuePos(q: seq<Message>, t: nat): (p: nat)
    ensures p <= |q|
    ensures forall i :: 0 <= i < p ==> q[i].timeStamp > t
    ensures p < |q| ==> q[p].timeStamp <= t
  {
    if q == [] || q[0].timeStamp <= t then 0 else 1 + DuePos(q[1..], t)
  }

  ghost predicate TimeOrdered(q: seq<Message>) {
    forall i, j :: 0 <= i < j < |q| ==> q[i].timeStamp <= q[j].timeStamp
  }

  /** Earlier by time stamp, or by number when the time stamps are equal. */
  predicate Before(a: Message, b: Message) {
    a.timeStamp < b.timeStamp || (a.timeStamp == b.timeStamp && a.id < b.id)
  }

  ghost predicate InOrder(q: seq<Message>) {
    forall i, j :: 0 <= i < j < |q| ==> Before(q[i], q[j])
  }

  /** In a queue in time order only the first message can be the one found due. */
  lemma DueIsFirst(q: seq<Message>, t: nat)
    requires TimeOrdered(q)
    ensures DuePos(q, t) == 0 || DuePos(q, t) == |q|
  {
  }

  lemma InsertInOrder(s: seq<Message>, a: nat, m: Message)
    requires a <= |s| && InOrder(s)
    requires forall i :: 0 <= i < a ==> Before(s[i], m)
    requires forall i :: a <= i < |s| ==> Before(m, s[i])
    ensures InOrder(s[..a] + [m] + s[a..])
  {
    var r := s[..a] + [m] + s[a..];
    assert forall i :: 0 <= i < |r| ==> r[i] == if i < a then s[i] else if i == a then m else s[i - 1];
  }

  /** A message that is not stamped before any message of `out` and is numbered after all messages
      goes behind every message with its time stamp. */
  lemma InsertKeepsOrder(out: seq<Message>, q: seq<Message>, m: Message)
    requires InOrder(out + q)
    requires forall i :: 0 <= i < |out| ==> out[i].timeStamp <= m.timeStamp
    requires forall i :: 0 <= i < |out + q| ==> (out + q)[i].id < m.id
    ensures InOrder(out + InsertByTime(q, m))
  {
    var s, p := out + q, LatePos(q, m.timeStamp);
    var a := |out| + p;
    assert s[..a] == out + q[..p] && s[a..] == q[p..];
    assert out + InsertByTime(q, m) == s[..a] + [m] + s[a..];
    forall i | 0 <= i < a ensures Before(s[i], m) {
      assert i >= |out| ==> s[i] == q[i - |out|];
    }
    forall i | a <= i < |s| ensures Before(m, s[i]) {
      assert s[a] == q[p];
      assert i > a ==> Before(s[a], s[i]);
    }
    InsertInOrder(s, a, m);
  }

  lemma InsertMembers(q: seq<Message>, m: Message)
    ensures multiset(InsertByTime(q, m)) == multiset(q) + multiset{m}
  {
    var p := LatePos(q, m.timeStamp);
    assert q == q[..p] + q[p..];
  }

  lemma OrderGivesTimeOrder(q: seq<Message>)
    requires InOrder(q)
    ensures TimeOrdered(q)
  {
    forall i, j | 0 <= i < j < |q| ensures q[i].timeStamp <= q[j].timeStamp {
      assert Before(q[i], q[j]);
    }
  }
}
