/** Publishing a service to its subscribers (`core/host/src/hdf_service_observer.c`,
    `core/host/src/hdf_observer_record.c`), each call as one step. */
module Observer {
  import opened Base

  /** `struct HdfServiceSubscriber`; `calls` notes the services that its callback was given. */
  datatype Subscriber = Subscriber(id: nat, devId: nat, hasCallback: bool, ready: bool, calls: seq<Option<nat>>)

  /** `struct HdfServiceObserverRecord`. */
  datatype Record = Record(key: nat, publisher: Option<nat>, devId: nat, policy: nat, subscribers: seq<Subscriber>)

  function NewRecord(key: nat): Record {
    Record(key, None, 0, SERVICE_POLICY_NONE, [])
  }

  function Connected(s: Subscriber, service: Option<nat>): Subscriber {
    s.(ready := true, calls := if s.hasCallback then s.calls + [service] else s.calls)
  }

  // What one call does to the record of its key.

  function SubscribeTo(r: Record, id: nat, devId: nat, hasCallback: bool): Record {
    var s := Subscriber(id, devId, hasCallback, false, []);
    var joins := r.publisher.Some? && hasCallback && (r.policy != SERVICE_POLICY_PRIVATE || r.devId == devId);
    r.(subscribers := [if joins then Connected(s, r.publisher) else s] + r.subscribers)
  }

  function Notified(s: Subscriber, devId: nat, policy: nat, service: Option<nat>): Subscriber {
    if devId == s.devId || policy != SERVICE_POLICY_PRIVATE then Connected(s, service) else s
  }

  /** A record that exists keeps its device id and its policy. */
  function PublishTo(r: Record, devId: nat, policy: nat, service: Option<nat>): Record {
    r.(publisher := service,
       subscribers := seq(|r.subscribers|, i requires 0 <= i < |r.subscribers| =>
         Notified(r.subscribers[i], devId, policy, service)))
  }

  datatype Op =
    | Subscribe(key: nat, id: nat, devId: nat, hasCallback: bool)
    | Publish(key: nat, devId: nat, policy: nat, service: Option<nat>)
    | Remove(key: nat)

  function Updated(r: Option<Record>, op: Op): Option<Record> {
    match op
    case Subscribe(key, id, devId, hasCallback) =>
      Some(SubscribeTo(if r.Some? then r.value else NewRecord(key), id, devId, hasCallback))
    case Publish(key, devId, policy, service) =>
      if r.Some? then Some(PublishTo(r.value, devId, policy, service))
      else Some(Record(key, service, devId, policy, []))
    case Remove(_) => None
  }

  /** The record of a key after a run. */
  function Trace(ops: seq<Op>, key: nat): Option<Record> {
    if ops == [] then None
    else
      var before, op := Trace(ops[..|ops| - 1], key), ops[|ops| - 1];
      if op.key == key then Updated(before, op) else before
  }

  // The removal of a record forgets the key.

  /** What has happened since the record of the key was removed last. */
  function SinceRemoval(ops: seq<Op>, key: nat): (since: seq<Op>)
    ensures |since| <= |ops|
  {
    if ops == [] || ops[|ops| - 1] == Remove(key) then []
    else SinceRemoval(ops[..|ops| - 1], key) + [ops[|ops| - 1]]
  }

  /** It is the end of the run, behind the last removal if there is one. */
  lemma {:induction false} SinceIsTheEnd(ops: seq<Op>, key: nat)
    ensures var n := |ops| - |SinceRemoval(ops, key)|;
      SinceRemoval(ops, key) == ops[n..] && Remove(key) !in ops[n..] && (n > 0 ==> ops[n - 1] == Remove(key))
  {
    if ops != [] && ops[|ops| - 1] != Remove(key) {
      var before, op := ops[..|ops| - 1], ops[|ops| - 1];
      SinceIsTheEnd(before, key);
      assert ops == before + [op];
    }
  }

  lemma {:induction false} RemovalForgets(ops: seq<Op>, key: nat)
    ensures Trace(ops, key) == Trace(SinceRemoval(ops, key), key)
  {
    if ops != [] && ops[|ops| - 1] != Remove(key) {
      var before, op := ops[..|ops| - 1], ops[|ops| - 1];
      RemovalForgets(before, key);
      var since := SinceRemoval(before, key);
      assert (since + [op])[..|since|] == since;
    }
  }

  // A key that is published exactly once since its record was removed last, if it ever was.

  /** A subscription of the run, at position `at`. */
  datatype Entry = Entry(at: nat, id: nat, devId: nat, hasCallback: bool)

  /** The subscriptions of a key, newest first. */
  function Entries(ops: seq<Op>, key: nat): seq<Entry> {
    if ops == [] then []
    else
      var n := |ops| - 1;
      var before, op := Entries(ops[..n], key), ops[n];
      if op.Subscribe? && op.key == key then [Entry(n, op.id, op.devId, op.hasCallback)] + before else before
  }

  predicate OnlySubscribed(ops: seq<Op>, key: nat) {
    forall i :: 0 <= i < |ops| && ops[i].key == key ==> ops[i].Subscribe?
  }

  /** The only operation on the key that is not a subscription is the one at `p`, which publishes a service. */
  predicate PublishedOnce(ops: seq<Op>, key: nat, p: nat) {
    && p < |ops| && ops[p].key == key && ops[p].Publish? && ops[p].service.Some?
    && forall i :: 0 <= i < |ops| && ops[i].key == key && i != p ==> ops[i].Subscribe?
  }

  function Pending(e: Entry): Subscriber {
    Subscriber(e.id, e.devId, e.hasCallback, false, [])
  }

  lemma {:induction false} OnlySubscriptions(ops: seq<Op>, key: nat)
    requires OnlySubscribed(ops, key)
    ensures Trace(ops, key).None? <==> Entries(ops, key) == []
    ensures Trace(ops, key).Some? ==>
      var r := Trace(ops, key).value;
      && r.publisher == None && r.devId == 0 && r.policy == SERVICE_POLICY_NONE
      && |r.subscribers| == |Entries(ops, key)|
      && forall j :: 0 <= j < |r.subscribers| ==> r.subscribers[j] == Pending(Entries(ops, key)[j])
  {
    if ops != [] {
      OnlySubscriptions(ops[..|ops| - 1], key);
    }
  }

  /** Before the publish every subscriber waits, and has not been called. */
  lemma BeforeThePublish(ops: seq<Op>, key: nat)
    requires OnlySubscribed(SinceRemoval(ops, key), key)
    ensures var entries := Entries(SinceRemoval(ops, key), key);
      && (Trace(ops, key).None? <==> entries == [])
      && (Trace(ops, key).Some? ==>
          var r := Trace(ops, key).value;
          && r.publisher == None && r.devId == 0 && r.policy == SERVICE_POLICY_NONE
          && |r.subscribers| == |entries|
          && forall j :: 0 <= j < |r.subscribers| ==> r.subscribers[j] == Pending(entries[j]))
  {
    RemovalForgets(ops, key);
    OnlySubscriptions(SinceRemoval(ops, key), key);
  }

  /** What the record that subscribers join after the publish says: the publish writes its policy and device only
      into a record that it creates itself. */
  function Recorded(ops: seq<Op>, key: nat, p: nat): (nat, nat)
    requires PublishedOnce(ops, key, p)
  {
    if Entries(ops[..p], key) == [] then (ops[p].devId, ops[p].policy) else (0, SERVICE_POLICY_NONE)
  }

  /** Whether a subscription is connected: with an earlier one the policy of the publish decides, with a later one
      the policy of the record. */
  predicate Connects(ops: seq<Op>, key: nat, p: nat, e: Entry)
    requires PublishedOnce(ops, key, p)
  {
    if e.at < p then ops[p].policy != SERVICE_POLICY_PRIVATE || ops[p].devId == e.devId
    else e.hasCallback && (Recorded(ops, key, p).1 != SERVICE_POLICY_PRIVATE || Recorded(ops, key, p).0 == e.devId)
  }

  function Outcome(ops: seq<Op>, key: nat, p: nat, e: Entry): Subscriber
    requires PublishedOnce(ops, key, p)
  {
    if Connects(ops, key, p, e) then Connected(Pending(e), ops[p].service) else Pending(e)
  }

  lemma {:induction false} OnePublish(ops: seq<Op>, key: nat, p: nat)
    requires PublishedOnce(ops, key, p)
    ensures Trace(ops, key).Some?
    ensures var r := Trace(ops, key).value;
      && r.publisher == ops[p].service && (r.devId, r.policy) == Recorded(ops, key, p)
      && |r.subscribers| == |Entries(ops, key)|
      && forall j :: 0 <= j < |r.subscribers| ==> r.subscribers[j] == Outcome(ops, key, p, Entries(ops, key)[j])
  {
    var n := |ops| - 1;
    var before := ops[..n];
    if p == n {
      OnlySubscriptions(before, key);
      EntriesAreEarlier(before, key);
    } else {
      OnePublish(before, key, p);
      assert before[..p] == ops[..p];
      forall e: Entry ensures Outcome(before, key, p, e) == Outcome(ops, key, p, e) {
      }
    }
  }

  /** After the publish the record holds the subscriptions since the last removal, with their outcomes. */
  lemma AfterThePublish(ops: seq<Op>, key: nat, p: nat)
    requires PublishedOnce(SinceRemoval(ops, key), key, p)
    ensures Trace(ops, key).Some?
    ensures var since, r := SinceRemoval(ops, key), Trace(ops, key).value;
      && r.publisher == since[p].service && (r.devId, r.policy) == Recorded(since, key, p)
      && |r.subscribers| == |Entries(since, key)|
      && forall j :: 0 <= j < |r.subscribers| ==> r.subscribers[j] == Outcome(since, key, p, Entries(since, key)[j])
  {
    RemovalForgets(ops, key);
    OnePublish(SinceRemoval(ops, key), key, p);
  }

  lemma {:induction false} EntriesAreEarlier(ops: seq<Op>, key: nat)
    ensures forall e :: e in Entries(ops, key) ==> e.at < |ops|
  {
    if ops != [] {
      EntriesAreEarlier(ops[..|ops| - 1], key);
    }
  }

  lemma {:induction false} EntryOf(ops: seq<Op>, key: nat, i: nat)
    requires i < |ops| && ops[i].Subscribe? && ops[i].key == key
    ensures Entry(i, ops[i].id, ops[i].devId, ops[i].hasCallback) in Entries(ops, key)
  {
    if i < |ops| - 1 {
      EntryOf(ops[..|ops| - 1], key, i);
    }
  }

  /** A service that is published once since the last removal and is not private reaches every subscriber since then
      with a callback exactly once, whether it subscribed before or after. */
  lemma OrderDoesNotMatter(ops: seq<Op>, key: nat, p: nat, i: nat) returns (j: nat)
    requires var since := SinceRemoval(ops, key);
      && PublishedOnce(since, key, p) && since[p].policy != SERVICE_POLICY_PRIVATE
      && i < |since| && since[i].Subscribe? && since[i].key == key && since[i].hasCallback
    ensures Trace(ops, key).Some? && j < |Trace(ops, key).value.subscribers|
    ensures var since, s := SinceRemoval(ops, key), Trace(ops, key).value.subscribers[j];
      s.id == since[i].id && s.ready && s.calls == [since[p].service]
  {
    var since := SinceRemoval(ops, key);
    EntryOf(since, key, i);
    AfterThePublish(ops, key, p);
    var e := Entry(i, since[i].id, since[i].devId, since[i].hasCallback);
    j :| 0 <= j < |Entries(since, key)| && Entries(since, key)[j] == e;
  }

  /** A private service is kept from the subscribers of other devices if and only if they subscribe before it is
      published, or nobody has: a publish to a record that exists does not store the policy. */
  lemma PrivateServices(ops: seq<Op>, key: nat, p: nat, i: nat) returns (j: nat)
    requires var since := SinceRemoval(ops, key);
      && PublishedOnce(since, key, p) && since[p].policy == SERVICE_POLICY_PRIVATE
      && i < |since| && since[i].Subscribe? && since[i].key == key && since[i].hasCallback
      && since[i].devId != since[p].devId
    ensures Trace(ops, key).Some? && j < |Trace(ops, key).value.subscribers|
    ensures var since, s := SinceRemoval(ops, key), Trace(ops, key).value.subscribers[j];
      s.id == since[i].id && (s.calls == [] <==> i < p || OnlyOthers(since[..p], key))
  {
    var since := SinceRemoval(ops, key);
    EntryOf(since, key, i);
    AfterThePublish(ops, key, p);
    NobodySubscribed(since[..p], key);
    var e := Entry(i, since[i].id, since[i].devId, since[i].hasCallback);
    j :| 0 <= j < |Entries(since, key)| && Entries(since, key)[j] == e;
  }

  /** A run in which a subscriber of another device is given a private service: somebody has subscribed before the
      publish, and the subscriber does so after it. */
  lemma PrivateServiceGivenAway()
    ensures var run := [Subscribe(1, 7, 3, true), Publish(1, 5, SERVICE_POLICY_PRIVATE, Some(9)),
      Subscribe(1, 8, 3, true)];
      Trace(run, 1) == Some(Record(1, Some(9), 0, SERVICE_POLICY_NONE,
                                   [Subscriber(8, 3, true, true, [Some(9)]), Subscriber(7, 3, true, false, [])]))
  {
    var early, late := Subscriber(7, 3, true, false, []), Subscriber(8, 3, true, true, [Some(9)]);
    var publish := Publish(1, 5, SERVICE_POLICY_PRIVATE, Some(9));
    var waiting := Record(1, None, 0, SERVICE_POLICY_NONE, [early]);
    TraceMore([], Subscribe(1, 7, 3, true), 1);
    assert [] + [Subscribe(1, 7, 3, true)] == [Subscribe(1, 7, 3, true)] && [early] + [] == [early];
    assert Trace([Subscribe(1, 7, 3, true)], 1) == Some(waiting);
    TraceMore([Subscribe(1, 7, 3, true)], publish, 1);
    var published := PublishTo(waiting, 5, SERVICE_POLICY_PRIVATE, Some(9));
    assert published.subscribers == [early];
    assert [Subscribe(1, 7, 3, true)] + [publish] == [Subscribe(1, 7, 3, true), publish];
    TraceMore([Subscribe(1, 7, 3, true), publish], Subscribe(1, 8, 3, true), 1);
    assert [Subscribe(1, 7, 3, true), publish] + [Subscribe(1, 8, 3, true)]
      == [Subscribe(1, 7, 3, true), publish, Subscribe(1, 8, 3, true)];
    assert Connected(Subscriber(8, 3, true, false, []), Some(9)) == late by {
      assert [] + [Some(9)] == [Some(9)];
    }
    assert [late] + [early] == [late, early];
  }

  // What every subscriber is given, however often the key is published.

  /** The service published last. */
  function LastService(ops: seq<Op>, key: nat): Option<nat> {
    if ops == [] then None
    else
      var op := ops[|ops| - 1];
      if op.Publish? && op.key == key then op.service else LastService(ops[..|ops| - 1], key)
  }

  /** The device and the policy in the record: those of the publish that made it, if one did. */
  function Stored(ops: seq<Op>, key: nat): (nat, nat) {
    if ops == [] then (0, SERVICE_POLICY_NONE)
    else if ops[0].key != key then Stored(ops[1..], key)
    else if ops[0].Publish? then (ops[0].devId, ops[0].policy)
    else (0, SERVICE_POLICY_NONE)
  }

  /** The services that a subscriber with a callback is given: the one that there is when it subscribes, unless the
      record keeps it from its device, and then each one published, unless that publish does. */
  function Given(ops: seq<Op>, key: nat, e: Entry): seq<Option<nat>>
    requires e.at < |ops|
  {
    var n := |ops| - 1;
    if !e.hasCallback then []
    else if n == e.at then
      var service, stored := LastService(ops[..n], key), Stored(ops[..n], key);
      if service.Some? && (stored.1 != 4 || stored.0 == e.devId) then [service] else []
    else
      Given(ops[..n], key, e) +
      if ops[n].Publish? && ops[n].key == key && (ops[n].policy != 4 || ops[n].devId == e.devId) then [ops[n].service]
      else []
  }

  lemma {:induction false} StoredStays(ops: seq<Op>, op: Op, key: nat)
    ensures Stored(ops + [op], key) ==
      if OnlyOthers(ops, key) then Stored([op], key) else Stored(ops, key)
  {
    if ops == [] {
      assert ops + [op] == [op];
    } else {
      assert (ops + [op])[1..] == ops[1..] + [op];
      StoredStays(ops[1..], op, key);
      assert OnlyOthers(ops, key) <==> ops[0].key != key && OnlyOthers(ops[1..], key);
    }
  }

  lemma {:induction false} RecordKeeps(ops: seq<Op>, key: nat)
    requires Remove(key) !in ops
    ensures Trace(ops, key).None? <==> OnlyOthers(ops, key)
    ensures Trace(ops, key).None? ==> LastService(ops, key) == None && Stored(ops, key) == (0, SERVICE_POLICY_NONE)
    ensures Trace(ops, key).Some? ==>
      var r := Trace(ops, key).value;
      r.publisher == LastService(ops, key) && (r.devId, r.policy) == Stored(ops, key)
  {
    if ops != [] {
      var before, op := ops[..|ops| - 1], ops[|ops| - 1];
      assert ops == before + [op];
      RecordKeeps(before, key);
      StoredStays(before, op, key);
      assert [op][1..] == [];
      assert OnlyOthers(ops, key) <==> OnlyOthers(before, key) && op.key != key;
    }
  }

  /** `s` is what has become of the subscription `e`. */
  predicate IsGiven(s: Subscriber, ops: seq<Op>, key: nat, e: Entry) {
    && e.at < |ops| && s.id == e.id && s.devId == e.devId && s.hasCallback == e.hasCallback
    && s.calls == Given(ops, key, e)
  }

  ghost predicate AllGiven(s: seq<Subscriber>, ops: seq<Op>, key: nat, entries: seq<Entry>) {
    |s| == |entries| && forall j :: 0 <= j < |s| ==> IsGiven(s[j], ops, key, entries[j])
  }

  /** What one more operation gives to a subscriber. */
  lemma GivenMore(s: Subscriber, ops: seq<Op>, op: Op, key: nat, e: Entry)
    requires IsGiven(s, ops, key, e)
    ensures var given := op.Publish? && op.key == key && (op.policy != 4 || op.devId == e.devId);
      IsGiven(if given then Connected(s, op.service) else s, ops + [op], key, e)
  {
    assert (ops + [op])[..|ops|] == ops;
  }

  lemma GivenAtFirst(ops: seq<Op>, op: Op, key: nat, r: Record)
    requires op.Subscribe? && op.key == key
    requires r.publisher == LastService(ops, key) && (r.devId, r.policy) == Stored(ops, key)
    ensures var s := SubscribeTo(r, op.id, op.devId, op.hasCallback).subscribers;
      s[1..] == r.subscribers && IsGiven(s[0], ops + [op], key, Entry(|ops|, op.id, op.devId, op.hasCallback))
  {
    assert (ops + [op])[..|ops|] == ops;
    assert [] + [r.publisher] == [r.publisher];
  }

  lemma AllGivenMore(s: seq<Subscriber>, t: seq<Subscriber>, ops: seq<Op>, op: Op, key: nat, entries: seq<Entry>)
    requires AllGiven(s, ops, key, entries) && |t| == |s|
    requires forall j :: 0 <= j < |s| ==>
      t[j] == (if op.Publish? && op.key == key && (op.policy != 4 || op.devId == s[j].devId)
               then Connected(s[j], op.service) else s[j])
    ensures AllGiven(t, ops + [op], key, entries)
  {
    forall j | 0 <= j < |t| ensures IsGiven(t[j], ops + [op], key, entries[j]) {
      GivenMore(s[j], ops, op, key, entries[j]);
    }
  }

  lemma {:induction false} CallsSince(ops: seq<Op>, key: nat)
    requires Remove(key) !in ops
    ensures Trace(ops, key).Some? ==> AllGiven(Trace(ops, key).value.subscribers, ops, key, Entries(ops, key))
    ensures Trace(ops, key).None? ==> Entries(ops, key) == []
  {
    if ops != [] {
      var before, op := ops[..|ops| - 1], ops[|ops| - 1];
      CallsSince(before, key);
      RecordKeeps(before, key);
      assert ops == before + [op];
      var r := if Trace(before, key).Some? then Trace(before, key).value else NewRecord(key);
      hide LastService, Stored, IsGiven;
      if op.Subscribe? && op.key == key {
        GivenAtFirst(before, op, key, r);
        AllGivenMore(r.subscribers, r.subscribers, before, op, key, Entries(before, key));
      } else if Trace(before, key).Some? {
        AllGivenMore(r.subscribers, Trace(ops, key).value.subscribers, before, op, key, Entries(before, key));
      }
    }
  }

  /** In every run, since the record was removed last: each subscriber is in the record, and has been given what is told
      here, in this order. */
  lemma EverySubscriberIsGiven(ops: seq<Op>, key: nat)
    requires Trace(ops, key).Some?
    ensures
      var since, s := SinceRemoval(ops, key), Trace(ops, key).value.subscribers;
      var entries := Entries(since, key);
      && |s| == |entries|
      && forall j :: 0 <= j < |s| ==>
           var e := entries[j];
           && e.at < |since| && s[j].id == e.id && s[j].devId == e.devId && s[j].hasCallback == e.hasCallback
           && s[j].calls == Given(since, key, e)
  {
    RemovalForgets(ops, key);
    SinceIsTheEnd(ops, key);
    CallsSince(SinceRemoval(ops, key), key);
    hide Given, Trace, SinceRemoval, Entries;
  }

  /** No operation concerns the key. */
  predicate OnlyOthers(ops: seq<Op>, key: nat) {
    forall i :: 0 <= i < |ops| ==> ops[i].key != key
  }

  lemma {:induction false} NobodySubscribed(ops: seq<Op>, key: nat)
    requires OnlySubscribed(ops, key)
    ensures Entries(ops, key) == [] <==> OnlyOthers(ops, key)
  {
    if ops != [] {
      NobodySubscribed(ops[..|ops| - 1], key);
    }
  }

  // The list of records, newest first.

  predicate DistinctKeys(services: seq<Record>) {
    forall i, j :: 0 <= i < j < |services| ==> services[i].key != services[j].key
  }

  /** The position of the record of a key, or the length of the list. */
  function Position(services: seq<Record>, key: nat): (p: nat)
    ensures p <= |services|
    ensures p < |services| ==> services[p].key == key
    ensures forall i :: 0 <= i < p ==> services[i].key != key
  {
    if services == [] || services[0].key == key then 0 else 1 + Position(services[1..], key)
  }

  lemma {:induction false} Finds(services: seq<Record>, key: nat, p: nat)
    requires p <= |services| && (p < |services| ==> services[p].key == key)
    requires forall i :: 0 <= i < p ==> services[i].key != key
    ensures Position(services, key) == p
  {
  }

  function RecordOf(services: seq<Record>, key: nat): Option<Record> {
    var p := Position(services, key);
    if p < |services| then Some(services[p]) else None
  }

  /** The list says about every key what `trace` says. */
  ghost predicate Shows(services: seq<Record>, ops: seq<Op>) {
    DistinctKeys(services) && forall key :: RecordOf(services, key) == Trace(ops, key)
  }

  lemma AddedRecord(services: seq<Record>, r: Record, key: nat)
    requires RecordOf(services, r.key) == None && DistinctKeys(services)
    ensures DistinctKeys([r] + services)
    ensures RecordOf([r] + services, key) == if key == r.key then Some(r) else RecordOf(services, key)
  {
    var p := Position(services, key);
    Finds([r] + services, key, if key == r.key then 0 else p + 1);
  }

  lemma ChangedRecord(services: seq<Record>, k: nat, r: Record, key: nat)
    requires k < |services| && services[k].key == r.key && DistinctKeys(services)
    ensures DistinctKeys(services[k := r])
    ensures RecordOf(services[k := r], key) == if key == r.key then Some(r) else RecordOf(services, key)
  {
    Finds(services[k := r], key, Position(services, key));
    Finds(services, r.key, k);
  }

  lemma RemovedRecord(services: seq<Record>, k: nat, key: nat)
    requires k < |services| && DistinctKeys(services)
    ensures DistinctKeys(services[..k] + services[k + 1..])
    ensures RecordOf(services[..k] + services[k + 1..], key) ==
      if key == services[k].key then None else RecordOf(services, key)
  {
    var t := services[..k] + services[k + 1..];
    assert forall i :: 0 <= i < |t| ==> t[i] == if i < k then services[i] else services[i + 1];
    var p := Position(services, key);
    if key == services[k].key {
      Finds(services, key, k);
      Finds(t, key, |t|);
    } else {
      Finds(t, key, if p < k then p else p - 1);
    }
  }

  lemma TraceMore(ops: seq<Op>, op: Op, key: nat)
    ensures Trace(ops + [op], key) == if op.key == key then Updated(Trace(ops, key), op) else Trace(ops, key)
  {
    assert (ops + [op])[..|ops|] == ops;
  }

  /** An operation has changed the record of its key, and no other. */
  ghost predicate Effect(was: seq<Record>, now: seq<Record>, op: Op) {
    && DistinctKeys(now)
    && forall key :: RecordOf(now, key) == if key == op.key then Updated(RecordOf(was, key), op) else RecordOf(was, key)
  }

  lemma EffectOfAdding(was: seq<Record>, r: Record, op: Op)
    requires DistinctKeys(was) && Position(was, op.key) == |was| && r.key == op.key && Updated(None, op) == Some(r)
    ensures Effect(was, [r] + was, op)
  {
    var now := [r] + was;
    AddedRecord(was, r, op.key);
    hide RecordOf, DistinctKeys;
    forall key
      ensures RecordOf(now, key) == if key == op.key then Updated(RecordOf(was, key), op) else RecordOf(was, key) {
      AddedRecord(was, r, key);
    }
  }

  lemma EffectOfChanging(was: seq<Record>, p: nat, r: Record, op: Op)
    requires DistinctKeys(was) && p == Position(was, op.key) < |was| && r.key == op.key
    requires Updated(Some(was[p]), op) == Some(r)
    ensures Effect(was, was[p := r], op)
  {
    var now := was[p := r];
    assert RecordOf(was, op.key) == Some(was[p]);
    ChangedRecord(was, p, r, op.key);
    hide RecordOf, DistinctKeys;
    forall key
      ensures RecordOf(now, key) == if key == op.key then Updated(RecordOf(was, key), op) else RecordOf(was, key) {
      ChangedRecord(was, p, r, key);
    }
  }

  lemma EffectOfRemoving(was: seq<Record>, p: nat, op: Op)
    requires DistinctKeys(was) && p == Position(was, op.key) < |was| && op.Remove?
    ensures Effect(was, was[..p] + was[p + 1..], op)
  {
    var now := was[..p] + was[p + 1..];
    RemovedRecord(was, p, op.key);
    hide RecordOf, DistinctKeys;
    forall key
      ensures RecordOf(now, key) == if key == op.key then Updated(RecordOf(was, key), op) else RecordOf(was, key) {
      RemovedRecord(was, p, key);
    }
  }

  lemma EffectOfNothing(was: seq<Record>, op: Op)
    requires DistinctKeys(was) && Position(was, op.key) == |was| && op.Remove?
    ensures Effect(was, was, op)
  {
  }

  lemma ShowsMore(was: seq<Record>, now: seq<Record>, ops: seq<Op>, op: Op)
    requires Shows(was, ops) && Effect(was, now, op)
    ensures Shows(now, ops + [op])
  {
    forall key ensures RecordOf(now, key) == Trace(ops + [op], key) { TraceMore(ops, op, key); }
  }

  /** `struct HdfServiceObserver`. */
  class HdfServiceObserver {
    var services: seq<Record>

    constructor ()
      ensures Shows(services, [])
    {
      services := [];
    }

    /** `HdfSListSearch` with `HdfServiceObserverRecordCompare`. */
    method Search(key: nat) returns (p: nat)
      ensures p == Position(services, key)
    {
      p := 0;
      while p < |services| && services[p].key != key
        invariant p <= |services| && forall i :: 0 <= i < p ==> services[i].key != key
      {
        p := p + 1;
      }
      Finds(services, key, p);
    }

    /** `HdfServiceObserverSubscribeService`; `ok` says whether memory can be allocated. */
    method SubscribeService(key: nat, id: nat, devId: nat, hasCallback: bool, ok: bool, ghost ops: seq<Op>)
      returns (ret: int)
      requires Shows(services, ops)
      modifies this
      ensures ret == if ok then HDF_SUCCESS else HDF_FAILURE
      ensures !ok ==> services == old(services)
      ensures ok ==> Shows(services, ops + [Subscribe(key, id, devId, hasCallback)])
      ensures ok ==>
        var was, p := old(services), Position(old(services), key);
        var pending := Subscriber(id, devId, hasCallback, false, []);
        if p == |was| then services == [Record(key, None, 0, 0, [pending])] + was
        else if was[p].publisher.Some? && hasCallback && (was[p].policy != 4 || was[p].devId == devId) then
          services == was[p := was[p].(subscribers :=
            [pending.(ready := true, calls := [was[p].publisher])] + was[p].subscribers)]
        else services == was[p := was[p].(subscribers := [pending] + was[p].subscribers)]
    {
      if !ok {
        return HDF_FAILURE;
      }
      ghost var was, op := services, Subscribe(key, id, devId, hasCallback);
      var p := Search(key);
      var isNew := p == |services|;
      if isNew {
        services := [NewRecord(key)] + services;
        p := 0;
      }
      var r := services[p];
      var subscriber := Subscriber(id, devId, hasCallback, false, []);
      if r.publisher.Some? && hasCallback && (r.policy != SERVICE_POLICY_PRIVATE || r.devId == devId) {
        subscriber := subscriber.(ready := true, calls := subscriber.calls + [r.publisher]);
      }
      r := r.(subscribers := [subscriber] + r.subscribers);
      services := services[p := r];
      assert [] + [r.publisher] == [r.publisher];
      if isNew {
        assert services == [r] + was && [subscriber] + [] == [subscriber];
        EffectOfAdding(was, r, op);
      } else {
        EffectOfChanging(was, p, r, op);
      }
      ShowsMore(was, services, ops, op);
      ret := HDF_SUCCESS;
    }

    /** `HdfServiceObserverRecordNotifySubscribers`. */
    method NotifySubscribers(p: nat, devId: nat, policy: nat)
      requires p < |services|
      modifies this
      ensures services == old(services)[p := PublishTo(old(services)[p], devId, policy, old(services)[p].publisher)]
      ensures var was := old(services)[p];
        && |services| == |old(services)| && services[p] == was.(subscribers := services[p].subscribers)
        && |services[p].subscribers| == |was.subscribers|
        && forall j :: 0 <= j < |was.subscribers| ==>
             var s := was.subscribers[j];
             services[p].subscribers[j] ==
               if devId == s.devId || policy != 4 then
                 s.(ready := true, calls := if s.hasCallback then s.calls + [was.publisher] else s.calls)
               else s
    {
      var subscribers := services[p].subscribers;
      var publisher := services[p].publisher;
      ghost var before := subscribers;
      var i := 0;
      while i < |subscribers|
        invariant i <= |subscribers| == |before|
        invariant forall j :: 0 <= j < i ==> subscribers[j] == Notified(before[j], devId, policy, publisher)
        invariant forall j :: i <= j < |subscribers| ==> subscribers[j] == before[j]
      {
        var s := subscribers[i];
        if devId == s.devId || policy != SERVICE_POLICY_PRIVATE {
          s := s.(ready := true);
          if s.hasCallback {
            s := s.(calls := s.calls + [publisher]);
          }
          subscribers := subscribers[i := s];
        }
        i := i + 1;
      }
      assert subscribers == PublishTo(services[p], devId, policy, publisher).subscribers;
      services := services[p := services[p].(subscribers := subscribers)];
    }

    /** `HdfServiceObserverPublishService`; `ok` says whether memory can be allocated for a new record. */
    method PublishService(key: nat, devId: nat, policy: nat, service: Option<nat>, ok: bool, ghost ops: seq<Op>)
      returns (ret: int)
      requires Shows(services, ops)
      modifies this
      ensures ret == HDF_FAILURE || ret == HDF_SUCCESS
      ensures ret == HDF_FAILURE <==> Trace(ops, key) == None && !ok
      ensures ret == HDF_FAILURE ==> services == old(services)
      ensures ret == HDF_SUCCESS ==> Shows(services, ops + [Publish(key, devId, policy, service)])
      ensures
        var was, p := old(services), Position(old(services), key);
        && (p == |was| && ok ==> services == [Record(key, service, devId, policy, [])] + was)
        && (p < |was| ==>
            && |services| == |was| && services == was[p := services[p]]
            && services[p] == was[p].(publisher := service, subscribers := services[p].subscribers)
            && |services[p].subscribers| == |was[p].subscribers|
            && forall j :: 0 <= j < |was[p].subscribers| ==>
                 var s := was[p].subscribers[j];
                 services[p].subscribers[j] ==
                   if devId == s.devId || policy != 4 then
                     s.(ready := true, calls := if s.hasCallback then s.calls + [service] else s.calls)
                   else s)
    {
      ghost var was, op := services, Publish(key, devId, policy, service);
      var p := Search(key);
      assert RecordOf(services, key) == Trace(ops, key);
      if p == |services| {
        if !ok {
          return HDF_FAILURE;
        }
        services := [Record(key, service, devId, policy, [])] + services;
        EffectOfAdding(was, Record(key, service, devId, policy, []), op);
      } else {
        services := services[p := services[p].(publisher := service)];
        NotifySubscribers(p, devId, policy);
        assert services == was[p := PublishTo(was[p], devId, policy, service)];
        EffectOfChanging(was, p, PublishTo(was[p], devId, policy, service), op);
      }
      ShowsMore(was, services, ops, op);
      ret := HDF_SUCCESS;
    }

    /** `HdfServiceObserverRemoveRecord`. */
    method RemoveRecord(key: nat, ghost ops: seq<Op>)
      requires Shows(services, ops)
      modifies this
      ensures Shows(services, ops + [Remove(key)])
      ensures
        var was, p := old(services), Position(old(services), key);
        services == if p < |was| then was[..p] + was[p + 1..] else was
    {
      ghost var was := services;
      var p := Search(key);
      if p < |services| {
        services := services[..p] + services[p + 1..];
        EffectOfRemoving(was, p, Remove(key));
      } else {
        EffectOfNothing(was, Remove(key));
      }
      ShowsMore(was, services, ops, Remove(key));
    }
  }
}
