/** The three nested circular lists of hosts, devices and device nodes, as they lie in memory. */
module PowerTree {
  import opened Base
  import opened DList
  import opened PowerOrder

  const POWER_STATE_DOZE_RESUME := 0
  const POWER_STATE_RESUME := 2
  const POWER_STATE_MAX := 4

  predicate IsPowerWakeState(state: nat) {
    state == POWER_STATE_DOZE_RESUME || state == POWER_STATE_RESUME
  }

  predicate IsValidPowerState(state: nat) {
    state < POWER_STATE_MAX
  }

  lemma WakeStates(state: nat)
    ensures IsPowerWakeState(state) <==> state == 0 || state == 2
    ensures IsValidPowerState(state) <==> state < 4
  {
  }

  // Loops over a list that note what they do for each entry.

  /** `log` is what the entries before position `k` gave. */
  ghost predicate LoggedUpTo<X>(log: seq<X>, parts: seq<seq<X>>, k: nat) {
    k <= |parts| && log + Each(parts[k..]) == Each(parts)
  }

  /** `log` is what the entries from position `k` on gave, last to first. */
  ghost predicate LoggedDownTo<X>(log: seq<X>, parts: seq<seq<X>>, k: nat) {
    k <= |parts| && log + EachBackwards(parts[..k]) == EachBackwards(parts)
  }

  lemma LogBegins<X>(parts: seq<seq<X>>)
    ensures LoggedUpTo([], parts, 0) && LoggedDownTo([], parts, |parts|)
  {
    assert parts[0..] == parts && parts[..|parts|] == parts;
  }

  lemma LogGoesUp<X>(log: seq<X>, parts: seq<seq<X>>, k: nat)
    requires LoggedUpTo(log, parts, k) && k < |parts|
    ensures LoggedUpTo(log + parts[k], parts, k + 1)
  {
    assert parts[k..][1..] == parts[k + 1..];
  }

  lemma LogGoesDown<X>(log: seq<X>, parts: seq<seq<X>>, k: nat)
    requires LoggedDownTo(log, parts, k + 1)
    ensures LoggedDownTo(log + parts[k], parts, k)
  {
    assert parts[..k + 1][..k] == parts[..k];
  }

  lemma LogEnds<X>(log: seq<X>, parts: seq<seq<X>>)
    ensures LoggedUpTo(log, parts, |parts|) ==> log == Each(parts)
    ensures LoggedDownTo(log, parts, 0) ==> log == EachBackwards(parts)
  {
  }

  datatype NodeInfo = NodeInfo(devId: nat, powerToken: bool)

  ghost function NodeOf(n: DNode<NodeInfo>): Node
    reads n
  {
    Node(n.since, n.item.devId, n.item.powerToken)
  }

  /** `struct HdfDevice`. */
  class HdfDevice {
    const deviceId: nat
    const devNodes: DNode<NodeInfo>
    ghost var ring: seq<DNode<NodeInfo>>

    ghost predicate Valid()
      reads this, ring
    {
      Ring(ring) && ring[0] == devNodes && devNodes.owner == this
    }

    ghost function Nodes(): (nodes: seq<Node>)
      requires Valid()
      reads this, ring
      ensures |nodes| == |ring| - 1
      ensures forall k {:trigger nodes[k]} :: 0 <= k < |nodes| ==> nodes[k] == NodeOf(ring[k + 1])
    {
      seq(|ring| - 1, i requires 0 <= i < |ring| - 1 reads this, ring => NodeOf(ring[i + 1]))
    }

    constructor (deviceId: nat)
      ensures Valid() && fresh(devNodes) && ring == [devNodes] && Nodes() == [] && this.deviceId == deviceId
    {
      this.deviceId := deviceId;
      var head := new DNode<NodeInfo>.Head();
      devNodes := head;
      ring := [head];
      new;
      head.owner := this;
    }

    /** `HdfDeviceAttach`; `launched` is what `LaunchNode` returns. */
    method Attach(entry: DNode<NodeInfo>, launched: int, ghost now: nat) returns (ret: int)
      requires Valid() && entry !in ring
      modifies this, entry, ring
      ensures Valid() && ret == launched
      ensures ring == if launched == HDF_SUCCESS then old(ring) + [entry] else old(ring)
      ensures Nodes() ==
        if launched == HDF_SUCCESS then old(Nodes()) + [Node(now, old(entry.item).devId, old(entry.item).powerToken)]
        else old(Nodes())
    {
      ret := launched;
      if ret == HDF_SUCCESS {
        ring := InsertTail(entry, devNodes, ring);
        entry.since := now;
      }
    }

    lemma VisitAt(h: nat, d: Device, k: nat)
      requires Valid() && d.nodes == Nodes() && 0 < k < |ring|
      ensures |NodeVisits(h, d)| == |ring| - 1
      ensures NodeVisits(h, d)[k - 1] ==
        if ring[k].item.powerToken then [Visit(h, d.at, ring[k].since, ring[k].item.devId)] else []
    {
    }

    lemma NeighboursOf(k: nat)
      requires Valid() && 0 < k < |ring|
      ensures ring[k].next == if k + 1 < |ring| then ring[k + 1] else devNodes
      ensures ring[k].prev == ring[k - 1]
    {
    }

    /** The visit of the node at position `k` entered in the log, and the neighbours of the node. */
    lemma NodeLogged(h: nat, d: Device, log: seq<Visit>, k: nat, calls: seq<Visit>)
      requires Valid() && d.nodes == Nodes() && 0 < k < |ring|
      requires calls == if ring[k].item.powerToken then [Visit(h, d.at, ring[k].since, ring[k].item.devId)] else []
      ensures LoggedUpTo(log, NodeVisits(h, d), k - 1) ==> LoggedUpTo(log + calls, NodeVisits(h, d), k)
      ensures LoggedDownTo(log, NodeVisits(h, d), k) ==> LoggedDownTo(log + calls, NodeVisits(h, d), k - 1)
      ensures ring[k].next == if k + 1 < |ring| then ring[k + 1] else devNodes
      ensures ring[k].prev == ring[k - 1]
    {
      hide *;
      NeighboursOf(k);
      VisitAt(h, d, k);
      if LoggedUpTo(log, NodeVisits(h, d), k - 1) {
        LogGoesUp(log, NodeVisits(h, d), k - 1);
      }
      if LoggedDownTo(log, NodeVisits(h, d), k) {
        LogGoesDown(log, NodeVisits(h, d), k - 1);
      }
    }

    lemma NodesBegin(h: nat, d: Device)
      requires Valid() && d.nodes == Nodes()
      ensures LoggedUpTo([], NodeVisits(h, d), 0) && LoggedDownTo([], NodeVisits(h, d), |ring| - 1)
      ensures |ring| > 0 && ring[0] == devNodes
      ensures devNodes.next == if |ring| > 1 then ring[1] else devNodes
      ensures devNodes.prev == ring[|ring| - 1]
      ensures forall k {:trigger ring[k]} :: 0 < k < |ring| ==> ring[k] != devNodes
    {
      LogBegins(NodeVisits(h, d));
    }

    lemma NodesEnd(h: nat, d: Device, log: seq<Visit>)
      requires Valid() && d.nodes == Nodes()
      ensures LoggedUpTo(log, NodeVisits(h, d), |ring| - 1) ==> log == WakeDevice(h, d)
      ensures LoggedDownTo(log, NodeVisits(h, d), 0) ==> log == SleepDevice(h, d)
    {
      LogEnds(log, NodeVisits(h, d));
    }

    /** `ApplyDevicesPowerState`; `outcome` is what each device's power callback returns, and `calls` lists the devices
        whose callbacks were called. */
    method ApplyPowerState(state: nat, outcome: nat -> int, ghost h: nat, ghost d: Device)
      returns (ret: int, calls: seq<nat>, ghost log: seq<Visit>)
      requires Valid() && d.nodes == Nodes()
      ensures ret == HDF_SUCCESS
      ensures calls == if state == 0 || state == 2 then DevIds(WakeDevice(h, d)) else DevIds(SleepDevice(h, d))
      ensures log == if state == 0 || state == 2 then WakeDevice(h, d) else SleepDevice(h, d)
    {
      hide *;
      WakeStates(state);
      ghost var parts := NodeVisits(h, d);
      NodesBegin(h, d);
      log, calls := [], [];
      if IsPowerWakeState(state) {
        var pos := devNodes.next;
        ghost var k := 1;
        while pos != devNodes
          invariant 0 < k <= |ring| && LoggedUpTo(log, parts, k - 1)
          invariant calls == DevIds(log)
          invariant pos == if k < |ring| then ring[k] else devNodes
          decreases |ring| - k
        {
          ghost var visits := [];
          if pos.item.powerToken {
            ret := outcome(pos.item.devId);
            calls := calls + [pos.item.devId];
            visits := [Visit(h, d.at, pos.since, pos.item.devId)];
          }
          NodeLogged(h, d, log, k, visits);
          DevIdsConcat(log, visits);
          log := log + visits;
          pos := pos.next;
          k := k + 1;
        }
      } else {
        var pos := devNodes.prev;
        ghost var k := |ring| - 1;
        while pos != devNodes
          invariant 0 <= k < |ring| && LoggedDownTo(log, parts, k)
          invariant calls == DevIds(log)
          invariant pos == if k > 0 then ring[k] else devNodes
          decreases k
        {
          ghost var visits := [];
          if pos.item.powerToken {
            ret := outcome(pos.item.devId);
            calls := calls + [pos.item.devId];
            visits := [Visit(h, d.at, pos.since, pos.item.devId)];
          }
          NodeLogged(h, d, log, k, visits);
          DevIdsConcat(log, visits);
          log := log + visits;
          pos := pos.prev;
          k := k - 1;
        }
      }
      NodesEnd(h, d, log);
      ret := HDF_SUCCESS;
    }
  }

  /** The nodes of `r` lie within `repr` and outside `below`. */
  ghost predicate Apart(r: seq<DNode<HdfDevice?>>, repr: set<object>, below: set<object>) {
    forall i {:trigger r[i]} :: 0 <= i < |r| ==> r[i] in repr && r[i] !in below
  }

  lemma ApartStays(r: seq<DNode<HdfDevice?>>, repr: set<object>, below: set<object>, made: set<object>, entry: object)
    requires Apart(r, repr, below) && made !! repr
    ensures Apart(r, repr + made + {entry}, below + made)
  {
  }

  function NodesAfter(nodes: seq<Node>, info: NodeInfo, launched: int, now: nat): seq<Node> {
    if launched == HDF_SUCCESS then nodes + [Node(now, info.devId, info.powerToken)] else nodes
  }

  function DeviceAfter(d: Device, info: NodeInfo, launched: int, now: nat): Device {
    d.(nodes := NodesAfter(d.nodes, info, launched, now))
  }

  lemma SameId(d: Device, info: NodeInfo, launched: int, now: nat)
    ensures DeviceAfter(d, info, launched, now).deviceId == d.deviceId
  {
  }

  /** The nodes of a device's list. */
  ghost function Links(device: HdfDevice?): set<object>
    reads device
  {
    if device == null then {} else set o | o in device.ring
  }

  /** `d` describes the device that `n` holds. */
  ghost predicate Describes(d: Device, n: DNode<HdfDevice?>)
    reads n`item, n`since, n.item, Links(n.item)
  {
    n.item != null && n.item.Valid() && d == Device(n.since, n.item.deviceId, n.item.Nodes())
  }

  /** `n` holds a device that `d` describes and that lies within `below`. */
  ghost predicate Shows(n: DNode<HdfDevice?>, d: Device, below: set<object>)
    reads n`item, n`since, below
  {
    && n.item != null && n.item in below
    && (forall i {:trigger n.item.ring[i]} :: 0 <= i < |n.item.ring| ==> n.item.ring[i] in below)
    && Describes(d, n)
  }

  lemma LaunchedMeans(before: seq<Device>, found: seq<Device>, load: Load, now: nat)
    requires found == QueryOrAdd(before, DeviceIdOf(load.devId), now) && LoadResult(before, load) == load.launched
    ensures var m := Find(found, DeviceIdOf(load.devId));
      var d := DeviceAfter(found[m], NodeInfo(load.devId, load.powerToken), load.launched, now);
      if load.launched == HDF_SUCCESS then found[m := d] == AfterLoad(before, load, now) else found[m := d] == found
  {
  }

  lemma ResultInNumbers(devices: seq<Device>, load: Load)
    ensures LoadResult(devices, load) ==
      if !load.device && (forall d :: d in devices ==> d.deviceId != load.devId / 0x100 % 0x1_0000) then -202
      else if !load.driver then -207
      else if !load.node then -201
      else load.launched
  {
    var id := DeviceIdOf(load.devId);
    var k := Find(devices, id);
    if forall d :: d in devices ==> d.deviceId != id {
      Finds(devices, id, |devices|);
    }
    assert k < |devices| ==> devices[k] in devices;
  }

  lemma NoDevice(devices: seq<Device>, load: Load, now: nat)
    requires !load.device && Find(devices, DeviceIdOf(load.devId)) == |devices|
    ensures LoadResult(devices, load) == HDF_DEV_ERR_NO_DEVICE && AfterLoad(devices, load, now) == devices
  {
  }

  lemma FailedMeans(devices: seq<Device>, load: Load, now: nat)
    requires LoadResult(devices, load) != HDF_SUCCESS
    ensures AfterLoad(devices, load, now) == DropDevice(devices, DeviceIdOf(load.devId))
  {
  }

  /** What `DevHostServiceAddDevice` comes to once a device is there. */
  lemma FoundMeans(before: seq<Device>, load: Load, now: nat)
    requires load.device || Find(before, DeviceIdOf(load.devId)) < |before|
    ensures var id := DeviceIdOf(load.devId);
      var found := QueryOrAdd(before, id, now);
      Without(found, Find(found, id)) == DropDevice(before, id)
    ensures LoadResult(before, load) ==
      if !load.driver then HDF_DEV_ERR_NODATA else if !load.node then HDF_DEV_ERR_NO_MEMORY else load.launched
    ensures HDF_DEV_ERR_NODATA != HDF_SUCCESS && HDF_DEV_ERR_NO_MEMORY != HDF_SUCCESS
  {
    var id := DeviceIdOf(load.devId);
    hide DeviceIdOf;
    if Find(before, id) == |before| {
      Finds(before + [Device(now, id, [])], id, |before|);
      assert Without(before + [Device(now, id, [])], |before|) == before;
    }
  }

  /** `struct DevHostService`. New devices go to the head of the list, so that it lists the newest first. */
  class DevHostService {
    const devices: DNode<HdfDevice?>
    ghost var ring: seq<DNode<HdfDevice?>>
    ghost var Repr: set<object>
    /** The part of `Repr` that belongs to the devices. */
    ghost var Below: set<object>
    /** The devices in the order in which they were created. */
    ghost var all: seq<Device>

    ghost predicate Linked()
      reads this, ring
    {
      && Apart(ring, Repr, Below)
      && Ring(ring) && ring[0] == devices && devices.owner == this
    }

    ghost predicate Listed()
      reads this, ring, Below
    {
      && |all| == |ring| - 1
      && forall k {:trigger ring[k]} :: 0 < k < |ring| ==> Shows(ring[k], all[|all| - k], Below)
    }

    ghost predicate Valid()
      reads this, Repr
    {
      && this in Repr && this !in Below && Below <= Repr && Apart(ring, Repr, Below)
      && Linked() && Listed() && DistinctIds(all)
    }

    constructor ()
      ensures Valid() && fresh(Repr) && all == []
    {
      var head := new DNode<HdfDevice?>.Head();
      devices := head;
      ring := [head];
      Repr, Below := {this, head}, {};
      all := [];
      new;
      head.owner := this;
    }

    lemma ShownAt(k: nat)
      requires Valid() && 0 < k < |ring|
      ensures |all| == |ring| - 1 && Shows(ring[k], all[|all| - k], Below)
      ensures ring[k].next == if k + 1 < |ring| then ring[k + 1] else devices
      ensures ring[k].prev == ring[k - 1]
    {
      hide DistinctIds, Shows;
    }

    /** `DevHostServiceFindDevice`. */
    method FindDevice(deviceId: nat) returns (device: HdfDevice?, entry: DNode<HdfDevice?>, ghost k: nat)
      requires Valid()
      ensures device != null ==>
        0 < k < |ring| && ring[k] == entry && entry.item == device && device.deviceId == deviceId
      ensures device == null ==> forall d :: d in all ==> d.deviceId != deviceId
    {
      var pos := devices.next;
      entry := devices;
      k := 1;
      while pos != devices
        invariant 0 < k <= |ring| && pos == if k < |ring| then ring[k] else devices
        invariant forall i {:trigger all[i]} :: |ring| - k <= i < |all| ==> all[i].deviceId != deviceId
        decreases |ring| - k
      {
        ShownAt(k);
        if pos.item.deviceId == deviceId {
          return pos.item, pos, k;
        }
        pos := pos.next;
        k := k + 1;
      }
      device := null;
    }

    /** The list after a device was put at its head: one more device created. */
    lemma CreatedIsListed(entry: DNode<HdfDevice?>, was: seq<DNode<HdfDevice?>>, before: seq<Device>,
                              below: set<object>)
      requires |was| == |before| + 1 && ring == [devices, entry] + was[1..] && below <= Below
      requires |all| == |before| + 1 && all[..|before|] == before && Shows(entry, all[|before|], Below)
      requires forall k {:trigger was[k]} :: 0 < k < |was| ==> Shows(was[k], before[|before| - k], below)
      ensures Listed()
    {
      forall k {:trigger ring[k]} | 0 < k < |ring| ensures Shows(ring[k], all[|all| - k], Below) {
        if k > 1 {
          assert ring[k] == was[k - 1];
        }
      }
    }

    lemma CreatedIsLinked(entry: DNode<HdfDevice?>, was: seq<DNode<HdfDevice?>>)
      requires |was| > 0 && ring == [devices, entry] + was[1..]
      requires Ring(ring) && devices.owner == this
      requires Apart(was, Repr, Below) && was[0] == devices && entry in Repr && entry !in Below
      ensures Linked()
    {
      hide Ring;
      forall k {:trigger ring[k]} | 0 <= k < |ring| ensures ring[k] in Repr && ring[k] !in Below {
        if k > 1 {
          assert ring[k] == was[k - 1];
        }
      }
    }

    lemma NewDeviceShows(device: HdfDevice, entry: DNode<HdfDevice?>)
      requires entry.item == device && device.Valid() && device.ring == [device.devNodes]
      requires device in Below && device.devNodes in Below
      ensures Shows(entry, Device(entry.since, device.deviceId, []), Below)
    {
      assert device.Nodes() == [];
    }

    lemma Created(device: HdfDevice, entry: DNode<HdfDevice?>, was: seq<DNode<HdfDevice?>>, before: seq<Device>,
                  below: set<object>)
      requires |was| == |before| + 1 && was[0] == devices && ring == [devices, entry] + was[1..]
      requires Ring(ring) && devices.owner == this
      requires Apart(was, Repr, Below) && entry in Repr && entry !in Below
      requires entry.item == device && device.Valid() && device.ring == [device.devNodes]
      requires device in Below && device.devNodes in Below && below <= Below
      requires all == before + [Device(entry.since, device.deviceId, [])]
      requires forall k {:trigger was[k]} :: 0 < k < |was| ==> Shows(was[k], before[|before| - k], below)
      ensures Linked() && Listed() && |ring| > 1 && ring[1] == entry
    {
      hide Ring, Linked, Listed, Shows, Apart, HdfDevice.Valid;
      CreatedIsLinked(entry, was);
      NewDeviceShows(device, entry);
      CreatedIsListed(entry, was, before, below);
    }

    /** Puts an entry at the head of the list. */
    method PushEntry(entry: DNode<HdfDevice?>)
      requires Linked() && entry !in ring
      modifies this`ring, ring`next, ring`prev, entry`next, entry`prev, entry`owner
      ensures ring == [devices, entry] + old(ring)[1..] && Ring(ring) && devices.owner == this
    {
      ring := InsertHead(entry, devices, ring);
    }

    /** The devices stay as they are while an entry is put at the head of the list. */
    method LinkEntry(entry: DNode<HdfDevice?>)
      requires Linked() && Listed() && entry !in ring && entry !in Below
      modifies this`ring, ring`next, ring`prev, entry`next, entry`prev, entry`owner
      ensures ring == [devices, entry] + old(ring)[1..] && Ring(ring) && devices.owner == this
      ensures forall k {:trigger old(ring)[k]} :: 0 < k < |old(ring)| ==> Shows(old(ring)[k], all[|all| - k], Below)
    {
      ghost var was := ring;
      assert |was| == |all| + 1;
      assert forall k {:trigger was[k]} :: 0 <= k < |was| ==> was[k] !in Below;
      assert forall k {:trigger was[k]} :: 0 < k < |was| ==> Shows(was[k], all[|all| - k], Below);
      hide Ring, Linked, Listed, Shows;
      PushEntry(entry);
    }

    /** Links a new device in at the head of the list. */
    method LinkDevice(device: HdfDevice, entry: DNode<HdfDevice?>, ghost made: set<object>)
      requires this in Repr && this !in Below && Below <= Repr && Linked() && Listed()
      requires made == {device, device.devNodes} && made !! Repr && entry !in Repr && entry !in made
      requires device.Valid() && device.ring == [device.devNodes] && entry.item == device
      modifies this, Repr - Below, entry
      ensures Repr == old(Repr) + made + {entry} && Below == old(Below) + made
      ensures Linked() && Listed()
      ensures all == old(all) + [Device(old(entry.since), device.deviceId, [])]
      ensures |ring| > 1 && ring[1] == entry && entry.item == device
    {
      ghost var was, before, below, repr, now := ring, all, Below, Repr, entry.since;
      assert |was| == |before| + 1 && was[0] == devices && Apart(was, repr, below) && entry !in was;
      hide *;
      LinkEntry(entry);
      Repr, Below := Repr + made + {entry}, Below + made;
      all := all + [Device(now, device.deviceId, [])];
      ApartStays(was, repr, below, made, entry);
      Created(device, entry, was, before, below);
    }

    /** A device is made and linked in at the head of the list. */
    method CreateDevice(deviceId: nat, ghost now: nat) returns (device: HdfDevice, entry: DNode<HdfDevice?>)
      requires Valid()
      requires forall d :: d in all ==> d.deviceId != deviceId
      modifies this, Repr - Below
      ensures Valid() && fresh(Repr - old(Repr))
      ensures |ring| > 1 && ring[1] == entry && entry.item == device && device.deviceId == deviceId
      ensures all == old(all) + [Device(now, deviceId, [])]
    {
      device := new HdfDevice(deviceId);
      entry := new DNode<HdfDevice?>(device);
      entry.since := now;
      hide Linked, Listed;
      LinkDevice(device, entry, {device, device.devNodes});
    }

    /** `DevHostServiceQueryOrAddDevice`; `ok` says whether a device can be allocated. */
    method QueryOrAddDevice(deviceId: nat, ok: bool, ghost now: nat)
      returns (device: HdfDevice?, entry: DNode<HdfDevice?>, ghost k: nat)
      requires Valid()
      modifies this, Repr - Below
      ensures Valid() && fresh(Repr - old(Repr))
      ensures device == null <==> !ok && Find(old(all), deviceId) == |old(all)|
      ensures device == null ==> all == old(all)
      ensures device != null ==>
        && 0 < k < |ring| && ring[k] == entry && entry.item == device && device.deviceId == deviceId
        && all == QueryOrAdd(old(all), deviceId, now)
    {
      hide Linked, Listed, DistinctIds;
      device, entry, k := FindDevice(deviceId);
      if device != null {
        KnownDevice(k);
      } else {
        Finds(all, deviceId, |all|);
        if ok {
          device, entry := CreateDevice(deviceId, now);
          k := 1;
        }
      }
    }

    lemma KnownDevice(k: nat)
      requires Valid() && 0 < k < |ring|
      ensures |all| == |ring| - 1 && ring[k].item != null && all[|all| - k].deviceId == ring[k].item.deviceId
      ensures Find(all, ring[k].item.deviceId) == |all| - k
    {
      hide Linked, Listed;
      ShownAt(k);
      Finds(all, ring[k].item.deviceId, |all| - k);
    }

    lemma DevicesAreApart(j: nat, k: nat)
      requires Valid() && 0 < j < |ring| && 0 < k < |ring| && j != k
      ensures Shows(ring[j], all[|all| - j], Below) && Shows(ring[k], all[|all| - k], Below)
      ensures ring[j].item != ring[k].item
      ensures forall a, b :: 0 <= a < |ring[j].item.ring| && 0 <= b < |ring[k].item.ring| ==>
        ring[j].item.ring[a] != ring[k].item.ring[b]
    {
      hide Linked, Listed;
      ShownAt(j);
      ShownAt(k);
      RingsAreDisjoint(ring[j].item.ring, ring[k].item.ring);
    }

    /** The devices other than `device` lie outside what an attach to it changes. */
    ghost predicate OthersShown(device: HdfDevice, k: nat)
      reads this, ring, Below, device
    {
      && |all| == |ring| - 1
      && forall j {:trigger ring[j]} :: 0 < j < |ring| && j != k ==> (
        && Shows(ring[j], all[|all| - j], Below) && ring[j].item != device
        && ring[j] !in Links(device) && Links(ring[j].item) !! Links(device))
    }

    lemma OthersAreShown(device: HdfDevice, k: nat)
      requires Valid() && 0 < k < |ring| && ring[k].item == device
      ensures OthersShown(device, k)
    {
      assert Apart(ring, Repr, Below);
      ShownAt(k);
      hide Valid, Describes;
      forall j {:trigger ring[j]} | 0 < j < |ring| && j != k
        ensures Shows(ring[j], all[|all| - j], Below) && ring[j].item != null && ring[j].item != device
        ensures ring[j] !in Links(device) && Links(ring[j].item) !! Links(device)
      {
        DevicesAreApart(j, k);
      }
    }

    /** `Attach` of a device leaves every other device as it is. */
    method AttachTo(device: HdfDevice, entry: DNode<NodeInfo>, launched: int, ghost k: nat, ghost now: nat)
      returns (ret: int)
      requires OthersShown(device, k) && device.Valid() && entry !in device.ring && entry !in Below
      requires forall j {:trigger ring[j]} :: 0 < j < |ring| ==> ring[j] != entry as object
      modifies device, device.ring, entry
      ensures device.Valid() && ret == launched
      ensures device.ring == if launched == HDF_SUCCESS then old(device.ring) + [entry] else old(device.ring)
      ensures device.Nodes() == NodesAfter(old(device.Nodes()), old(entry.item), launched, now)
      ensures |all| == |ring| - 1
      ensures forall j {:trigger ring[j]} :: 0 < j < |ring| && j != k ==> Shows(ring[j], all[|all| - j], Below)
    {
      hide Ring, HdfDevice.Valid, HdfDevice.Nodes, Describes;
      ret := device.Attach(entry, launched, now);
    }

    lemma GrownIsShown(k: nat, entry: DNode<NodeInfo>, d: Device, was: seq<DNode<NodeInfo>>, below: set<object>)
      requires k < |ring| && ring[k].item != null && ring[k].item in below && ring[k].item.Valid()
      requires ring[k].item.ring == was + [entry] || ring[k].item.ring == was
      requires forall i {:trigger was[i]} :: 0 <= i < |was| ==> was[i] in below
      requires d == Device(ring[k].since, ring[k].item.deviceId, ring[k].item.Nodes())
      ensures Shows(ring[k], d, below + {entry})
    {
      hide Ring, HdfDevice.Valid, HdfDevice.Nodes;
    }

    lemma AttachParts(device: HdfDevice, entry: DNode<NodeInfo>, k: nat)
      requires Valid() && 0 < k < |ring| && ring[k].item == device && entry !in Repr
      ensures |all| == |ring| - 1 && device in Below && device.Valid() && entry !in device.ring && entry !in Below
      ensures forall i {:trigger device.ring[i]} :: 0 <= i < |device.ring| ==> device.ring[i] in Below
      ensures forall j {:trigger ring[j]} :: 0 <= j < |ring| ==> ring[j] != entry as object && ring[j] !in Below
      ensures all[|all| - k] == Device(ring[k].since, device.deviceId, device.Nodes())
    {
      hide Ring, DistinctIds, HdfDevice.Nodes, Listed;
      ShownAt(k);
    }

    /** The device at position `k` shows `d`, and the others what they showed before. */
    ghost predicate GrownAt(k: nat, d: Device, entry: object)
      reads this, ring, Below, entry
    {
      && 0 < k < |ring| == |all| + 1
      && Shows(ring[k], d, Below + {entry})
      && forall j {:trigger ring[j]} :: 0 < j < |ring| && j != k ==> Shows(ring[j], all[|all| - j], Below)
    }

    method AttachBelow(device: HdfDevice, entry: DNode<NodeInfo>, launched: int, ghost k: nat, ghost now: nat)
      returns (ret: int)
      requires Valid() && 0 < k < |ring| && ring[k].item == device && entry !in Repr
      modifies Below, entry
      ensures ret == launched && |all| == |ring| - 1
      ensures GrownAt(k, DeviceAfter(all[|all| - k], old(entry.item), launched, now), entry)
    {
      hide Ring, Linked, Listed, DistinctIds, HdfDevice.Valid, HdfDevice.Nodes, OthersShown, Shows, Valid, Apart;
      ghost var was := device.ring;
      OthersAreShown(device, k);
      AttachParts(device, entry, k);
      ret := AttachTo(device, entry, launched, k, now);
      GrownIsShown(k, entry, Device(ring[k].since, device.deviceId, device.Nodes()), was, Below);
    }

    /** The list after the device at position `k` has changed. */
    lemma GrownIsListed(k: nat, d: Device, entry: object, before: seq<Device>, below: set<object>)
      requires 0 < k < |ring| == |before| + 1 && Below == below + {entry}
      requires all == before[|before| - k := d] && d.deviceId == before[|before| - k].deviceId
      requires Shows(ring[k], d, Below)
      requires forall j {:trigger ring[j]} :: 0 < j < |ring| && j != k ==> Shows(ring[j], before[|before| - j], below)
      ensures Listed()
      ensures DistinctIds(before) ==> DistinctIds(all)
    {
      forall j {:trigger ring[j]} | 0 < j < |ring| ensures Shows(ring[j], all[|all| - j], Below) {
        assert j != k ==> all[|all| - j] == before[|before| - j];
      }
    }

    lemma GrownIsValid(k: nat, d: Device, entry: object, before: seq<Device>, below: set<object>, repr: set<object>)
      requires 0 < k < |ring| == |before| + 1 && Below == below + {entry} && Repr == repr + {entry}
      requires this in repr && this !in below && below <= repr && entry !in repr && DistinctIds(before)
      requires Apart(ring, repr, below) && Ring(ring) && ring[0] == devices && devices.owner == this
      requires all == before[|before| - k := d] && d.deviceId == before[|before| - k].deviceId
      requires Shows(ring[k], d, Below)
      requires forall j {:trigger ring[j]} :: 0 < j < |ring| && j != k ==> Shows(ring[j], before[|before| - j], below)
      ensures Valid()
    {
      hide Ring, Shows, DistinctIds, Listed, Apart;
      ApartStays(ring, repr, below, {entry}, entry);
      assert repr + {entry} + {entry} == Repr;
      GrownIsListed(k, d, entry, before, below);
    }

    lemma Parts()
      requires Valid()
      ensures this in Repr && this !in Below && Below <= Repr && DistinctIds(all) && |all| == |ring| - 1
      ensures Apart(ring, Repr, Below) && Ring(ring) && ring[0] == devices && devices.owner == this
      ensures forall i {:trigger ring[i]} :: 0 <= i < |ring| ==> ring[i] in Repr && ring[i] !in Below
    {
      hide Ring, Shows, DistinctIds;
    }

    /** `HdfDeviceAttach` for the device at position `k` of the list. */
    method AttachNode(device: HdfDevice, entry: DNode<NodeInfo>, launched: int, ghost k: nat, ghost now: nat)
      returns (ret: int)
      requires Valid() && 0 < k < |ring| && ring[k].item == device && entry !in Repr
      modifies this`all, this`Repr, this`Below, Below, entry
      ensures Valid() && ret == launched && Repr == old(Repr) + {entry} && |old(all)| == |ring| - 1
      ensures ghost var m := |old(all)| - k;
              all == old(all)[m := DeviceAfter(old(all)[m], old(entry.item), launched, now)]
    {
      hide *;
      Parts();
      ghost var before, below, repr := all, Below, Repr;
      ghost var d := DeviceAfter(before[|before| - k], entry.item, launched, now);
      SameId(before[|before| - k], entry.item, launched, now);
      ret := AttachBelow(device, entry, launched, k, now);
      GrownMeans(k, d, entry);
      assert Ring(ring) && ring[0] == devices && devices.owner == this;
      all := before[|before| - k := d];
      Repr, Below := Repr + {entry}, Below + {entry};
      GrownIsValid(k, d, entry, before, below, repr);
    }

    lemma GrownMeans(k: nat, d: Device, entry: object)
      requires GrownAt(k, d, entry)
      ensures 0 < k < |ring| == |all| + 1 && Shows(ring[k], d, Below + {entry})
      ensures forall j {:trigger ring[j]} :: 0 < j < |ring| && j != k ==> Shows(ring[j], all[|all| - j], Below)
    {
      hide Shows;
    }

    // A device that goes.

    lemma LessListed(k: nat, was: seq<DNode<HdfDevice?>>, before: seq<Device>)
      requires 0 < k < |was| == |before| + 1 && ring == Without(was, k) && all == Without(before, |before| - k)
      requires forall j {:trigger was[j]} :: 0 < j < |was| ==> Shows(was[j], before[|before| - j], Below)
      ensures Listed() && (DistinctIds(before) ==> DistinctIds(all))
    {
      hide Shows;
      WithoutAt(was, k);
      WithoutAt(before, |before| - k);
      hide Without;
      forall j {:trigger ring[j]} | 0 < j < |ring| ensures Shows(ring[j], all[|all| - j], Below) {
        var i := if j < k then j else j + 1;
        assert ring[j] == was[i] && all[|all| - j] == before[|before| - i];
      }
    }

    lemma LessIsValid(k: nat, was: seq<DNode<HdfDevice?>>, before: seq<Device>)
      requires 0 < k < |was| == |before| + 1 && ring == Without(was, k) && all == Without(before, |before| - k)
      requires forall j {:trigger was[j]} :: 0 < j < |was| ==> Shows(was[j], before[|before| - j], Below)
      requires this in Repr && this !in Below && Below <= Repr && DistinctIds(before)
      requires Apart(was, Repr, Below) && Ring(ring) && ring[0] == devices && devices.owner == this
      ensures Valid()
    {
      hide Ring, Shows, DistinctIds, Listed;
      LessListed(k, was, before);
      WithoutAt(was, k);
      hide Without;
    }

    /** Takes the entry at position `k` out of the list, which leaves every device as it is. */
    method Unlink(entry: DNode<HdfDevice?>, ghost k: nat)
      requires Linked() && Listed() && 0 < k < |ring| && ring[k] == entry
      modifies this`ring, ring`next, ring`prev, entry`owner
      ensures ring == Without(old(ring), k) && Ring(ring) && ring[0] == devices && devices.owner == this
      ensures forall j {:trigger old(ring)[j]} :: 0 < j < |old(ring)| ==> Shows(old(ring)[j], all[|all| - j], Below)
    {
      ghost var was := ring;
      assert forall o :: o in Below ==> o !in ring;
      assert forall j {:trigger was[j]} :: 0 < j < |was| ==> Shows(was[j], all[|all| - j], Below);
      RingNeighbours(k);
      hide Ring, Linked, Listed, Shows;
      TakeOut(entry, k);
    }

    lemma RingNeighbours(k: nat)
      requires Ring(ring) && 0 < k < |ring|
      ensures ring[k].next in ring && ring[k].prev in ring && ring[k] != ring[0]
    {
    }

    method TakeOut(entry: DNode<HdfDevice?>, ghost k: nat)
      requires Ring(ring) && 0 < k < |ring| && ring[k] == entry && entry.next in ring && entry.prev in ring
      requires ring[0] == devices && devices.owner == this && entry != devices
      modifies this`ring, ring`next, ring`prev, entry`owner
      ensures ring == Without(old(ring), k) && Ring(ring) && ring[0] == devices && devices.owner == this
    {
      hide Ring;
      ring := Remove(entry, ring, k);
    }

    /** `DevHostServiceFreeDevice`, of the device at position `k`. */
    method FreeDevice(entry: DNode<HdfDevice?>, ghost k: nat)
      requires Valid() && 0 < k < |ring| && ring[k] == entry
      modifies this`ring, this`all, Repr - Below
      ensures Valid() && Repr == old(Repr) && |old(all)| == |old(ring)| - 1
      ensures all == Without(old(all), |old(all)| - k)
    {
      hide *;
      Parts();
      ghost var was, before := ring, all;
      ValidMeans();
      Unlink(entry, k);
      all := Without(before, |before| - k);
      LessIsValid(k, was, before);
    }

    lemma ValidMeans()
      requires Valid()
      ensures Linked() && Listed()
    {
      hide Linked, Listed;
    }

    /** `DevHostServiceAddDevice`. */
    method AddDevice(load: Load, ghost now: nat) returns (ret: int)
      requires Valid()
      modifies this, Repr
      ensures Valid() && fresh(Repr - old(Repr))
      ensures ret == LoadResult(old(all), load) && all == AfterLoad(old(all), load, now)
      ensures ret ==
        if !load.device && (forall d :: d in old(all) ==> d.deviceId != load.devId / 0x100 % 0x1_0000) then -202
        else if !load.driver then -207
        else if !load.node then -201
        else load.launched
    {
      hide *;
      ghost var before := all;
      ResultInNumbers(before, load);
      var device, place, k := QueryOrAddDevice(DeviceIdOf(load.devId), load.device, now);
      if device == null {
        NoDevice(before, load, now);
        return HDF_DEV_ERR_NO_DEVICE;
      }
      Parts();
      KnownDevice(k);
      FoundMeans(before, load, now);
      if !load.driver {
        ret := HDF_DEV_ERR_NODATA;
      } else if !load.node {
        ret := HDF_DEV_ERR_NO_MEMORY;
      } else {
        LaunchedMeans(before, all, load, now);
        var entry := new DNode<NodeInfo>(NodeInfo(load.devId, load.powerToken));
        ret := AttachNode(device, entry, load.launched, k, now);
      }
      if ret != HDF_SUCCESS {
        FreeDevice(place, k);
        FailedMeans(before, load, now);
      }
    }

    lemma DevicesBegin(host: Host)
      requires Valid() && host.hasService && host.devices == all
      ensures LoggedUpTo([], DeviceWakes(host), 0) && LoggedDownTo([], DeviceSleeps(host), |all|)
      ensures |ring| == |all| + 1 && ring[0] == devices
      ensures devices.next == if |ring| > 1 then ring[1] else devices
      ensures devices.prev == ring[|ring| - 1]
      ensures forall k {:trigger ring[k]} :: 0 < k < |ring| ==> ring[k] != devices
    {
      LogBegins(DeviceWakes(host));
      LogBegins(DeviceSleeps(host));
    }

    lemma AtDevice(host: Host, k: nat)
      requires Valid() && host.devices == all && 0 < k < |ring|
      ensures ring[k].item != null && ring[k].item.Valid()
      ensures |all| == |ring| - 1 && all[|all| - k].nodes == ring[k].item.Nodes()
      ensures ring[k].next == if k + 1 < |ring| then ring[k + 1] else devices
      ensures ring[k].prev == ring[k - 1]
    {
      hide Linked, Listed, DistinctIds;
      ShownAt(k);
    }

    lemma DevicesEnd(host: Host, log: seq<Visit>)
      requires Valid() && host.hasService && host.devices == all
      ensures LoggedUpTo(log, DeviceWakes(host), |all|) ==> log == WakeHost(host)
      ensures LoggedDownTo(log, DeviceSleeps(host), 0) ==> log == SleepHost(host)
    {
      LogEnds(log, DeviceWakes(host));
      LogEnds(log, DeviceSleeps(host));
    }

    /** `DevHostServicePmNotify`. */
    method PmNotify(state: nat, outcome: nat -> int, ghost host: Host)
      returns (ret: int, calls: seq<nat>, ghost log: seq<Visit>)
      requires Valid() && host.hasService && host.devices == all
      ensures ret == HDF_SUCCESS
      ensures calls == if state == 0 || state == 2 then DevIds(WakeHost(host)) else DevIds(SleepHost(host))
      ensures log == if state == 0 || state == 2 then WakeHost(host) else SleepHost(host)
    {
      hide *;
      WakeStates(state);
      ret := HDF_SUCCESS;
      log, calls := [], [];
      DevicesBegin(host);
      if IsPowerWakeState(state) {
        var pos := devices.prev;
        ghost var k := |ring| - 1;
        while pos != devices
          invariant Valid() && host.devices == all
          invariant 0 <= k < |ring| && LoggedUpTo(log, DeviceWakes(host), |all| - k)
          invariant pos == if k > 0 then ring[k] else devices
          invariant ret == HDF_SUCCESS && calls == DevIds(log)
          decreases k
        {
          AtDevice(host, k);
          var applied, called, visits := pos.item.ApplyPowerState(state, outcome, host.at, all[|all| - k]);
          if applied != HDF_SUCCESS {
            ret := HDF_FAILURE;
          }
          DeviceWoken(host, log, |all| - k);
          DevIdsConcat(log, visits);
          log := log + visits;
          calls := calls + called;
          pos := pos.prev;
          k := k - 1;
        }
      } else {
        var pos := devices.next;
        ghost var k := 1;
        while pos != devices
          invariant Valid() && host.devices == all
          invariant 0 < k <= |ring| && LoggedDownTo(log, DeviceSleeps(host), |all| + 1 - k)
          invariant pos == if k < |ring| then ring[k] else devices
          invariant ret == HDF_SUCCESS && calls == DevIds(log)
          decreases |ring| - k
        {
          AtDevice(host, k);
          var applied, called, visits := pos.item.ApplyPowerState(state, outcome, host.at, all[|all| - k]);
          if applied != HDF_SUCCESS {
            ret := HDF_FAILURE;
          }
          DeviceAsleep(host, log, |all| - k);
          DevIdsConcat(log, visits);
          log := log + visits;
          calls := calls + called;
          pos := pos.next;
          k := k + 1;
        }
      }
      DevicesEnd(host, log);
    }
  }

  lemma DeviceWoken(host: Host, log: seq<Visit>, i: nat)
    requires i < |host.devices| && LoggedUpTo(log, DeviceWakes(host), i)
    ensures LoggedUpTo(log + WakeDevice(host.at, host.devices[i]), DeviceWakes(host), i + 1)
  {
    hide LoggedUpTo, WakeDevice;
    LogGoesUp(log, DeviceWakes(host), i);
  }

  lemma DeviceAsleep(host: Host, log: seq<Visit>, i: nat)
    requires i < |host.devices| && LoggedDownTo(log, DeviceSleeps(host), i + 1)
    ensures LoggedDownTo(log + SleepDevice(host.at, host.devices[i]), DeviceSleeps(host), i)
  {
    hide LoggedDownTo, SleepDevice;
    LogGoesDown(log, DeviceSleeps(host), i);
  }
}
