/** The tree of hosts, devices and device nodes as values, and the order in which a power change visits it
    (`core/manager/src/devmgr_service.c`, `core/host/src/devhost_service.c`, `core/host/src/hdf_device.c`). */
module PowerOrder {
  import opened Base

  // `at` is the step of the run that linked the entry in.

  datatype Node = Node(at: nat, devId: nat, powerToken: bool)

  datatype Device = Device(at: nat, deviceId: nat, nodes: seq<Node>)

  /** What the manager finds a host by, and the configuration of its drivers. */
  datatype Identity = Identity(hostId: nat, hostName: string)

  datatype Host = Host(at: nat, identity: Identity, hasService: bool, devices: seq<Device>)

  datatype Visit = Visit(host: nat, device: nat, node: nat, devId: nat)

  /** The devices that the visits concern. */
  function DevIds(visits: seq<Visit>): (ids: seq<nat>)
    ensures |ids| == |visits| && forall i :: 0 <= i < |ids| ==> ids[i] == visits[i].devId
  {
    seq(|visits|, i requires 0 <= i < |visits| => visits[i].devId)
  }

  lemma DevIdsConcat(s: seq<Visit>, t: seq<Visit>)
    ensures DevIds(s + t) == DevIds(s) + DevIds(t)
  {
  }

  // Loops that visit something for each entry of a list, first to last and last to first.

  function Each<X>(parts: seq<seq<X>>): seq<X> {
    if parts == [] then [] else parts[0] + Each(parts[1..])
  }

  function EachBackwards<X>(parts: seq<seq<X>>): seq<X> {
    if parts == [] then [] else parts[|parts| - 1] + EachBackwards(parts[..|parts| - 1])
  }

  lemma {:induction false} EachAppend<X>(parts: seq<seq<X>>, last: seq<X>)
    ensures Each(parts + [last]) == Each(parts) + last
  {
    if parts == [] {
      assert parts + [last] == [last];
      assert Each([last]) == last + Each([]);
    } else {
      EachAppend(parts[1..], last);
      assert (parts + [last])[1..] == parts[1..] + [last];
    }
  }

  lemma {:induction false} BackwardsIsReverse<X>(parts: seq<seq<X>>, reversed: seq<seq<X>>)
    requires |reversed| == |parts|
    requires forall i :: 0 <= i < |parts| ==> reversed[i] == Reverse(parts[i])
    ensures EachBackwards(reversed) == Reverse(Each(parts))
  {
    if parts != [] {
      var init, last := parts[..|parts| - 1], parts[|parts| - 1];
      assert parts == init + [last];
      EachAppend(init, last);
      ReverseConcat(Each(init), last);
      BackwardsIsReverse(init, reversed[..|parts| - 1]);
    }
  }

  // Waking up: hosts first to last, devices first created to last, nodes first attached to last; going to
  // sleep: from the last to the first at each level.

  function VisitsOf(h: nat, d: nat, n: Node): seq<Visit> {
    if n.powerToken then [Visit(h, d, n.at, n.devId)] else []
  }

  function NodeVisits(h: nat, d: Device): seq<seq<Visit>> {
    seq(|d.nodes|, i requires 0 <= i < |d.nodes| => VisitsOf(h, d.at, d.nodes[i]))
  }

  function WakeDevice(h: nat, d: Device): seq<Visit> {
    Each(NodeVisits(h, d))
  }

  function SleepDevice(h: nat, d: Device): seq<Visit> {
    EachBackwards(NodeVisits(h, d))
  }

  function DeviceWakes(host: Host): seq<seq<Visit>> {
    seq(|host.devices|, i requires 0 <= i < |host.devices| => WakeDevice(host.at, host.devices[i]))
  }

  function DeviceSleeps(host: Host): seq<seq<Visit>> {
    seq(|host.devices|, i requires 0 <= i < |host.devices| => SleepDevice(host.at, host.devices[i]))
  }

  function WakeHost(host: Host): seq<Visit> {
    if host.hasService then
      Each(DeviceWakes(host))
    else []
  }

  function SleepHost(host: Host): seq<Visit> {
    if host.hasService then
      EachBackwards(DeviceSleeps(host))
    else []
  }

  function HostWakes(hosts: seq<Host>): seq<seq<Visit>> {
    seq(|hosts|, i requires 0 <= i < |hosts| => WakeHost(hosts[i]))
  }

  function HostSleeps(hosts: seq<Host>): seq<seq<Visit>> {
    seq(|hosts|, i requires 0 <= i < |hosts| => SleepHost(hosts[i]))
  }

  function Resume(hosts: seq<Host>): seq<Visit> {
    Each(HostWakes(hosts))
  }

  function Suspend(hosts: seq<Host>): seq<Visit> {
    EachBackwards(HostSleeps(hosts))
  }

  lemma DeviceSleepsInReverse(h: nat, d: Device)
    ensures SleepDevice(h, d) == Reverse(WakeDevice(h, d))
  {
    BackwardsIsReverse(NodeVisits(h, d), NodeVisits(h, d));
  }

  lemma HostSleepsInReverse(host: Host)
    ensures SleepHost(host) == Reverse(WakeHost(host))
  {
    if host.hasService {
      forall i | 0 <= i < |host.devices|
        ensures SleepDevice(host.at, host.devices[i]) == Reverse(WakeDevice(host.at, host.devices[i]))
      {
        DeviceSleepsInReverse(host.at, host.devices[i]);
      }
      BackwardsIsReverse(DeviceWakes(host), DeviceSleeps(host));
    }
  }

  lemma SuspendReversesResume(hosts: seq<Host>)
    ensures Suspend(hosts) == Reverse(Resume(hosts))
  {
    forall i | 0 <= i < |hosts| ensures SleepHost(hosts[i]) == Reverse(WakeHost(hosts[i])) {
      HostSleepsInReverse(hosts[i]);
    }
    BackwardsIsReverse(HostWakes(hosts), HostSleeps(hosts));
  }

  // How the tree is built.

  /** `DEVICEID` of `core/host/include/hdf_device.h`. */
  function DeviceIdOf(devId: nat): nat {
    devId / 0x100 % 0x1_0000
  }

  /** Of an id made of a host, of 16 bits for the device and of 8 bits for the node, that is the device. */
  lemma DeviceIdOfParts(host: nat, device: nat, node: nat)
    requires device < 0x1_0000 && node < 0x100
    ensures DeviceIdOf(host * 0x100_0000 + device * 0x100 + node) == device
  {
    assert (host * 0x100_0000 + device * 0x100 + node) / 0x100 == host * 0x1_0000 + device;
  }

  /** The position of the device with the given id, or the number of devices. */
  function Find(devices: seq<Device>, id: nat): (k: nat)
    ensures k <= |devices|
    ensures k < |devices| ==> devices[k].deviceId == id
    ensures forall i :: 0 <= i < k ==> devices[i].deviceId != id
  {
    if devices == [] || devices[0].deviceId == id then 0 else 1 + Find(devices[1..], id)
  }

  lemma {:induction false} Finds(devices: seq<Device>, id: nat, k: nat)
    requires k <= |devices|
    requires k < |devices| ==> devices[k].deviceId == id
    requires forall i :: 0 <= i < k ==> devices[i].deviceId != id
    ensures Find(devices, id) == k
  {
  }

  predicate DistinctIds(devices: seq<Device>) {
    forall i, j :: 0 <= i < j < |devices| ==> devices[i].deviceId != devices[j].deviceId
  }

  function QueryOrAdd(devices: seq<Device>, id: nat, now: nat): (all: seq<Device>)
    ensures Find(all, id) < |all|
    ensures devices <= all <= devices + [Device(now, id, [])]
  {
    Finds(devices + [Device(now, id, [])], id, Find(devices, id));
    if Find(devices, id) < |devices| then devices else devices + [Device(now, id, [])]
  }

  function Attach(devices: seq<Device>, k: nat, n: Node): seq<Device>
    requires k < |devices|
  {
    devices[k := devices[k].(nodes := devices[k].nodes + [n])]
  }

  function AddDevice(devices: seq<Device>, n: Node): seq<Device> {
    var all := QueryOrAdd(devices, DeviceIdOf(n.devId), n.at);
    Attach(all, Find(all, DeviceIdOf(n.devId)), n)
  }

  /** One call of `DevHostServiceAddDevice`: whether a device can be allocated if one is needed, whether the driver is
      found, whether a node can be allocated, and what its launch returns. */
  datatype Load = Load(devId: nat, powerToken: bool, device: bool, driver: bool, node: bool, launched: int)

  function LoadResult(devices: seq<Device>, load: Load): int {
    if !load.device && Find(devices, DeviceIdOf(load.devId)) == |devices| then HDF_DEV_ERR_NO_DEVICE
    else if !load.driver then HDF_DEV_ERR_NODATA
    else if !load.node then HDF_DEV_ERR_NO_MEMORY
    else load.launched
  }

  /** After a failure the device goes, with all its nodes, whether it was there before or not. */
  function AfterLoad(devices: seq<Device>, load: Load, now: nat): seq<Device> {
    if LoadResult(devices, load) == HDF_SUCCESS then AddDevice(devices, Node(now, load.devId, load.powerToken))
    else DropDevice(devices, DeviceIdOf(load.devId))
  }

  function DropDevice(devices: seq<Device>, id: nat): seq<Device> {
    var k := Find(devices, id);
    if k < |devices| then Without(devices, k) else devices
  }

  function Identities(hosts: seq<Host>): (identities: seq<Identity>)
    ensures |identities| == |hosts|
    ensures forall i {:trigger identities[i]} :: 0 <= i < |identities| ==> identities[i] == hosts[i].identity
  {
    seq(|hosts|, i requires 0 <= i < |hosts| => hosts[i].identity)
  }

  /** The position of the first host with the given id, or the number of hosts. */
  function FindHost(identities: seq<Identity>, hostId: nat): (k: nat)
    ensures k <= |identities|
    ensures k < |identities| ==> identities[k].hostId == hostId
    ensures forall i :: 0 <= i < k ==> identities[i].hostId != hostId
  {
    if identities == [] || identities[0].hostId == hostId then 0 else 1 + FindHost(identities[1..], hostId)
  }

  lemma {:induction false} FindsHost(identities: seq<Identity>, hostId: nat, k: nat)
    requires k <= |identities|
    requires k < |identities| ==> identities[k].hostId == hostId
    requires forall i :: 0 <= i < k ==> identities[i].hostId != hostId
    ensures FindHost(identities, hostId) == k
  {
  }

  /** The host at position `host` of the list starts, fails to start, attaches its service, and loads a driver. */
  datatype Step =
    | StartHost(identity: Identity)
    | StartFailed(host: nat)
    | AttachService(host: nat)
    | LoadDriver(host: nat, load: Load)

  predicate Enabled(hosts: seq<Host>, step: Step) {
    match step
    case StartHost(_) => true
    case StartFailed(k) => k < |hosts|
    case AttachService(k) => k < |hosts|
    case LoadDriver(k, _) => k < |hosts| && hosts[k].hasService
  }

  function Apply(hosts: seq<Host>, step: Step, now: nat): seq<Host>
    requires Enabled(hosts, step)
  {
    match step
    case StartHost(identity) => hosts + [Host(now, identity, false, [])]
    case StartFailed(k) => Without(hosts, k)
    case AttachService(k) => hosts[k := hosts[k].(hasService := true, devices := [])]
    case LoadDriver(k, load) => hosts[k := hosts[k].(devices := AfterLoad(hosts[k].devices, load, now))]
  }

  /** `steps`, the first of them being step number `now` of the run, lead from `hosts` to `hosts'`. */
  ghost predicate Leads(hosts: seq<Host>, now: nat, steps: seq<Step>, hosts': seq<Host>)
    decreases |steps|
  {
    if steps == [] then hosts' == hosts
    else Enabled(hosts, steps[0]) && Leads(Apply(hosts, steps[0], now), now + 1, steps[1..], hosts')
  }

  lemma {:induction false} LeadsTwice(a: seq<Host>, now: nat, first: seq<Step>, b: seq<Host>,
                                      second: seq<Step>, c: seq<Host>)
    requires Leads(a, now, first, b) && Leads(b, now + |first|, second, c)
    ensures Leads(a, now, first + second, c)
    decreases |first|
  {
    hide Apply, Enabled;
    if first == [] {
      assert first + second == second;
    } else {
      LeadsTwice(Apply(a, first[0], now), now + 1, first[1..], b, second, c);
      assert (first + second)[1..] == first[1..] + second;
    }
  }

  lemma LeadsOneMore(a: seq<Host>, now: nat, steps: seq<Step>, b: seq<Host>, step: Step)
    requires Leads(a, now, steps, b) && Enabled(b, step)
    ensures Leads(a, now, steps + [step], Apply(b, step, now + |steps|))
  {
    var c := Apply(b, step, now + |steps|);
    assert [step][1..] == [] && Leads(c, now + |steps| + 1, [], c);
    LeadsTwice(a, now, steps, b, [step], c);
  }

  lemma NoSteps(hosts: seq<Host>, now: nat, hosts': seq<Host>)
    requires Leads(hosts, now, [], hosts')
    ensures hosts' == hosts
  {
  }

  // Every level lists its entries in the order in which the run linked them in.

  ghost predicate NodesInOrder(nodes: seq<Node>, now: nat) {
    && (forall i :: 0 <= i < |nodes| ==> nodes[i].at < now)
    && (forall i, j :: 0 <= i < j < |nodes| ==> nodes[i].at < nodes[j].at)
  }

  ghost predicate DevicesInOrder(devices: seq<Device>, now: nat) {
    && (forall i :: 0 <= i < |devices| ==> devices[i].at < now && NodesInOrder(devices[i].nodes, now))
    && (forall i, j :: 0 <= i < j < |devices| ==>
        devices[i].at < devices[j].at && devices[i].deviceId != devices[j].deviceId)
  }

  ghost predicate HostsInOrder(hosts: seq<Host>, now: nat) {
    && (forall i :: 0 <= i < |hosts| ==> hosts[i].at < now && DevicesInOrder(hosts[i].devices, now))
    && (forall i, j :: 0 <= i < j < |hosts| ==> hosts[i].at < hosts[j].at)
  }

  lemma AttachKeepsOrder(devices: seq<Device>, k: nat, n: Node)
    requires k < |devices| && DevicesInOrder(devices, n.at + 1) && NodesInOrder(devices[k].nodes, n.at)
    ensures DevicesInOrder(Attach(devices, k, n), n.at + 1)
  {
  }

  lemma NewDeviceKeepsOrder(devices: seq<Device>, id: nat, now: nat)
    requires DevicesInOrder(devices, now) && forall i :: 0 <= i < |devices| ==> devices[i].deviceId != id
    ensures DevicesInOrder(devices + [Device(now, id, [])], now + 1)
  {
    DevicesStayInOrder(devices, now);
    assert NodesInOrder([], now + 1);
    hide NodesInOrder;
  }

  lemma QueryKeepsOrder(devices: seq<Device>, id: nat, now: nat)
    requires DevicesInOrder(devices, now)
    ensures var all := QueryOrAdd(devices, id, now);
      DevicesInOrder(all, now + 1) && NodesInOrder(all[Find(all, id)].nodes, now)
  {
    var k := Find(devices, id);
    if k < |devices| {
      DevicesStayInOrder(devices, now);
    } else {
      NewDeviceKeepsOrder(devices, id, now);
      hide DevicesInOrder;
      Finds(devices + [Device(now, id, [])], id, k);
    }
  }

  lemma AddDeviceKeepsOrder(devices: seq<Device>, n: Node)
    requires DevicesInOrder(devices, n.at)
    ensures DevicesInOrder(AddDevice(devices, n), n.at + 1)
  {
    QueryKeepsOrder(devices, DeviceIdOf(n.devId), n.at);
    hide DevicesInOrder, NodesInOrder, QueryOrAdd, Attach;
    var all := QueryOrAdd(devices, DeviceIdOf(n.devId), n.at);
    AttachKeepsOrder(all, Find(all, DeviceIdOf(n.devId)), n);
  }

  lemma DropDeviceKeepsOrder(devices: seq<Device>, id: nat, now: nat)
    requires DevicesInOrder(devices, now)
    ensures DevicesInOrder(DropDevice(devices, id), now)
  {
    var k := Find(devices, id);
    if k < |devices| {
      WithoutAt(devices, k);
      hide Without, NodesInOrder;
    }
  }

  lemma DevicesStayInOrder(devices: seq<Device>, now: nat)
    requires DevicesInOrder(devices, now)
    ensures DevicesInOrder(devices, now + 1)
  {
  }

  lemma LoadKeepsOrder(devices: seq<Device>, load: Load, now: nat)
    requires DevicesInOrder(devices, now)
    ensures DevicesInOrder(AfterLoad(devices, load, now), now + 1)
  {
    AddDeviceKeepsOrder(devices, Node(now, load.devId, load.powerToken));
    DevicesStayInOrder(devices, now);
    DropDeviceKeepsOrder(devices, DeviceIdOf(load.devId), now + 1);
    hide DevicesInOrder, AddDevice, DropDevice;
  }

  lemma HostsStayInOrder(hosts: seq<Host>, now: nat)
    requires HostsInOrder(hosts, now)
    ensures HostsInOrder(hosts, now + 1)
  {
    hide DevicesInOrder;
    forall i | 0 <= i < |hosts| ensures DevicesInOrder(hosts[i].devices, now + 1) {
      DevicesStayInOrder(hosts[i].devices, now);
    }
  }

  lemma HostReplaced(hosts: seq<Host>, k: nat, host: Host, now: nat)
    requires k < |hosts| && HostsInOrder(hosts, now)
    requires host.at == hosts[k].at && DevicesInOrder(host.devices, now)
    ensures HostsInOrder(hosts[k := host], now)
  {
    hide DevicesInOrder;
  }

  lemma HostRemoved(hosts: seq<Host>, k: nat, now: nat)
    requires k < |hosts| && HostsInOrder(hosts, now)
    ensures HostsInOrder(Without(hosts, k), now)
  {
    WithoutAt(hosts, k);
    hide DevicesInOrder, Without;
  }

  lemma HostAdded(hosts: seq<Host>, identity: Identity, now: nat)
    requires HostsInOrder(hosts, now)
    ensures HostsInOrder(hosts + [Host(now, identity, false, [])], now + 1)
  {
    HostsStayInOrder(hosts, now);
    assert DevicesInOrder([], now + 1);
    hide DevicesInOrder;
  }

  lemma StepKeepsOrder(hosts: seq<Host>, step: Step, now: nat)
    requires HostsInOrder(hosts, now) && Enabled(hosts, step)
    ensures HostsInOrder(Apply(hosts, step, now), now + 1)
  {
    assert DevicesInOrder([], now + 1);
    HostsStayInOrder(hosts, now);
    match step
    case StartHost(identity) => HostAdded(hosts, identity, now);
    case StartFailed(k) => HostRemoved(hosts, k, now + 1);
    case AttachService(k) => HostReplaced(hosts, k, hosts[k].(hasService := true, devices := []), now + 1);
    case LoadDriver(k, load) =>
      LoadKeepsOrder(hosts[k].devices, load, now);
      hide DevicesInOrder, AfterLoad;
      HostReplaced(hosts, k, hosts[k].(devices := AfterLoad(hosts[k].devices, load, now)), now + 1);
  }

  lemma {:induction false} RunKeepsOrder(hosts: seq<Host>, now: nat, steps: seq<Step>, hosts': seq<Host>)
    requires HostsInOrder(hosts, now) && Leads(hosts, now, steps, hosts')
    ensures HostsInOrder(hosts', now + |steps|)
    decreases |steps|
  {
    hide HostsInOrder, Apply, Enabled;
    if steps != [] {
      StepKeepsOrder(hosts, steps[0], now);
      RunKeepsOrder(Apply(hosts, steps[0], now), now + 1, steps[1..], hosts');
    }
  }

  // So a resume visits hosts in the order they were started, the devices of a host in the order they were
  // created, and the nodes of a device in the order they were attached.

  predicate Before(a: Visit, b: Visit) {
    a.host < b.host || (a.host == b.host && (a.device < b.device || (a.device == b.device && a.node < b.node)))
  }

  ghost predicate Increasing(s: seq<Visit>) {
    forall i, j :: 0 <= i < j < |s| ==> Before(s[i], s[j])
  }

  lemma IncreasingConcat(s: seq<Visit>, t: seq<Visit>)
    requires Increasing(s) && Increasing(t)
    requires forall a, b :: a in s && b in t ==> Before(a, b)
    ensures Increasing(s + t)
  {
  }

  lemma {:induction false} EachIncreasing(parts: seq<seq<Visit>>)
    requires forall i :: 0 <= i < |parts| ==> Increasing(parts[i])
    requires forall i, j, a, b {:trigger a in parts[i], b in parts[j]} ::
      0 <= i < j < |parts| && a in parts[i] && b in parts[j] ==> Before(a, b)
    ensures Increasing(Each(parts))
  {
    if parts != [] {
      EachIncreasing(parts[1..]);
      forall b | b in Each(parts[1..]) ensures exists j :: 0 < j < |parts| && b in parts[j] {
        InSome(parts[1..], b);
        var j :| 0 <= j < |parts[1..]| && b in parts[1..][j];
        assert b in parts[j + 1];
      }
      IncreasingConcat(parts[0], Each(parts[1..]));
    }
  }

  lemma {:induction false} InSome<X>(parts: seq<seq<X>>, v: X)
    ensures v in Each(parts) <==> exists i :: 0 <= i < |parts| && v in parts[i]
  {
    if parts != [] {
      InSome(parts[1..], v);
      if v in Each(parts[1..]) {
        var i :| 0 <= i < |parts[1..]| && v in parts[1..][i];
        assert v in parts[i + 1];
      }
      if i :| 0 <= i < |parts| && v in parts[i] {
        assert i > 0 ==> v in parts[1..][i - 1];
      }
    }
  }

  lemma DeviceResumes(h: nat, d: Device, now: nat, v: Visit)
    ensures v in WakeDevice(h, d) <==> v.host == h && v.device == d.at && Node(v.node, v.devId, true) in d.nodes
    ensures NodesInOrder(d.nodes, now) ==> Increasing(WakeDevice(h, d))
  {
    var parts := NodeVisits(h, d);
    InSome(parts, v);
    if NodesInOrder(d.nodes, now) {
      EachIncreasing(parts);
    }
    if v.host == h && v.device == d.at && Node(v.node, v.devId, true) in d.nodes {
      var i :| 0 <= i < |d.nodes| && d.nodes[i] == Node(v.node, v.devId, true);
      assert v in parts[i];
    }
  }

  /** The device node that `v` visits is below the host, which has attached, and has a power token. */
  ghost predicate OfHost(host: Host, v: Visit) {
    && host.hasService && host.at == v.host
    && exists j :: (
      && 0 <= j < |host.devices| && host.devices[j].at == v.device
      && Node(v.node, v.devId, true) in host.devices[j].nodes)
  }

  lemma HostResumes(host: Host, now: nat, v: Visit)
    ensures v in WakeHost(host) <==> OfHost(host, v)
    ensures DevicesInOrder(host.devices, now) ==> Increasing(WakeHost(host))
  {
    if host.hasService {
      var parts := DeviceWakes(host);
      InSome(parts, v);
      forall i, u: Visit | 0 <= i < |host.devices|
        ensures u in parts[i] <==> (
          u.host == host.at && u.device == host.devices[i].at && Node(u.node, u.devId, true) in host.devices[i].nodes)
        ensures NodesInOrder(host.devices[i].nodes, now) ==> Increasing(parts[i])
      {
        DeviceResumes(host.at, host.devices[i], now, u);
      }
      if DevicesInOrder(host.devices, now) {
        EachIncreasing(parts);
      }
    }
  }

  lemma InOrderResumes(hosts: seq<Host>, now: nat, v: Visit)
    requires HostsInOrder(hosts, now)
    ensures Increasing(Resume(hosts))
    ensures v in Resume(hosts) <==> exists i :: 0 <= i < |hosts| && OfHost(hosts[i], v)
  {
    hide WakeHost, DevicesInOrder;
    var parts := HostWakes(hosts);
    InSome(parts, v);
    forall i, u: Visit | 0 <= i < |hosts|
      ensures u in parts[i] <==> OfHost(hosts[i], u)
      ensures Increasing(parts[i])
    {
      HostResumes(hosts[i], now, u);
    }
    EachIncreasing(parts);
  }

  lemma NoHostsInOrder()
    ensures HostsInOrder([], 0)
  {
  }

  /** A resume visits every device node that can be visited, once, in the order in which hosts were started,
      the devices of a host created and the nodes of a device attached; a suspend goes the other way. */
  lemma PowerFollowsTheRun(run: seq<Step>, hosts: seq<Host>, v: Visit)
    requires Leads([], 0, run, hosts)
    ensures Increasing(Resume(hosts))
    ensures v in Resume(hosts) <==> exists i :: 0 <= i < |hosts| && OfHost(hosts[i], v)
    ensures Suspend(hosts) == Reverse(Resume(hosts))
  {
    hide Resume, Suspend, HostsInOrder, OfHost, Increasing;
    NoHostsInOrder();
    RunKeepsOrder([], 0, run, hosts);
    InOrderResumes(hosts, |run|, v);
    SuspendReversesResume(hosts);
  }

  // What a failed load costs: the other nodes of the same device.

  lemma {:induction false} EachConcat<X>(s: seq<seq<X>>, t: seq<seq<X>>)
    ensures Each(s + t) == Each(s) + Each(t)
  {
    if s == [] {
      assert s + t == t;
    } else {
      EachConcat(s[1..], t);
      assert (s + t)[1..] == s[1..] + t;
      assert Each(s + t) == s[0] + Each(s[1..] + t);
    }
  }

  lemma EachSplits<X>(parts: seq<seq<X>>, k: nat)
    requires k < |parts|
    ensures Each(parts) == Each(parts[..k]) + parts[k] + Each(parts[k + 1..])
    ensures Each(Without(parts, k)) == Each(parts[..k]) + Each(parts[k + 1..])
  {
    EachConcat(parts[..k], parts[k..]);
    assert parts == parts[..k] + parts[k..] && parts[k..][1..] == parts[k + 1..];
    EachConcat(parts[..k], parts[k + 1..]);
  }

  lemma EachWithLess<X>(parts: seq<seq<X>>, k: nat)
    requires k < |parts|
    ensures Each(Without(parts, k)) == Each(parts) <==> parts[k] == []
  {
    EachSplits(parts, k);
    hide Each;
    if parts[k] == [] {
      assert Each(parts[..k]) + parts[k] == Each(parts[..k]);
    } else {
      assert |Each(Without(parts, k))| < |Each(parts)|;
    }
  }

  lemma EachWithOther<X>(parts: seq<seq<X>>, k: nat, part: seq<X>)
    requires k < |parts|
    ensures Each(parts[k := part]) == Each(parts) <==> part == parts[k]
  {
    var other := parts[k := part];
    EachSplits(parts, k);
    EachSplits(other, k);
    assert other[..k] == parts[..k] && other[k + 1..] == parts[k + 1..];
    hide Each;
    SameMiddle(Each(parts[..k]), part, parts[k], Each(parts[k + 1..]));
  }

  lemma SameMiddle<X>(a: seq<X>, p: seq<X>, q: seq<X>, b: seq<X>)
    ensures a + p + b == a + q + b <==> p == q
  {
    assert (a + p + b)[|a|..] == p + b && (a + q + b)[|a|..] == q + b;
    if p + b == q + b {
      assert |p| == |q|;
      assert (p + b)[..|p|] == p && (q + b)[..|q|] == q;
    }
  }

  lemma HostDropsDevice(host: Host, id: nat)
    requires host.hasService
    ensures
      var k := Find(host.devices, id);
      WakeHost(host.(devices := DropDevice(host.devices, id))) == WakeHost(host) <==>
        k == |host.devices| || WakeDevice(host.at, host.devices[k]) == []
  {
    var k := Find(host.devices, id);
    if k < |host.devices| {
      var rest := host.(devices := Without(host.devices, k));
      WithoutAt(host.devices, k);
      WithoutAt(DeviceWakes(host), k);
      hide Without, WakeDevice;
      assert DeviceWakes(rest) == Without(DeviceWakes(host), k);
      EachWithLess(DeviceWakes(host), k);
    }
  }

  /** A driver that cannot be loaded leaves the power change as it was exactly when no node with a power token had
      been added to the same device before: otherwise those nodes are no longer visited. */
  lemma FailedLoadIsHarmless(hosts: seq<Host>, k: nat, load: Load, now: nat)
    requires Enabled(hosts, LoadDriver(k, load)) && LoadResult(hosts[k].devices, load) != HDF_SUCCESS
    ensures
      var devices := hosts[k].devices;
      var j := Find(devices, DeviceIdOf(load.devId));
      Resume(Apply(hosts, LoadDriver(k, load), now)) == Resume(hosts) <==>
        j == |devices| || forall i :: 0 <= i < |devices[j].nodes| ==> !devices[j].nodes[i].powerToken
  {
    var id := DeviceIdOf(load.devId);
    var devices := hosts[k].devices;
    var host := hosts[k].(devices := DropDevice(devices, id));
    HostDropsDevice(hosts[k], id);
    if Find(devices, id) < |devices| {
      NoVisits(hosts[k].at, devices[Find(devices, id)]);
    }
    assert Apply(hosts, LoadDriver(k, load), now) == hosts[k := host];
    hide WakeHost, WakeDevice, DropDevice, DeviceIdOf, Apply, Enabled;
    assert HostWakes(hosts[k := host]) == HostWakes(hosts)[k := WakeHost(host)];
    EachWithOther(HostWakes(hosts), k, WakeHost(host));
  }

  lemma NoVisits(h: nat, d: Device)
    ensures WakeDevice(h, d) == [] <==> forall i :: 0 <= i < |d.nodes| ==> !d.nodes[i].powerToken
  {
    forall i | 0 <= i < |d.nodes| && d.nodes[i].powerToken ensures WakeDevice(h, d) != [] {
      var v := Visit(h, d.at, d.nodes[i].at, d.nodes[i].devId);
      DeviceResumes(h, d, 0, v);
    }
    if forall i :: 0 <= i < |d.nodes| ==> !d.nodes[i].powerToken {
      if WakeDevice(h, d) != [] {
        DeviceResumes(h, d, 0, WakeDevice(h, d)[0]);
      }
    }
  }

  lemma LoadsFirst(devId: nat, load: Load, now: nat)
    requires load.devId == devId && LoadResult([], load) == HDF_SUCCESS
    ensures AfterLoad([], load, now) == [Device(now, DeviceIdOf(devId), [Node(now, devId, load.powerToken)])]
  {
    hide DeviceIdOf;
    var all := [Device(now, DeviceIdOf(devId), [])];
    Finds(all, DeviceIdOf(devId), 0);
    assert QueryOrAdd([], DeviceIdOf(devId), now) == all;
    var node := Node(now, devId, load.powerToken);
    assert AddDevice([], node) == Attach(all, 0, node) == [Device(now, DeviceIdOf(devId), [] + [node])];
    assert [] + [node] == [node];
  }

  lemma DropsOnly(device: Device, load: Load, now: nat)
    requires DeviceIdOf(load.devId) == device.deviceId && LoadResult([device], load) != HDF_SUCCESS
    ensures AfterLoad([device], load, now) == []
  {
    hide DeviceIdOf, LoadResult;
    Finds([device], device.deviceId, 0);
  }

  lemma ResumeOne(host: Host, device: Device, node: Node)
    requires host.hasService && node.powerToken && device.nodes == [node]
    ensures host.devices == [device] ==> Resume([host]) == [Visit(host.at, device.at, node.at, node.devId)]
    ensures host.devices == [] ==> Resume([host]) == []
  {
    var visit := Visit(host.at, device.at, node.at, node.devId);
    assert NodeVisits(host.at, device) == [[visit]];
    EachOne([visit]);
    if host.devices == [device] {
      assert DeviceWakes(host) == [[visit]];
    } else if host.devices == [] {
      EachOne<Visit>([]);
      assert DeviceWakes(host) == [];
    }
    assert HostWakes([host]) == [WakeHost(host)];
    EachOne(WakeHost(host));
  }

  lemma EachOne<X>(part: seq<X>)
    ensures Each([part]) == part
  {
    assert Each([part]) == part + Each([]);
  }

  /** A run in which a driver that is not found takes a loaded one of the same device out of the power change. */
  lemma FailedLoadTakesOthers(identity: Identity, devId: nat)
    returns (run: seq<Step>, before: seq<Host>, after: seq<Host>)
    ensures run == [
      StartHost(identity), AttachService(0), LoadDriver(0, Load(devId, true, true, true, true, HDF_SUCCESS)),
      LoadDriver(0, Load(devId, true, true, false, true, HDF_SUCCESS))]
    ensures Leads([], 0, run[..3], before) && Resume(before) == [Visit(0, 2, 2, devId)]
    ensures Leads([], 0, run, after) && Resume(after) == []
  {
    var good := Load(devId, true, true, true, true, HDF_SUCCESS);
    var bad := good.(driver := false);
    var node := Node(2, devId, true);
    var device := Device(2, DeviceIdOf(devId), [node]);
    var host := Host(0, identity, true, [device]);
    run := [StartHost(identity), AttachService(0), LoadDriver(0, good), LoadDriver(0, bad)];
    before, after := [host], [host.(devices := [])];
    hide DeviceIdOf, Resume;
    ResumeOne(host, device, node);
    ResumeOne(host.(devices := []), device, node);
    LoadsFirst(devId, good, 2);
    DropsOnly(device, bad, 3);
    hide AfterLoad, LoadResult;
    assert Leads([], 0, [], []);
    hide Leads;
    assert run[..1] == [] + [run[0]] && run[..2] == run[..1] + [run[1]] && run[..3] == run[..2] + [run[2]];
    assert run == run[..3] + [run[3]];
    var started, attached := [Host(0, identity, false, [])], [Host(0, identity, true, [])];
    assert Apply([], run[0], 0) == started && Apply(started, run[1], 1) == attached;
    assert Apply(attached, run[2], 2) == before && Apply(before, run[3], 3) == after;
    hide Apply;
    LeadsOneMore([], 0, [], [], run[0]);
    LeadsOneMore([], 0, run[..1], started, run[1]);
    LeadsOneMore([], 0, run[..2], attached, run[2]);
    LeadsOneMore([], 0, run[..3], before, run[3]);
  }
}
