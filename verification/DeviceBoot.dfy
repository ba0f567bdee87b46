/** Which hosts and drivers are started at boot, and in which order: `core/common/src/hdf_attribute.c`,
    `core/manager/src/devhost_service_clnt.c` and `core/manager/src/devmgr_service.c`. */
module DeviceBoot {
  import opened Base
  import opened SList
  import opened SListTraversal
  import opened PriorityOrder

  const MAX_PRIORITY_NUM := 200
  const ID_RANGE := 0x1_0000

  /** One child of the manager node in the configuration, with its devices and their nodes; an attribute that cannot be
      read is None. */
  datatype HostConfig = HostConfig(hostName: Option<string>, priority: Option<nat>, devices: seq<seq<DeviceConfig>>)

  datatype HostInfo = HostInfo(hostId: nat, hostName: string, priority: nat)

  predicate GetHostInfo(c: HostConfig) {
    c.hostName.Some? && c.hostName.value != "" && c.priority.Some? && c.priority.value <= MAX_PRIORITY_NUM
  }

  predicate HostListCompare(a: HostInfo, b: HostInfo) {
    a.priority <= b.priority
  }

  /** The number of the host after `n` others, in an unsigned 16-bit variable. */
  function HostId(n: nat): nat {
    n % ID_RANGE
  }

  function Increment(id: nat): nat {
    (id + 1) % ID_RANGE
  }

  /** The hosts that the configuration describes properly, numbered in the order of the configuration. */
  function HostInfos(config: seq<HostConfig>): seq<HostInfo> {
    if config == [] then [] else WithHost(HostInfos(config[..|config| - 1]), config[|config| - 1])
  }

  function WithHost(infos: seq<HostInfo>, c: HostConfig): seq<HostInfo> {
    if GetHostInfo(c) then infos + [HostInfo(HostId(|infos|), c.hostName.value, c.priority.value)] else infos
  }

  /** `preload` of a driver: DEVICE_PRELOAD_ENABLE, _ENABLE_STEP2 and _DISABLE. */
  datatype Preload = Enable | EnableStep2 | Disable

  datatype DeviceConfig = DeviceConfig(policy: Option<nat>, priority: Option<nat>, preload: Option<nat>,
                                       permission: Option<nat>, moduleName: Option<string>, svcName: Option<string>,
                                       deviceMatchAttr: Option<string>)

  datatype DeviceInfo = DeviceInfo(deviceId: nat, policy: nat, priority: nat, preload: Preload, moduleName: string,
                                   svcName: string)

  const DEVICE_PRELOAD_DISABLE := 2

  predicate GetDeviceNodeInfo(c: DeviceConfig) {
    && c.policy.Some? && c.priority.Some? && c.preload.Some? && c.permission.Some?
    && c.moduleName.Some? && c.svcName.Some? && c.deviceMatchAttr.Some?
    && c.policy.value <= SERVICE_POLICY_PRIVATE && c.priority.value <= MAX_PRIORITY_NUM
    && c.preload.value <= DEVICE_PRELOAD_DISABLE && c.moduleName.value != ""
  }

  /** `MK_DEVID` of the host, the device and node 0, cut to the 16 bits of the field; the counter of the devices has 16
      bits, too. */
  function DeviceId(hostId: nat, deviceIdx: nat): nat {
    (hostId * 0x100_0000 + deviceIdx % ID_RANGE * 0x100) % ID_RANGE
  }

  /** The cut leaves nothing of the host, and eight bits of the device. */
  lemma DeviceIdIsCut(hostId: nat, deviceIdx: nat)
    ensures DeviceId(hostId, deviceIdx) == deviceIdx % 0x100 * 0x100
  {
    var low := deviceIdx % ID_RANGE;
    CutLow(hostId * 0x100 + low / 0x100, low % 0x100);
    LowByte(deviceIdx);
  }

  lemma CutLow(k: nat, m: nat)
    requires m < 0x100
    ensures (0x1_0000 * k + 0x100 * m) % 0x1_0000 == 0x100 * m
  {
  }

  lemma LowByte(n: nat)
    ensures n % 0x1_0000 % 0x100 == n % 0x100
  {
  }

  function ToDeviceInfo(c: DeviceConfig, deviceId: nat): DeviceInfo
    requires GetDeviceNodeInfo(c)
  {
    DeviceInfo(deviceId, c.policy.value, c.priority.value,
               if c.preload.value == 0 then Enable else if c.preload.value == 1 then EnableStep2 else Disable,
               c.moduleName.value, c.svcName.value)
  }

  predicate DeviceListCompare(a: DeviceInfo, b: DeviceInfo) {
    a.priority <= b.priority
  }

  /** The nodes of a device all get its id, since the counter of the nodes starts again for each of them. */
  function NodeInfos(config: seq<DeviceConfig>, deviceId: nat): seq<DeviceInfo> {
    if config == [] then []
    else
      var c := config[|config| - 1];
      NodeInfos(config[..|config| - 1], deviceId) + if GetDeviceNodeInfo(c) then [ToDeviceInfo(c, deviceId)] else []
  }

  /** The drivers that a host's configuration describes properly, device by device. */
  function DeviceInfos(config: seq<seq<DeviceConfig>>, hostId: nat): seq<DeviceInfo> {
    if config == [] then []
    else
      var n := |config| - 1;
      DeviceInfos(config[..n], hostId) + NodeInfos(config[n], DeviceId(hostId, n))
  }

  /** The devices of the first host with the name. */
  function HostNode(config: seq<HostConfig>, hostName: string): Option<seq<seq<DeviceConfig>>> {
    if config == [] then None
    else if config[0].hostName == Some(hostName) then Some(config[0].devices)
    else HostNode(config[1..], hostName)
  }

  /** `GetHostNode`. */
  method GetHostNode(manager: Option<seq<HostConfig>>, hostName: string) returns (node: Option<seq<seq<DeviceConfig>>>)
    ensures node == if manager.Some? then HostNode(manager.value, hostName) else None
  {
    if manager.None? {
      return None;
    }
    var config := manager.value;
    var i := 0;
    while i < |config|
      invariant 0 <= i <= |config| && HostNode(config, hostName) == HostNode(config[i..], hostName)
    {
      if config[i].hostName.Some? && config[i].hostName.value == hostName {
        return Some(config[i].devices);
      }
      i := i + 1;
    }
    return None;
  }

  // ----- building the two lists

  method AddNew<T(0)>(list: List<T>, item: T, le: (T, T) -> bool)
    requires list.Valid()
    modifies list`spine, list.spine`next
    ensures list.Valid() && list.Contents() == InsertOrdered(old(list.Contents()), item, le)
    ensures forall i :: 0 <= i < |list.spine| ==> list.spine[i] in old(list.spine) || fresh(list.spine[i])
  {
    ghost var s, q := list.spine, list.Contents();
    hide Chain, OrderPos, Items;
    var node := new Node(item);
    var ok := list.AddOrder(node, le);
    ItemsAfterInsert(s, OrderPos(q, item, le) + 1, node);
    SameItems(s[1..], q);
    SplicedMembers(s, OrderPos(q, item, le) + 1, node);
  }

  lemma SplicedMembers<X>(s: seq<X>, i: nat, x: X)
    requires i <= |s|
    ensures
      var t := s[..i] + [x] + s[i..];
      forall j :: 0 <= j < |t| ==> t[j] in s || t[j] == x
  {
  }

  lemma SameItems<T(0)>(s: seq<Node<T>>, q: seq<T>)
    requires |s| == |q| && forall i :: 0 <= i < |s| ==> s[i].item == q[i]
    ensures Items(s) == q
  {
  }

  lemma EmptyContents<T(0)>(list: List<T>)
    requires list.Valid() && list.spine == [list.anchor]
    ensures list.Contents() == []
  {
  }

  lemma AddAllLast<T>(config: seq<T>, x: T, le: (T, T) -> bool)
    ensures AddAll(config + [x], le) == InsertOrdered(AddAll(config, le), x, le)
  {
    assert (config + [x])[..|config|] == config;
  }

  lemma HostInfosSteps(config: seq<HostConfig>)
    ensures config[..0] == [] && HostInfos(config[..0]) == [] && AddAll(HostInfos(config[..0]), HostListCompare) == []
    ensures forall i :: 0 <= i < |config| ==> HostInfos(config[..i + 1]) == WithHost(HostInfos(config[..i]), config[i])
    ensures config[..|config|] == config
  {
    assert forall i :: 0 <= i < |config| ==> config[..i + 1][..i] == config[..i];
  }

  lemma NextId(n: nat)
    ensures HostId(0) == 0 && Increment(HostId(n)) == HostId(n + 1)
  {
  }

  /** The body of the loop in `HdfAttributeManagerGetHostList`. */
  method AddHost(list: List<HostInfo>, c: HostConfig, hostId: nat, ghost infos: seq<HostInfo>) returns (nextId: nat)
    requires list.Valid() && list.Contents() == AddAll(infos, HostListCompare) && hostId == HostId(|infos|)
    modifies list`spine, list.spine`next
    ensures list.Valid() && list.Contents() == AddAll(WithHost(infos, c), HostListCompare)
    ensures nextId == HostId(|WithHost(infos, c)|)
    ensures forall i :: 0 <= i < |list.spine| ==> list.spine[i] in old(list.spine) || fresh(list.spine[i])
  {
    hide Chain, InsertOrdered, AddAll, List.Contents, HostId, Increment;
    nextId := hostId;
    if GetHostInfo(c) {
      var info := HostInfo(hostId, c.hostName.value, c.priority.value);
      AddAllLast(infos, info, HostListCompare);
      AddNew(list, info, HostListCompare);
      NextId(|infos|);
      nextId := Increment(hostId);
    }
  }

  /** The loop of `HdfAttributeManagerGetHostList`; `allocs` says for which nodes memory can be allocated. */
  method AddHosts(list: List<HostInfo>, config: seq<HostConfig>, allocs: nat -> bool) returns (ok: bool)
    requires list.Valid() && list.Contents() == []
    modifies list`spine, list.spine`next
    ensures ok <==> forall i: nat :: i < |config| ==> allocs(i)
    ensures list.Valid() && (ok ==> list.Contents() == AddAll(HostInfos(config), HostListCompare))
    ensures forall j :: 0 <= j < |list.spine| ==> list.spine[j] in old(list.spine) || fresh(list.spine[j])
  {
    hide Chain, HostInfos, WithHost, InsertOrdered, AddAll, List.Contents, HostId;
    HostInfosSteps(config);
    NextId(0);
    var hostId := 0;
    var i := 0;
    while i < |config|
      invariant 0 <= i <= |config| && list.Valid()
      invariant forall j :: 0 <= j < |list.spine| ==> list.spine[j] in old(list.spine) || fresh(list.spine[j])
      invariant hostId == HostId(|HostInfos(config[..i])|)
      invariant list.Contents() == AddAll(HostInfos(config[..i]), HostListCompare)
      invariant forall j: nat :: j < i ==> allocs(j)
    {
      if !allocs(i) {
        return false;
      }
      hostId := AddHost(list, config[i], hostId, HostInfos(config[..i]));
      i := i + 1;
    }
    return true;
  }

  /** `HdfAttributeManagerGetHostList`, of the children of the manager's node, if there is one. */
  method GetHostList(list: List<HostInfo>, manager: Option<seq<HostConfig>>, allocs: nat -> bool) returns (ok: bool)
    requires list.Valid() && list.spine == [list.anchor]
    modifies list`spine, list.anchor`next
    ensures ok <==> manager.Some? && forall i: nat :: i < |manager.value| ==> allocs(i)
    ensures list.Valid() && list.Contents() == if ok then AddAll(HostInfos(manager.value), HostListCompare) else []
    ensures forall j :: 0 <= j < |list.spine| ==> list.spine[j] in old(list.spine) || fresh(list.spine[j])
  {
    EmptyContents(list);
    hide Chain, HostInfos, AddAll, List.Contents;
    if manager.None? {
      return false;
    }
    ok := AddHosts(list, manager.value, allocs);
    if !ok {
      var deleted := Flush(list);
      EmptyContents(list);
    }
  }

  lemma NextNode(before: seq<DeviceInfo>, nodes: seq<DeviceConfig>, deviceId: nat, j: nat)
    requires j < |nodes|
    ensures
      var infos, c := before + NodeInfos(nodes[..j], deviceId), nodes[j];
      if GetDeviceNodeInfo(c)
      then AddAll(before + NodeInfos(nodes[..j + 1], deviceId), DeviceListCompare)
        == InsertOrdered(AddAll(infos, DeviceListCompare), ToDeviceInfo(c, deviceId), DeviceListCompare)
      else NodeInfos(nodes[..j + 1], deviceId) == NodeInfos(nodes[..j], deviceId)
  {
    hide InsertOrdered;
    assert nodes[..j + 1][..j] == nodes[..j];
    var infos, c := before + NodeInfos(nodes[..j], deviceId), nodes[j];
    if GetDeviceNodeInfo(c) {
      AddAllLast(infos, ToDeviceInfo(c, deviceId), DeviceListCompare);
      assert infos + [ToDeviceInfo(c, deviceId)] == before + NodeInfos(nodes[..j + 1], deviceId);
    }
  }

  lemma NextDevice(config: seq<seq<DeviceConfig>>, hostId: nat, i: nat)
    requires i < |config|
    ensures DeviceInfos(config[..i + 1], hostId) ==
      DeviceInfos(config[..i], hostId) + NodeInfos(config[i], DeviceId(hostId, i))
  {
    assert config[..i + 1][..i] == config[..i];
  }

  lemma NoDevices(hostId: nat)
    ensures DeviceInfos([], hostId) == [] && AddAll(DeviceInfos([], hostId), DeviceListCompare) == []
  {
  }

  /** The inner loop of `HdfAttributeManagerGetDeviceList`, over the nodes of one device. */
  method AddDeviceNodes(list: List<DeviceInfo>, nodes: seq<DeviceConfig>, deviceId: nat, allocs: nat -> bool,
                        ghost before: seq<DeviceInfo>)
    returns (ok: bool)
    requires list.Valid() && list.Contents() == AddAll(before, DeviceListCompare)
    modifies list`spine, list.spine`next
    ensures ok <==> forall j: nat :: j < |nodes| ==> allocs(j)
    ensures list.Valid()
    ensures ok ==> list.Contents() == AddAll(before + NodeInfos(nodes, deviceId), DeviceListCompare)
    ensures forall j :: 0 <= j < |list.spine| ==> list.spine[j] in old(list.spine) || fresh(list.spine[j])
  {
    hide Chain, NodeInfos, InsertOrdered, AddAll, Items;
    NoNodes(before, deviceId);
    assert nodes[..0] == [];
    var j := 0;
    while j < |nodes|
      invariant 0 <= j <= |nodes| && list.Valid()
      invariant forall j :: 0 <= j < |list.spine| ==> list.spine[j] in old(list.spine) || fresh(list.spine[j])
      invariant list.Contents() == AddAll(before + NodeInfos(nodes[..j], deviceId), DeviceListCompare)
      invariant forall i: nat :: i < j ==> allocs(i)
    {
      if !allocs(j) {
        return false;
      }
      NextNode(before, nodes, deviceId, j);
      if GetDeviceNodeInfo(nodes[j]) {
        AddNew(list, ToDeviceInfo(nodes[j], deviceId), DeviceListCompare);
      }
      j := j + 1;
    }
    assert nodes[..j] == nodes;
    return true;
  }

  lemma NoNodes(before: seq<DeviceInfo>, deviceId: nat)
    ensures before + NodeInfos([], deviceId) == before
  {
  }

  /** Memory can be allocated for every node of the configuration. */
  ghost predicate AllAllocated(config: seq<seq<DeviceConfig>>, allocs: nat -> nat -> bool) {
    forall i: nat, j: nat :: i < |config| && j < |config[i]| ==> allocs(i)(j)
  }

  lemma {:induction false} AddAllLength<T>(config: seq<T>, le: (T, T) -> bool)
    ensures |AddAll(config, le)| == |config|
  {
    if config != [] {
      AddAllLength(config[..|config| - 1], le);
    }
  }

  lemma MoreAllocated(config: seq<seq<DeviceConfig>>, allocs: nat -> nat -> bool, i: nat)
    requires i < |config|
    ensures AllAllocated(config[..i + 1], allocs) <==>
      AllAllocated(config[..i], allocs) && forall j: nat :: j < |config[i]| ==> allocs(i)(j)
    ensures AllAllocated(config, allocs) ==> AllAllocated(config[..i + 1], allocs)
  {
    assert config[..i + 1][i] == config[i];
    assert forall k :: 0 <= k < i ==> config[..i + 1][k] == config[..i][k] == config[k];
  }

  lemma NextIndex(deviceIdx: nat, i: nat)
    requires deviceIdx == i % ID_RANGE
    ensures Increment(deviceIdx) == (i + 1) % ID_RANGE
  {
  }

  lemma SameDeviceId(hostId: nat, deviceIdx: nat, i: nat)
    requires deviceIdx == i % ID_RANGE
    ensures DeviceId(hostId, deviceIdx) == DeviceId(hostId, i)
  {
  }

  /** The loop of `HdfAttributeManagerGetDeviceList` over the devices of a host. */
  method AddDevices(list: List<DeviceInfo>, config: seq<seq<DeviceConfig>>, hostId: nat, allocs: nat -> nat -> bool)
    returns (ok: bool)
    requires list.Valid() && list.Contents() == []
    modifies list`spine, list.spine`next
    ensures ok <==> AllAllocated(config, allocs)
    ensures list.Valid() && (ok ==> list.Contents() == AddAll(DeviceInfos(config, hostId), DeviceListCompare))
    ensures forall j :: 0 <= j < |list.spine| ==> list.spine[j] in old(list.spine) || fresh(list.spine[j])
  {
    hide Chain, DeviceInfos, InsertOrdered, AddAll, Items, List.Contents, DeviceId, Increment;
    NoDevices(hostId);
    assert config[..0] == [];
    var i, deviceIdx := 0, 0;
    assert AllAllocated([], allocs);
    hide AllAllocated;
    while i < |config|
      invariant 0 <= i <= |config| && deviceIdx == i % ID_RANGE && list.Valid()
      invariant forall j :: 0 <= j < |list.spine| ==> list.spine[j] in old(list.spine) || fresh(list.spine[j])
      invariant list.Contents() == AddAll(DeviceInfos(config[..i], hostId), DeviceListCompare)
      invariant AllAllocated(config[..i], allocs)
    {
      NextDevice(config, hostId, i);
      MoreAllocated(config, allocs, i);
      SameDeviceId(hostId, deviceIdx, i);
      ok := AddDeviceNodes(list, config[i], DeviceId(hostId, deviceIdx), allocs(i), DeviceInfos(config[..i], hostId));
      if !ok {
        return;
      }
      NextIndex(deviceIdx, i);
      i, deviceIdx := i + 1, Increment(deviceIdx);
    }
    assert config[..i] == config;
    return true;
  }

  lemma SomeDevices(list: List<DeviceInfo>, infos: seq<DeviceInfo>)
    requires list.Valid() && list.Contents() == AddAll(infos, DeviceListCompare)
    ensures |list.spine| - 1 == |infos|
  {
    AddAllLength(infos, DeviceListCompare);
  }

  /** The list that `HdfAttributeManagerGetDeviceList` makes for a host of this name; it is empty also when the result
      is null. `ok` and `allocs` say whether memory can be allocated for the list and for the nodes. */
  ghost function HostDrivers(manager: Option<seq<HostConfig>>, hostId: nat, hostName: string, ok: bool,
                             allocs: nat -> nat -> bool): seq<DeviceInfo> {
    if manager.Some? && HostNode(manager.value, hostName).Some? && ok &&
       AllAllocated(HostNode(manager.value, hostName).value, allocs)
    then AddAll(DeviceInfos(HostNode(manager.value, hostName).value, hostId), DeviceListCompare)
    else []
  }

  /** There are drivers to try only if the configuration has a host of this name and all memory can be allocated; then
      they are those of the first such host, by priority. */
  lemma HostDriversMean(manager: Option<seq<HostConfig>>, hostId: nat, hostName: string, ok: bool,
                        allocs: nat -> nat -> bool)
    ensures
      var node := if manager.Some? then HostNode(manager.value, hostName) else None;
      HostDrivers(manager, hostId, hostName, ok, allocs) ==
        if node.Some? && ok && (forall i: nat, j: nat :: i < |node.value| && j < |node.value[i]| ==> allocs(i)(j))
        then AddAll(DeviceInfos(node.value, hostId), DeviceListCompare) else []
  {
    hide HostNode, AddAll, DeviceInfos;
  }

  lemma SomeDrivers(infos: seq<DeviceInfo>)
    ensures AddAll(infos, DeviceListCompare) == [] <==> infos == []
  {
    AddAllLength(infos, DeviceListCompare);
  }

  /** `HdfAttributeManagerGetDeviceList`. */
  method GetDeviceList(manager: Option<seq<HostConfig>>, hostId: nat, hostName: string, ok: bool,
                       allocs: nat -> nat -> bool)
    returns (list: List?<DeviceInfo>)
    ensures list != null <==> HostDrivers(manager, hostId, hostName, ok, allocs) != []
    ensures list != null ==>
      && fresh(list) && list.Valid() && fresh(list.spine)
      && list.Contents() == HostDrivers(manager, hostId, hostName, ok, allocs)
  {
    var node := GetHostNode(manager, hostName);
    if node.None? {
      return null;
    }
    SomeDrivers(DeviceInfos(node.value, hostId));
    if !ok {
      return null;
    }
    var deviceList := new List<DeviceInfo>();
    EmptyContents(deviceList);
    hide HostNode, AddAll, DeviceInfos, Chain, Items, List.Contents, AllAllocated;
    var done := AddDevices(deviceList, node.value, hostId, allocs);
    if !done {
      var deleted := Flush(deviceList);
      return null;
    }
    SomeDevices(deviceList, DeviceInfos(node.value, hostId));
    var count := deviceList.Count();
    list := if count == 0 then null else deviceList;
  }

  // ----- loading drivers

  /** `DevHostServiceClntInstallDriver` calls AddDevice for this driver. */
  predicate Attempted(d: DeviceInfo, quick: bool) {
    d.preload != Disable && !(quick && d.preload == EnableStep2)
  }

  function Attempts(infos: seq<DeviceInfo>, quick: bool): seq<DeviceInfo> {
    Filter(infos, (d: DeviceInfo) => Attempted(d, quick))
  }

  lemma AttemptsLast(infos: seq<DeviceInfo>, quick: bool, i: nat)
    requires i < |infos|
    ensures Attempts(infos[..i + 1], quick) ==
      Attempts(infos[..i], quick) + if Attempted(infos[i], quick) then [infos[i]] else []
    ensures Attempts(infos[..0], quick) == []
  {
    assert infos[..i + 1][..i] == infos[..i];
  }

  /** A loop over the list has gone through the first `i` nodes. */
  ghost predicate Looping<T(0)>(it: Iterator<T>, list: List<T>, i: nat)
    reads it, it.list, it.list.spine`next, (if it.curr == null then {} else {it.curr})`next
  {
    it.list == list && it.Valid() && !it.CurrentUnlinked() && it.NextPos() == i + 1 <= |it.list.spine|
  }

  /** HasNext and Next of a loop that does not edit the list. */
  method Begin<T(0)>(list: List<T>) returns (it: Iterator<T>, more: bool)
    requires list.Valid()
    ensures fresh(it) && Looping(it, list, 0) && (more <==> |list.spine| > 1)
  {
    it := new Iterator(list);
    more := it.HasNext();
  }

  method Advance<T(0)>(it: Iterator<T>, list: List<T>, ghost i: nat) returns (node: Node<T>)
    requires Looping(it, list, i) && i + 1 < |list.spine|
    modifies it
    ensures Looping(it, list, i + 1) && node == list.spine[i + 1]
  {
    node := it.Next();
  }

  method More<T(0)>(it: Iterator<T>, list: List<T>, ghost i: nat) returns (more: bool)
    requires Looping(it, list, i)
    ensures Looping(it, list, i) && (more <==> i + 1 < |list.spine|)
  {
    more := it.HasNext();
  }

  /** The loop over the list of `items` has gone through the first `i` of them. */
  ghost predicate Walking<T(0)>(it: Iterator<T>, list: List<T>, items: seq<T>, i: nat)
    reads it, list, list.spine, it.list, it.list.spine, it.curr
  {
    && list.Valid() && list.Contents() == items && |list.spine| == |items| + 1
    && Looping(it, list, i) && i <= |items|
  }

  lemma WalkingMeans<T(0)>(it: Iterator<T>, list: List<T>, items: seq<T>, i: nat)
    requires Walking(it, list, items, i)
    ensures list.Valid() && it.list == list && i <= |items| && (it.curr != null ==> it.curr in list.spine)
  {
    hide Chain, Items;
  }

  method BeginWalk<T(0)>(list: List<T>) returns (it: Iterator<T>, more: bool)
    requires list.Valid()
    ensures fresh(it) && Walking(it, list, list.Contents(), 0) && (more <==> list.Contents() != [])
  {
    it, more := Begin(list);
  }

  method WalkOn<T(0)>(it: Iterator<T>, list: List<T>, ghost items: seq<T>, ghost i: nat) returns (item: T)
    requires Walking(it, list, items, i) && i < |items|
    modifies it
    ensures Walking(it, list, items, i + 1) && item == items[i]
  {
    var node := Advance(it, list, i);
    item := node.item;
    assert list.Contents()[i] == list.spine[i + 1].item;
  }

  method MoreToWalk<T(0)>(it: Iterator<T>, list: List<T>, ghost items: seq<T>, ghost i: nat) returns (more: bool)
    requires Walking(it, list, items, i)
    ensures more <==> i < |items|
  {
    more := More(it, list, i);
  }

  /** The list lies outside a set of objects. */
  ghost predicate Outside<T(0)>(list: List<T>, repr: set<object>)
    reads list
  {
    list !in repr && forall n :: n in list.spine ==> n !in repr
  }

  datatype Call = NoCall | AddDevice | DelDevice

  /** `DevmgrServiceActiveDevice`, of a host that has attached its service or has not; `added` is what AddDevice answers
      when it is called. */
  method ActiveDevice(node: Node<DeviceInfo>, hasService: bool, isLoad: bool, added: bool)
    returns (ok: bool, call: Call)
    modifies node`item
    ensures call ==
      if !hasService then NoCall
      else if isLoad then (if old(node.item.preload) != Enable then AddDevice else NoCall)
      else if old(node.item.preload) != Disable then DelDevice else NoCall
    ensures ok <==> call == DelDevice || (call == AddDevice && added)
    ensures node.item ==
      old(node.item).(preload := if !ok then old(node.item.preload) else if isLoad then Enable else Disable)
  {
    if !hasService {
      return false, NoCall;
    }
    if isLoad && node.item.preload != Enable {
      if added {
        node.item := node.item.(preload := Enable);
      }
      return added, AddDevice;
    } else if !isLoad && node.item.preload != Disable {
      node.item := node.item.(preload := Disable);
      return true, DelDevice;
    } else {
      return false, NoCall;
    }
  }

  function Step2(infos: seq<DeviceInfo>): seq<DeviceInfo> {
    Filter(infos, (d: DeviceInfo) => d.preload == EnableStep2)
  }

  /** A driver of the second step counts as loaded once AddDevice has succeeded. */
  function AfterStep2(d: DeviceInfo, adds: DeviceInfo -> bool): DeviceInfo {
    if d.preload == EnableStep2 && adds(d) then d.(preload := Enable) else d
  }

  lemma Step2Last(infos: seq<DeviceInfo>, i: nat)
    requires i < |infos|
    ensures Step2(infos[..i + 1]) == Step2(infos[..i]) + if infos[i].preload == EnableStep2 then [infos[i]] else []
  {
    assert infos[..i + 1][..i] == infos[..i];
  }

  lemma NoStep2(infos: seq<DeviceInfo>)
    ensures Step2(infos[..0]) == []
  {
    assert infos[..0] == [];
  }

  /** The drivers of a host after the second step; `adds` is what AddDevice answers for a driver. */
  function AllAfterStep2(infos: seq<DeviceInfo>, adds: DeviceInfo -> bool): seq<DeviceInfo> {
    seq(|infos|, i requires 0 <= i < |infos| => AfterStep2(infos[i], adds))
  }

  // Without its service a host is left alone.

  function Reached(infos: seq<DeviceInfo>, hasService: bool): seq<DeviceInfo> {
    if hasService then infos else []
  }

  function AfterHost(infos: seq<DeviceInfo>, hasService: bool, adds: DeviceInfo -> bool): seq<DeviceInfo> {
    if hasService then AllAfterStep2(infos, adds) else infos
  }

  /** Exactly the drivers of the second step that AddDevice accepts, below a host with a service, are marked as enabled;
      nothing else changes. */
  lemma AfterHostMeans(infos: seq<DeviceInfo>, hasService: bool, adds: DeviceInfo -> bool)
    ensures var after := AfterHost(infos, hasService, adds);
      && |after| == |infos|
      && forall j :: 0 <= j < |infos| ==> after[j] == infos[j].(preload :=
           if hasService && infos[j].preload == EnableStep2 && adds(infos[j]) then Enable else infos[j].preload)
  {
  }

  function AfterDriver(d: DeviceInfo, hasService: bool, adds: DeviceInfo -> bool): DeviceInfo {
    if hasService then AfterStep2(d, adds) else d
  }

  /** The inner loop of `DevmgrServiceLoadLeftDriver` has gone through the first `i` of the drivers `infos`. */
  ghost predicate Loading(it: Iterator<DeviceInfo>, list: List<DeviceInfo>, infos: seq<DeviceInfo>, i: nat,
                          hasService: bool, adds: DeviceInfo -> bool, attempts: seq<DeviceInfo>)
    reads it, list, list.spine, it.list, it.list.spine, it.curr
  {
    && list.Valid() && Looping(it, list, i)
    && |list.spine| == |infos| + 1 && i <= |infos| && attempts == Step2(Reached(infos[..i], hasService))
    && ItemsLoaded(list.spine, infos, i, hasService, adds)
  }

  ghost predicate ItemsLoaded(spine: seq<Node<DeviceInfo>>, infos: seq<DeviceInfo>, i: nat, hasService: bool,
                              adds: DeviceInfo -> bool)
    requires |spine| == |infos| + 1
    reads spine`item
  {
    forall j :: 1 <= j < |spine| ==>
      spine[j].item == if j <= i then AfterDriver(infos[j - 1], hasService, adds) else infos[j - 1]
  }

  /** What one round of that loop does with the driver. */
  method LoadOne(node: Node<DeviceInfo>, hasService: bool, adds: DeviceInfo -> bool) returns (attempt: seq<DeviceInfo>)
    modifies node`item
    ensures node.item == AfterDriver(old(node.item), hasService, adds)
    ensures attempt == if hasService && old(node.item).preload == EnableStep2 then [old(node.item)] else []
  {
    attempt := [];
    if node.item.preload == EnableStep2 {
      var d := node.item;
      var ok, call := ActiveDevice(node, hasService, true, adds(d));
      if call == AddDevice {
        attempt := [d];
      }
    }
  }

  lemma Step2Next(infos: seq<DeviceInfo>, i: nat, hasService: bool)
    requires i < |infos|
    ensures Step2(Reached(infos[..i + 1], hasService)) == Step2(Reached(infos[..i], hasService)) +
      if hasService && infos[i].preload == EnableStep2 then [infos[i]] else []
  {
    Step2Last(infos, i);
    hide Step2;
    assert !hasService ==> Step2(Reached(infos[..i + 1], hasService)) + [] == Step2(Reached(infos[..i], hasService));
  }

  lemma LoadingMeans(it: Iterator<DeviceInfo>, list: List<DeviceInfo>, infos: seq<DeviceInfo>, i: nat,
                     hasService: bool, adds: DeviceInfo -> bool, attempts: seq<DeviceInfo>)
    requires Loading(it, list, infos, i, hasService, adds, attempts)
    ensures list.Valid() && Looping(it, list, i) && |list.spine| == |infos| + 1 && i <= |infos|
    ensures attempts == Step2(Reached(infos[..i], hasService))
    ensures i < |infos| ==> list.spine[i + 1].item == infos[i]
    ensures forall j {:trigger list.spine[j]} :: 1 <= j < |list.spine| && j != i + 1 && i < |infos| ==>
      list.spine[j] != list.spine[i + 1]
    ensures forall j {:trigger list.spine[j]} :: 1 <= j < |list.spine| ==>
      list.spine[j].item == if j <= i then AfterDriver(infos[j - 1], hasService, adds) else infos[j - 1]
  {
    ChainIsDistinct(list.spine);
    hide Step2, Chain;
  }

  /** One round of that loop. */
  method LoadNext(it: Iterator<DeviceInfo>, list: List<DeviceInfo>, ghost infos: seq<DeviceInfo>, ghost i: nat,
                  hasService: bool, adds: DeviceInfo -> bool, attempts: seq<DeviceInfo>)
    returns (now: seq<DeviceInfo>, more: bool)
    requires Loading(it, list, infos, i, hasService, adds, attempts) && i < |infos|
    modifies it, list.spine`item
    ensures Loading(it, list, infos, i + 1, hasService, adds, now) && (more <==> i + 1 < |infos|)
    ensures list.spine == old(list.spine)
  {
    hide *;
    LoadingMeans(it, list, infos, i, hasService, adds, attempts);
    Step2Next(infos, i, hasService);
    var node := Advance(it, list, i);
    var attempt := LoadOne(node, hasService, adds);
    now := attempts + attempt;
    more := More(it, list, i + 1);
    LoadingIs(it, list, infos, i + 1, hasService, adds, now);
  }

  lemma LoadingIs(it: Iterator<DeviceInfo>, list: List<DeviceInfo>, infos: seq<DeviceInfo>, i: nat,
                  hasService: bool, adds: DeviceInfo -> bool, attempts: seq<DeviceInfo>)
    requires list.Valid() && Looping(it, list, i) && |list.spine| == |infos| + 1 && i <= |infos|
    requires attempts == Step2(Reached(infos[..i], hasService))
    requires forall j {:trigger list.spine[j]} :: 1 <= j < |list.spine| ==>
      list.spine[j].item == if j <= i then AfterDriver(infos[j - 1], hasService, adds) else infos[j - 1]
    ensures Loading(it, list, infos, i, hasService, adds, attempts)
  {
    hide Step2, AfterDriver, Chain;
  }

  /** The inner loop, over the drivers of one host. */
  method LoadHost(list: List<DeviceInfo>, hasService: bool, adds: DeviceInfo -> bool)
    returns (attempts: seq<DeviceInfo>)
    requires list.Valid()
    modifies list.spine`item
    ensures list.Valid() && attempts == Step2(Reached(old(list.Contents()), hasService))
    ensures list.Contents() == AfterHost(old(list.Contents()), hasService, adds)
  {
    ghost var infos := list.Contents();
    attempts := [];
    ghost var i := 0;
    var it, more := Begin(list);
    assert Loading(it, list, infos, 0, hasService, adds, []) by {
      NoStep2(infos);
    }
    hide *;
    while more
      invariant 0 <= i <= |infos| && fresh(it) && Loading(it, list, infos, i, hasService, adds, attempts)
      invariant list.spine == old(list.spine)
      invariant more <==> i < |infos|
      decreases |infos| - i
    {
      attempts, more := LoadNext(it, list, infos, i, hasService, adds, attempts);
      i := i + 1;
    }
    AllLoaded(it, list, infos, hasService, adds, attempts);
  }

  lemma AllLoaded(it: Iterator<DeviceInfo>, list: List<DeviceInfo>, infos: seq<DeviceInfo>, hasService: bool,
                  adds: DeviceInfo -> bool, attempts: seq<DeviceInfo>)
    requires Loading(it, list, infos, |infos|, hasService, adds, attempts)
    ensures list.Valid() && attempts == Step2(Reached(infos, hasService))
    ensures list.Contents() == AfterHost(infos, hasService, adds)
  {
    assert infos[..|infos|] == infos;
    assert forall j :: 0 <= j < |infos| ==> list.spine[j + 1].item == AfterDriver(infos[j], hasService, adds);
  }

  /** A host of the manager's list: whether it has attached its service, and the drivers of its configuration. */
  datatype ListedHost = ListedHost(hasService: bool, deviceInfos: List<DeviceInfo>)

  ghost predicate Holds(list: List<DeviceInfo>, infos: seq<DeviceInfo>)
    reads list, list.spine
  {
    list.Valid() && list.Contents() == infos
  }

  method LoadHeld(host: ListedHost, adds: DeviceInfo -> bool, ghost infos: seq<DeviceInfo>)
    returns (attempts: seq<DeviceInfo>)
    requires Holds(host.deviceInfos, infos)
    modifies host.deviceInfos.spine`item
    ensures Holds(host.deviceInfos, AfterHost(infos, host.hasService, adds))
    ensures attempts == Step2(Reached(infos, host.hasService))
  {
    hide Chain, Items, Step2, AfterHost, Reached;
    attempts := LoadHost(host.deviceInfos, host.hasService, adds);
  }

  /** The drivers of the first `n` hosts that have attached their services. */
  function AllReached(hosts: seq<ListedHost>, infos: seq<seq<DeviceInfo>>, n: nat): (reached: seq<seq<DeviceInfo>>)
    requires n <= |hosts| == |infos|
    ensures |reached| == n
  {
    seq(n, i requires 0 <= i < n => Reached(infos[i], hosts[i].hasService))
  }

  lemma OneMoreReached(hosts: seq<ListedHost>, infos: seq<seq<DeviceInfo>>, n: nat)
    requires n < |hosts| == |infos|
    ensures Step2Attempts(AllReached(hosts, infos, n + 1)) ==
      Step2Attempts(AllReached(hosts, infos, n)) + Step2(Reached(infos[n], hosts[n].hasService))
  {
    assert AllReached(hosts, infos, n + 1) == AllReached(hosts, infos, n) + [Reached(infos[n], hosts[n].hasService)];
    Step2AttemptsAppend(AllReached(hosts, infos, n), Reached(infos[n], hosts[n].hasService));
  }

  lemma NoneReached(hosts: seq<ListedHost>, infos: seq<seq<DeviceInfo>>)
    requires |infos| == |hosts|
    ensures Step2Attempts(AllReached(hosts, infos, 0)) == []
  {
  }

  lemma {:induction false} Step2AttemptsAppend(hosts: seq<seq<DeviceInfo>>, last: seq<DeviceInfo>)
    ensures Step2Attempts(hosts + [last]) == Step2Attempts(hosts) + Step2(last)
  {
    if hosts == [] {
      assert [] + [last] == [last];
      assert Step2Attempts([last]) == Step2(last) + Step2Attempts([]);
    } else {
      Step2AttemptsAppend(hosts[1..], last);
      assert (hosts + [last])[1..] == hosts[1..] + [last];
    }
  }

  ghost function AllNodes(hosts: seq<ListedHost>): set<Node<DeviceInfo>>
    reads set i | 0 <= i < |hosts| :: hosts[i].deviceInfos
  {
    set i, n | 0 <= i < |hosts| && n in hosts[i].deviceInfos.spine :: n
  }

  /** The lists have no node in common. */
  ghost predicate ListsApart(hosts: seq<ListedHost>)
    reads set i | 0 <= i < |hosts| :: hosts[i].deviceInfos
  {
    forall i, j :: 0 <= i < |hosts| && 0 <= j < |hosts| && i != j ==> (
      forall n :: n in hosts[i].deviceInfos.spine ==> n !in hosts[j].deviceInfos.spine)
  }

  lemma SpineOf(hosts: seq<ListedHost>, k: nat)
    requires ListsApart(hosts) && k < |hosts|
    ensures forall n :: n in hosts[k].deviceInfos.spine ==> n in AllNodes(hosts)
    ensures forall i :: 0 <= i < |hosts| && i != k ==> (
      forall n :: n in hosts[i].deviceInfos.spine ==> n !in hosts[k].deviceInfos.spine)
  {
  }

  /** `DevmgrServiceLoadLeftDriver`. */
  method LoadLeftDriver(hosts: seq<ListedHost>, adds: nat -> DeviceInfo -> bool, ghost infos: seq<seq<DeviceInfo>>)
    returns (attempts: seq<DeviceInfo>)
    requires |infos| == |hosts| && forall i :: 0 <= i < |hosts| ==> Holds(hosts[i].deviceInfos, infos[i])
    requires ListsApart(hosts)
    modifies AllNodes(hosts)`item
    ensures attempts == Step2Attempts(AllReached(hosts, infos, |hosts|))
    ensures forall i :: 0 <= i < |hosts| ==>
      Holds(hosts[i].deviceInfos, AfterHost(infos[i], hosts[i].hasService, adds(i)))
  {
    hide Holds, AllReached, Step2Attempts, AfterHost, Step2, Reached, ListsApart;
    attempts := [];
    var k := 0;
    NoneReached(hosts, infos);
    while k < |hosts|
      invariant 0 <= k <= |hosts| && attempts == Step2Attempts(AllReached(hosts, infos, k))
      invariant forall i {:trigger hosts[i]} :: 0 <= i < |hosts| ==>
        Holds(hosts[i].deviceInfos, if i < k then AfterHost(infos[i], hosts[i].hasService, adds(i)) else infos[i])
      invariant ListsApart(hosts) && AllNodes(hosts) == old(AllNodes(hosts))
    {
      OneMoreReached(hosts, infos, k);
      SpineOf(hosts, k);
      var more := LoadHeld(hosts[k], adds(k), infos[k]);
      attempts := attempts + more;
      k := k + 1;
    }
  }

  // ----- what boot does, for any configuration

  lemma {:induction false} FilterTwice<T>(s: seq<T>, p: T -> bool, q: T -> bool)
    ensures Filter(Filter(s, p), q) == Filter(Filter(s, q), p)
  {
    if s != [] {
      var most, last := s[..|s| - 1], s[|s| - 1];
      FilterTwice(most, p, q);
      FilterAppend(Filter(most, p), last, q);
      FilterAppend(Filter(most, q), last, p);
    }
  }

  lemma FilterAppend<T>(s: seq<T>, x: T, p: T -> bool)
    ensures Filter(s + [x], p) == if p(x) then Filter(s, p) + [x] else Filter(s, p)
  {
    assert (s + [x])[..|s|] == s;
  }

  lemma {:induction false} FilterReverse<T>(s: seq<T>, p: T -> bool)
    ensures Filter(Reverse(s), p) == Reverse(Filter(s, p))
  {
    if s != [] {
      var most, last := s[..|s| - 1], s[|s| - 1];
      FilterReverse(most, p);
      assert s == most + [last] && Reverse([last]) == [last];
      ReverseConcat(most, [last]);
      FilterConcat([last], Reverse(most), p);
      FilterAppend([], last, p);
      ReverseConcat(Filter(most, p), [last]);
    }
  }

  lemma {:induction false} FilterKeepsSorted<T>(s: seq<T>, p: T -> bool, le: (T, T) -> bool)
    requires SortedBy(le, s)
    ensures SortedBy(le, Filter(s, p))
    ensures forall i :: 0 <= i < |Filter(s, p)| ==> p(Filter(s, p)[i]) && Filter(s, p)[i] in s
  {
    if s != [] {
      FilterKeepsSorted(s[..|s| - 1], p, le);
      var f := Filter(s[..|s| - 1], p);
      forall i | 0 <= i < |f| ensures le(f[i], s[|s| - 1]) {
        var j :| 0 <= j < |s| - 1 && s[j] == f[i];
      }
    }
  }

  /** The order in which the drivers of a host are attempted: by priority, and by the reverse of the order
      in the configuration where priorities are equal. */
  lemma DriversLoadByPriority(config: seq<seq<DeviceConfig>>, hostId: nat, quick: bool)
    ensures
      var attempts := Attempts(AddAll(DeviceInfos(config, hostId), DeviceListCompare), quick);
      && SortedBy(DeviceListCompare, attempts)
      && forall d :: Ties(attempts, d, DeviceListCompare)
          == Reverse(Ties(Attempts(DeviceInfos(config, hostId), quick), d, DeviceListCompare))
  {
    var infos := DeviceInfos(config, hostId);
    var list := AddAll(infos, DeviceListCompare);
    var keep := (d: DeviceInfo) => Attempted(d, quick);
    AddAllSortsReversingTies(infos, DeviceListCompare);
    FilterKeepsSorted(list, keep, DeviceListCompare);
    forall d ensures Ties(Attempts(list, quick), d, DeviceListCompare)
        == Reverse(Ties(Attempts(infos, quick), d, DeviceListCompare)) {
      var tied := (z: DeviceInfo) => Tied(DeviceListCompare, d, z);
      FilterTwice(list, keep, tied);
      FilterTwice(infos, keep, tied);
      FilterReverse(Ties(infos, d, DeviceListCompare), keep);
    }
  }

  /** The hosts start by priority, ties in the reverse of the order in the configuration. */
  lemma HostsStartByPriority(config: seq<HostConfig>)
    ensures
      var hosts := AddAll(HostInfos(config), HostListCompare);
      && SortedBy(HostListCompare, hosts) && multiset(hosts) == multiset(HostInfos(config))
      && forall h :: Ties(hosts, h, HostListCompare) == Reverse(Ties(HostInfos(config), h, HostListCompare))
  {
    AddAllSortsReversingTies(HostInfos(config), HostListCompare);
  }

  /** All AddDevice calls of a boot: the host-by-host load, and `DeviceManagerStartStep2`, which does
      nothing unless the boot was a quick one. */
  function BootAttempts(hosts: seq<seq<DeviceInfo>>, quick: bool): seq<DeviceInfo> {
    FirstAttempts(hosts, quick) + if quick then Step2Attempts(hosts) else []
  }

  function FirstAttempts(hosts: seq<seq<DeviceInfo>>, quick: bool): seq<DeviceInfo> {
    if hosts == [] then [] else Attempts(hosts[0], quick) + FirstAttempts(hosts[1..], quick)
  }

  function Step2Attempts(hosts: seq<seq<DeviceInfo>>): seq<DeviceInfo> {
    if hosts == [] then [] else Step2(hosts[0]) + Step2Attempts(hosts[1..])
  }

  function Drivers(hosts: seq<seq<DeviceInfo>>): seq<DeviceInfo> {
    if hosts == [] then [] else hosts[0] + Drivers(hosts[1..])
  }

  lemma {:induction false} FilterCount<T>(s: seq<T>, p: T -> bool, x: T)
    ensures multiset(Filter(s, p))[x] == if p(x) then multiset(s)[x] else 0
  {
    if s != [] {
      FilterCount(s[..|s| - 1], p, x);
      assert s == s[..|s| - 1] + [s[|s| - 1]];
    }
  }

  lemma {:induction false} FirstAttemptsCount(hosts: seq<seq<DeviceInfo>>, quick: bool, d: DeviceInfo)
    ensures multiset(FirstAttempts(hosts, quick))[d] == if Attempted(d, quick) then multiset(Drivers(hosts))[d] else 0
    ensures multiset(Step2Attempts(hosts))[d] == if d.preload == EnableStep2 then multiset(Drivers(hosts))[d] else 0
  {
    if hosts != [] {
      FirstAttemptsCount(hosts[1..], quick, d);
      FilterCount(hosts[0], (d: DeviceInfo) => Attempted(d, quick), d);
      FilterCount(hosts[0], (d: DeviceInfo) => d.preload == EnableStep2, d);
    }
  }

  lemma BootCount(hosts: seq<seq<DeviceInfo>>, quick: bool, d: DeviceInfo)
    ensures multiset(BootAttempts(hosts, quick))[d] == if d.preload != Disable then multiset(Drivers(hosts))[d] else 0
  {
    FirstAttemptsCount(hosts, quick, d);
    if quick {
      assert multiset(BootAttempts(hosts, true)) ==
        multiset(FirstAttempts(hosts, true)) + multiset(Step2Attempts(hosts));
    } else {
      assert BootAttempts(hosts, false) == FirstAttempts(hosts, false);
    }
  }

  /** A quick boot completed by its second step attempts what a slow boot attempts: every driver that is
      not disabled, as often as it is configured, and no other. */
  lemma TwoPhasesEqualOne(hosts: seq<seq<DeviceInfo>>)
    ensures multiset(BootAttempts(hosts, true)) == multiset(BootAttempts(hosts, false))
    ensures forall d ::
      multiset(BootAttempts(hosts, true))[d] == if d.preload != Disable then multiset(Drivers(hosts))[d] else 0
  {
    forall d ensures multiset(BootAttempts(hosts, true))[d] == multiset(BootAttempts(hosts, false))[d]
      == if d.preload != Disable then multiset(Drivers(hosts))[d] else 0 {
      BootCount(hosts, true, d);
      BootCount(hosts, false, d);
    }
  }

  /** Running the second step again attempts exactly the drivers that AddDevice refused. */
  lemma {:induction false} Step2Again(infos: seq<DeviceInfo>, adds: DeviceInfo -> bool)
    ensures Step2(AllAfterStep2(infos, adds)) == Filter(Step2(infos), (d: DeviceInfo) => !adds(d))
  {
    if infos != [] {
      var n := |infos| - 1;
      Step2Again(infos[..n], adds);
      var after := AllAfterStep2(infos, adds);
      assert after[..n] == AllAfterStep2(infos[..n], adds) && after[n] == AfterStep2(infos[n], adds);
      assert after != [];
      FilterAppend(Step2(infos[..n]), infos[n], (d: DeviceInfo) => !adds(d));
    }
  }
}
