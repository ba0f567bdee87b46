/** The order in which hosts start and drivers load, told from the configuration alone. */
module ConfigOrder {
  import opened Base
  import opened PriorityOrder
  import opened DeviceBoot

  // Where the entries of a list come from.

  /** `order` takes the entries of `from` in the order `perm`. */
  lemma Composed<P>(from: seq<P>, perm: seq<nat>) returns (order: seq<P>)
    requires Distinct(from) && Permutation(perm, |from|)
    ensures |order| == |from| && forall k :: 0 <= k < |from| ==> perm[k] < |from| && order[k] == from[perm[k]]
    ensures Distinct(order) && forall p :: p in order <==> p in from
  {
    order := seq(|from|, k requires 0 <= k < |from| => from[perm[k]]);
    forall p | p in from ensures p in order {
      var m :| 0 <= m < |from| && from[m] == p;
      assert m in perm;
      var k :| 0 <= k < |perm| && perm[k] == m;
      assert order[k] == p;
    }
  }

  lemma PrioritiesCompare()
    ensures TotalPreorder(HostListCompare) && TotalPreorder(DeviceListCompare)
  {
  }

  // Hosts.

  /** The host at position `i` of the configuration is entry `k` of the list of hosts. */
  ghost predicate HostFrom(config: seq<HostConfig>, info: HostInfo, i: nat, k: nat) {
    && i < |config| && GetHostInfo(config[i]) && |HostInfos(config[..i])| == k
    && info == HostInfo(HostId(k), config[i].hostName.value, config[i].priority.value)
  }

  lemma HostStays(config: seq<HostConfig>, n: nat, info: HostInfo, i: nat, k: nat)
    requires n <= |config| && HostFrom(config[..n], info, i, k)
    ensures HostFrom(config, info, i, k)
  {
    assert config[..n][..i] == config[..i];
  }

  lemma {:induction false} HostInfosFrom(config: seq<HostConfig>) returns (from: seq<nat>)
    ensures |from| == |HostInfos(config)| && forall k, l :: 0 <= k < l < |from| ==> from[k] < from[l]
    ensures forall i: nat :: i < |config| ==> (i in from <==> GetHostInfo(config[i]))
    ensures forall k :: 0 <= k < |from| ==> HostFrom(config, HostInfos(config)[k], from[k], k)
  {
    hide HostFrom, GetHostInfo;
    if config == [] {
      from := [];
    } else {
      var n := |config| - 1;
      var before := HostInfosFrom(config[..n]);
      from := before;
      forall k | 0 <= k < |before| ensures HostFrom(config, HostInfos(config[..n])[k], before[k], k) {
        HostStays(config, n, HostInfos(config[..n])[k], before[k], k);
      }
      forall k | 0 <= k < |before| ensures before[k] < n {
        WithinConfig(config[..n], HostInfos(config[..n])[k], before[k], k);
      }
      if GetHostInfo(config[n]) {
        from := before + [n];
        LastHost(config);
        assert forall i :: i in from <==> i in before || i == n;
      }
    }
  }

  lemma WithinConfig(config: seq<HostConfig>, info: HostInfo, i: nat, k: nat)
    requires HostFrom(config, info, i, k)
    ensures i < |config|
  {
  }

  lemma LastHost(config: seq<HostConfig>)
    requires config != [] && GetHostInfo(config[|config| - 1])
    ensures var n := |config| - 1;
      var k := |HostInfos(config[..n])|;
      && HostInfos(config) == HostInfos(config[..n]) + [HostInfos(config)[k]]
      && HostFrom(config, HostInfos(config)[k], n, k)
  {
  }

  lemma HostMeans(config: seq<HostConfig>, info: HostInfo, i: nat, k: nat)
    requires HostFrom(config, info, i, k)
    ensures i < |config| && config[i].hostName.Some? && config[i].priority.Some?
    ensures info.hostName == config[i].hostName.value && info.priority == config[i].priority.value
    ensures info.hostId == |HostInfos(config[..i])| % 0x1_0000
  {
  }

  lemma HostValid(c: HostConfig)
    ensures GetHostInfo(c) <==>
      c.hostName.Some? && c.hostName.value != "" && c.priority.Some? && c.priority.value <= 200
  {
  }

  lemma HostBefore(infos: seq<HostInfo>, a: nat, b: nat)
    requires a < |infos| && b < |infos| && StandsBefore(infos, HostListCompare, a, b)
    ensures infos[a].priority < infos[b].priority || (infos[a].priority == infos[b].priority && a > b)
  {
  }

  /** The hosts are listed by the priorities that the configuration gives them, where these are equal in the reverse of
      the order in the configuration; exactly those it describes properly are, each once, numbered as they stand in the
      configuration. */
  lemma HostsInOrder(config: seq<HostConfig>) returns (order: seq<nat>)
    ensures |order| == |AddAll(HostInfos(config), HostListCompare)| && Distinct(order)
    ensures forall i: nat :: i < |config| ==> (i in order <==>
      && config[i].hostName.Some? && config[i].hostName.value != ""
      && config[i].priority.Some? && config[i].priority.value <= 200)
    ensures forall k :: 0 <= k < |order| ==>
      && order[k] < |config| && config[order[k]].hostName.Some? && config[order[k]].priority.Some?
      && (var host := AddAll(HostInfos(config), HostListCompare)[k];
          && host.hostName == config[order[k]].hostName.value && host.priority == config[order[k]].priority.value
          && host.hostId == |HostInfos(config[..order[k]])| % 0x1_0000)
    ensures forall k, l :: 0 <= k < l < |order| ==>
      var hosts := AddAll(HostInfos(config), HostListCompare);
      hosts[k].priority < hosts[l].priority || (hosts[k].priority == hosts[l].priority && order[k] > order[l])
  {
    hide *;
    var infos := HostInfos(config);
    var from := HostInfosFrom(config);
    PrioritiesCompare();
    var perm := AddAllInOrder(infos, HostListCompare);
    IncreasingIsDistinct(from);
    order := Composed(from, perm);
    var hosts := AddAll(infos, HostListCompare);
    forall i: nat | i < |config| ensures GetHostInfo(config[i]) <==>
      && config[i].hostName.Some? && config[i].hostName.value != ""
      && config[i].priority.Some? && config[i].priority.value <= 200 {
      HostValid(config[i]);
    }
    forall k | 0 <= k < |order|
      ensures order[k] < |config| && config[order[k]].hostName.Some? && config[order[k]].priority.Some?
      ensures hosts[k].hostName == config[order[k]].hostName.value
      ensures hosts[k].priority == config[order[k]].priority.value
      ensures hosts[k].hostId == |HostInfos(config[..order[k]])| % 0x1_0000
    {
      HostMeans(config, infos[perm[k]], from[perm[k]], perm[k]);
    }
    forall k, l | 0 <= k < l < |order|
      ensures hosts[k].priority < hosts[l].priority || (hosts[k].priority == hosts[l].priority && order[k] > order[l])
    {
      HostBefore(infos, perm[k], perm[l]);
    }
  }

  lemma IncreasingIsDistinct(from: seq<nat>)
    requires forall k, l :: 0 <= k < l < |from| ==> from[k] < from[l]
    ensures Distinct(from)
  {
  }

  // Drivers.

  /** The position of a driver in the configuration of a host: a node of a device. */
  datatype Place = Place(device: nat, node: nat)

  predicate Later(p: Place, q: Place) {
    p.device > q.device || (p.device == q.device && p.node > q.node)
  }

  predicate Proper(config: seq<seq<DeviceConfig>>, p: Place) {
    p.device < |config| && p.node < |config[p.device]| && GetDeviceNodeInfo(config[p.device][p.node])
  }

  ghost predicate DriverFrom(config: seq<seq<DeviceConfig>>, hostId: nat, info: DeviceInfo, p: Place) {
    Proper(config, p) && info == ToDeviceInfo(config[p.device][p.node], DeviceId(hostId, p.device))
  }

  ghost predicate NodeFrom(nodes: seq<DeviceConfig>, deviceId: nat, info: DeviceInfo, j: nat) {
    j < |nodes| && GetDeviceNodeInfo(nodes[j]) && info == ToDeviceInfo(nodes[j], deviceId)
  }

  lemma NodeStays(nodes: seq<DeviceConfig>, n: nat, deviceId: nat, info: DeviceInfo, j: nat)
    requires n <= |nodes| && NodeFrom(nodes[..n], deviceId, info, j)
    ensures j < n && NodeFrom(nodes, deviceId, info, j)
  {
  }

  lemma LastNode(nodes: seq<DeviceConfig>, deviceId: nat)
    requires nodes != []
    ensures var n := |nodes| - 1;
      if GetDeviceNodeInfo(nodes[n]) then
        var last := ToDeviceInfo(nodes[n], deviceId);
        NodeInfos(nodes, deviceId) == NodeInfos(nodes[..n], deviceId) + [last] && NodeFrom(nodes, deviceId, last, n)
      else NodeInfos(nodes, deviceId) == NodeInfos(nodes[..n], deviceId)
  {
  }

  lemma {:induction false} NodeInfosFrom(nodes: seq<DeviceConfig>, deviceId: nat) returns (from: seq<nat>)
    ensures |from| == |NodeInfos(nodes, deviceId)| && forall k, l :: 0 <= k < l < |from| ==> from[k] < from[l]
    ensures forall j: nat :: j < |nodes| ==> (j in from <==> GetDeviceNodeInfo(nodes[j]))
    ensures forall k :: 0 <= k < |from| ==> NodeFrom(nodes, deviceId, NodeInfos(nodes, deviceId)[k], from[k])
  {
    if nodes == [] {
      from := [];
    } else {
      var n := |nodes| - 1;
      LastNode(nodes, deviceId);
      hide NodeFrom, GetDeviceNodeInfo, NodeInfos, ToDeviceInfo;
      var before := NodeInfosFrom(nodes[..n], deviceId);
      from := before;
      forall k | 0 <= k < |before|
        ensures before[k] < n && NodeFrom(nodes, deviceId, NodeInfos(nodes[..n], deviceId)[k], before[k])
      {
        NodeStays(nodes, n, deviceId, NodeInfos(nodes[..n], deviceId)[k], before[k]);
      }
      assert forall j :: j in before ==> j < n;
      if GetDeviceNodeInfo(nodes[n]) {
        from := before + [n];
        assert forall j :: j in from <==> j in before || j == n;
      }
    }
  }

  lemma Paired(n: nat, js: seq<nat>) returns (from: seq<Place>)
    requires forall k, l :: 0 <= k < l < |js| ==> js[k] < js[l]
    ensures |from| == |js| && forall k :: 0 <= k < |js| ==> from[k] == Place(n, js[k])
    ensures forall k, l :: 0 <= k < l < |from| ==> Later(from[l], from[k])
    ensures forall p :: p in from <==> p.device == n && p.node in js
  {
    from := seq(|js|, k requires 0 <= k < |js| => Place(n, js[k]));
    forall p: Place | p.device == n && p.node in js ensures p in from {
      var k :| 0 <= k < |js| && js[k] == p.node;
      assert from[k] == p;
    }
  }

  /** `from` are the places of the drivers, in order. */
  ghost predicate AllFrom(config: seq<seq<DeviceConfig>>, hostId: nat, infos: seq<DeviceInfo>, from: seq<Place>) {
    && |from| == |infos| && (forall k, l :: 0 <= k < l < |from| ==> Later(from[l], from[k]))
    && (forall p :: p in from <==> Proper(config, p))
    && forall k :: 0 <= k < |from| ==> DriverFrom(config, hostId, infos[k], from[k])
  }

  lemma {:induction false} DeviceInfosFrom(config: seq<seq<DeviceConfig>>, hostId: nat) returns (from: seq<Place>)
    ensures AllFrom(config, hostId, DeviceInfos(config, hostId), from)
  {
    if config == [] {
      from := [];
    } else {
      hide AllFrom;
      var n := |config| - 1;
      var before := DeviceInfosFrom(config[..n], hostId);
      var js := NodeInfosFrom(config[n], DeviceId(hostId, n));
      var last := Paired(n, js);
      from := before + last;
      NextDriver(config, hostId, n, DeviceInfos(config[..n], hostId), before, js, last);
    }
  }

  lemma NextDriver(config: seq<seq<DeviceConfig>>, hostId: nat, n: nat, infos: seq<DeviceInfo>, before: seq<Place>,
                   js: seq<nat>, last: seq<Place>)
    requires |config| == n + 1 && AllFrom(config[..n], hostId, infos, before)
    requires |js| == |NodeInfos(config[n], DeviceId(hostId, n))|
    requires forall j: nat :: j < |config[n]| ==> (j in js <==> GetDeviceNodeInfo(config[n][j]))
    requires forall k :: 0 <= k < |js| ==>
      NodeFrom(config[n], DeviceId(hostId, n), NodeInfos(config[n], DeviceId(hostId, n))[k], js[k])
    requires |last| == |js| && forall k :: 0 <= k < |js| ==> last[k] == Place(n, js[k])
    requires forall k, l :: 0 <= k < l < |last| ==> Later(last[l], last[k])
    requires forall p :: p in last <==> p.device == n && p.node in js
    ensures AllFrom(config, hostId, infos + NodeInfos(config[n], DeviceId(hostId, n)), before + last)
  {
    hide GetDeviceNodeInfo, ToDeviceInfo, DeviceId, NodeInfos;
    var from, all := before + last, infos + NodeInfos(config[n], DeviceId(hostId, n));
    assert forall j :: j in js ==> j < |config[n]|;
    forall p: Place ensures p in from <==> Proper(config, p) {
      assert p in from <==> p in before || p in last;
      assert p.device < n ==> config[..n][p.device] == config[p.device];
    }
    forall k | 0 <= k < |from| ensures DriverFrom(config, hostId, all[k], from[k]) {
      if k < |before| {
        assert DriverFrom(config[..n], hostId, infos[k], before[k]);
      } else {
        assert from[k] == last[k - |before|];
      }
    }
    forall k, l | 0 <= k < l < |from| ensures Later(from[l], from[k]) {
      if k < |before| <= l {
        assert before[k] in before && from[l] == last[l - |before|];
      }
    }
  }

  lemma DriverMeans(config: seq<seq<DeviceConfig>>, hostId: nat, info: DeviceInfo, p: Place)
    requires DriverFrom(config, hostId, info, p)
    ensures p.device < |config| && p.node < |config[p.device]|
    ensures var c := config[p.device][p.node];
      && c.priority == Some(info.priority) && c.policy == Some(info.policy) && c.moduleName == Some(info.moduleName)
      && c.svcName == Some(info.svcName) && info.deviceId == p.device % 0x100 * 0x100 && c.preload.Some?
      && (info.preload == Enable <==> c.preload.value == 0) && (info.preload == EnableStep2 <==> c.preload.value == 1)
      && (info.preload == Disable <==> c.preload.value == 2)
  {
    DeviceIdIsCut(hostId, p.device);
    hide DeviceId;
  }

  lemma ProperMeans(config: seq<seq<DeviceConfig>>, p: Place)
    requires p.device < |config| && p.node < |config[p.device]|
    ensures var c := config[p.device][p.node];
      Proper(config, p) <==>
        && c.policy.Some? && c.priority.Some? && c.preload.Some? && c.permission.Some?
        && c.moduleName.Some? && c.svcName.Some? && c.deviceMatchAttr.Some?
        && c.policy.value <= 4 && c.priority.value <= 200 && c.preload.value <= 2 && c.moduleName.value != ""
  {
  }

  lemma DriverBefore(infos: seq<DeviceInfo>, a: nat, b: nat)
    requires a < |infos| && b < |infos| && StandsBefore(infos, DeviceListCompare, a, b)
    ensures infos[a].priority < infos[b].priority || (infos[a].priority == infos[b].priority && a > b)
  {
  }

  lemma LaterIsDistinct(from: seq<Place>)
    requires forall k, l :: 0 <= k < l < |from| ==> Later(from[l], from[k])
    ensures Distinct(from)
  {
  }

  /** `order` are the places of the drivers in the list. */
  ghost predicate ListedAt(config: seq<seq<DeviceConfig>>, hostId: nat, list: seq<DeviceInfo>, order: seq<Place>) {
    && |order| == |list| && Distinct(order) && (forall p :: p in order <==> Proper(config, p))
    && (forall k :: 0 <= k < |order| ==> DriverFrom(config, hostId, list[k], order[k]))
    && forall k, l :: 0 <= k < l < |order| ==>
         list[k].priority < list[l].priority || (list[k].priority == list[l].priority && Later(order[k], order[l]))
  }

  lemma ListInOrder(config: seq<seq<DeviceConfig>>, hostId: nat) returns (order: seq<Place>)
    ensures ListedAt(config, hostId, AddAll(DeviceInfos(config, hostId), DeviceListCompare), order)
  {
    hide DeviceInfos, DriverFrom, Proper, StandsBefore, AddAll, TotalPreorder, Permutation, Later;
    var infos := DeviceInfos(config, hostId);
    var from := DeviceInfosFrom(config, hostId);
    PrioritiesCompare();
    var perm := AddAllInOrder(infos, DeviceListCompare);
    LaterIsDistinct(from);
    order := Composed(from, perm);
    var list := AddAll(infos, DeviceListCompare);
    forall k, l | 0 <= k < l < |order|
      ensures list[k].priority < list[l].priority || (list[k].priority == list[l].priority && Later(order[k], order[l]))
    {
      DriverBefore(infos, perm[k], perm[l]);
    }
  }

  lemma AttemptedMeans(config: seq<seq<DeviceConfig>>, hostId: nat, info: DeviceInfo, p: Place, quick: bool)
    requires DriverFrom(config, hostId, info, p)
    ensures Attempted(info, quick) <==>
      config[p.device][p.node].preload.value == 0 || (config[p.device][p.node].preload.value == 1 && !quick)
  {
    hide DeviceId;
  }

  /** A driver that the list holds is attempted unless it is disabled, or left for the second step of a quick boot. */
  lemma AttemptsAt(config: seq<seq<DeviceConfig>>, hostId: nat, list: seq<DeviceInfo>, places: seq<Place>, quick: bool)
    returns (order: seq<Place>)
    requires ListedAt(config, hostId, list, places)
    ensures |order| == |Attempts(list, quick)| && Distinct(order)
    ensures forall k :: 0 <= k < |order| ==> DriverFrom(config, hostId, Attempts(list, quick)[k], order[k])
    ensures forall k, l :: 0 <= k < l < |order| ==>
      var attempts := Attempts(list, quick);
      attempts[k].priority < attempts[l].priority ||
      (attempts[k].priority == attempts[l].priority && Later(order[k], order[l]))
    ensures forall p :: p in order <==>
      Proper(config, p) && (config[p.device][p.node].preload.value == 0 ||
                            (config[p.device][p.node].preload.value == 1 && !quick))
  {
    hide Later, DriverFrom, Attempted;
    var keep := (d: DeviceInfo) => Attempted(d, quick);
    var idx := FilterFrom(list, keep);
    hide Filter;
    order := seq(|idx|, k requires 0 <= k < |idx| => places[idx[k]]);
    forall p: Place ensures p in order <==>
      Proper(config, p) && (config[p.device][p.node].preload.value == 0 ||
                            (config[p.device][p.node].preload.value == 1 && !quick)) {
      hide GetDeviceNodeInfo;
      if p in places {
        var m: nat :| m < |places| && places[m] == p;
        AttemptedMeans(config, hostId, list[m], p, quick);
        assert keep(list[m]) <==> m in idx;
        if m in idx {
          var k :| 0 <= k < |idx| && idx[k] == m;
          assert order[k] == p;
        }
      }
    }
  }

  /** The drivers of a host are attempted by the priorities that the configuration gives them, where these are equal
      in the reverse of the order in the configuration: exactly those that it describes properly and does not disable,
      and in a quick boot does not leave for the second step, each once. */
  lemma DriversInOrder(config: seq<seq<DeviceConfig>>, hostId: nat, quick: bool) returns (order: seq<Place>)
    ensures var attempts := Attempts(AddAll(DeviceInfos(config, hostId), DeviceListCompare), quick);
      && |order| == |attempts| && Distinct(order)
      && (forall k :: 0 <= k < |order| ==>
            var p, info := order[k], attempts[k];
            && p.device < |config| && p.node < |config[p.device]|
            && config[p.device][p.node].priority == Some(info.priority)
            && config[p.device][p.node].policy == Some(info.policy)
            && config[p.device][p.node].moduleName == Some(info.moduleName)
            && config[p.device][p.node].svcName == Some(info.svcName)
            && info.deviceId == p.device % 0x100 * 0x100)
      && forall k, l :: 0 <= k < l < |order| ==>
           attempts[k].priority < attempts[l].priority ||
           (attempts[k].priority == attempts[l].priority &&
            (order[k].device > order[l].device ||
             (order[k].device == order[l].device && order[k].node > order[l].node)))
    ensures forall i: nat, j: nat :: i < |config| && j < |config[i]| ==>
      var c := config[i][j];
      Place(i, j) in order <==>
        && c.policy.Some? && c.priority.Some? && c.preload.Some? && c.permission.Some?
        && c.moduleName.Some? && c.svcName.Some? && c.deviceMatchAttr.Some?
        && c.policy.value <= 4 && c.priority.value <= 200 && c.moduleName.value != ""
        && (c.preload.value == 0 || (c.preload.value == 1 && !quick))
  {
    hide *;
    var list := AddAll(DeviceInfos(config, hostId), DeviceListCompare);
    var places := ListInOrder(config, hostId);
    order := AttemptsAt(config, hostId, list, places, quick);
    var attempts := Attempts(list, quick);
    forall k | 0 <= k < |order|
      ensures var p, info := order[k], attempts[k];
        && p.device < |config| && p.node < |config[p.device]|
        && config[p.device][p.node].priority == Some(info.priority)
        && config[p.device][p.node].policy == Some(info.policy)
        && config[p.device][p.node].moduleName == Some(info.moduleName)
        && config[p.device][p.node].svcName == Some(info.svcName)
        && info.deviceId == p.device % 0x100 * 0x100
    {
      DriverMeans(config, hostId, attempts[k], order[k]);
    }
    LaterMeans();
    forall i: nat, j: nat | i < |config| && j < |config[i]|
      ensures var c := config[i][j];
        Place(i, j) in order <==>
          && c.policy.Some? && c.priority.Some? && c.preload.Some? && c.permission.Some?
          && c.moduleName.Some? && c.svcName.Some? && c.deviceMatchAttr.Some?
          && c.policy.value <= 4 && c.priority.value <= 200 && c.moduleName.value != ""
          && (c.preload.value == 0 || (c.preload.value == 1 && !quick))
    {
      ProperMeans(config, Place(i, j));
    }
  }

  lemma LaterMeans()
    ensures forall p, q :: Later(p, q) <==> p.device > q.device || (p.device == q.device && p.node > q.node)
  {
  }

  // The host of a name.

  /** The devices of a host are those of the first host with its name, and there are none exactly if no host has it. */
  lemma {:induction false} FirstOfName(config: seq<HostConfig>, hostName: string)
    ensures HostNode(config, hostName).None? <==>
      forall i :: 0 <= i < |config| ==> config[i].hostName != Some(hostName)
    ensures HostNode(config, hostName).Some? ==> exists i ::
      && 0 <= i < |config| && config[i].hostName == Some(hostName)
      && HostNode(config, hostName).value == config[i].devices
      && forall j :: 0 <= j < i ==> config[j].hostName != Some(hostName)
  {
    if config != [] && config[0].hostName != Some(hostName) {
      FirstOfName(config[1..], hostName);
      assert forall i :: 1 <= i < |config| ==> config[i] == config[1..][i - 1];
      if HostNode(config, hostName).Some? {
        var i :| 0 <= i < |config[1..]| && config[1..][i].hostName == Some(hostName)
          && HostNode(config, hostName).value == config[1..][i].devices
          && forall j :: 0 <= j < i ==> config[1..][j].hostName != Some(hostName);
        assert config[i + 1].hostName == Some(hostName);
      }
    }
  }
}
