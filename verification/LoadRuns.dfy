/** What a boot leaves below the hosts: each node comes from a load that succeeded, in the order in which the drivers
    of its host are attempted. */
module LoadRuns {
  import opened Base
  import opened PriorityOrder
  import opened PowerOrder
  import opened StartRuns
  import opened BootRuns
  import DeviceBoot

  /** The devices of a host after its first `n` loads, the first of them being step number `start` of the run. */
  function AfterLoads(loads: seq<Load>, start: nat, n: nat): seq<Device>
    requires n <= |loads|
  {
    if n == 0 then [] else AfterLoad(AfterLoads(loads, start, n - 1), loads[n - 1], start + n - 1)
  }

  predicate Succeeds(loads: seq<Load>, start: nat, i: nat)
    requires i < |loads|
  {
    LoadResult(AfterLoads(loads, start, i), loads[i]) == HDF_SUCCESS
  }

  function NodeOfLoad(loads: seq<Load>, start: nat, i: nat): Node
    requires i < |loads|
  {
    Node(start + i, loads[i].devId, loads[i].powerToken)
  }

  predicate SameDevice(loads: seq<Load>, i: nat, id: nat)
    requires i < |loads|
  {
    DeviceIdOf(loads[i].devId) == id
  }

  /** The nodes that the first `n` loads leave below the device: a failed load takes the earlier ones along. */
  function NodesFor(loads: seq<Load>, start: nat, n: nat, id: nat): seq<Node>
    requires n <= |loads|
  {
    if n == 0 then []
    else if !SameDevice(loads, n - 1, id) then NodesFor(loads, start, n - 1, id)
    else if Succeeds(loads, start, n - 1)
    then NodesFor(loads, start, n - 1, id) + [NodeOfLoad(loads, start, n - 1)]
    else []
  }

  /** The device with this id has these nodes, and there is none if there are no nodes. */
  ghost predicate Files(devices: seq<Device>, id: nat, nodes: seq<Node>) {
    var k := Find(devices, id);
    if k < |devices| then devices[k].nodes == nodes && nodes != [] else nodes == []
  }

  lemma FoundAt(devices: seq<Device>, id: nat, k: nat)
    requires DistinctIds(devices) && k < |devices| && devices[k].deviceId == id
    ensures Find(devices, id) == k
  {
    Finds(devices, id, k);
  }

  lemma AddFiles(devices: seq<Device>, n: Node, id: nat, nodes: seq<Node>)
    requires DistinctIds(devices) && Files(devices, id, nodes)
    ensures DistinctIds(AddDevice(devices, n))
    ensures Files(AddDevice(devices, n), id, if DeviceIdOf(n.devId) == id then nodes + [n] else nodes)
  {
    var own := DeviceIdOf(n.devId);
    var k := Find(devices, own);
    var all := QueryOrAdd(devices, own, n.at);
    assert DistinctIds(all);
    FoundAt(all, own, k);
    var after := AddDevice(devices, n);
    assert forall i :: 0 <= i < |after| ==> after[i].deviceId == all[i].deviceId;
    var p := Find(devices, id);
    if p < |devices| {
      FoundAt(after, id, p);
    } else if own == id {
      FoundAt(after, id, k);
    } else {
      Finds(after, id, |after|);
    }
  }

  lemma DropFiles(devices: seq<Device>, own: nat, id: nat, nodes: seq<Node>)
    requires DistinctIds(devices) && Files(devices, id, nodes)
    ensures DistinctIds(DropDevice(devices, own))
    ensures Files(DropDevice(devices, own), id, if own == id then [] else nodes)
  {
    var k := Find(devices, own);
    if k < |devices| {
      WithoutAt(devices, k);
      hide Without;
      var after := DropDevice(devices, own);
      var p := Find(devices, id);
      if p == k || p == |devices| {
        Finds(after, id, |after|);
      } else {
        FoundAt(after, id, if p < k then p else p - 1);
      }
    }
  }

  lemma {:induction false} LoadsFile(loads: seq<Load>, start: nat, n: nat, id: nat)
    requires n <= |loads|
    ensures DistinctIds(AfterLoads(loads, start, n))
    ensures Files(AfterLoads(loads, start, n), id, NodesFor(loads, start, n, id))
  {
    if n > 0 {
      LoadsFile(loads, start, n - 1, id);
      var devices, nodes, load := AfterLoads(loads, start, n - 1), NodesFor(loads, start, n - 1, id), loads[n - 1];
      hide AddDevice, DropDevice, DistinctIds, Files, LoadResult, DeviceIdOf;
      AddFiles(devices, NodeOfLoad(loads, start, n - 1), id, nodes);
      DropFiles(devices, DeviceIdOf(load.devId), id, nodes);
    }
  }

  /** Load number `i` succeeds, and no later one of the same device fails. */
  ghost predicate Lasts(loads: seq<Load>, start: nat, n: nat, i: nat)
    requires n <= |loads|
  {
    && i < n && Succeeds(loads, start, i)
    && forall j :: i < j < n && SameDevice(loads, j, DeviceIdOf(loads[i].devId)) ==> Succeeds(loads, start, j)
  }

  lemma {:induction false} NodesLast(loads: seq<Load>, start: nat, n: nat, id: nat, node: Node)
    requires n <= |loads|
    ensures node in NodesFor(loads, start, n, id) <==>
      exists i :: 0 <= i < n && SameDevice(loads, i, id) && Lasts(loads, start, n, i)
        && node == NodeOfLoad(loads, start, i)
  {
    hide Succeeds, DeviceIdOf;
    if n > 0 {
      NodesLast(loads, start, n - 1, id, node);
      forall i | 0 <= i < n - 1 && SameDevice(loads, i, id)
        ensures Lasts(loads, start, n, i) <==>
          Lasts(loads, start, n - 1, i) && (SameDevice(loads, n - 1, id) ==> Succeeds(loads, start, n - 1))
      {
      }
      assert SameDevice(loads, n - 1, id) ==> (Lasts(loads, start, n, n - 1) <==> Succeeds(loads, start, n - 1));
      hide Lasts;
    }
  }

  ghost predicate HasNode(devices: seq<Device>, node: Node) {
    exists k :: 0 <= k < |devices| && node in devices[k].nodes
  }

  /** Below a host there is exactly a node for each load that lasts. */
  lemma NodesOfLoads(loads: seq<Load>, start: nat, node: Node)
    ensures
      var n := |loads|;
      HasNode(AfterLoads(loads, start, n), node) <==>
        exists i :: 0 <= i < n && Lasts(loads, start, n, i) && node == NodeOfLoad(loads, start, i)
  {
    var n := |loads|;
    var devices := AfterLoads(loads, start, n);
    hide AfterLoads, NodesFor, Lasts, DeviceIdOf;
    if HasNode(devices, node) {
      var k :| 0 <= k < |devices| && node in devices[k].nodes;
      LoadsFile(loads, start, n, devices[k].deviceId);
      FoundAt(devices, devices[k].deviceId, k);
      NodesLast(loads, start, n, devices[k].deviceId, node);
    }
    if i :| 0 <= i < n && Lasts(loads, start, n, i) && node == NodeOfLoad(loads, start, i) {
      var id := DeviceIdOf(loads[i].devId);
      LoadsFile(loads, start, n, id);
      NodesLast(loads, start, n, id, node);
      assert SameDevice(loads, i, id);
      assert node in devices[Find(devices, id)].nodes;
    }
  }

  /** Two nodes are below the same device exactly if their ids have the same middle 16 bits, which are its id. */
  lemma DevicesByMiddle(loads: seq<Load>, start: nat, k: nat, l: nat, m: Node, n: Node)
    requires k < |AfterLoads(loads, start, |loads|)| && m in AfterLoads(loads, start, |loads|)[k].nodes
    requires l < |AfterLoads(loads, start, |loads|)| && n in AfterLoads(loads, start, |loads|)[l].nodes
    ensures AfterLoads(loads, start, |loads|)[k].deviceId == m.devId / 0x100 % 0x1_0000
    ensures k == l <==> m.devId / 0x100 % 0x1_0000 == n.devId / 0x100 % 0x1_0000
  {
    NodeOfDevice(loads, start, k, m);
    NodeOfDevice(loads, start, l, n);
    LoadsFile(loads, start, |loads|, 0);
  }

  lemma NodeOfDevice(loads: seq<Load>, start: nat, k: nat, node: Node)
    requires k < |AfterLoads(loads, start, |loads|)| && node in AfterLoads(loads, start, |loads|)[k].nodes
    ensures AfterLoads(loads, start, |loads|)[k].deviceId == node.devId / 0x100 % 0x1_0000
  {
    var devices := AfterLoads(loads, start, |loads|);
    var id := devices[k].deviceId;
    LoadsFile(loads, start, |loads|, id);
    FoundAt(devices, id, k);
    NodesLast(loads, start, |loads|, id, node);
    hide AfterLoads, NodesFor, Lasts;
    var i :| 0 <= i < |loads| && SameDevice(loads, i, id) && node == NodeOfLoad(loads, start, i);
  }

  // Which hosts have a service after the boot, and where their devices come from.

  lemma {:induction false} LoadsLead(a: seq<Host>, now: nat, k: nat, loads: seq<Load>, n: nat)
    requires k < |a| && n <= |loads|
    ensures Leads(a, now, [AttachService(k)] + LoadSteps(k, loads[..n]),
                  a[k := a[k].(hasService := true, devices := AfterLoads(loads, now + 1, n))])
  {
    hide Leads, AfterLoad, LoadSteps;
    if n == 0 {
      Attached(a, now, k);
      assert loads[..0] == [];
    } else {
      LoadsLead(a, now, k, loads, n - 1);
      var b := a[k := a[k].(hasService := true, devices := AfterLoads(loads, now + 1, n - 1))];
      Loaded(a, now, k, loads[..n - 1], loads[n - 1], b);
      assert loads[..n - 1] + [loads[n - 1]] == loads[..n];
      var devices := AfterLoads(loads, now + 1, n);
      assert b[k := b[k].(devices := devices)] == a[k := a[k].(hasService := true, devices := devices)];
    }
  }

  /** The devices of the host are those of its drivers, loaded when the host number `j` of the plan has started. */
  ghost predicate LoadedAt(host: Host, plan: Plan, j: nat, start: nat) {
    && j < |plan.infos| && Starts(plan.starts(j)) && plan.infos[j].hostId == host.identity.hostId
    && (var loads := HostLoads(host.identity, plan.setup, plan.starts(j).resources);
        host.devices == AfterLoads(loads, start, |loads|))
  }

  ghost predicate LoadedSome(host: Host, plan: Plan) {
    exists j: nat, start: nat :: LoadedAt(host, plan, j, start)
  }

  predicate FirstOfId(identities: seq<Identity>, k: nat)
    requires k < |identities|
  {
    FindHost(identities, identities[k].hostId) == k
  }

  /** A host has a service exactly if it is the first with its id. */
  ghost predicate AllLoaded(hosts: seq<Host>, plan: Plan) {
    && (forall k {:trigger hosts[k]} :: 0 <= k < |hosts| ==> (hosts[k].hasService <==> FirstOfId(Identities(hosts), k)))
    && (forall k {:trigger hosts[k]} :: 0 <= k < |hosts| && hosts[k].hasService ==> LoadedSome(hosts[k], plan))
  }

  lemma StartLeads(hosts: seq<Host>, now: nat, identity: Identity, start: HostStart, setup: Setup, hosts': seq<Host>)
    requires Leads(hosts, now, StartSteps(Identities(hosts), identity, start, setup), hosts')
    ensures !Starts(start) ==> hosts' == hosts
    ensures Starts(start) ==>
      var all := hosts + [Host(now, identity, false, [])];
      var k := FindHost(Identities(all), identity.hostId);
      && k < |all|
      && (var loads := HostLoads(all[k].identity, setup, start.resources);
          hosts' == all[k := all[k].(hasService := true, devices := AfterLoads(loads, now + 2, |loads|))])
  {
    StartMeans(hosts, now, identity, start, setup);
    var steps := StartSteps(Identities(hosts), identity, start, setup);
    hide StartSteps, Leads, AttachSteps, AfterLoads;
    if !Starts(start) {
      LeadsToOne(hosts, now, steps, hosts, hosts');
    } else {
      var all := hosts + [Host(now, identity, false, [])];
      var k := FindHost(Identities(all), identity.hostId);
      var loads := HostLoads(all[k].identity, setup, start.resources);
      AttachMeans(all, now + 1, identity.hostId, setup, start.resources);
      LoadsLead(all, now + 1, k, loads, |loads|);
      assert loads[..|loads|] == loads;
      var after := all[k := all[k].(hasService := true, devices := AfterLoads(loads, now + 2, |loads|))];
      StartedAndAttached(hosts, now, identity,
                         AttachSteps(Identities(all), identity.hostId, true, setup, start.resources), after);
      LeadsToOne(hosts, now, steps, after, hosts');
    }
  }

  lemma FirstStays(identities: seq<Identity>, identity: Identity, p: nat)
    requires p <= |identities|
    ensures
      var all := identities + [identity];
      && (p < |identities| ==> (FirstOfId(all, p) <==> FirstOfId(identities, p)))
      && (p == |identities| ==> (FirstOfId(all, p) <==> p == FindHost(all, identity.hostId)))
      && FindHost(all, identity.hostId) <= |identities| && FirstOfId(all, FindHost(all, identity.hostId))
  {
    var all := identities + [identity];
    assert all[|identities|] == identity;
    if p < |identities| {
      FindsHost(all, identities[p].hostId, FindHost(identities, identities[p].hostId));
    }
  }

  lemma StartKeepsLoaded(hosts: seq<Host>, now: nat, plan: Plan, i: nat, hosts': seq<Host>)
    requires AllLoaded(hosts, plan) && i < |plan.infos|
    requires Leads(hosts, now, StartSteps(Identities(hosts), Named(plan.infos[i]), plan.starts(i), plan.setup), hosts')
    ensures AllLoaded(hosts', plan)
  {
    var identity := Named(plan.infos[i]);
    StartLeads(hosts, now, identity, plan.starts(i), plan.setup, hosts');
    hide StartSteps, Leads;
    if Starts(plan.starts(i)) {
      var all := hosts + [Host(now, identity, false, [])];
      var k := FindHost(Identities(all), identity.hostId);
      var loads := HostLoads(all[k].identity, plan.setup, plan.starts(i).resources);
      var devices := AfterLoads(loads, now + 2, |loads|);
      hide Starts, Named;
      assert LoadedAt(all[k].(hasService := true, devices := devices), plan, i, now + 2);
      hide LoadedAt, AfterLoads, HostLoads;
      OneMoreLoaded(hosts, plan, now, identity, devices);
    }
  }

  lemma OneMoreLoaded(hosts: seq<Host>, plan: Plan, now: nat, identity: Identity, devices: seq<Device>)
    requires AllLoaded(hosts, plan)
    requires
      var all := hosts + [Host(now, identity, false, [])];
      var k := FindHost(Identities(all), identity.hostId);
      k < |all| && LoadedSome(all[k].(hasService := true, devices := devices), plan)
    ensures
      var all := hosts + [Host(now, identity, false, [])];
      var k := FindHost(Identities(all), identity.hostId);
      AllLoaded(all[k := all[k].(hasService := true, devices := devices)], plan)
  {
    hide LoadedSome, FindHost;
    var all := hosts + [Host(now, identity, false, [])];
    FirstStays(Identities(hosts), identity, 0);
    assert Identities(all) == Identities(hosts) + [identity];
    var k := FindHost(Identities(all), identity.hostId);
    var after := all[k := all[k].(hasService := true, devices := devices)];
    assert Identities(after) == Identities(all);
    forall p | 0 <= p < |after| ensures after[p].hasService <==> FirstOfId(Identities(after), p) {
      FirstStays(Identities(hosts), identity, p);
      assert p < |hosts| ==> (hosts[p].hasService <==> FirstOfId(Identities(hosts), p));
      hide FirstOfId;
    }
  }

  lemma {:induction false} BootLoads(hosts: seq<Host>, now: nat, plan: Plan, i: nat, hosts': seq<Host>)
    requires AllLoaded(hosts, plan) && Leads(hosts, now, BootSteps(Identities(hosts), plan, i), hosts')
    ensures AllLoaded(hosts', plan)
    decreases |plan.infos| - i
  {
    hide Leads, StartSteps, AllLoaded;
    if i < |plan.infos| {
      var first := StartSteps(Identities(hosts), Named(plan.infos[i]), plan.starts(i), plan.setup);
      var identities := IdentitiesAfter(Identities(hosts), Named(plan.infos[i]), plan.starts(i));
      var middle := LeadsParts(hosts, now, first, BootSteps(identities, plan, i + 1), hosts');
      StartGivesIdentity(hosts, now, Named(plan.infos[i]), plan.starts(i), plan.setup, middle);
      StartKeepsLoaded(hosts, now, plan, i, middle);
      BootLoads(middle, now + |first|, plan, i + 1, hosts');
    } else {
      NoSteps(hosts, now, hosts');
    }
  }

  lemma TriedByPriority(identity: Identity, setup: Setup, r: Resources)
    ensures SortedBy(DeviceBoot.DeviceListCompare, Tried(identity, setup, r))
  {
    var manager, quick := setup.manager, setup.quick;
    if manager.Some? {
      var node := DeviceBoot.HostNode(manager.value, identity.hostName);
      if node.Some? {
        DeviceBoot.DriversLoadByPriority(node.value, identity.hostId, quick);
      }
    }
  }

  /** `node` comes from the attempt to load the driver number `i`. */
  predicate ComesFrom(node: Node, tried: seq<DeviceBoot.DeviceInfo>, answers: nat -> Answer, start: nat, i: int) {
    0 <= i < |tried| && node == Node(start + i, tried[i].deviceId, answers(i).powerToken)
  }

  /** The nodes below the host are those of the attempts that last, and were added in the order of their priorities. */
  ghost predicate FollowsAttempts(host: Host, setup: Setup, r: Resources, start: nat) {
    var tried, loads := Tried(host.identity, setup, r), HostLoads(host.identity, setup, r);
    && SortedBy(DeviceBoot.DeviceListCompare, tried)
    && (forall node {:trigger HasNode(host.devices, node)} :: HasNode(host.devices, node) <==>
          exists i :: ComesFrom(node, tried, r.answers, start, i) && Lasts(loads, start, |loads|, i))
    && (forall m, n {:trigger HasNode(host.devices, m), HasNode(host.devices, n)} ::
          HasNode(host.devices, m) && HasNode(host.devices, n) && m.at < n.at ==>
            start <= m.at && n.at < start + |tried| && tried[m.at - start].priority <= tried[n.at - start].priority)
  }

  lemma LoadsFollowAttempts(host: Host, setup: Setup, r: Resources, start: nat)
    requires var loads := HostLoads(host.identity, setup, r); host.devices == AfterLoads(loads, start, |loads|)
    ensures FollowsAttempts(host, setup, r, start)
  {
    var tried, loads := Tried(host.identity, setup, r), HostLoads(host.identity, setup, r);
    TriedByPriority(host.identity, setup, r);
    assert forall i :: 0 <= i < |tried| ==> loads[i] == LoadOf(tried[i], r.answers(i));
    hide Tried, HostLoads, AfterLoads, Lasts, HasNode;
    forall node
      ensures HasNode(host.devices, node) <==>
        exists i :: ComesFrom(node, tried, r.answers, start, i) && Lasts(loads, start, |loads|, i)
    {
      NodesOfLoads(loads, start, node);
    }
  }

  /** After the boot of an empty manager a host has a service exactly if it is the first with its id, and the nodes
      below it are those of the drivers of its configuration that were loaded, each added in the order of their
      priorities. */
  lemma BootFollowsAttempts(plan: Plan, hosts: seq<Host>, k: nat)
    requires Leads([], 0, BootSteps([], plan, 0), hosts) && k < |hosts|
    ensures hosts[k].hasService <==> FirstOfId(Identities(hosts), k)
    ensures hosts[k].hasService ==>
      exists j: nat, start: nat ::
        && j < |plan.infos| && Starts(plan.starts(j)) && plan.infos[j].hostId == hosts[k].identity.hostId
        && FollowsAttempts(hosts[k], plan.setup, plan.starts(j).resources, start)
  {
    hide Leads, BootSteps, FollowsAttempts, FirstOfId;
    assert Identities([]) == [];
    BootLoads([], 0, plan, 0, hosts);
    if hosts[k].hasService {
      var j: nat, start: nat :| LoadedAt(hosts[k], plan, j, start);
      LoadsFollowAttempts(hosts[k], plan.setup, plan.starts(j).resources, start);
    }
  }
}
