/** What the manager does when a host starts and attaches, as steps of a run: which drivers are loaded, in which order,
    and which nodes there are afterwards. */
module StartRuns {
  import opened Base
  import opened PriorityOrder
  import opened PowerOrder
  import DeviceBoot

  /** What a driver and the allocator have to say to one call of `DevHostServiceAddDevice`. */
  datatype Answer = Answer(powerToken: bool, device: bool, driver: bool, node: bool, launched: int)

  function LoadOf(d: DeviceBoot.DeviceInfo, answer: Answer): Load {
    Load(d.deviceId, answer.powerToken, answer.device, answer.driver, answer.node, answer.launched)
  }

  /** The calls that the loop of `DevHostServiceClntInstallDriver` makes for the drivers that it tries. */
  function LoadsOf(attempts: seq<DeviceBoot.DeviceInfo>, answers: nat -> Answer): (loads: seq<Load>)
    ensures |loads| == |attempts|
    ensures forall i {:trigger loads[i]} :: 0 <= i < |loads| ==> loads[i] == LoadOf(attempts[i], answers(i))
  {
    seq(|attempts|, i requires 0 <= i < |attempts| => LoadOf(attempts[i], answers(i)))
  }

  /** The configuration, if it has a manager node, and whether drivers of the second step are left out. */
  datatype Setup = Setup(manager: Option<seq<DeviceBoot.HostConfig>>, quick: bool)

  /** The answers while the drivers of one host are listed and loaded. */
  datatype Resources = Resources(list: bool, nodes: nat -> nat -> bool, answers: nat -> Answer)

  /** The drivers that are tried when a host attaches: by priority, as the configuration of its name has them. */
  ghost function Tried(identity: Identity, setup: Setup, r: Resources): seq<DeviceBoot.DeviceInfo> {
    DeviceBoot.Attempts(DeviceBoot.HostDrivers(setup.manager, identity.hostId, identity.hostName, r.list, r.nodes),
                        setup.quick)
  }

  ghost function HostLoads(identity: Identity, setup: Setup, r: Resources): seq<Load> {
    LoadsOf(Tried(identity, setup, r), r.answers)
  }

  function LoadSteps(k: nat, loads: seq<Load>): (steps: seq<Step>)
    ensures |steps| == |loads|
  {
    seq(|loads|, i requires 0 <= i < |loads| => LoadDriver(k, loads[i]))
  }

  /** `DevmgrServiceAttachDeviceHost` finds the first host with the id. */
  ghost function AttachSteps(identities: seq<Identity>, hostId: nat, hasService: bool, setup: Setup,
                             r: Resources): seq<Step> {
    var k := FindHost(identities, hostId);
    if k == |identities| || !hasService then []
    else [AttachService(k)] + LoadSteps(k, HostLoads(identities[k], setup, r))
  }

  /** What becomes of a host of the configuration: whether its client and its service can be allocated, and what is
      answered while its drivers are loaded. */
  datatype HostStart = HostStart(client: bool, service: bool, resources: Resources)

  ghost function StartSteps(identities: seq<Identity>, identity: Identity, start: HostStart, setup: Setup): seq<Step> {
    if !start.client then []
    else if !start.service then [StartHost(identity), StartFailed(|identities|)]
    else [StartHost(identity)] + AttachSteps(identities + [identity], identity.hostId, true, setup, start.resources)
  }

  predicate Starts(start: HostStart) {
    start.client && start.service
  }

  function IdentitiesAfter(identities: seq<Identity>, identity: Identity, start: HostStart): seq<Identity> {
    if Starts(start) then identities + [identity] else identities
  }

  lemma OneMoreTried(infos: seq<DeviceBoot.DeviceInfo>, quick: bool, answers: nat -> Answer, i: nat)
    requires i < |infos|
    ensures var before := DeviceBoot.Attempts(infos[..i], quick);
      LoadsOf(DeviceBoot.Attempts(infos[..i + 1], quick), answers) ==
        LoadsOf(before, answers) +
        if DeviceBoot.Attempted(infos[i], quick) then [LoadOf(infos[i], answers(|before|))] else []
    ensures |DeviceBoot.Attempts(infos[..i + 1], quick)| ==
      |DeviceBoot.Attempts(infos[..i], quick)| + if DeviceBoot.Attempted(infos[i], quick) then 1 else 0
  {
    DeviceBoot.AttemptsLast(infos, quick, i);
  }

  lemma NoneTried(infos: seq<DeviceBoot.DeviceInfo>, quick: bool, answers: nat -> Answer)
    ensures DeviceBoot.Attempts(infos[..0], quick) == [] && LoadsOf([], answers) == []
    ensures infos[..|infos|] == infos
  {
  }

  /** The steps after the first `i` drivers of the list. */
  function InstallSteps(k: nat, infos: seq<DeviceBoot.DeviceInfo>, quick: bool, answers: nat -> Answer,
                        i: nat): seq<Step>
    requires i <= |infos|
  {
    [AttachService(k)] + LoadSteps(k, LoadsOf(DeviceBoot.Attempts(infos[..i], quick), answers))
  }

  lemma InstallBegins(k: nat, infos: seq<DeviceBoot.DeviceInfo>, quick: bool, answers: nat -> Answer)
    ensures InstallSteps(k, infos, quick, answers, 0) == [AttachService(k)] + LoadSteps(k, [])
  {
    NoneTried(infos, quick, answers);
  }

  lemma InstallStep(k: nat, infos: seq<DeviceBoot.DeviceInfo>, quick: bool, answers: nat -> Answer, i: nat)
    requires i < |infos|
    ensures var info, loads := infos[i], LoadsOf(DeviceBoot.Attempts(infos[..i], quick), answers);
      var before, after := InstallSteps(k, infos, quick, answers, i), InstallSteps(k, infos, quick, answers, i + 1);
      var count := |DeviceBoot.Attempts(infos[..i + 1], quick)|;
      var skipped := info.preload == DeviceBoot.Disable || (quick && info.preload == DeviceBoot.EnableStep2);
      && before == [AttachService(k)] + LoadSteps(k, loads)
      && (skipped ==> after == before && count == |loads|)
      && (!skipped ==> after == [AttachService(k)] + LoadSteps(k, loads + [LoadOf(info, answers(|loads|))]))
      && (!skipped ==> count == |loads| + 1)
  {
    hide DeviceBoot.Attempts, LoadSteps;
    OneMoreTried(infos, quick, answers, i);
    var loads := LoadsOf(DeviceBoot.Attempts(infos[..i], quick), answers);
    assert loads + [] == loads;
  }

  lemma InstallEnds(k: nat, infos: seq<DeviceBoot.DeviceInfo>, quick: bool, answers: nat -> Answer)
    ensures InstallSteps(k, infos, quick, answers, |infos|) ==
      [AttachService(k)] + LoadSteps(k, LoadsOf(DeviceBoot.Attempts(infos, quick), answers))
  {
    NoneTried(infos, quick, answers);
  }

  lemma LoadsMean(identity: Identity, setup: Setup, r: Resources)
    ensures var infos :=
        DeviceBoot.HostDrivers(setup.manager, identity.hostId, identity.hostName, r.list, r.nodes);
      && HostLoads(identity, setup, r) == LoadsOf(DeviceBoot.Attempts(infos, setup.quick), r.answers)
      && (infos == [] ==> HostLoads(identity, setup, r) == [])
  {
  }

  lemma OneLoad(a: seq<Host>, now: nat, steps: seq<Step>, b: seq<Host>, k: nat, load: Load)
    requires Leads(a, now, steps, b) && k < |b| && b[k].hasService
    ensures Leads(a, now, steps + [LoadDriver(k, load)],
                  b[k := b[k].(devices := AfterLoad(b[k].devices, load, now + |steps|))])
  {
    hide Leads, AfterLoad;
    LeadsOneMore(a, now, steps, b, LoadDriver(k, load));
  }

  lemma Attached(a: seq<Host>, now: nat, k: nat)
    requires k < |a|
    ensures Leads(a, now, [AttachService(k)] + LoadSteps(k, []), a[k := a[k].(hasService := true, devices := [])])
  {
    var steps := [AttachService(k)] + LoadSteps(k, []);
    assert steps == [AttachService(k)] && steps[1..] == [];
  }

  lemma Loaded(a: seq<Host>, now: nat, k: nat, loads: seq<Load>, load: Load, b: seq<Host>)
    requires k < |b| && b[k].hasService
    requires Leads(a, now, [AttachService(k)] + LoadSteps(k, loads), b)
    ensures Leads(a, now, [AttachService(k)] + LoadSteps(k, loads + [load]),
                  b[k := b[k].(devices := AfterLoad(b[k].devices, load, now + 1 + |loads|))])
  {
    hide Leads, AfterLoad;
    var steps := [AttachService(k)] + LoadSteps(k, loads);
    OneLoad(a, now, steps, b, k, load);
    assert steps + [LoadDriver(k, load)] == [AttachService(k)] + LoadSteps(k, loads + [load]);
  }

  lemma AttachMeans(hosts: seq<Host>, now: nat, hostId: nat, setup: Setup, r: Resources)
    ensures var k := FindHost(Identities(hosts), hostId);
      && (k == |hosts| ==> AttachSteps(Identities(hosts), hostId, true, setup, r) == [])
      && (k < |hosts| ==>
          AttachSteps(Identities(hosts), hostId, true, setup, r) ==
            [AttachService(k)] + LoadSteps(k, HostLoads(hosts[k].identity, setup, r)))
    ensures AttachSteps(Identities(hosts), hostId, false, setup, r) == [] && Leads(hosts, now, [], hosts)
  {
  }

  lemma StartFails(hosts: seq<Host>, now: nat, identity: Identity)
    ensures Leads(hosts, now, [StartHost(identity), StartFailed(|hosts|)], hosts)
  {
    var started := hosts + [Host(now, identity, false, [])];
    assert Leads(hosts, now, [], hosts);
    hide Leads;
    LeadsOneMore(hosts, now, [], hosts, StartHost(identity));
    assert [] + [StartHost(identity)] == [StartHost(identity)];
    LeadsOneMore(hosts, now, [StartHost(identity)], started, StartFailed(|hosts|));
    assert Without(started, |hosts|) == hosts;
    assert [StartHost(identity)] + [StartFailed(|hosts|)] == [StartHost(identity), StartFailed(|hosts|)];
  }

  lemma StartMeans(hosts: seq<Host>, now: nat, identity: Identity, start: HostStart, setup: Setup)
    ensures !start.client ==>
      StartSteps(Identities(hosts), identity, start, setup) == [] && Leads(hosts, now, [], hosts)
    ensures start.client && !start.service ==>
      Leads(hosts, now, StartSteps(Identities(hosts), identity, start, setup), hosts)
    ensures var identities := Identities(hosts + [Host(now, identity, false, [])]);
      && FindHost(identities, identity.hostId) <= |hosts|
      && AttachSteps(identities, identity.hostId, false, setup, start.resources) == []
      && (Starts(start) ==>
            StartSteps(Identities(hosts), identity, start, setup) ==
              [StartHost(identity)] + AttachSteps(identities, identity.hostId, true, setup, start.resources))
  {
    var host := Host(now, identity, false, []);
    assert Identities(hosts + [host]) == Identities(hosts) + [identity];
    assert Identities(hosts + [host])[|hosts|] == identity;
    assert Leads(hosts, now, [], hosts);
    hide Leads;
    StartFails(hosts, now, identity);
  }

  lemma StartedAndAttached(hosts: seq<Host>, now: nat, identity: Identity, steps: seq<Step>, hosts': seq<Host>)
    requires Leads(hosts + [Host(now, identity, false, [])], now + 1, steps, hosts')
    ensures Leads(hosts, now, [StartHost(identity)] + steps, hosts')
  {
    assert ([StartHost(identity)] + steps)[1..] == steps;
  }
}
