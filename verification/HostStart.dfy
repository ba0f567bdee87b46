/** The start of all hosts at boot (`DevmgrServiceStartDeviceHosts` of `core/manager/src/devmgr_service.c`): the list of
    hosts by priority is walked with an iterator, and the manager's list of clients grows as it is. */
module HostStart {
  import opened Base
  import opened SList
  import opened SListTraversal
  import opened PowerOrder
  import opened StartRuns
  import opened BootRuns
  import opened PriorityOrder
  import DeviceBoot
  import PowerManager

  /** One host of the list. */
  method StartNext(inst: PowerManager.DevmgrService, it: Iterator<HostInfo>, list: List<HostInfo>,
                   starts: nat -> HostStart, setup: Setup, i: nat, ghost plan: Plan, ghost before: seq<Host>,
                   ghost now: nat, ghost done: seq<Step>)
    returns (ghost more: seq<Step>)
    requires inst.Valid() && DeviceBoot.Walking(it, list, plan.infos, i) && i < |plan.infos|
    requires it !in inst.Repr && DeviceBoot.Outside(list, inst.Repr)
    requires it != inst as object && list != inst as object
    requires plan.starts == starts && plan.setup == setup && Booting(before, now, plan, i, done, inst.all)
    modifies it, inst, inst.Repr
    ensures inst.Valid() && fresh(inst.Repr - old(inst.Repr)) && DeviceBoot.Walking(it, list, plan.infos, i + 1)
    ensures list.spine == old(list.spine) && Booting(before, now, plan, i + 1, more, inst.all)
  {
    hide Leads, BootSteps, StartSteps, Booting, DeviceBoot.Walking, PowerManager.DevmgrService.Valid, Identities;
    ghost var hosts := inst.all;
    DeviceBoot.WalkingMeans(it, list, plan.infos, i);
    var info := DeviceBoot.WalkOn(it, list, plan.infos, i);
    DeviceBoot.WalkingMeans(it, list, plan.infos, i + 1);
    inst.StartOne(info.hostId, info.hostName, starts(i), setup, now + |done|);
    BootGoesOn(before, now, plan, i, done, hosts, inst.all);
    more := done + StartSteps(Identities(hosts), Named(plan.infos[i]), plan.starts(i), plan.setup);
  }

  method StartAll(inst: PowerManager.DevmgrService, list: List<HostInfo>, starts: nat -> HostStart, setup: Setup,
                  ghost now: nat)
    requires inst.Valid() && list.Valid() && DeviceBoot.Outside(list, inst.Repr) && list != inst as object
    modifies inst, inst.Repr
    ensures inst.Valid() && fresh(inst.Repr - old(inst.Repr))
    ensures list.Valid() && list.spine == old(list.spine)
    ensures Leads(old(inst.all), now,
                  BootSteps(Identities(old(inst.all)), Plan(old(list.Contents()), starts, setup), 0), inst.all)
  {
    hide Leads, BootSteps, StartSteps, Booting, DeviceBoot.Walking, PowerManager.DevmgrService.Valid, Identities;
    hide List.Valid, List.Contents;
    ghost var before, plan, done := inst.all, Plan(list.Contents(), starts, setup), [];
    var i := 0;
    BootBegins(before, now, plan);
    var it, more := DeviceBoot.BeginWalk(list);
    DeviceBoot.WalkingMeans(it, list, plan.infos, 0);
    while more
      invariant inst.Valid() && fresh(inst.Repr - old(inst.Repr)) && fresh(it) && it !in inst.Repr
      invariant DeviceBoot.Walking(it, list, plan.infos, i) && list.spine == old(list.spine)
      invariant DeviceBoot.Outside(list, inst.Repr)
      invariant 0 <= i <= |plan.infos| && (more <==> i < |plan.infos|)
      invariant Booting(before, now, plan, i, done, inst.all)
      decreases |plan.infos| - i
    {
      done := StartNext(inst, it, list, starts, setup, i, plan, before, now, done);
      i := i + 1;
      more := DeviceBoot.MoreToWalk(it, list, plan.infos, i);
    }
    DeviceBoot.WalkingMeans(it, list, plan.infos, i);
    BootEnds(before, now, plan, done, inst.all);
  }

  lemma NothingBooted(hosts: seq<Host>, now: nat, starts: nat -> HostStart, setup: Setup)
    ensures Leads(hosts, now, BootSteps(Identities(hosts), Plan([], starts, setup), 0), hosts)
  {
    BootEnds(hosts, now, Plan([], starts, setup), [], hosts);
  }

  /** `DevmgrServiceStartDeviceHosts`. */
  method StartDeviceHosts(inst: PowerManager.DevmgrService, installer: bool, setup: Setup, allocs: nat -> bool,
                          starts: nat -> HostStart, ghost now: nat)
    returns (ret: int)
    requires inst.Valid()
    modifies inst, inst.Repr
    ensures inst.Valid() && fresh(inst.Repr - old(inst.Repr))
    ensures ret == if installer then HDF_SUCCESS else HDF_FAILURE
    ensures
      var complete := installer && setup.manager.Some? && forall i: nat :: i < |setup.manager.value| ==> allocs(i);
      var infos :=
        if complete then AddAll(DeviceBoot.HostInfos(setup.manager.value), DeviceBoot.HostListCompare) else [];
      Leads(old(inst.all), now, BootSteps(Identities(old(inst.all)), Plan(infos, starts, setup), 0), inst.all)
  {
    NothingBooted(inst.all, now, starts, setup);
    hide *;
    if !installer {
      return HDF_FAILURE;
    }
    var hostList := new List<HostInfo>();
    var listed := DeviceBoot.GetHostList(hostList, setup.manager, allocs);
    if !listed {
      return HDF_SUCCESS;
    }
    StartAll(inst, hostList, starts, setup, now);
    var deleted := Flush(hostList);
    return HDF_SUCCESS;
  }
}
