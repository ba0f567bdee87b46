/** Boots as runs: which hosts there are after the start loop of `core/manager/src/devmgr_service.c`, which nodes below
    them, and in which order a power change visits them. */
module BootRuns {
  import opened Base
  import opened PriorityOrder
  import opened PowerOrder
  import opened StartRuns
  import DeviceBoot

  type HostInfo = DeviceBoot.HostInfo

  /** The hosts to start, what becomes of each, and the configuration of their drivers. */
  datatype Plan = Plan(infos: seq<HostInfo>, starts: nat -> HostStart, setup: Setup)

  function Named(info: HostInfo): Identity {
    Identity(info.hostId, info.hostName)
  }

  /** What the manager does for the hosts from position `i` on; `starts` says what becomes of each. */
  ghost function BootSteps(identities: seq<Identity>, plan: Plan, i: nat): seq<Step>
    decreases |plan.infos| - i
  {
    if i >= |plan.infos| then []
    else
      StartSteps(identities, Named(plan.infos[i]), plan.starts(i), plan.setup) +
      BootSteps(IdentitiesAfter(identities, Named(plan.infos[i]), plan.starts(i)), plan, i + 1)
  }

  /** The hosts from position `i` on that start. */
  function Started(plan: Plan, i: nat): seq<HostInfo>
    decreases |plan.infos| - i
  {
    if i >= |plan.infos| then []
    else (if Starts(plan.starts(i)) then [plan.infos[i]] else []) + Started(plan, i + 1)
  }

  /** `started` are the hosts from position `i` on whose client and whose service can be had; `from` says which. */
  ghost predicate ComeFrom(plan: Plan, i: nat, started: seq<HostInfo>, from: seq<nat>) {
    && |from| == |started| && (forall k, l :: 0 <= k < l < |from| ==> from[k] < from[l])
    && (forall k :: 0 <= k < |from| ==> i <= from[k] < |plan.infos| && started[k] == plan.infos[from[k]])
    && (forall j: nat :: i <= j < |plan.infos| ==> (j in from <==> plan.starts(j).client && plan.starts(j).service))
  }

  lemma NextComes(plan: Plan, i: nat, m: nat, started: seq<HostInfo>, from: seq<nat>)
    requires i < |plan.infos| && m == i + 1 && ComeFrom(plan, m, started, from)
    ensures Starts(plan.starts(i)) ==> ComeFrom(plan, i, [plan.infos[i]] + started, [i] + from)
    ensures !Starts(plan.starts(i)) ==> ComeFrom(plan, i, started, from)
  {
    if Starts(plan.starts(i)) {
      var first: seq<nat> := [i];
      assert forall j :: j in first + from <==> j == i || j in from;
    } else {
      assert i !in from;
    }
  }

  lemma {:induction false} StartedComeFrom(plan: Plan, i: nat) returns (from: seq<nat>)
    ensures ComeFrom(plan, i, Started(plan, i), from)
    decreases |plan.infos| - i
  {
    if i >= |plan.infos| {
      from := [];
    } else {
      hide ComeFrom;
      from := StartedComeFrom(plan, i + 1);
      NextComes(plan, i, i + 1, Started(plan, i + 1), from);
      if Starts(plan.starts(i)) {
        from := [i] + from;
      } else {
        assert [] + Started(plan, i + 1) == Started(plan, i + 1);
      }
    }
  }

  /** Exactly the hosts start whose client and whose service can be had, in the order of the list. */
  lemma StartedFrom(plan: Plan) returns (from: seq<nat>)
    ensures |from| == |Started(plan, 0)| && forall k, l :: 0 <= k < l < |from| ==> from[k] < from[l]
    ensures forall k :: 0 <= k < |from| ==> from[k] < |plan.infos| && Started(plan, 0)[k] == plan.infos[from[k]]
    ensures forall j: nat :: j < |plan.infos| ==> (j in from <==> plan.starts(j).client && plan.starts(j).service)
  {
    from := StartedComeFrom(plan, 0);
    hide Started;
  }

  function AllNamed(infos: seq<HostInfo>): (identities: seq<Identity>)
    ensures |identities| == |infos|
    ensures forall i {:trigger identities[i]} :: 0 <= i < |identities| ==> identities[i] == Named(infos[i])
  {
    seq(|infos|, i requires 0 <= i < |infos| => Named(infos[i]))
  }

  // Steps that leave the list of hosts as it is.

  predicate Below(steps: seq<Step>) {
    forall i {:trigger steps[i]} :: 0 <= i < |steps| ==> steps[i].AttachService? || steps[i].LoadDriver?
  }

  lemma {:induction false} BelowKeepsIdentities(hosts: seq<Host>, now: nat, steps: seq<Step>, hosts': seq<Host>)
    requires Below(steps) && Leads(hosts, now, steps, hosts')
    ensures Identities(hosts') == Identities(hosts)
    decreases |steps|
  {
    if steps != [] {
      assert Identities(Apply(hosts, steps[0], now)) == Identities(hosts);
      hide Apply, Enabled;
      BelowKeepsIdentities(Apply(hosts, steps[0], now), now + 1, steps[1..], hosts');
    }
  }

  lemma AttachIsBelow(identities: seq<Identity>, hostId: nat, hasService: bool, setup: Setup, r: Resources)
    ensures Below(AttachSteps(identities, hostId, hasService, setup, r))
  {
  }

  lemma StartFailsAlone(hosts: seq<Host>, now: nat, identity: Identity, hosts': seq<Host>)
    requires Leads(hosts, now, [StartHost(identity), StartFailed(|hosts|)], hosts')
    ensures hosts' == hosts
  {
    StartFails(hosts, now, identity);
    LeadsToOne(hosts, now, [StartHost(identity), StartFailed(|hosts|)], hosts, hosts');
  }

  lemma {:induction false} LeadsToOne(hosts: seq<Host>, now: nat, steps: seq<Step>, a: seq<Host>, b: seq<Host>)
    requires Leads(hosts, now, steps, a) && Leads(hosts, now, steps, b)
    ensures a == b
    decreases |steps|
  {
    if steps != [] {
      hide Apply, Enabled;
      LeadsToOne(Apply(hosts, steps[0], now), now + 1, steps[1..], a, b);
    }
  }

  lemma StartGivesIdentity(hosts: seq<Host>, now: nat, identity: Identity, start: HostStart, setup: Setup,
                           hosts': seq<Host>)
    requires Leads(hosts, now, StartSteps(Identities(hosts), identity, start, setup), hosts')
    ensures Identities(hosts') == IdentitiesAfter(Identities(hosts), identity, start)
  {
    var started := hosts + [Host(now, identity, false, [])];
    if Starts(start) {
      var rest := AttachSteps(Identities(hosts) + [identity], identity.hostId, true, setup, start.resources);
      var steps := [StartHost(identity)] + rest;
      assert steps[0] == StartHost(identity) && steps[1..] == rest;
      assert Identities(started) == Identities(hosts) + [identity];
      hide AttachSteps;
      AttachIsBelow(Identities(hosts) + [identity], identity.hostId, true, setup, start.resources);
      assert Leads(started, now + 1, rest, hosts');
      hide Leads;
      BelowKeepsIdentities(started, now + 1, rest, hosts');
    } else if start.client {
      hide Leads;
      StartFailsAlone(hosts, now, identity, hosts');
    }
  }

  lemma {:induction false} LeadsParts(a: seq<Host>, now: nat, first: seq<Step>, second: seq<Step>, c: seq<Host>)
    returns (b: seq<Host>)
    requires Leads(a, now, first + second, c)
    ensures Leads(a, now, first, b) && Leads(b, now + |first|, second, c)
    decreases |first|
  {
    if first == [] {
      assert first + second == second;
      b := a;
    } else {
      assert (first + second)[1..] == first[1..] + second && (first + second)[0] == first[0];
      b := LeadsParts(Apply(a, first[0], now), now + 1, first[1..], second, c);
    }
  }

  /** The manager's list ends with the hosts that started, in the order of the list of hosts. */
  lemma {:induction false} BootGivesIdentities(hosts: seq<Host>, now: nat, plan: Plan, i: nat,
                                        hosts': seq<Host>)
    requires Leads(hosts, now, BootSteps(Identities(hosts), plan, i), hosts')
    ensures Identities(hosts') == Identities(hosts) + AllNamed(Started(plan, i))
    decreases |plan.infos| - i
  {
    hide Leads, StartSteps;
    if i < |plan.infos| {
      var first := StartSteps(Identities(hosts), Named(plan.infos[i]), plan.starts(i), plan.setup);
      var identities := IdentitiesAfter(Identities(hosts), Named(plan.infos[i]), plan.starts(i));
      var middle := LeadsParts(hosts, now, first, BootSteps(identities, plan, i + 1), hosts');
      StartGivesIdentity(hosts, now, Named(plan.infos[i]), plan.starts(i), plan.setup, middle);
      BootGivesIdentities(middle, now + |first|, plan, i + 1, hosts');
      assert AllNamed(Started(plan, i)) ==
        (if Starts(plan.starts(i)) then [Named(plan.infos[i])] else []) + AllNamed(Started(plan, i + 1));
    } else {
      NoSteps(hosts, now, hosts');
    }
  }

  lemma StartedIsSorted(plan: Plan)
    requires SortedBy(DeviceBoot.HostListCompare, plan.infos)
    ensures SortedBy(DeviceBoot.HostListCompare, Started(plan, 0))
  {
    var from := StartedFrom(plan);
    hide Started;
  }

  lemma VisitedInOrder(hosts: seq<Host>, now: nat, p: nat, q: nat, i: nat, j: nat)
    requires HostsInOrder(hosts, now) && Increasing(Resume(hosts)) && p < q < |Resume(hosts)|
    requires i < |hosts| && hosts[i].at == Resume(hosts)[p].host
    requires j < |hosts| && hosts[j].at == Resume(hosts)[q].host
    ensures i <= j
  {
    hide Resume, DevicesInOrder;
    assert Before(Resume(hosts)[p], Resume(hosts)[q]);
  }

  lemma SortedAt(infos: seq<HostInfo>, i: nat, j: nat)
    requires SortedBy(DeviceBoot.HostListCompare, infos) && i <= j < |infos|
    ensures infos[i].priority <= infos[j].priority
  {
    assert i < j ==> DeviceBoot.HostListCompare(infos[i], infos[j]);
  }

  /** The nodes of hosts with a smaller priority number come first. */
  ghost predicate VisitsByPriority(hosts: seq<Host>, infos: seq<HostInfo>)
    requires |infos| == |hosts|
  {
    forall p, q, i, j {:trigger Resume(hosts)[p], Resume(hosts)[q], hosts[i], hosts[j]} ::
      0 <= p < q < |Resume(hosts)| && 0 <= i < |hosts| && 0 <= j < |hosts| &&
      hosts[i].at == Resume(hosts)[p].host && hosts[j].at == Resume(hosts)[q].host ==>
        infos[i].priority <= infos[j].priority
  }

  lemma AllVisitedInOrder(hosts: seq<Host>, now: nat, infos: seq<HostInfo>)
    requires HostsInOrder(hosts, now) && Increasing(Resume(hosts))
    requires |infos| == |hosts| && SortedBy(DeviceBoot.HostListCompare, infos)
    ensures VisitsByPriority(hosts, infos)
  {
    hide Resume, HostsInOrder, Increasing, SortedBy;
    forall p, q, i, j {:trigger Resume(hosts)[p], Resume(hosts)[q], hosts[i], hosts[j]} |
      (0 <= p < q < |Resume(hosts)| && 0 <= i < |hosts| && 0 <= j < |hosts| &&
       hosts[i].at == Resume(hosts)[p].host && hosts[j].at == Resume(hosts)[q].host)
      ensures infos[i].priority <= infos[j].priority
    {
      VisitedInOrder(hosts, now, p, q, i, j);
      SortedAt(infos, i, j);
    }
  }

  /** After the boot of an empty manager, and whatever services attach and drivers load later: the hosts are those
      that started, by priority, and a resume visits the nodes of hosts with a smaller priority number first. */
  lemma ResumeByPriority(plan: Plan, later: seq<Step>, hosts: seq<Host>)
    requires SortedBy(DeviceBoot.HostListCompare, plan.infos) && Below(later)
    requires Leads([], 0, BootSteps([], plan, 0) + later, hosts)
    ensures var started := Started(plan, 0);
      && Identities(hosts) == AllNamed(started) && SortedBy(DeviceBoot.HostListCompare, started)
      && VisitsByPriority(hosts, started)
  {
    hide BootSteps, Started, Leads, Resume, SortedBy, VisitsByPriority, HostsInOrder, Increasing;
    var boot := BootSteps([], plan, 0);
    var started := Started(plan, 0);
    StartedIsSorted(plan);
    var booted := LeadsParts([], 0, boot, later, hosts);
    assert Identities([]) == [] && [] + AllNamed(started) == AllNamed(started);
    BootGivesIdentities([], 0, plan, 0, booted);
    BelowKeepsIdentities(booted, |boot|, later, hosts);
    assert |hosts| == |Identities(hosts)| == |started|;
    NoHostsInOrder();
    RunKeepsOrder([], 0, boot + later, hosts);
    InOrderResumes(hosts, |boot + later|, Visit(0, 0, 0, 0));
    AllVisitedInOrder(hosts, |boot + later|, started);
  }

  /** What has been done after `i` hosts of the list. */
  ghost predicate Booting(before: seq<Host>, now: nat, plan: Plan, i: nat,
                          done: seq<Step>, hosts: seq<Host>) {
    && Leads(before, now, done, hosts)
    && BootSteps(Identities(before), plan, 0) == done + BootSteps(Identities(hosts), plan, i)
  }

  lemma BootBegins(hosts: seq<Host>, now: nat, plan: Plan)
    ensures Booting(hosts, now, plan, 0, [], hosts)
  {
  }

  lemma BootGoesOn(before: seq<Host>, now: nat, plan: Plan, i: nat,
                   done: seq<Step>, hosts: seq<Host>, hosts': seq<Host>)
    requires i < |plan.infos| && Booting(before, now, plan, i, done, hosts)
    requires Leads(hosts, now + |done|,
                   StartSteps(Identities(hosts), Named(plan.infos[i]), plan.starts(i), plan.setup), hosts')
    ensures Booting(before, now, plan, i + 1,
                    done + StartSteps(Identities(hosts), Named(plan.infos[i]), plan.starts(i), plan.setup), hosts')
  {
    hide Leads, StartSteps;
    LeadsTwice(before, now, done, hosts,
               StartSteps(Identities(hosts), Named(plan.infos[i]), plan.starts(i), plan.setup), hosts');
    StartGivesIdentity(hosts, now + |done|, Named(plan.infos[i]), plan.starts(i), plan.setup, hosts');
  }

  lemma BootEnds(before: seq<Host>, now: nat, plan: Plan, done: seq<Step>,
                 hosts: seq<Host>)
    requires Booting(before, now, plan, |plan.infos|, done, hosts)
    ensures Leads(before, now, BootSteps(Identities(before), plan, 0), hosts)
  {
    assert done + BootSteps(Identities(hosts), plan, |plan.infos|) == done;
  }
}
