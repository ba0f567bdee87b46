/** The device manager: the list of hosts, in the order in which they were started, and the power change that
    visits the whole tree (`core/manager/src/devmgr_service.c`, `core/manager/src/devhost_service_clnt.c`). */
module PowerManager {
  import opened Base
  import opened DList
  import opened PowerOrder
  import opened PowerTree
  import opened SList
  import opened StartRuns
  import DeviceBoot

  /** `struct DevHostServiceClnt`. */
  class DevHostServiceClnt {
    const hostId: nat
    const hostName: string
    var hostService: DevHostService?
    var deviceInfos: List?<DeviceBoot.DeviceInfo>

    constructor (hostId: nat, hostName: string)
      ensures hostService == null && deviceInfos == null
      ensures this.hostId == hostId && this.hostName == hostName
    {
      this.hostId, this.hostName := hostId, hostName;
      hostService, deviceInfos := null, null;
    }
  }

  /** `n` holds a host that `h` describes and that lies within `foot`. */
  ghost predicate HostShows(n: DNode<DevHostServiceClnt?>, h: Host, foot: set<object>)
    reads n`item, n`since, foot
  {
    && n.item != null && n.item in foot && h.at == n.since && h.identity == Identity(n.item.hostId, n.item.hostName)
    && h.hasService == (n.item.hostService != null)
    && (n.item.hostService == null ==> h.devices == [])
    && (n.item.hostService != null ==> (
      && n.item.hostService in foot && n.item.hostService.Repr <= foot && n.item !in n.item.hostService.Repr
      && n.item.hostService.Valid()
      && h.devices == n.item.hostService.all))
  }

  type Entries = seq<DNode<DevHostServiceClnt?>>

  ghost function Union(feet: seq<set<object>>): set<object> {
    set f, o | f in feet && o in f :: o
  }

  /** The hosts of a list with the head `r[0]`, in order, and what each of them is made of. */
  ghost predicate Listed(r: Entries, all: seq<Host>, feet: seq<set<object>>)
    reads r`item, r`since, Union(feet)
  {
    && |r| == |all| + 1 == |feet| + 1
    && forall k {:trigger r[k]} :: 0 < k < |r| ==> HostShows(r[k], all[k - 1], feet[k - 1])
  }

  /** The hosts have nothing in common with each other or with the nodes of the list. */
  ghost predicate HostsApart(r: Entries, feet: seq<set<object>>, repr: set<object>) {
    && (forall i {:trigger r[i]} :: 0 <= i < |r| ==> r[i] in repr)
    && (forall i {:trigger feet[i]} :: 0 <= i < |feet| ==> feet[i] <= repr)
    && (forall i, k {:trigger feet[i], r[k]} :: 0 <= i < |feet| && 0 <= k < |r| ==> r[k] !in feet[i])
    && (forall i, j {:trigger feet[i], feet[j]} :: 0 <= i < j < |feet| ==> feet[i] !! feet[j])
  }

  lemma OneMoreListed(r: Entries, all: seq<Host>, feet: seq<set<object>>, entry: DNode<DevHostServiceClnt?>, h: Host,
                      foot: set<object>)
    requires Listed(r, all, feet) && HostShows(entry, h, foot)
    ensures Listed(r + [entry], all + [h], feet + [foot])
  {
    hide HostShows;
  }

  lemma OneMoreApart(r: Entries, feet: seq<set<object>>, repr: set<object>, entry: DNode<DevHostServiceClnt?>,
                     foot: set<object>)
    requires HostsApart(r, feet, repr) && entry !in repr && foot !! repr && entry !in foot
    ensures HostsApart(r + [entry], feet + [foot], repr + {entry} + foot)
  {
    var f := feet + [foot];
    assert forall i :: 0 <= i < |f| ==> f[i] == if i < |feet| then feet[i] else foot;
  }

  lemma OneLessListed(r: Entries, all: seq<Host>, feet: seq<set<object>>, k: nat)
    requires Listed(r, all, feet) && 0 < k < |r|
    ensures Listed(Without(r, k), Without(all, k - 1), Without(feet, k - 1))
  {
    hide HostShows;
    WithoutAt(r, k);
    WithoutAt(all, k - 1);
    WithoutAt(feet, k - 1);
    var r', all', feet' := Without(r, k), Without(all, k - 1), Without(feet, k - 1);
    hide Without;
    forall j {:trigger r'[j]} | 0 < j < |r'| ensures HostShows(r'[j], all'[j - 1], feet'[j - 1]) {
      var i := if j < k then j else j + 1;
      assert r'[j] == r[i] && all'[j - 1] == all[i - 1] && feet'[j - 1] == feet[i - 1];
    }
  }

  lemma OneLessApart(r: Entries, feet: seq<set<object>>, repr: set<object>, k: nat)
    requires HostsApart(r, feet, repr) && |r| == |feet| + 1 && 0 < k < |r|
    ensures HostsApart(Without(r, k), Without(feet, k - 1), repr)
  {
    WithoutAt(r, k);
    WithoutAt(feet, k - 1);
    hide Without;
  }

  lemma OneChangedListed(r: Entries, all: seq<Host>, feet: seq<set<object>>, k: nat, h: Host, more: set<object>)
    requires 0 < k < |r| == |all| + 1 == |feet| + 1
    requires HostShows(r[k], h, feet[k - 1] + more)
    requires forall j {:trigger r[j]} :: 0 < j < |r| && j != k ==> HostShows(r[j], all[j - 1], feet[j - 1])
    ensures Listed(r, all[k - 1 := h], feet[k - 1 := feet[k - 1] + more])
  {
    hide HostShows;
  }

  lemma OneChangedApart(r: Entries, feet: seq<set<object>>, repr: set<object>, k: nat, more: set<object>)
    requires HostsApart(r, feet, repr) && 0 < k < |r| == |feet| + 1
    requires more !! repr - feet[k - 1]
    ensures HostsApart(r, feet[k - 1 := feet[k - 1] + more], repr + more)
  {
    var f := feet[k - 1 := feet[k - 1] + more];
    assert forall i :: 0 <= i < |f| ==> f[i] == if i == k - 1 then feet[i] + more else feet[i];
  }

  /** `struct DevmgrService`. */
  class DevmgrService {
    const hosts: DNode<DevHostServiceClnt?>
    ghost var ring: Entries
    ghost var all: seq<Host>
    ghost var feet: seq<set<object>>
    ghost var Repr: set<object>

    ghost predicate Valid()
      reads this, Repr
    {
      && this in Repr && HostsApart(ring, feet, Repr - {this}) && Union(feet) <= Repr - {this}
      && Ring(ring) && ring[0] == hosts && hosts.owner == this
      && Listed(ring, all, feet)
    }

    constructor ()
      ensures Valid() && fresh(Repr) && all == []
    {
      var head := new DNode<DevHostServiceClnt?>.Head();
      hosts := head;
      ring, all, feet := [head], [], [];
      Repr := {this, head};
      new;
      head.owner := this;
    }

    lemma ShownAt(k: nat)
      requires Valid() && 0 < k < |ring|
      ensures |all| == |feet| == |ring| - 1 && HostShows(ring[k], all[k - 1], feet[k - 1])
      ensures ring[k].next == if k + 1 < |ring| then ring[k + 1] else hosts
      ensures ring[k].prev == ring[k - 1]
    {
      hide HostShows;
    }

    /** Puts an entry at the end of the list, which leaves every host as it is. */
    method PutLast(entry: DNode<DevHostServiceClnt?>)
      requires Valid() && entry !in Repr
      modifies this`ring, ring`next, ring`prev, entry`next, entry`prev, entry`owner
      ensures ring == old(ring) + [entry] && Ring(ring) && ring[0] == hosts && hosts.owner == this
      ensures Listed(old(ring), all, feet)
    {
      ghost var was := ring;
      assert forall o :: o in Union(feet) ==> o !in ring;
      hide Listed, Union, HostsApart;
      ring := InsertTail(entry, hosts, ring);
    }

    lemma StartedIsValid(was: Entries, before: seq<Host>, below: seq<set<object>>, repr: set<object>,
                         entry: DNode<DevHostServiceClnt?>, client: DevHostServiceClnt)
      requires ring == was + [entry] && Ring(ring) && ring[0] == hosts && hosts.owner == this
      requires Listed(was, before, below) && HostsApart(was, below, repr - {this}) && Union(below) <= repr - {this}
      requires this in repr && entry !in repr && client !in repr && entry != client as object
      requires entry.item == client && client.hostService == null
      requires all == before + [Host(entry.since, Identity(client.hostId, client.hostName), false, [])]
      requires feet == below + [{client}]
      requires Repr == repr + {entry, client}
      ensures Valid()
    {
      var h, foot: set<object> := Host(entry.since, Identity(client.hostId, client.hostName), false, []), {client};
      assert HostShows(entry, h, foot);
      hide HostShows, Ring;
      OneMoreListed(was, before, below, entry, h, foot);
      OneMoreApart(was, below, repr - {this}, entry, foot);
      hide Listed, HostsApart;
      assert Repr - {this} == repr - {this} + {entry} + foot;
      assert Union(feet) == Union(below) + foot;
    }

    method ListHost(client: DevHostServiceClnt, entry: DNode<DevHostServiceClnt?>)
      requires Valid() && entry !in Repr && client !in Repr && entry != client as object
      requires entry.item == client && client.hostService == null
      modifies this`ring, this`all, this`feet, this`Repr, ring, entry
      ensures Valid() && Repr == old(Repr) + {entry, client} && ring == old(ring) + [entry]
      ensures all == old(all) + [Host(old(entry.since), Identity(client.hostId, client.hostName), false, [])]
    {
      ghost var was, before, below, repr := ring, all, feet, Repr;
      assert this in repr && HostsApart(was, below, repr - {this}) && Union(below) <= repr - {this};
      hide *;
      PutLast(entry);
      all, feet := all + [Host(entry.since, Identity(client.hostId, client.hostName), false, [])], feet + [{client}];
      Repr := Repr + {entry, client};
      StartedIsValid(was, before, below, repr, entry, client);
    }

    /** `DevHostServiceClntNewInstance`, and `DListInsertTail`: a host is listed before its service is started. */
    method StartHost(hostId: nat, hostName: string, ghost now: nat) returns (entry: DNode<DevHostServiceClnt?>)
      requires Valid()
      modifies this, Repr
      ensures Valid() && fresh(Repr - old(Repr))
      ensures all == old(all) + [Host(now, Identity(hostId, hostName), false, [])]
      ensures ring == old(ring) + [entry] && |ring| > 1
    {
      var client := new DevHostServiceClnt(hostId, hostName);
      entry := new DNode<DevHostServiceClnt?>(client);
      entry.since := now;
      hide Listed, Union, Ring;
      ListHost(client, entry);
    }

    /** Takes the entry at position `k` out of the list, which leaves every host as it is. */
    method TakeOut(entry: DNode<DevHostServiceClnt?>, ghost k: nat)
      requires Valid() && 0 < k < |ring| && ring[k] == entry
      modifies this`ring, ring`next, ring`prev, entry`owner
      ensures ring == Without(old(ring), k) && Ring(ring) && ring[0] == hosts && hosts.owner == this
      ensures Listed(old(ring), all, feet)
    {
      hide *;
      RingParts(k);
      ring := Remove(entry, ring, k);
    }

    lemma RingParts(k: nat)
      requires Valid() && 0 < k < |ring|
      ensures Ring(ring) && ring[0] == hosts && hosts.owner == this && Listed(ring, all, feet)
      ensures ring[k].next in ring && ring[k].prev in ring && ring[k] != hosts
      ensures this !in Union(feet) && Union(feet) <= Repr && forall o :: o in Union(feet) ==> o !in ring
    {
      hide Listed;
    }

    lemma DroppedIsValid(was: Entries, before: seq<Host>, below: seq<set<object>>, k: nat)
      requires 0 < k < |was| && Listed(was, before, below)
      requires ring == Without(was, k) && Ring(ring) && ring[0] == hosts && hosts.owner == this
      requires this in Repr && HostsApart(was, below, Repr - {this}) && Union(below) <= Repr - {this}
      requires all == Without(before, k - 1) && feet == Without(below, k - 1)
      ensures Valid()
    {
      hide HostShows, Ring;
      OneLessListed(was, before, below, k);
      OneLessApart(was, below, Repr - {this}, k);
      hide Listed, HostsApart;
    }

    lemma EntriesWithin()
      requires Valid()
      ensures forall i {:trigger ring[i]} :: 0 <= i < |ring| ==> ring[i] in Repr
    {
      hide Ring, Listed;
    }

    /** A host that could not be started is unlinked again. */
    method StartFailed(entry: DNode<DevHostServiceClnt?>, ghost k: nat)
      requires Valid() && 0 < k < |ring| && ring[k] == entry
      modifies this, Repr
      ensures Valid() && Repr == old(Repr) && |old(all)| == |old(ring)| - 1
      ensures all == Without(old(all), k - 1)
    {
      hide *;
      ghost var was, before, below := ring, all, feet;
      Others(k);
      EntriesWithin();
      TakeOut(entry, k);
      all, feet := Without(all, k - 1), Without(feet, k - 1);
      DroppedIsValid(was, before, below, k);
    }

    lemma ChangedIsValid(before: seq<Host>, below: seq<set<object>>, repr: set<object>,
                         k: nat, h: Host, more: set<object>)
      requires Ring(ring) && ring[0] == hosts && hosts.owner == this
      requires 0 < k < |ring| == |before| + 1 == |below| + 1
      requires this in repr && HostsApart(ring, below, repr - {this}) && Union(below) <= repr - {this}
      requires this !in more && more !! repr - below[k - 1]
      requires HostShows(ring[k], h, below[k - 1] + more)
      requires forall j {:trigger ring[j]} :: 0 < j < |ring| && j != k ==>
        HostShows(ring[j], before[j - 1], below[j - 1])
      requires all == before[k - 1 := h] && feet == below[k - 1 := below[k - 1] + more] && Repr == repr + more
      ensures Valid()
    {
      hide HostShows, Ring;
      OneChangedListed(ring, before, below, k, h, more);
      OneChangedApart(ring, below, repr - {this}, k, more);
      hide Listed;
      assert Repr - {this} == repr - {this} + more;
    }

    /** `DevmgrServiceFindDeviceHost`. */
    method FindDeviceHost(hostId: nat) returns (client: DevHostServiceClnt?, ghost k: nat)
      requires Valid()
      ensures |all| == |ring| - 1 && FindHost(Identities(all), hostId) == k - 1
      ensures client != null <==> FindHost(Identities(all), hostId) < |all|
      ensures client != null ==> ring[FindHost(Identities(all), hostId) + 1].item == client
    {
      hide *;
      var pos := hosts.next;
      k := 1;
      HostsBegin();
      while pos != hosts
        invariant 0 < k <= |ring| == |all| + 1
        invariant pos == if k < |ring| then ring[k] else hosts
        invariant forall i {:trigger all[i]} :: 0 <= i < k - 1 ==> all[i].identity.hostId != hostId
        decreases |ring| - k
      {
        AtHost(k);
        if pos.item.hostId == hostId {
          FindsHost(Identities(all), hostId, k - 1);
          return pos.item, k;
        }
        pos := pos.next;
        k := k + 1;
      }
      client := null;
      FindsHost(Identities(all), hostId, k - 1);
    }

    lemma Others(k: nat)
      requires Valid() && 0 < k < |ring|
      ensures |ring| == |all| + 1 == |feet| + 1 && Ring(ring) && ring[0] == hosts && hosts.owner == this
      ensures this in Repr && HostsApart(ring, feet, Repr - {this}) && Union(feet) <= Repr - {this}
      ensures HostShows(ring[k], all[k - 1], feet[k - 1]) && ring[k].item != null && ring[k].item in feet[k - 1]
      ensures forall j {:trigger ring[j]} :: 0 < j < |ring| && j != k ==> HostShows(ring[j], all[j - 1], feet[j - 1])
      ensures forall i {:trigger ring[i]} :: 0 <= i < |ring| ==> ring[i] !in feet[k - 1]
      ensures forall i {:trigger feet[i]} :: 0 <= i < |feet| ==> this !in feet[i] && feet[i] <= Repr
      ensures forall i {:trigger feet[i]} :: 0 <= i < |feet| && i != k - 1 ==> feet[i] !! feet[k - 1]
    {
      hide Ring;
      ShownAt(k);
    }

    lemma AttachedShows(n: DNode<DevHostServiceClnt?>, h: Host, foot: set<object>, service: DevHostService)
      requires n.item != null && n.item in foot && n.item.hostService == service
      requires service.Valid() && service.all == [] && n.item !in service.Repr
      requires h.at == n.since && h.identity == Identity(n.item.hostId, n.item.hostName)
      ensures HostShows(n, h.(hasService := true, devices := []), foot + service.Repr)
    {
      ServiceIsOwn(service);
      hide DevHostService.Valid;
    }

    lemma ServiceIsOwn(service: DevHostService)
      requires service.Valid()
      ensures service in service.Repr
    {
    }

    lemma SameHost(n: DNode<DevHostServiceClnt?>, h: Host, foot: set<object>)
      requires HostShows(n, h, foot)
      ensures n.item != null && h.at == n.since && h.identity == Identity(n.item.hostId, n.item.hostName)
    {
    }

    /** The host at position `k` gets its service, which has no devices yet, and the list of its drivers. */
    method PutService(client: DevHostServiceClnt, service: DevHostService, list: List?<DeviceBoot.DeviceInfo>,
                      ghost k: nat)
      requires Valid() && 0 < k < |ring| && ring[k].item == client
      requires service.Valid() && service.all == [] && service.Repr !! Repr
      modifies this`all, this`feet, this`Repr, client`hostService, client`deviceInfos
      ensures Valid() && |old(all)| == |ring| - 1 && Repr == old(Repr) + service.Repr
      ensures all == old(all)[k - 1 := old(all)[k - 1].(hasService := true, devices := [])]
      ensures client.hostService == service && client.deviceInfos == list
    {
      hide *;
      Others(k);
      SameHost(ring[k], all[k - 1], feet[k - 1]);
      ghost var before, below, repr := all, feet, Repr;
      ghost var h := all[k - 1].(hasService := true, devices := []);
      client.hostService := service;
      client.deviceInfos := list;
      AttachedShows(ring[k], all[k - 1], below[k - 1], service);
      all, feet, Repr := all[k - 1 := h], feet[k - 1 := feet[k - 1] + service.Repr], Repr + service.Repr;
      ChangedIsValid(before, below, repr, k, h, service.Repr);
    }

    /** A driver loaded below one host leaves the other hosts as they are. */
    method LoadBelow(service: DevHostService, load: Load, ghost k: nat, ghost now: nat)
      returns (ret: int, ghost more: set<object>)
      requires Valid() && 0 < k < |ring| && ring[k].item != null && ring[k].item.hostService == service
      modifies service, service.Repr
      ensures |ring| == |all| + 1 == |feet| + 1 && Ring(ring) && ring[0] == hosts && hosts.owner == this
      ensures fresh(more) && more !! Repr && ring[k].item != null && ring[k].item.hostService == service
      ensures ret == LoadResult(all[k - 1].devices, load)
      ensures HostShows(ring[k], all[k - 1].(devices := AfterLoad(all[k - 1].devices, load, now)), feet[k - 1] + more)
      ensures forall j {:trigger ring[j]} :: 0 < j < |ring| && j != k ==> HostShows(ring[j], all[j - 1], feet[j - 1])
    {
      Others(k);
      hide HostsApart, Listed, Union, Ring, DevHostService.Valid, AfterLoad, LoadResult;
      ghost var was := service.Repr;
      ret := service.AddDevice(load, now);
      more := service.Repr - was;
    }

    /** A call of `AddDevice` of an attached host, as the driver installation makes it. */
    method AddDevice(service: DevHostService, load: Load, ghost k: nat, ghost now: nat) returns (ret: int)
      requires Valid() && 0 < k < |ring| && ring[k].item != null && ring[k].item.hostService == service
      modifies this`all, this`feet, this`Repr, Repr - {this}
      ensures Valid() && fresh(Repr - old(Repr)) && |old(all)| == |ring| - 1
      ensures ring[k].item != null && ring[k].item.hostService == service
      ensures ret == LoadResult(old(all)[k - 1].devices, load)
      ensures var h := old(all)[k - 1]; all == old(all)[k - 1 := h.(devices := AfterLoad(h.devices, load, now))]
    {
      hide *;
      Others(k);
      ServiceWithin(service, k);
      ghost var before, below, repr := all, feet, Repr;
      ghost var more;
      ret, more := LoadBelow(service, load, k, now);
      ghost var h := all[k - 1].(devices := AfterLoad(all[k - 1].devices, load, now));
      all, feet, Repr := all[k - 1 := h], feet[k - 1 := feet[k - 1] + more], Repr + more;
      ChangedIsValid(before, below, repr, k, h, more);
    }

    /** One driver of the list, in the loop of `DevHostServiceClntInstallDriver`; `tried` counts those before it that
        passed the filters. */
    method InstallNext(service: DevHostService, info: DeviceBoot.DeviceInfo, quick: bool, answers: nat -> Answer,
                       tried: nat, ghost infos: seq<DeviceBoot.DeviceInfo>, ghost i: nat, ghost k: nat, ghost now: nat,
                       ghost before: seq<Host>)
      returns (triedNow: nat)
      requires Valid() && 0 < k < |ring| && ring[k].item != null && ring[k].item.hostService == service
      requires i < |infos| && info == infos[i] && tried == |DeviceBoot.Attempts(infos[..i], quick)|
      requires Leads(before, now, InstallSteps(k - 1, infos, quick, answers, i), all)
      modifies this`all, this`feet, this`Repr, Repr - {this}
      ensures Valid() && fresh(Repr - old(Repr))
      ensures ring[k].item != null && ring[k].item.hostService == service
      ensures triedNow == |DeviceBoot.Attempts(infos[..i + 1], quick)|
      ensures Leads(before, now, InstallSteps(k - 1, infos, quick, answers, i + 1), all)
    {
      hide *;
      InstallStep(k - 1, infos, quick, answers, i);
      triedNow := tried;
      if info.preload == DeviceBoot.Disable {
        return;
      }
      if quick && info.preload == DeviceBoot.EnableStep2 {
        return;
      }
      AtHost(k);
      ghost var loads := LoadsOf(DeviceBoot.Attempts(infos[..i], quick), answers);
      Loaded(before, now, k - 1, loads, LoadOf(info, answers(tried)), all);
      var ret := AddDevice(service, LoadOf(info, answers(tried)), k, now + 1 + tried);
      triedNow := tried + 1;
    }

    /** One round of that loop. */
    method InstallRound(service: DevHostService, it: Iterator<DeviceBoot.DeviceInfo>, list: List<DeviceBoot.DeviceInfo>,
                        quick: bool, answers: nat -> Answer, tried: nat, ghost infos: seq<DeviceBoot.DeviceInfo>,
                        ghost i: nat, ghost k: nat, ghost now: nat, ghost before: seq<Host>)
      returns (triedNow: nat, more: bool)
      requires Valid() && 0 < k < |ring| && ring[k].item != null && ring[k].item.hostService == service
      requires DeviceBoot.Walking(it, list, infos, i) && i < |infos|
      requires tried == |DeviceBoot.Attempts(infos[..i], quick)|
      requires DeviceBoot.Outside(list, Repr) && it !in Repr && it != this as object && list != this as object
      requires Leads(before, now, InstallSteps(k - 1, infos, quick, answers, i), all)
      modifies it, this`all, this`feet, this`Repr, Repr - {this}
      ensures Valid() && fresh(Repr - old(Repr))
      ensures ring[k].item != null && ring[k].item.hostService == service
      ensures DeviceBoot.Walking(it, list, infos, i + 1) && list.spine == old(list.spine) && (more <==> i + 1 < |infos|)
      ensures triedNow == |DeviceBoot.Attempts(infos[..i + 1], quick)|
      ensures Leads(before, now, InstallSteps(k - 1, infos, quick, answers, i + 1), all)
    {
      hide Leads, InstallSteps, DeviceBoot.Walking, Valid, DeviceBoot.Attempts;
      EntryWithin(k);
      DeviceBoot.WalkingMeans(it, list, infos, i);
      var info := DeviceBoot.WalkOn(it, list, infos, i);
      DeviceBoot.WalkingMeans(it, list, infos, i + 1);
      triedNow := InstallNext(service, info, quick, answers, tried, infos, i, k, now, before);
      more := DeviceBoot.MoreToWalk(it, list, infos, i + 1);
    }

    lemma EntryWithin(k: nat)
      requires Valid() && 0 < k < |ring|
      ensures ring[k] in Repr && ring[k].item != null && ring[k].item in Repr
    {
      hide Ring;
      ShownAt(k);
    }

    /** `DevHostServiceClntInstallDriver`. */
    method InstallDriver(service: DevHostService, list: List<DeviceBoot.DeviceInfo>, quick: bool,
                         answers: nat -> Answer, ghost k: nat, ghost now: nat, ghost before: seq<Host>)
      requires Valid() && 0 < k < |ring| && ring[k].item != null && ring[k].item.hostService == service
      requires list.Valid() && DeviceBoot.Outside(list, Repr) && list != this as object
      requires Leads(before, now, [AttachService(k - 1)] + LoadSteps(k - 1, []), all)
      modifies this`all, this`feet, this`Repr, Repr - {this}
      ensures Valid() && fresh(Repr - old(Repr))
      ensures Leads(before, now, [AttachService(k - 1)] +
                    LoadSteps(k - 1, LoadsOf(DeviceBoot.Attempts(old(list.Contents()), quick), answers)), all)
    {
      hide Leads, InstallSteps, LoadSteps, LoadsOf, DeviceBoot.Walking, Valid;
      hide List.Valid, List.Contents, DeviceBoot.Attempts;
      ghost var infos := list.Contents();
      NoneTried(infos, quick, answers);
      InstallBegins(k - 1, infos, quick, answers);
      EntryWithin(k);
      var it, more := DeviceBoot.BeginWalk(list);
      DeviceBoot.WalkingMeans(it, list, infos, 0);
      var tried := 0;
      ghost var i := 0;
      while more
        invariant Valid() && fresh(Repr - old(Repr)) && fresh(it) && it !in Repr
        invariant ring[k].item != null && ring[k].item.hostService == service
        invariant DeviceBoot.Walking(it, list, infos, i) && DeviceBoot.Outside(list, Repr)
        invariant list.spine == old(list.spine) && 0 <= i <= |infos| && (more <==> i < |infos|)
        invariant tried == |DeviceBoot.Attempts(infos[..i], quick)|
        invariant Leads(before, now, InstallSteps(k - 1, infos, quick, answers, i), all)
        decreases |infos| - i
      {
        tried, more := InstallRound(service, it, list, quick, answers, tried, infos, i, k, now, before);
        i := i + 1;
      }
      InstallEnds(k - 1, infos, quick, answers);
    }

    /** `DevmgrServiceAttachDeviceHost`, for a service that has no devices yet. */
    method AttachDeviceHost(hostId: nat, service: DevHostService?, setup: Setup, r: Resources, ghost now: nat)
      returns (ret: int)
      requires Valid()
      requires service != null ==> service.Valid() && service.all == [] && service.Repr !! Repr
      modifies this`all, this`feet, this`Repr, Repr - {this}, if service == null then {} else service.Repr
      ensures Valid() && fresh(Repr - old(Repr) - if service == null then {} else old(service.Repr))
      ensures Leads(old(all), now, AttachSteps(Identities(old(all)), hostId, service != null, setup, r), all)
      ensures ret ==
        if service != null && FindHost(Identities(old(all)), hostId) < |old(all)| then HDF_SUCCESS else HDF_FAILURE
    {
      hide *;
      ghost var before := all;
      AttachMeans(all, now, hostId, setup, r);
      var client, k := FindDeviceHost(hostId);
      if client == null {
        return HDF_FAILURE;
      }
      if service == null {
        return HDF_FAILURE;
      }
      Attached(all, now, k - 1);
      Others(k);
      AtHost(k);
      LoadsMean(all[k - 1].identity, setup, r);
      var list := DeviceBoot.GetDeviceList(setup.manager, client.hostId, client.hostName, r.list, r.nodes);
      PutService(client, service, list, k);
      if list == null {
        return HDF_SUCCESS;
      }
      ListIsOutside(list, Repr);
      InstallDriver(service, list, setup.quick, r.answers, k, now, before);
      return HDF_SUCCESS;
    }

    lemma ListIsOutside(list: List<DeviceBoot.DeviceInfo>, repr: set<object>)
      requires list !in repr && forall n :: n in list.spine ==> n !in repr
      ensures DeviceBoot.Outside(list, repr)
    {
    }

    /** `DriverInstallerStartDeviceHost`: the service attaches itself to the manager. */
    method StartDeviceHost(hostId: nat, service: bool, setup: Setup, r: Resources, ghost now: nat) returns (pid: int)
      requires Valid()
      modifies this`all, this`feet, this`Repr, Repr - {this}
      ensures Valid() && fresh(Repr - old(Repr))
      ensures Leads(old(all), now, AttachSteps(Identities(old(all)), hostId, service, setup, r), all)
      ensures pid ==
        if service && FindHost(Identities(old(all)), hostId) < |old(all)| then HDF_SUCCESS else HDF_FAILURE
    {
      hide *;
      if !service {
        AttachMeans(all, now, hostId, setup, r);
        return HDF_FAILURE;
      }
      var s := new DevHostService();
      pid := AttachDeviceHost(hostId, s, setup, r, now);
    }

    /** The body of the loop in `DevmgrServiceStartDeviceHosts`. */
    method StartOne(hostId: nat, hostName: string, start: HostStart, setup: Setup, ghost now: nat)
      requires Valid()
      modifies this, Repr
      ensures Valid() && fresh(Repr - old(Repr))
      ensures Leads(old(all), now, StartSteps(Identities(old(all)), Identity(hostId, hostName), start, setup), all)
    {
      ghost var identity := Identity(hostId, hostName);
      StartMeans(all, now, identity, start, setup);
      hide Valid, Leads, StartSteps, AttachSteps, Identities, FindHost;
      if !start.client {
        return;
      }
      ghost var before := all;
      ghost var started := before + [Host(now, identity, false, [])];
      var entry := StartHost(hostId, hostName, now);
      var pid := StartDeviceHost(hostId, start.service, setup, start.resources, now + 1);
      if pid == HDF_FAILURE {
        NoSteps(started, now + 1, all);
        StartFailed(entry, |ring| - 1);
        assert Without(started, |before|) == before;
      } else {
        StartedAndAttached(before, now, identity,
                           AttachSteps(Identities(started), hostId, true, setup, start.resources), all);
      }
    }

    lemma ServiceWithin(service: DevHostService, k: nat)
      requires Valid() && 0 < k < |ring| && ring[k].item != null && ring[k].item.hostService == service
      ensures service in Repr && this != service as object && service.Repr <= Repr - {this}
    {
      ShownAt(k);
    }

    lemma HostsBegin()
      requires Valid()
      ensures LoggedUpTo([], HostWakes(all), 0) && LoggedDownTo([], HostSleeps(all), |all|)
      ensures |ring| == |all| + 1 && ring[0] == hosts
      ensures forall k {:trigger ring[k]} :: 0 < k < |ring| ==> ring[k] != hosts
      ensures hosts.next == if |ring| > 1 then ring[1] else hosts
      ensures hosts.prev == ring[|ring| - 1]
    {
      LogBegins(HostWakes(all));
      LogBegins(HostSleeps(all));
    }

    lemma HostsEnd(log: seq<Visit>)
      ensures LoggedUpTo(log, HostWakes(all), |all|) ==> log == Resume(all)
      ensures LoggedDownTo(log, HostSleeps(all), 0) ==> log == Suspend(all)
    {
      LogEnds(log, HostWakes(all));
      LogEnds(log, HostSleeps(all));
    }

    lemma AtHost(k: nat)
      requires Valid() && 0 < k < |ring|
      ensures |all| == |ring| - 1 && ring[k].item != null
      ensures all[k - 1].identity == Identity(ring[k].item.hostId, ring[k].item.hostName)
      ensures var service := ring[k].item.hostService;
              && all[k - 1].hasService == (service != null)
              && (service != null ==> service.Valid() && all[k - 1].devices == service.all)
      ensures ring[k].next == if k + 1 < |ring| then ring[k + 1] else hosts
      ensures ring[k].prev == ring[k - 1]
    {
      ShownAt(k);
    }

    lemma HostLogged(log: seq<Visit>, i: nat)
      requires i < |all|
      ensures LoggedUpTo(log, HostWakes(all), i) ==> LoggedUpTo(log + WakeHost(all[i]), HostWakes(all), i + 1)
      ensures LoggedDownTo(log, HostSleeps(all), i + 1) ==> LoggedDownTo(log + SleepHost(all[i]), HostSleeps(all), i)
    {
      hide LoggedUpTo, LoggedDownTo, WakeHost, SleepHost;
      if LoggedUpTo(log, HostWakes(all), i) {
        LogGoesUp(log, HostWakes(all), i);
      }
      if LoggedDownTo(log, HostSleeps(all), i + 1) {
        LogGoesDown(log, HostSleeps(all), i);
      }
    }

    /** The body of the loops below: the notification of one host, if it has attached. */
    method NotifyHost(pos: DNode<DevHostServiceClnt?>, state: nat, outcome: nat -> int, calls: seq<nat>, ghost k: nat,
                      ghost log: seq<Visit>)
      returns (failed: bool, now: seq<nat>, ghost more: seq<Visit>)
      requires Valid() && 0 < k < |ring| && pos == ring[k]
      ensures !failed && Valid() && (calls == DevIds(log) ==> now == DevIds(more))
      ensures IsPowerWakeState(state) && LoggedUpTo(log, HostWakes(all), k - 1) ==> LoggedUpTo(more, HostWakes(all), k)
      ensures !IsPowerWakeState(state) && LoggedDownTo(log, HostSleeps(all), k) ==>
        LoggedDownTo(more, HostSleeps(all), k - 1)
      ensures pos.next == if k + 1 < |ring| then ring[k + 1] else hosts
      ensures pos.prev == ring[k - 1]
    {
      WakeStates(state);
      hide Valid, DevHostService.Valid, LoggedUpTo, LoggedDownTo, HostWakes, HostSleeps, IsPowerWakeState;
      AtHost(k);
      HostLogged(log, k - 1);
      failed, now, more := false, calls, log;
      if pos.item.hostService != null {
        var ret, called, visits := pos.item.hostService.PmNotify(state, outcome, all[k - 1]);
        DevIdsConcat(log, visits);
        failed, now, more := ret != HDF_SUCCESS, calls + called, log + visits;
      } else {
        assert log + [] == log;
      }
    }

    /** `DevmgrServicePowerStateChange`. */
    method PowerStateChange(state: nat, outcome: nat -> int)
      returns (result: int, calls: seq<nat>, ghost log: seq<Visit>)
      requires Valid()
      ensures result == if state < 4 then 0 else -3
      ensures state == 0 || state == 2 ==> calls == DevIds(Resume(all))
      ensures state == 1 || state == 3 ==> calls == DevIds(Suspend(all))
      ensures state >= 4 ==> calls == []
      ensures log == if state == 0 || state == 2 then Resume(all) else if state < 4 then Suspend(all) else []
    {
      WakeStates(state);
      log, calls := [], [];
      result := HDF_SUCCESS;
      if !IsValidPowerState(state) {
        return HDF_ERR_INVALID_PARAM, [], [];
      }
      HostsBegin();
      hide *;
      if IsPowerWakeState(state) {
        var pos := hosts.next;
        ghost var k := 1;
        while pos != hosts
          invariant Valid() && 0 < k <= |ring| == |all| + 1
          invariant pos == if k < |ring| then ring[k] else hosts
          invariant LoggedUpTo(log, HostWakes(all), k - 1)
          invariant result == HDF_SUCCESS && calls == DevIds(log)
          decreases |ring| - k
        {
          var failed;
          failed, calls, log := NotifyHost(pos, state, outcome, calls, k, log);
          if failed {
            result := HDF_FAILURE;
          }
          pos := pos.next;
          k := k + 1;
        }
      } else {
        var pos := hosts.prev;
        ghost var k := |ring| - 1;
        while pos != hosts
          invariant Valid() && 0 <= k < |ring| == |all| + 1
          invariant pos == if k > 0 then ring[k] else hosts
          invariant LoggedDownTo(log, HostSleeps(all), k)
          invariant result == HDF_SUCCESS && calls == DevIds(log)
          decreases k
        {
          var failed;
          failed, calls, log := NotifyHost(pos, state, outcome, calls, k, log);
          if failed {
            result := HDF_FAILURE;
          }
          pos := pos.prev;
          k := k - 1;
        }
      }
      HostsEnd(log);
    }
  }
}
