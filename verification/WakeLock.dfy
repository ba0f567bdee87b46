/** Wake locks: the reference count of `utils/src/hdf_sref.c` and the power state that follows it
    (`core/host/src/power_state_token.c`). */
module WakeLock {

  const INT32_MAX := 0x7FFF_FFFF
  const INT32_MIN := -0x8000_0000

  const HDF_POWER_SYS_CTRL := 0
  const HDF_POWER_DYNAMIC_CTRL := 1
  const HDF_POWER_MODE_MAX := 2

  datatype PsmState = PsmIdle | PsmActive | PsmInactive

  /** A change of the power state, which calls `Resume` or `Suspend` of the listener if there is one. */
  datatype Edge = Resumed | Suspended

  datatype State = State(refs: int, psm: PsmState, mode: nat, edges: seq<Edge>)

  const INITIAL := State(0, PsmIdle, HDF_POWER_SYS_CTRL, [])

  datatype Step = Acquire | Release | SetMode(mode: nat)

  function Increment(refs: int): int {
    if refs == INT32_MAX then INT32_MIN else refs + 1
  }

  function Decrement(refs: int): int {
    if refs == INT32_MIN then INT32_MAX else refs - 1
  }

  function OnFirstAcquire(s: State): State {
    if s.psm == PsmActive then s else s.(psm := PsmActive, edges := s.edges + [Resumed])
  }

  function OnLastRelease(s: State): State {
    if s.psm == PsmInactive then s else s.(psm := PsmInactive, edges := s.edges + [Suspended])
  }

  function Apply(s: State, step: Step): State {
    match step
    case Acquire =>
      if s.mode != HDF_POWER_DYNAMIC_CTRL then s
      else
        var t := s.(refs := Increment(s.refs));
        if t.refs == 1 then OnFirstAcquire(t) else t
    case Release =>
      if s.mode != HDF_POWER_DYNAMIC_CTRL then s
      else if s.refs == 0 then OnLastRelease(s)
      else
        var t := s.(refs := Decrement(s.refs));
        if t.refs == 0 then OnLastRelease(t) else t
    case SetMode(mode) => if mode > HDF_POWER_MODE_MAX then s else s.(mode := mode)
  }

  function After(s: State, steps: seq<Step>): State
    decreases |steps|
  {
    if steps == [] then s else After(Apply(s, steps[0]), steps[1..])
  }

  /** Resumes and suspends take turns. */
  predicate Alternating(edges: seq<Edge>) {
    forall i :: 0 <= i < |edges| - 1 ==> edges[i] != edges[i + 1]
  }

  /** They do, and the state follows the last of them. */
  predicate InTurns(s: State) {
    && Alternating(s.edges)
    && (s.edges == [] <==> s.psm == PsmIdle)
    && (s.edges != [] ==> (s.edges[|s.edges| - 1] == Resumed <==> s.psm == PsmActive))
  }

  predicate Inv(s: State) {
    && 0 <= s.refs <= INT32_MAX
    && (s.psm == PsmActive <==> s.refs > 0)
    && InTurns(s)
  }

  /** An acquire that would count past the 32 bits of the counter. */
  predicate Overflows(s: State, step: Step) {
    step == Acquire && s.mode == HDF_POWER_DYNAMIC_CTRL && s.refs == INT32_MAX
  }

  /** No acquire of the run counts past the counter. */
  predicate Bounded(s: State, steps: seq<Step>)
    decreases |steps|
  {
    steps != [] ==> !Overflows(s, steps[0]) && Bounded(Apply(s, steps[0]), steps[1..])
  }

  predicate NeverNegative(s: State, steps: seq<Step>)
    decreases |steps|
  {
    s.refs >= 0 && (steps != [] ==> NeverNegative(Apply(s, steps[0]), steps[1..]))
  }

  lemma StepKeepsInv(s: State, step: Step)
    requires Inv(s)
    ensures !Overflows(s, step) ==> Inv(Apply(s, step))
    ensures Overflows(s, step) ==> Apply(s, step).refs < 0
  {
  }

  lemma {:induction false} RunKeepsInv(s: State, steps: seq<Step>)
    requires Inv(s) && Bounded(s, steps)
    ensures Inv(After(s, steps))
    decreases |steps|
  {
    if steps != [] {
      StepKeepsInv(s, steps[0]);
      RunKeepsInv(Apply(s, steps[0]), steps[1..]);
    }
  }

  /** The count stays non-negative in a run if and only if no acquire counts past 32 bits. */
  lemma {:induction false} NegativeMeansOverflow(s: State, steps: seq<Step>)
    requires Inv(s)
    ensures NeverNegative(s, steps) <==> Bounded(s, steps)
    decreases |steps|
  {
    if steps != [] {
      StepKeepsInv(s, steps[0]);
      if !Overflows(s, steps[0]) {
        NegativeMeansOverflow(Apply(s, steps[0]), steps[1..]);
      }
    }
  }

  // Resumes and suspends take turns whatever the count does.

  lemma StepKeepsTurns(s: State, step: Step)
    requires InTurns(s)
    ensures InTurns(Apply(s, step))
  {
  }

  lemma {:induction false} RunKeepsTurns(s: State, steps: seq<Step>)
    requires InTurns(s)
    ensures InTurns(After(s, steps))
    decreases |steps|
  {
    if steps != [] {
      StepKeepsTurns(s, steps[0]);
      RunKeepsTurns(Apply(s, steps[0]), steps[1..]);
    }
  }

  /** At every point of the run the device is active exactly when there are references. */
  predicate FollowsReferences(s: State, steps: seq<Step>)
    decreases |steps|
  {
    (s.psm == PsmActive <==> s.refs > 0) && (steps != [] ==> FollowsReferences(Apply(s, steps[0]), steps[1..]))
  }

  /** The device follows its references all along a run if and only if no acquire counts past 32 bits. */
  lemma {:induction false} FollowsUnlessOverflow(s: State, steps: seq<Step>)
    requires Inv(s)
    ensures FollowsReferences(s, steps) <==> Bounded(s, steps)
    decreases |steps|
  {
    if steps != [] {
      StepKeepsInv(s, steps[0]);
      if Overflows(s, steps[0]) {
        assert Apply(s, steps[0]).psm == PsmActive;
      } else {
        FollowsUnlessOverflow(Apply(s, steps[0]), steps[1..]);
      }
    }
  }

  /** In every run of acquires, releases, matched or not, and changes of the mode, the listener hears `Resume` and
      `Suspend` in turns; and the device is active exactly while there are references if and only if no acquire counts
      past 32 bits. */
  lemma WakeLockTraces(steps: seq<Step>)
    ensures Alternating(After(INITIAL, steps).edges)
    ensures FollowsReferences(INITIAL, steps) <==> Bounded(INITIAL, steps)
    ensures NeverNegative(INITIAL, steps) <==> Bounded(INITIAL, steps)
    ensures Bounded(INITIAL, steps) ==>
      var s := After(INITIAL, steps);
      s.refs >= 0 && (s.psm == PsmActive <==> s.refs > 0)
  {
    RunKeepsTurns(INITIAL, steps);
    FollowsUnlessOverflow(INITIAL, steps);
    NegativeMeansOverflow(INITIAL, steps);
    if Bounded(INITIAL, steps) {
      RunKeepsInv(INITIAL, steps);
    }
  }

  // What the counter holds, told from the run alone.

  /** The mode after the first `n` steps: the last valid one that was set. */
  function ModeAt(steps: seq<Step>, n: nat): nat
    requires n <= |steps|
  {
    if n == 0 then 0
    else if steps[n - 1].SetMode? && steps[n - 1].mode <= 2 then steps[n - 1].mode
    else ModeAt(steps, n - 1)
  }

  /** What a step adds to the references: one for an acquire and minus one for a release, in dynamic mode. */
  function Added(steps: seq<Step>, n: nat): int
    requires n < |steps|
  {
    if ModeAt(steps, n) != 1 then 0 else if steps[n] == Acquire then 1 else if steps[n] == Release then -1 else 0
  }

  /** Acquires less releases among the steps from `i` to `n`, as far as they are made in dynamic mode. */
  function Excess(steps: seq<Step>, i: nat, n: nat): int
    requires i <= n <= |steps|
  {
    if i == n then 0 else Excess(steps, i, n - 1) + Added(steps, n - 1)
  }

  /** The largest excess of all ends of the first `n` steps. */
  ghost predicate Largest(steps: seq<Step>, n: nat, count: int)
    requires n <= |steps|
  {
    && (forall i :: 0 <= i <= n ==> Excess(steps, i, n) <= count)
    && (exists i :: 0 <= i <= n && Excess(steps, i, n) == count)
  }

  lemma OneMoreStep(s: State, steps: seq<Step>, n: nat)
    requires n < |steps|
    ensures After(s, steps[..n + 1]) == Apply(After(s, steps[..n]), steps[n])
  {
    var last := [steps[n]];
    assert steps[..n + 1] == steps[..n] + last && last[1..] == [];
    AfterTwice(s, steps[..n], last);
    assert After(After(s, steps[..n]), last) == After(Apply(After(s, steps[..n]), steps[n]), []);
  }

  lemma {:induction false} BoundedOneMore(s: State, steps: seq<Step>, n: nat)
    requires n < |steps|
    ensures Bounded(s, steps[..n + 1]) <==>
      Bounded(s, steps[..n]) && !Overflows(After(s, steps[..n]), steps[n])
    decreases n
  {
    assert n > 0 ==> steps[..n + 1][1..] == steps[1..][..n] && steps[..n][1..] == steps[1..][..n - 1];
    if n > 0 {
      hide Apply, Overflows;
      BoundedOneMore(Apply(s, steps[0]), steps[1..], n - 1);
    } else {
      assert steps[..1][1..] == [];
    }
  }

  /** How the largest excess changes with one step. */
  lemma LargestAfter(steps: seq<Step>, n: nat, count: nat, m: nat)
    requires n < |steps| && m == n + 1 && Largest(steps, n, count)
    ensures Largest(steps, m, if count + Added(steps, n) < 0 then 0 else count + Added(steps, n))
  {
    hide Added;
    assert Excess(steps, m, m) == 0;
    forall i | 0 <= i <= n ensures Excess(steps, i, m) == Excess(steps, i, n) + Added(steps, n) {
    }
    var i :| 0 <= i <= n && Excess(steps, i, n) == count;
    assert Excess(steps, i, m) == count + Added(steps, n);
  }

  /** As long as no acquire meets a full counter, the count after `n` steps is the largest excess. */
  lemma {:induction false} CountIsLargest(steps: seq<Step>, n: nat)
    requires n <= |steps| && Bounded(INITIAL, steps[..n])
    ensures var s := After(INITIAL, steps[..n]);
      Inv(s) && Largest(steps, n, s.refs) && s.mode == ModeAt(steps, n)
  {
    RunKeepsInv(INITIAL, steps[..n]);
    if n == 0 {
      assert Excess(steps, 0, 0) == 0;
    } else {
      BoundedOneMore(INITIAL, steps, n - 1);
      CountIsLargest(steps, n - 1);
      OneMoreStep(INITIAL, steps, n - 1);
      LargestAfter(steps, n - 1, After(INITIAL, steps[..n - 1]).refs, n);
      hide Largest, Excess, Inv, After;
    }
  }

  /** After the first `n` steps no excess is more than `bound`. */
  predicate AtMost(steps: seq<Step>, n: nat, bound: nat)
    requires n <= |steps|
  {
    forall i :: 0 <= i <= n ==> Excess(steps, i, n) <= bound
  }

  /** It is never more than the counter can hold. */
  predicate Fits(steps: seq<Step>, n: nat)
    requires n <= |steps|
  {
    forall m :: 0 <= m <= n ==> AtMost(steps, m, 0x7FFF_FFFF)
  }

  /** No acquire of the run meets a full counter if and only if no excess is more than the counter can hold. */
  lemma {:induction false} BoundedMeansFits(steps: seq<Step>, n: nat)
    requires n <= |steps|
    ensures Bounded(INITIAL, steps[..n]) <==> Fits(steps, n)
  {
    if n == 0 {
      assert Excess(steps, 0, 0) == 0 && AtMost(steps, 0, 0x7FFF_FFFF);
    } else {
      BoundedMeansFits(steps, n - 1);
      BoundedOneMore(INITIAL, steps, n - 1);
      hide After, Bounded, Apply, AtMost;
      if Bounded(INITIAL, steps[..n - 1]) {
        CountIsLargest(steps, n - 1);
        var refs := After(INITIAL, steps[..n - 1]).refs;
        var now := if refs + Added(steps, n - 1) < 0 then 0 else refs + Added(steps, n - 1);
        LargestAfter(steps, n - 1, refs, n);
        LargestIsAtMost(steps, n, now, 0x7FFF_FFFF);
        hide Largest;
      }
    }
  }

  lemma LargestIsAtMost(steps: seq<Step>, n: nat, count: nat, bound: nat)
    requires n <= |steps| && Largest(steps, n, count)
    ensures AtMost(steps, n, bound) <==> count <= bound
  {
  }

  /** In every run, for which no excess is more than the counter can hold: the count is the largest excess of acquires
      over releases in dynamic mode, over all ends of the run, and the device is active while it is positive. */
  lemma CountIsLargestExcess(steps: seq<Step>)
    requires forall i, j :: 0 <= i <= j <= |steps| ==> Excess(steps, i, j) <= 0x7FFF_FFFF
    ensures var s, n := After(INITIAL, steps), |steps|;
      && (forall i :: 0 <= i <= n ==> Excess(steps, i, n) <= s.refs)
      && (exists i :: 0 <= i <= n && Excess(steps, i, n) == s.refs)
      && s.mode == ModeAt(steps, n) && (s.psm == PsmActive <==> s.refs > 0)
  {
    assert steps[..|steps|] == steps;
    assert forall m {:trigger AtMost(steps, m, 0x7FFF_FFFF)} :: 0 <= m <= |steps| ==> AtMost(steps, m, 0x7FFF_FFFF);
    BoundedMeansFits(steps, |steps|);
    CountIsLargest(steps, |steps|);
    hide Excess;
  }

  /** When the listener hears of a change, in such a run: an acquire in dynamic mode at which nothing was held resumes
      it, and a release in dynamic mode after which nothing is held suspends it, unless that was the last it heard. */
  lemma EdgeOfStep(steps: seq<Step>, n: nat)
    requires n < |steps| && Fits(steps, n + 1)
    ensures
      var edges := After(INITIAL, steps[..n]).edges;
      var dynamic := ModeAt(steps, n) == 1;
      After(INITIAL, steps[..n + 1]).edges ==
        if dynamic && steps[n] == Acquire && AtMost(steps, n, 0) then edges + [Resumed]
        else if dynamic && steps[n] == Release && AtMost(steps, n + 1, 0)
          && (edges == [] || edges[|edges| - 1] == Resumed) then edges + [Suspended]
        else edges
  {
    BoundedMeansFits(steps, n + 1);
    BoundedOneMore(INITIAL, steps, n);
    CountIsLargest(steps, n);
    CountIsLargest(steps, n + 1);
    OneMoreStep(INITIAL, steps, n);
    LargestIsAtMost(steps, n, After(INITIAL, steps[..n]).refs, 0);
    LargestIsAtMost(steps, n + 1, After(INITIAL, steps[..n + 1]).refs, 0);
    hide After, Bounded, Fits, AtMost, Largest;
  }

  // The counter can overflow.

  function Acquires(n: nat): (steps: seq<Step>)
    ensures |steps| == n && forall i :: 0 <= i < n ==> steps[i] == Acquire
  {
    seq(n, _ => Acquire)
  }

  lemma {:induction false} CountsUp(s: State, n: nat)
    requires Inv(s) && s.mode == HDF_POWER_DYNAMIC_CTRL && s.refs + n <= INT32_MAX
    ensures After(s, Acquires(n)).refs == s.refs + n && After(s, Acquires(n)).mode == HDF_POWER_DYNAMIC_CTRL
    decreases n
  {
    if n > 0 {
      StepKeepsInv(s, Acquire);
      assert Acquires(n)[1..] == Acquires(n - 1);
      CountsUp(Apply(s, Acquire), n - 1);
    }
  }

  lemma {:induction false} AfterTwice(s: State, first: seq<Step>, second: seq<Step>)
    ensures After(s, first + second) == After(After(s, first), second)
    decreases |first|
  {
    if first == [] {
      assert first + second == second;
    } else {
      assert (first + second)[1..] == first[1..] + second;
      AfterTwice(Apply(s, first[0]), first[1..], second);
    }
  }

  lemma CountCanOverflow() returns (steps: seq<Step>)
    ensures After(INITIAL, steps).refs < 0
  {
    var s := Apply(INITIAL, SetMode(HDF_POWER_DYNAMIC_CTRL));
    CountsUp(s, INT32_MAX);
    var t := After(s, Acquires(INT32_MAX));
    AfterTwice(s, Acquires(INT32_MAX), [Acquire]);
    assert After(t, [Acquire]) == After(Apply(t, Acquire), []);
    steps := [SetMode(HDF_POWER_DYNAMIC_CTRL)] + (Acquires(INT32_MAX) + [Acquire]);
    AfterTwice(INITIAL, [SetMode(HDF_POWER_DYNAMIC_CTRL)], Acquires(INT32_MAX) + [Acquire]);
    assert After(INITIAL, [SetMode(HDF_POWER_DYNAMIC_CTRL)]) == After(s, []);
  }

  // The objects.

  datatype Call = CallResume | CallSuspend

  /** What a listener with these callbacks hears of the changes. */
  function Heard(edges: seq<Edge>, hasResume: bool, hasSuspend: bool): seq<Call> {
    if edges == [] then []
    else
      var before := Heard(edges[..|edges| - 1], hasResume, hasSuspend);
      match edges[|edges| - 1]
      case Resumed => if hasResume then before + [CallResume] else before
      case Suspended => if hasSuspend then before + [CallSuspend] else before
  }

  /** A listener with both callbacks hears them in turns. */
  lemma {:induction false} HeardInTurns(edges: seq<Edge>)
    requires Alternating(edges)
    ensures var calls := Heard(edges, true, true);
      && |calls| == |edges|
      && (forall i :: 0 <= i < |calls| ==> calls[i] == if edges[i] == Resumed then CallResume else CallSuspend)
      && forall i :: 0 <= i < |calls| - 1 ==> calls[i] != calls[i + 1]
  {
    if edges != [] {
      HeardInTurns(edges[..|edges| - 1]);
    }
  }

  lemma HeardMore(edges: seq<Edge>, e: Edge, hasResume: bool, hasSuspend: bool)
    ensures Heard(edges + [e], hasResume, hasSuspend) ==
      Heard(edges, hasResume, hasSuspend) +
      if e == Resumed then if hasResume then [CallResume] else [] else if hasSuspend then [CallSuspend] else []
  {
    assert (edges + [e])[..|edges|] == edges;
  }

  /** `struct PowerStateToken` with its reference count; `calls` notes the callbacks of the listener. */
  class PowerStateToken {
    const hasResume: bool
    const hasSuspend: bool
    var refs: int
    var psmState: PsmState
    var mode: nat
    var calls: seq<Call>
    ghost var edges: seq<Edge>

    ghost function View(): State
      reads this
    {
      State(refs, psmState, mode, edges)
    }

    ghost predicate Valid()
      reads this
    {
      calls == Heard(edges, hasResume, hasSuspend)
    }

    constructor (hasResume: bool, hasSuspend: bool)
      ensures Valid() && View() == INITIAL && this.hasResume == hasResume && this.hasSuspend == hasSuspend
    {
      this.hasResume, this.hasSuspend := hasResume, hasSuspend;
      refs, psmState, mode, calls, edges := 0, PsmIdle, HDF_POWER_SYS_CTRL, [], [];
    }

    /** `PowerStateTokenOnFirstAcquire`. */
    method FirstAcquired()
      requires Valid()
      modifies this`psmState, this`calls, this`edges
      ensures Valid() && View() == OnFirstAcquire(old(View()))
      ensures calls == old(calls) + if old(psmState) != PsmActive && hasResume then [CallResume] else []
    {
      if psmState == PsmActive {
        return;
      }
      if psmState == PsmInactive || psmState == PsmIdle {
        if hasResume {
          calls := calls + [CallResume];
        }
      }
      HeardMore(edges, Resumed, hasResume, hasSuspend);
      edges := edges + [Resumed];
      psmState := PsmActive;
    }

    /** `PowerStateTokenOnLastRelease`. */
    method LastReleased()
      requires Valid()
      modifies this`psmState, this`calls, this`edges
      ensures Valid() && View() == OnLastRelease(old(View()))
      ensures calls == old(calls) + if old(psmState) != PsmInactive && hasSuspend then [CallSuspend] else []
    {
      if psmState != PsmActive && psmState != PsmIdle {
        return;
      }
      if hasSuspend {
        calls := calls + [CallSuspend];
      }
      HeardMore(edges, Suspended, hasResume, hasSuspend);
      edges := edges + [Suspended];
      psmState := PsmInactive;
    }

    /** `HdfSRefAcquire`, as one step. */
    method SRefAcquire()
      requires Valid()
      modifies this
      ensures Valid() && mode == old(mode)
      ensures calls == old(calls) + if refs == 1 && old(psmState) != PsmActive && hasResume then [CallResume] else []
      ensures View() == (ghost var t := old(View()).(refs := Increment(old(refs)));
                         if t.refs == 1 then OnFirstAcquire(t) else t)
    {
      refs := Increment(refs);
      var lockRef := refs;
      if lockRef == 1 {
        FirstAcquired();
      }
    }

    /** `HdfSRefRelease`, as one step. */
    method SRefRelease()
      requires Valid()
      modifies this
      ensures Valid() && mode == old(mode)
      ensures calls ==
        old(calls) + if refs == 0 && old(psmState) != PsmInactive && hasSuspend then [CallSuspend] else []
      ensures View() == (ghost var t := old(View()).(refs := Decrement(old(refs)));
                         if t.refs == 0 then OnLastRelease(t) else t)
    {
      refs := Decrement(refs);
      var lockRef := refs;
      if lockRef == 0 {
        LastReleased();
      }
    }

    /** `PowerStateTokenAcquireWakeLock`. */
    method AcquireWakeLock()
      requires Valid()
      modifies this
      ensures Valid() && View() == Apply(old(View()), Acquire) && mode == old(mode)
      ensures refs ==
        if mode != 1 then old(refs) else if old(refs) == 0x7FFF_FFFF then -0x8000_0000 else old(refs) + 1
      ensures
        var resumes := mode == 1 && refs == 1 && old(psmState) != PsmActive;
        && psmState == (if resumes then PsmActive else old(psmState))
        && edges == old(edges) + (if resumes then [Resumed] else [])
        && calls == old(calls) + (if resumes && hasResume then [CallResume] else [])
    {
      if mode != HDF_POWER_DYNAMIC_CTRL {
        return;
      }
      SRefAcquire();
    }

    /** `PowerStateTokenReleaseWakeLock`: a release without an acquire does not count below zero. */
    method ReleaseWakeLock()
      requires Valid()
      modifies this
      ensures Valid() && View() == Apply(old(View()), Release) && mode == old(mode)
      ensures refs ==
        if mode != 1 || old(refs) == 0 then old(refs)
        else if old(refs) == -0x8000_0000 then 0x7FFF_FFFF
        else old(refs) - 1
      ensures
        var suspends := mode == 1 && refs == 0 && old(psmState) != PsmInactive;
        && psmState == (if suspends then PsmInactive else old(psmState))
        && edges == old(edges) + (if suspends then [Suspended] else [])
        && calls == old(calls) + (if suspends && hasSuspend then [CallSuspend] else [])
    {
      if mode != HDF_POWER_DYNAMIC_CTRL {
        return;
      }
      if refs == 0 {
        LastReleased();
      } else {
        SRefRelease();
      }
    }

    /** `HdfPmSetMode`. */
    method HdfPmSetMode(newMode: nat)
      requires Valid()
      modifies this`mode
      ensures Valid() && View() == Apply(old(View()), SetMode(newMode))
      ensures View() == old(View()).(mode := if newMode <= 2 then newMode else old(mode)) && calls == old(calls)
    {
      if newMode > HDF_POWER_MODE_MAX {
        return;
      }
      mode := newMode;
    }

    /** A run of calls. */
    method PerformAll(steps: seq<Step>)
      requires Valid()
      modifies this
      ensures Valid() && View() == After(old(View()), steps)
      ensures
        (old(View()) == INITIAL && forall i, j :: 0 <= i <= j <= |steps| ==> Excess(steps, i, j) <= 0x7FFF_FFFF) ==>
        && (forall i :: 0 <= i <= |steps| ==> Excess(steps, i, |steps|) <= refs)
        && (exists i :: 0 <= i <= |steps| && Excess(steps, i, |steps|) == refs)
    {
      if View() == INITIAL && forall i, j :: 0 <= i <= j <= |steps| ==> Excess(steps, i, j) <= 0x7FFF_FFFF {
        CountIsLargestExcess(steps);
      }
      hide Excess;
      var i := 0;
      while i < |steps|
        invariant i <= |steps| && Valid()
        invariant After(View(), steps[i..]) == After(old(View()), steps)
      {
        assert steps[i..][0] == steps[i] && steps[i..][1..] == steps[i + 1..];
        hide Apply;
        match steps[i] {
          case Acquire => AcquireWakeLock();
          case Release => ReleaseWakeLock();
          case SetMode(m) => HdfPmSetMode(m);
        }
        i := i + 1;
      }
    }
  }
}
