/** Display power and recovery from electrostatic discharge (`model/display/driver/hdf_disp.c`): a power switch, a
    timer and a worker share the state of a panel, and the worker holds the lock only around parts of its body. */
module Esd {
  import opened Base

  const ESD_MAX_RECOVERY := 10

  const POWER_STATUS_ON := 0
  const POWER_STATUS_OFF := 3

  datatype EsdState = Ready | Running

  /** Where the worker stands between its atomic steps: waiting for work; after a failed check, before it takes the
      lock; after a recovery, before it reads the counter; with the counter read, before it stores one more; before
      it compares the counter with its maximum; before it clears the counter; and before it takes the lock to
      switch the check off. */
  datatype Worker = Idle | Failed | Counting | Storing(n: nat) | Testing | Resetting | Disabling

  /** The state of a panel. The last four fields are history: the recoveries since the panel was switched on, those
      done while it was not on, the timers created twice or deleted when absent, and whether the panel was switched
      on while the worker had nothing left to count. */
  datatype State = State(
    power: nat,
    esd: EsdState,
    timer: bool,
    recoveryNum: nat,
    support: bool,
    worker: Worker,
    recoveries: nat,
    misplaced: nat,
    timerFaults: nat,
    cleanStart: bool)

  function Initial(support: bool): State {
    State(POWER_STATUS_OFF, Ready, false, 0, support, Idle, 0, 0, 0, true)
  }

  /** `SetDispPower` with the result of the panel's own switch, and the steps of `EsdWorkHandler`. */
  datatype Step =
    | Power(status: nat, done: bool)
    | Check(failed: bool)
    | Recover
    | ReadCounter
    | StoreCounter
    | Compare
    | Reset
    | Disable

  predicate Enabled(s: State, step: Step) {
    match step
    case Power(_, _) => true
    case Check(_) => s.worker == Idle
    case Recover => s.worker == Failed
    case ReadCounter => s.worker == Counting
    case StoreCounter => s.worker.Storing?
    case Compare => s.worker == Testing
    case Reset => s.worker == Resetting
    case Disable => s.worker == Disabling
  }

  function CreateTimer(s: State): State {
    s.(timer := true, timerFaults := if s.timer then s.timerFaults + 1 else s.timerFaults)
  }

  function DeleteTimer(s: State): State {
    s.(timer := false, timerFaults := if s.timer then s.timerFaults else s.timerFaults + 1)
  }

  function CheckStartUp(s: State): State {
    if s.support && s.esd == Ready then CreateTimer(s).(esd := Running) else s
  }

  function CheckEnd(s: State): State {
    if !s.support then s
    else
      var cleared := s.(recoveryNum := 0);
      if s.esd == Running then DeleteTimer(cleared).(esd := Ready) else cleared
  }

  /** Nothing is left of the periods before: the counter is zero, and the worker has no more to add to it. */
  predicate IsClean(recoveryNum: nat, worker: Worker) {
    recoveryNum == 0 && (worker == Idle || worker == Failed || worker == Testing)
  }

  function AfterPower(s: State, status: nat, done: bool): State {
    if s.power == status || !done then s
    else if status == POWER_STATUS_ON then
      CheckStartUp(s.(
        power := POWER_STATUS_ON,
        recoveries := 0,
        cleanStart := IsClean(s.recoveryNum, s.worker)))
    else if status == POWER_STATUS_OFF then CheckEnd(s.(power := POWER_STATUS_OFF))
    else s
  }

  function Apply(s: State, step: Step): State
    requires Enabled(s, step)
  {
    match step
    case Power(status, done) => AfterPower(s, status, done)
    case Check(failed) => s.(worker := if failed then Failed else Testing)
    case Recover =>
      if s.esd == Running then
        s.(worker := Counting,
           recoveries := s.recoveries + 1,
           misplaced := if s.power == POWER_STATUS_ON then s.misplaced else s.misplaced + 1)
      else s.(worker := Idle)
    case ReadCounter => s.(worker := Storing(s.recoveryNum))
    case StoreCounter => s.(recoveryNum := s.worker.n + 1, worker := Testing)
    case Compare => s.(worker := if s.recoveryNum >= ESD_MAX_RECOVERY then Resetting else Idle)
    case Reset => s.(recoveryNum := 0, worker := Disabling)
    case Disable => (if s.esd == Running then DeleteTimer(s).(esd := Ready) else s).(worker := Idle)
  }

  ghost predicate Leads(s: State, steps: seq<Step>, t: State)
    decreases |steps|
  {
    if steps == [] then t == s
    else Enabled(s, steps[0]) && Leads(Apply(s, steps[0]), steps[1..], t)
  }

  // What every step keeps.

  predicate TimerFollowsState(s: State) {
    && (s.timer <==> s.esd == Running)
    && (s.esd == Running ==> s.power == POWER_STATUS_ON && s.support)
    && s.timerFaults == 0 && s.misplaced == 0
  }

  /** The counter never passes its maximum, and while the check is on it accounts for every recovery since the panel
      was switched on, unless the worker is about to switch the check off. */
  predicate Counted(s: State) {
    && s.recoveryNum <= ESD_MAX_RECOVERY && s.recoveries <= ESD_MAX_RECOVERY
    && (s.worker.Storing? ==> s.worker.n < ESD_MAX_RECOVERY)
    && (s.worker == Idle || s.worker == Failed || s.worker == Counting ==> s.recoveryNum < ESD_MAX_RECOVERY)
    && (s.worker == Disabling ==> s.recoveryNum == 0)
    && (s.esd == Running ==>
        match s.worker
        case Idle => s.recoveries <= s.recoveryNum
        case Failed => s.recoveries <= s.recoveryNum
        case Counting => s.recoveries <= s.recoveryNum + 1
        case Storing(n) => s.recoveries <= n + 1
        case Testing => s.recoveries <= s.recoveryNum
        case Resetting => true
        case Disabling => true)
  }

  /** After a clean start the counter is exact. */
  predicate Exact(s: State) {
    s.esd == Running && s.cleanStart ==>
      match s.worker
      case Idle => s.recoveries == s.recoveryNum
      case Failed => s.recoveries == s.recoveryNum
      case Counting => s.recoveries == s.recoveryNum + 1
      case Storing(n) => s.recoveries == n + 1
      case Testing => s.recoveries == s.recoveryNum
      case Resetting => s.recoveries == ESD_MAX_RECOVERY
      case Disabling => s.recoveries == ESD_MAX_RECOVERY
  }

  predicate Inv(s: State) {
    TimerFollowsState(s) && Counted(s) && Exact(s)
  }

  lemma StepKeepsInv(s: State, step: Step)
    requires Inv(s) && Enabled(s, step)
    ensures Inv(Apply(s, step))
  {
    hide IsClean;
    match step
    case Power(status, done) => PowerKeepsInv(s, status, done);
    case Check(_) =>
    case Recover =>
    case ReadCounter =>
    case StoreCounter =>
    case Compare =>
    case Reset =>
    case Disable =>
  }

  lemma PowerKeepsInv(s: State, status: nat, done: bool)
    requires Inv(s)
    ensures Inv(AfterPower(s, status, done))
  {
  }

  lemma {:induction false} RunKeepsInv(s: State, steps: seq<Step>, t: State)
    requires Inv(s) && Leads(s, steps, t)
    ensures Inv(t)
    decreases |steps|
  {
    if steps != [] {
      StepKeepsInv(s, steps[0]);
      RunKeepsInv(Apply(s, steps[0]), steps[1..], t);
    }
  }

  /** In every order of power calls and worker steps: a timer exists exactly while the check is running, which it is
      only while the panel is on; no timer is created twice or deleted when absent; and a recovery happens only
      while the panel is on. */
  lemma TimerAndRecoverySafety(support: bool, steps: seq<Step>, s: State)
    requires Leads(Initial(support), steps, s)
    ensures s.timer <==> s.esd == Running
    ensures s.esd == Running ==> s.power == POWER_STATUS_ON && support
    ensures s.timerFaults == 0 && s.misplaced == 0
  {
    RunKeepsInv(Initial(support), steps, s);
    SupportStays(Initial(support), steps, s);
  }

  lemma {:induction false} SupportStays(s: State, steps: seq<Step>, t: State)
    requires Leads(s, steps, t)
    ensures t.support == s.support
    decreases |steps|
  {
    if steps != [] {
      SupportStays(Apply(s, steps[0]), steps[1..], t);
    }
  }

  /** At most ten recoveries happen between two switches of the panel, and the counter never passes ten, although it
      is counted up outside the lock. */
  lemma AtMostTenRecoveries(support: bool, steps: seq<Step>, s: State)
    requires Leads(Initial(support), steps, s)
    ensures s.recoveries <= 10 && s.recoveryNum <= 10
  {
    RunKeepsInv(Initial(support), steps, s);
  }

  /** When the worker switches the check off, it has cleared the counter, and in a period that started clean ten
      recoveries have failed. */
  lemma SwitchedOffAfterTen(support: bool, steps: seq<Step>, s: State)
    requires Leads(Initial(support), steps, s) && s.worker == Disabling
    ensures s.recoveryNum == 0 && (s.esd == Running && s.cleanStart ==> s.recoveries == 10)
    ensures var t := Apply(s, Disable); t.esd == Ready && !t.timer && t.worker == Idle && t.recoveryNum == 0
  {
    RunKeepsInv(Initial(support), steps, s);
  }

  // After how many recoveries the check is switched off: what an earlier period left is counted with them.

  /** What the counter will come to without another recovery. */
  function Pending(s: State): nat {
    match s.worker
    case Idle => s.recoveryNum
    case Failed => s.recoveryNum
    case Counting => s.recoveryNum + 1
    case Storing(n) => n + 1
    case Testing => s.recoveryNum
    case Resetting => ESD_MAX_RECOVERY
    case Disabling => ESD_MAX_RECOVERY
  }

  /** The panel is not switched off on the way. */
  predicate StaysOn(steps: seq<Step>) {
    forall i {:trigger steps[i]} :: 0 <= i < |steps| ==> steps[i] != Power(POWER_STATUS_OFF, true)
  }

  /** The worker is about to switch the running check off. */
  predicate SwitchesOff(s: State) {
    s.worker == Disabling && s.esd == Running
  }

  /** As long as the panel is not switched off, nothing else ends the check. */
  lemma OnlyTheWorkerEndsIt(s: State, step: Step)
    requires Enabled(s, step) && s.esd == Running && step != Power(POWER_STATUS_OFF, true)
    ensures Apply(s, step).esd == Ready <==> step == Disable
    ensures step == Disable <==> SwitchesOff(s) && Apply(s, step).worker == Idle
  {
  }

  lemma AllCounted(s: State)
    requires SwitchesOff(s)
    ensures Pending(s) == ESD_MAX_RECOVERY
  {
  }

  lemma PendingGrowsWithRecoveries(s: State, step: Step)
    requires Counted(s) && Enabled(s, step) && s.power == POWER_STATUS_ON && step != Power(POWER_STATUS_OFF, true)
    ensures var t := Apply(s, step);
      && t.power == POWER_STATUS_ON
      && (t.esd == Running ==> s.esd == Running && t.recoveries + Pending(s) == s.recoveries + Pending(t))
  {
    match step
    case Power(status, done) => assert status != POWER_STATUS_OFF ==> Apply(s, step) == s;
    case Check(_) =>
    case Recover =>
    case _ => assert Apply(s, step).recoveries == s.recoveries;
  }

  lemma {:induction false} PendingCountsRecoveries(s: State, steps: seq<Step>, t: State)
    requires Inv(s) && s.power == POWER_STATUS_ON && StaysOn(steps) && Leads(s, steps, t) && t.esd == Running
    ensures s.esd == Running && t.recoveries + Pending(s) == s.recoveries + Pending(t)
    decreases |steps|
  {
    if steps != [] {
      var next := Apply(s, steps[0]);
      StepKeepsInv(s, steps[0]);
      PendingGrowsWithRecoveries(s, steps[0]);
      hide Apply, Inv, Pending, Enabled;
      PendingCountsRecoveries(next, steps[1..], t);
    }
  }

  /** How far the worker is from its next recovery, or from the end. */
  function Ahead(worker: Worker): nat {
    match worker
    case Counting => 5
    case Storing(_) => 4
    case Testing => 3
    case Idle => 2
    case Resetting => 2
    case Failed => 1
    case Disabling => 0
  }

  /** From everywhere in a period the check can come to be switched off, if every check fails. */
  lemma {:induction false} SwitchingOffIsNear(s: State) returns (steps: seq<Step>, t: State)
    requires Inv(s) && s.power == POWER_STATUS_ON && s.esd == Running
    ensures StaysOn(steps) && Leads(s, steps, t) && SwitchesOff(t)
    decreases ESD_MAX_RECOVERY - Pending(s), Ahead(s.worker)
  {
    if s.worker == Disabling {
      return [], s;
    }
    var step := match s.worker
      case Idle => Check(true)
      case Failed => Recover
      case Counting => ReadCounter
      case Storing(_) => StoreCounter
      case Testing => Compare
      case _ => Reset;
    StepKeepsInv(s, step);
    var more;
    more, t := SwitchingOffIsNear(Apply(s, step));
    steps := [step] + more;
    assert steps[1..] == more;
  }

  /** When the panel is switched on in any state that can be reached, the check is switched off later in the period
      only after so many recoveries that they make ten with what is pending, and this can come about. */
  lemma RecoveriesInAPeriod(before: seq<Step>, s: State)
    requires Leads(Initial(true), before, s) && s.power != POWER_STATUS_ON
    ensures var on := Apply(s, Power(POWER_STATUS_ON, true));
      && (forall steps, t :: StaysOn(steps) && Leads(on, steps, t) && SwitchesOff(t) ==>
            t.recoveries == 10 - Pending(s))
      && (exists steps, t :: StaysOn(steps) && Leads(on, steps, t) && SwitchesOff(t))
  {
    var on := Apply(s, Power(POWER_STATUS_ON, true));
    RunKeepsInv(Initial(true), before, s);
    SupportStays(Initial(true), before, s);
    StepKeepsInv(s, Power(POWER_STATUS_ON, true));
    assert on.esd == Running && on.recoveries == 0 && Pending(on) == Pending(s);
    hide Inv, Pending, Leads;
    forall steps, t | StaysOn(steps) && Leads(on, steps, t) && SwitchesOff(t)
      ensures t.recoveries == ESD_MAX_RECOVERY - Pending(s)
    {
      PendingCountsRecoveries(on, steps, t);
      AllCounted(t);
    }
    var steps, t := SwitchingOffIsNear(on);
  }

  /** The check is sure to be switched off after ten recoveries of the period, and not before, exactly when nothing
      is left of the periods before. */
  lemma TenInAPeriod(before: seq<Step>, s: State)
    requires Leads(Initial(true), before, s) && s.power != POWER_STATUS_ON
    ensures
      (forall steps, t ::
        StaysOn(steps) && Leads(Apply(s, Power(POWER_STATUS_ON, true)), steps, t) && SwitchesOff(t) ==>
          t.recoveries == 10)
      <==> IsClean(s.recoveryNum, s.worker)
  {
    RecoveriesInAPeriod(before, s);
    assert Pending(s) == 0 <==> IsClean(s.recoveryNum, s.worker);
  }

  // The counter at the switch-off.

  /** A successful switch-off of a panel with support clears the counter and ends the check, whatever the worker does.
      */
  lemma SwitchOffClears(before: seq<Step>, s: State)
    requires Leads(Initial(true), before, s) && s.power != POWER_STATUS_OFF
    ensures var off := Apply(s, Power(POWER_STATUS_OFF, true));
      off.power == 3 && off.recoveryNum == 0 && off.esd == Ready && !off.timer && off.worker == s.worker
  {
    RunKeepsInv(Initial(true), before, s);
    SupportStays(Initial(true), before, s);
  }

  /** Power calls only, in which the worker takes no step. */
  predicate OnlyPower(steps: seq<Step>) {
    forall i {:trigger steps[i]} :: 0 <= i < |steps| ==> steps[i].Power?
  }

  lemma {:induction false} PowerKeepsCounter(s: State, steps: seq<Step>, t: State)
    requires OnlyPower(steps) && Leads(s, steps, t)
    ensures t.worker == s.worker && (s.recoveryNum == 0 ==> t.recoveryNum == 0)
    decreases |steps|
  {
    if steps != [] {
      var next := Apply(s, steps[0]);
      assert next.worker == s.worker && (s.recoveryNum == 0 ==> next.recoveryNum == 0);
      hide Apply, Enabled;
      PowerKeepsCounter(next, steps[1..], t);
    }
  }

  /** After a switch-off, and until the worker takes its next step, the next period is sure to be switched off only
      after ten recoveries if and only if the worker was waiting for work, past a failed check, or before the
      comparison. */
  lemma NextPeriodIsClean(before: seq<Step>, s: State, between: seq<Step>, t: State)
    requires Leads(Initial(true), before, s) && s.power != POWER_STATUS_OFF
    requires OnlyPower(between) && Leads(Apply(s, Power(POWER_STATUS_OFF, true)), between, t)
    requires t.power != POWER_STATUS_ON
    ensures
      (forall steps, u ::
        StaysOn(steps) && Leads(Apply(t, Power(POWER_STATUS_ON, true)), steps, u) && SwitchesOff(u) ==>
          u.recoveries == 10)
      <==> s.worker == Idle || s.worker == Failed || s.worker == Testing
  {
    var off := Apply(s, Power(POWER_STATUS_OFF, true));
    SwitchOffClears(before, s);
    PowerKeepsCounter(off, between, t);
    var step := Power(POWER_STATUS_OFF, true);
    hide Leads, Apply, StaysOn, SwitchesOff;
    LeadsOneMore(Initial(true), before, s, step);
    LeadsTwice(Initial(true), before + [step], off, between, t);
    TenInAPeriod(before + [step] + between, t);
  }

  // Both bounds are reached.

  lemma {:induction false} LeadsTwice(s: State, first: seq<Step>, t: State, second: seq<Step>, u: State)
    requires Leads(s, first, t) && Leads(t, second, u)
    ensures Leads(s, first + second, u)
    decreases |first|
  {
    if first == [] {
      assert first + second == second;
    } else {
      LeadsTwice(Apply(s, first[0]), first[1..], t, second, u);
      assert (first + second)[1..] == first[1..] + second;
    }
  }

  lemma LeadsOne(s: State, step: Step)
    requires Enabled(s, step)
    ensures Leads(s, [step], Apply(s, step))
  {
    assert Leads(Apply(s, step), [], Apply(s, step));
    assert [step][1..] == [];
  }

  lemma LeadsOneMore(s: State, steps: seq<Step>, t: State, step: Step)
    requires Leads(s, steps, t) && Enabled(t, step)
    ensures Leads(s, steps + [step], Apply(t, step))
  {
    LeadsOne(t, step);
    LeadsTwice(s, steps, t, [step], Apply(t, step));
  }

  /** A failed check up to the comparison of the counter. */
  lemma FailedCheck(s: State, steps: seq<Step>, t: State) returns (more: seq<Step>, u: State)
    requires Leads(s, steps, t) && t.worker == Idle && t.esd == Running && t.power == POWER_STATUS_ON
    ensures Leads(s, more, u)
    ensures u == t.(worker := Testing, recoveries := t.recoveries + 1, recoveryNum := t.recoveryNum + 1)
  {
    var t1 := Apply(t, Check(true));
    var t2 := Apply(t1, Recover);
    var t3 := Apply(t2, ReadCounter);
    hide Leads;
    LeadsOneMore(s, steps, t, Check(true));
    LeadsOneMore(s, steps + [Check(true)], t1, Recover);
    LeadsOneMore(s, steps + [Check(true)] + [Recover], t2, ReadCounter);
    LeadsOneMore(s, steps + [Check(true)] + [Recover] + [ReadCounter], t3, StoreCounter);
    more, u := steps + [Check(true)] + [Recover] + [ReadCounter] + [StoreCounter], Apply(t3, StoreCounter);
  }

  /** The panel is on, and `n` recoveries have been counted. */
  lemma {:induction false} SomeRecoveries(n: nat) returns (steps: seq<Step>, s: State)
    requires n < ESD_MAX_RECOVERY
    ensures Leads(Initial(true), steps, s) && s.worker == Idle && s.esd == Running && s.power == POWER_STATUS_ON
    ensures s.recoveries == s.recoveryNum == n
  {
    if n == 0 {
      steps, s := [Power(POWER_STATUS_ON, true)], Apply(Initial(true), Power(POWER_STATUS_ON, true));
      LeadsOne(Initial(true), Power(POWER_STATUS_ON, true));
    } else {
      var before, t := SomeRecoveries(n - 1);
      var more, u := FailedCheck(Initial(true), before, t);
      hide Leads;
      LeadsOneMore(Initial(true), more, u, Compare);
      steps, s := more + [Compare], Apply(u, Compare);
    }
  }

  /** Ten recoveries can happen. */
  lemma TenRecoveries() returns (steps: seq<Step>, s: State)
    ensures Leads(Initial(true), steps, s) && s.recoveries == s.recoveryNum == 10
    ensures s.worker == Testing && s.esd == Running && s.power == POWER_STATUS_ON
  {
    var before, t := SomeRecoveries(ESD_MAX_RECOVERY - 1);
    steps, s := FailedCheck(Initial(true), before, t);
  }

  /** The check can be switched off in a period without any recovery: the panel is switched off and on again while
      the worker is on its way to take the lock. */
  lemma SwitchedOffTooEarly() returns (steps: seq<Step>, s: State)
    ensures Leads(Initial(true), steps, s)
    ensures s.power == POWER_STATUS_ON && s.esd == Ready && s.recoveries == 0 && s.worker == Idle
  {
    var before, t := TenRecoveries();
    SupportStays(Initial(true), before, t);
    var t1 := Apply(t, Compare);
    var t2 := Apply(t1, Reset);
    var t3 := Apply(t2, Power(POWER_STATUS_OFF, true));
    var t4 := Apply(t3, Power(POWER_STATUS_ON, true));
    hide Leads;
    LeadsOneMore(Initial(true), before, t, Compare);
    LeadsOneMore(Initial(true), before + [Compare], t1, Reset);
    LeadsOneMore(Initial(true), before + [Compare] + [Reset], t2, Power(POWER_STATUS_OFF, true));
    var five := before + [Compare] + [Reset] + [Power(POWER_STATUS_OFF, true)];
    LeadsOneMore(Initial(true), five, t3, Power(POWER_STATUS_ON, true));
    LeadsOneMore(Initial(true), five + [Power(POWER_STATUS_ON, true)], t4, Disable);
    steps, s := five + [Power(POWER_STATUS_ON, true)] + [Disable], Apply(t4, Disable);
  }

  /** A panel with its timer: every method is one section of the program that nothing can interrupt, because it
      runs under the lock or is a single access. */
  class Panel {
    const support: bool
    var powerStatus: nat
    var state: EsdState
    var timer: bool
    var recoveryNum: nat
    var worker: Worker
    ghost var recoveries: nat
    ghost var misplaced: nat
    ghost var timerFaults: nat
    ghost var cleanStart: bool

    ghost function View(): State
      reads this
    {
      State(powerStatus, state, timer, recoveryNum, support, worker, recoveries, misplaced, timerFaults, cleanStart)
    }

    constructor (support: bool)
      ensures View() == Initial(support)
    {
      this.support := support;
      powerStatus, state, timer, recoveryNum, worker := POWER_STATUS_OFF, Ready, false, 0, Idle;
      recoveries, misplaced, timerFaults, cleanStart := 0, 0, 0, true;
    }

    method OsalTimerCreate()
      modifies this`timer, this`timerFaults
      ensures View() == CreateTimer(old(View()))
    {
      timerFaults := if timer then timerFaults + 1 else timerFaults;
      timer := true;
    }

    method OsalTimerDelete()
      modifies this`timer, this`timerFaults
      ensures View() == DeleteTimer(old(View()))
    {
      timerFaults := if timer then timerFaults else timerFaults + 1;
      timer := false;
    }

    method EsdCheckStartUp()
      modifies this
      ensures View() == CheckStartUp(old(View()))
    {
      if support {
        if state == Ready {
          OsalTimerCreate();
          state := Running;
        }
      }
    }

    method EsdCheckEnd()
      modifies this
      ensures View() == CheckEnd(old(View()))
    {
      if support {
        recoveryNum := 0;
        if state == Running {
          OsalTimerDelete();
          state := Ready;
        }
      }
    }

    /** `SetDispPower`; `done` is what the panel's switch returned, and `backlight` what the backlight returned. */
    method SetDispPower(status: nat, done: bool, backlight: int) returns (ret: int)
      modifies this
      ensures View() == Apply(old(View()), Power(status, done))
      ensures ret ==
        if old(powerStatus) == status then 0 else if done && (status == 0 || status == 3) then backlight else -1
      ensures old(powerStatus) == status || !done || (status != 0 && status != 3) ==> View() == old(View())
      ensures old(powerStatus) != status && done && (status == 0 || status == 3) ==>
        && powerStatus == status && worker == old(worker)
        && (!support ==> state == old(state) && timer == old(timer) && recoveryNum == old(recoveryNum))
        && (support && status == 0 ==> state == Running && timer == (old(timer) || old(state) == Ready))
        && (support && status == 0 ==> recoveryNum == old(recoveryNum))
        && (support && status == 3 ==> state == Ready && timer == (old(timer) && old(state) == Ready))
        && (support && status == 3 ==> recoveryNum == 0)
    {
      if powerStatus == status {
        return HDF_SUCCESS;
      }
      ret := HDF_FAILURE;
      if status == POWER_STATUS_ON {
        if done {
          powerStatus := POWER_STATUS_ON;
          ret := backlight;
          recoveries := 0;
          cleanStart := IsClean(recoveryNum, worker);
          EsdCheckStartUp();
        }
      } else if status == POWER_STATUS_OFF {
        if done {
          powerStatus := POWER_STATUS_OFF;
          ret := backlight;
          EsdCheckEnd();
        }
      }
    }

    // The sections of `EsdWorkHandler`.

    method CheckPanel(failed: bool)
      requires worker == Idle
      modifies this`worker
      ensures View() == Apply(old(View()), Check(failed))
    {
      worker := if failed then Failed else Testing;
    }

    method RecoverPanel()
      requires worker == Failed
      modifies this
      ensures View() == Apply(old(View()), Recover)
    {
      if state == Running {
        misplaced := if powerStatus == POWER_STATUS_ON then misplaced else misplaced + 1;
        recoveries := recoveries + 1;
        worker := Counting;
      } else {
        worker := Idle;
      }
    }

    method LoadCounter()
      requires worker == Counting
      modifies this`worker
      ensures View() == Apply(old(View()), ReadCounter)
    {
      worker := Storing(recoveryNum);
    }

    method IncrementCounter()
      requires worker.Storing?
      modifies this`worker, this`recoveryNum
      ensures View() == Apply(old(View()), StoreCounter)
    {
      recoveryNum := worker.n + 1;
      worker := Testing;
    }

    method CompareCounter()
      requires worker == Testing
      modifies this`worker
      ensures View() == Apply(old(View()), Compare)
    {
      worker := if recoveryNum >= ESD_MAX_RECOVERY then Resetting else Idle;
    }

    method ResetCounter()
      requires worker == Resetting
      modifies this`worker, this`recoveryNum
      ensures View() == Apply(old(View()), Reset)
    {
      recoveryNum := 0;
      worker := Disabling;
    }

    method DisableCheck()
      requires worker == Disabling
      modifies this
      ensures View() == Apply(old(View()), Disable)
    {
      if state == Running {
        OsalTimerDelete();
        state := Ready;
      }
      worker := Idle;
    }
  }
}
