/**
 Intel PT control for one vCPU: configuration ioctls from any number of threads interleaved with
 VM entries and exits.
 */
module VmxPt {

  const HOLE_START: nat := 0x0000_8000_0000_0000
  const HOLE_END: nat := 0xFFFF_8000_0000_0000

  /** The bits of IA32_RTIT_CTL the driver uses. */
  datatype Bit = TraceEn | Os | User | Cr3Filter | ToPa | DisRetc | BranchEn | AddrEn(n: nat)

  datatype Range = Range(a: nat, b: nat)

  predicate RangeCheck(r: Range) {
    && r.a < r.b
    && !(HOLE_START <= r.a < HOLE_END)
    && !(HOLE_START <= r.b < HOLE_END)
  }

  datatype Ioctl =
    | ConfigureAddr(n: nat, copied: bool, range: Range)
    | EnableAddr(n: nat)
    | DisableAddr(n: nat)
    | ConfigureMultiCr3(copied: bool, num: nat)
    | EnableMultiCr3
    | DisableMultiCr3
    | ConfigureCr3(cr3: nat)
    | EnableCr3
    | DisableCr3
    | Enable
    | Disable

  type FourRanges = s: seq<Range> | |s| == 4 witness [Range(0, 0), Range(0, 0), Range(0, 0), Range(0, 0)]

  type FourFlags = s: seq<bool> | |s| == 4 witness [false, false, false, false]

  /** struct vcpu_vmx_pt without the trace buffer, and the autoloaded control values. */
  datatype Config = Config(
    supported: nat,
    ctrl: set<Bit>,
    addr: FourRanges,
    addrConfigured: FourFlags,
    cr3Match: nat,
    multiCr3Num: nat,
    multiCr3: bool,
    configured: bool,
    changePending: bool,
    wanted: bool,
    guestCtl: set<Bit>,
    hostCtl: set<Bit>)

  datatype Outcome = Outcome(config: Config, ok: bool)

  function Flip(s: set<Bit>, b: Bit): set<Bit> {
    if b in s then s - {b} else s + {b}
  }

  /** The critical section of vmx_pt_ioctl, given the `configured` flag read before the lock. */
  function Body(c: Config, op: Ioctl, saw: bool): Outcome
  {
    var refused := Outcome(c, false);
    match op
    case ConfigureAddr(n, copied, range) =>
      if n < 4 && !saw && c.supported >= n + 1 && copied && RangeCheck(range) then
        Outcome(c.(addr := c.addr[n := range], addrConfigured := c.addrConfigured[n := true]), true)
      else refused
    case EnableAddr(n) =>
      if n < 4 && !saw && c.addrConfigured[n] && c.supported >= n + 1 then
        Outcome(c.(ctrl := c.ctrl + {AddrEn(n)}), true)
      else refused
    case DisableAddr(n) =>
      if n < 4 && !saw && AddrEn(n) in c.ctrl then Outcome(c.(ctrl := Flip(c.ctrl, AddrEn(n))), true) else refused
    case ConfigureMultiCr3(copied, num) =>
      if !saw && copied then Outcome(c.(multiCr3Num := num), true) else refused
    case EnableMultiCr3 =>
      if !saw && Cr3Filter !in c.ctrl && c.multiCr3Num != 0 && !c.multiCr3 then Outcome(c.(multiCr3 := true), true)
      else refused
    case DisableMultiCr3 =>
      if !saw && c.multiCr3 then Outcome(c.(multiCr3 := false), true) else refused
    case ConfigureCr3(cr3) =>
      if !saw then Outcome(c.(cr3Match := cr3), true) else refused
    case EnableCr3 =>
      if !saw && c.cr3Match != 0 && !c.multiCr3 then Outcome(c.(ctrl := c.ctrl + {Cr3Filter}), true) else refused
    case DisableCr3 =>
      if !saw && Cr3Filter in c.ctrl then Outcome(c.(ctrl := Flip(c.ctrl, Cr3Filter)), true) else refused
    case Enable => Outcome(c, true)
    case Disable => Outcome(c, false)
  }

  /** vmx_pt_setup_vmx_autoload_msr */
  function Autoload(c: Config, on: bool): Config {
    var host := if TraceEn in c.ctrl then Flip(c.ctrl, TraceEn) else c.ctrl;
    c.(hostCtl := host, guestCtl := if on then host + {TraceEn} else host)
  }

  // ----- Threads ----------------------------------------------------------------------------------

  datatype Phase = Started | Locked | HalfDone

  datatype Call = Call(op: Ioctl, saw: bool, phase: Phase)

  datatype Holder = Free | ByVcpu | ByCall(t: nat)

  /**
   Where the vCPU is. Between Outside and Entering it applies a pending change without the lock: it has
   seen the pending flag, is about to set `configured`, to load the control values, or to clear the
   flag.
   */
  datatype Vcpu = Outside | SeenPending | Setting(on: bool) | Loading(on: bool) | Clearing | Entering | InGuest

  datatype State = State(c: Config, lock: Holder, vcpu: Vcpu, calls: map<nat, Call>)

  /**
   Single accesses to what vCPU and ioctls share. The part of a call under the lock is one step, except
   for the two stores of ENABLE and DISABLE: the vCPU reads only one word that it writes.
   */
  datatype Step =
    | Begin(t: nat, op: Ioctl)  // read `configured`
    | Acquire(t: nat)           // spin_lock
    | Announce(t: nat)          // ENABLE/DISABLE: set state_change_pending
    | Complete(t: nat)          // the rest of the switch, spin_unlock
    | EntryPending              // vmx_pt_vmentry: read state_change_pending
    | EntryWanted               // vmx_pt_vmentry: read state
    | EntryFlag                 // vmx_pt_enable, vmx_pt_disable: set `configured`
    | EntryLoad                 // vmx_pt_setup_vmx_autoload_msr: read the control word
    | EntryClear                // vmx_pt_vmentry: clear state_change_pending
    | EntryLock                 // vmx_pt_vmentry: take the lock if configured, enter the guest
    | Exit                      // vmx_pt_vmexit

  predicate Switches(op: Ioctl) {
    op.Enable? || op.Disable?
  }

  /** Does an ENABLE or DISABLE go through? Otherwise the call leaves everything alone. */
  predicate Requests(s: State, call: Call) {
    Switches(call.op) && call.saw == call.op.Disable? && !s.c.changePending
  }

  predicate Enabled(s: State, step: Step) {
    match step
    case Begin(t, _) => t !in s.calls
    case Acquire(t) => t in s.calls && s.calls[t].phase == Started && s.lock == Free
    case Announce(t) => t in s.calls && s.calls[t].phase == Locked && Requests(s, s.calls[t])
    case Complete(t) =>
      t in s.calls && (s.calls[t].phase == HalfDone || (s.calls[t].phase == Locked && !Requests(s, s.calls[t])))
    case EntryPending => s.vcpu == Outside
    case EntryWanted => s.vcpu == SeenPending
    case EntryFlag => s.vcpu.Setting?
    case EntryLoad => s.vcpu.Loading?
    case EntryClear => s.vcpu == Clearing
    case EntryLock => s.vcpu == Entering && (s.c.configured ==> s.lock == Free)
    case Exit => s.vcpu == InGuest
  }

  function Next(s: State, step: Step): State
    requires Enabled(s, step)
  {
    match step
    case Begin(t, op) => s.(calls := s.calls[t := Call(op, s.c.configured, Started)])
    case Acquire(t) => s.(lock := ByCall(t), calls := s.calls[t := s.calls[t].(phase := Locked)])
    case Announce(t) => s.(c := s.c.(changePending := true), calls := s.calls[t := s.calls[t].(phase := HalfDone)])
    case Complete(t) =>
      var call := s.calls[t];
      var done :=
        if call.phase == HalfDone then s.c.(wanted := call.op.Enable?)
        else Body(s.c, call.op, call.saw).config;
      s.(c := done, lock := Free, calls := s.calls - {t})
    case EntryPending => s.(vcpu := if s.c.changePending then SeenPending else Entering)
    case EntryWanted => s.(vcpu := if s.c.wanted != s.c.configured then Setting(s.c.wanted) else Clearing)
    case EntryFlag => s.(c := s.c.(configured := s.vcpu.on), vcpu := Loading(s.vcpu.on))
    case EntryLoad => s.(c := Autoload(s.c, s.vcpu.on), vcpu := Clearing)
    case EntryClear => s.(c := s.c.(changePending := false), vcpu := Entering)
    case EntryLock => s.(vcpu := InGuest, lock := if s.c.configured then ByVcpu else s.lock)
    case Exit => s.(vcpu := Outside, lock := if s.c.configured then Free else s.lock)
  }

  /** vmx_pt_setup */
  function Init(supported: nat): State {
    var none := [Range(0, 0), Range(0, 0), Range(0, 0), Range(0, 0)];
    State(
      Config(supported, {Os, User, ToPa, BranchEn, DisRetc}, none, [false, false, false, false], 0, 0, false,
             false, false, false, {}, {}),
      Free, Outside, map[])
  }

  // ----- What every run keeps ---------------------------------------------------------------------

  /** Every address range that is enabled, in the configuration or in a loaded value, passed the check. */
  ghost predicate RangesOk(c: Config) {
    && (forall n :: 0 <= n < 4 && c.addrConfigured[n] ==> RangeCheck(c.addr[n]) && n < c.supported)
    && (forall n: nat :: AddrEn(n) in c.ctrl + c.guestCtl + c.hostCtl ==> n < 4 && c.addrConfigured[n])
  }

  /** Tracing is never on in the configured word or the host's value, and the two loaded values differ
      in nothing else. */
  ghost predicate HostOk(c: Config) {
    && TraceEn !in c.ctrl
    && TraceEn !in c.hostCtl
    && c.guestCtl - {TraceEn} == c.hostCtl
  }

  /** The guest's value has tracing on exactly when configured, except that it lags behind the flag
      until the values are loaded. */
  ghost predicate GuestOk(s: State) {
    && (TraceEn in s.c.guestCtl <==> s.c.configured != s.vcpu.Loading?)
    && (s.vcpu.Setting? ==> s.c.configured != s.vcpu.on)
    && (s.vcpu.Loading? ==> s.c.configured == s.vcpu.on)
  }

  ghost predicate FilterOk(c: Config) {
    !(Cr3Filter in c.ctrl && c.multiCr3)
  }

  /** The lock is the vCPU's exactly while it is in the guest and configured. */
  ghost predicate LockOk(s: State) {
    && (s.lock == ByVcpu <==> s.vcpu == InGuest && s.c.configured)
    && (forall t :: t in s.calls && s.calls[t].phase != Started ==> s.lock == ByCall(t))
    && (s.lock.ByCall? ==> s.lock.t in s.calls && s.calls[s.lock.t].phase != Started)
    && (forall t :: t in s.calls && s.calls[t].phase == HalfDone ==> Switches(s.calls[t].op))
  }

  ghost predicate ConfigOk(c: Config) {
    RangesOk(c) && HostOk(c) && FilterOk(c)
  }

  ghost predicate Inv(s: State) {
    ConfigOk(s.c) && GuestOk(s) && LockOk(s)
  }

  lemma BodyKeeps(c: Config, op: Ioctl, saw: bool)
    requires ConfigOk(c)
    ensures var d := Body(c, op, saw).config;
            && ConfigOk(d)
            && d.configured == c.configured && d.guestCtl == c.guestCtl && d.hostCtl == c.hostCtl
    ensures !Body(c, op, saw).ok ==> Body(c, op, saw).config == c
    ensures saw ==> Body(c, op, saw).config == c
  {
    hide RangeCheck;
  }

  /** Loading gives the host a value without tracing and the guest the same with tracing as asked. */
  lemma LoadKeeps(c: Config, on: bool)
    requires ConfigOk(c)
    ensures var d := Autoload(c, on);
            && ConfigOk(d) && d.configured == c.configured && d.ctrl == c.ctrl
            && d.hostCtl == c.ctrl && d.guestCtl == if on then c.ctrl + {TraceEn} else c.ctrl
  {
    hide RangeCheck;
  }

  lemma StepKeeps(s: State, step: Step)
    requires Inv(s) && Enabled(s, step)
    ensures Inv(Next(s, step))
  {
    hide RangeCheck, ConfigOk, Body, Autoload;
    match step
    case Complete(t) =>
      BodyKeeps(s.c, s.calls[t].op, s.calls[t].saw);
      FlagsKeep(s.c, s.c.changePending, s.calls[t].op.Enable?, s.c.configured);
    case Announce(t) => FlagsKeep(s.c, true, s.c.wanted, s.c.configured);
    case EntryFlag => FlagsKeep(s.c, s.c.changePending, s.c.wanted, s.vcpu.on);
    case EntryLoad =>
      LoadKeeps(s.c, s.vcpu.on);
      NoTraceInCtrl(s.c);
    case EntryClear => FlagsKeep(s.c, false, s.c.wanted, s.c.configured);
    case _ =>
  }

  lemma NoTraceInCtrl(c: Config)
    requires ConfigOk(c)
    ensures TraceEn !in c.ctrl
  {
  }

  lemma FlagsKeep(c: Config, pending: bool, wanted: bool, configured: bool)
    ensures ConfigOk(c) ==> ConfigOk(c.(changePending := pending, wanted := wanted, configured := configured))
  {
  }

  ghost predicate IsRun(states: seq<State>, steps: seq<Step>) {
    && |states| == |steps| + 1
    && (exists k: nat :: k <= 4 && states[0] == Init(k))
    && forall i :: 0 <= i < |steps| ==> Enabled(states[i], steps[i]) && states[i + 1] == Next(states[i], steps[i])
  }

  lemma {:induction false} RunKeeps(states: seq<State>, steps: seq<Step>, n: nat)
    requires IsRun(states, steps) && n <= |steps|
    ensures Inv(states[n])
  {
    hide Enabled, Next, Inv;
    if n == 0 {
      var k: nat :| k <= 4 && states[0] == Init(k);
      InitOk(k);
    } else {
      RunKeeps(states, steps, n - 1);
      StepKeeps(states[n - 1], steps[n - 1]);
    }
  }

  lemma InitOk(k: nat)
    ensures Inv(Init(k))
  {
  }

  /** While the guest runs traced, nothing but its exit touches the configuration or the loaded values. */
  lemma FrozenInGuest(s: State, step: Step)
    requires Inv(s) && Enabled(s, step) && s.vcpu == InGuest && s.c.configured
    ensures step != Exit ==> Next(s, step).c == s.c && Next(s, step).lock == ByVcpu && Next(s, step).vcpu == InGuest
    ensures step == Exit ==> Next(s, step).c == s.c && Next(s, step).lock == Free
    ensures TraceEn in s.c.guestCtl && TraceEn !in s.c.hostCtl
  {
    hide RangesOk, FilterOk;
  }

  // ----- Requests take effect -----------------------------------------------------------------------

  /** Setting an address range and enabling it affects that range alone, and disabling it undoes the
      enabling. */
  lemma AddrRoundTrip(c: Config, n: nat, range: Range)
    requires n < 4 && n < c.supported && RangeCheck(range)
    ensures var a := Body(c, ConfigureAddr(n, true, range), false);
            var b := Body(a.config, EnableAddr(n), false);
            var d := Body(b.config, DisableAddr(n), false);
            && a.ok && b.ok && d.ok
            && b.config.addr[n] == range && b.config.addrConfigured[n] && AddrEn(n) in b.config.ctrl
            && (forall m :: 0 <= m < 4 && m != n ==> b.config.addr[m] == c.addr[m] && b.config.addrConfigured[m] == c.addrConfigured[m])
            && (forall x :: x != AddrEn(n) ==> (x in b.config.ctrl <==> x in c.ctrl))
            && d.config.ctrl == c.ctrl - {AddrEn(n)} && d.config.addr == b.config.addr
  {
    hide RangeCheck;
  }

  /** No ENABLE or DISABLE is between its two stores. */
  ghost predicate NoneHalfDone(s: State) {
    forall t :: t in s.calls ==> s.calls[t].phase != HalfDone
  }

  /** The vCPU is applying the request that `wanted` holds. */
  ghost predicate Applying(s: State, wanted: bool) {
    && s.c.changePending && s.c.wanted == wanted && NoneHalfDone(s)
    && match s.vcpu
       case Setting(on) => on == wanted
       case Loading(on) => on == wanted && s.c.configured == wanted
       case Clearing => s.c.configured == wanted
       case _ => false
  }

  lemma ApplyingStep(s: State, step: Step, wanted: bool)
    requires Enabled(s, step) && Applying(s, wanted)
    ensures step != EntryClear ==> Applying(Next(s, step), wanted)
    ensures step == EntryClear ==>
              Next(s, step).c == s.c.(changePending := false) && s.c.configured == s.c.wanted == wanted && s.vcpu == Clearing
  {
    hide RangeCheck, Body;
    if step.Complete? {
      BodyFlags(s.c, s.calls[step.t].op, s.calls[step.t].saw);
    }
  }

  lemma BodyFlags(c: Config, op: Ioctl, saw: bool)
    ensures var d := Body(c, op, saw).config;
            d.changePending == c.changePending && d.wanted == c.wanted && d.configured == c.configured
  {
    hide RangeCheck;
  }

  lemma {:induction false} ApplyingRun(states: seq<State>, steps: seq<Step>, i: nat, j: nat)
    requires IsRun(states, steps) && i < j <= |steps| && steps[i] == EntryWanted && NoneHalfDone(states[i])
    requires states[i].c.changePending && forall k :: i < k < j ==> steps[k] != EntryClear
    ensures Applying(states[j], states[i].c.wanted)
    decreases j
  {
    hide Applying, NoneHalfDone, Next, Enabled;
    if j == i + 1 {
      ApplyingStart(states[i]);
    } else {
      ApplyingRun(states, steps, i, j - 1);
      ApplyingStep(states[j - 1], steps[j - 1], states[i].c.wanted);
    }
  }

  lemma ApplyingStart(s: State)
    requires Enabled(s, EntryWanted) && s.c.changePending && NoneHalfDone(s)
    ensures Applying(Next(s, EntryWanted), s.c.wanted)
  {
  }

  /**
   An entry that finds a pending request and no call halfway through one applies it: when it clears
   the flag, tracing is on in the guest's value exactly if that is what was asked, whatever other
   threads did in between.
   */
  lemma {:induction false} RequestApplied(states: seq<State>, steps: seq<Step>, i: nat, j: nat)
    requires IsRun(states, steps) && i < j < |steps| && steps[i] == EntryWanted && steps[j] == EntryClear
    requires NoneHalfDone(states[i]) && states[i].c.changePending && forall k :: i < k < j ==> steps[k] != EntryClear
    ensures var c := states[j + 1].c;
            && c.configured == c.wanted == states[i].c.wanted && !c.changePending
            && (TraceEn in c.guestCtl <==> states[i].c.wanted)
  {
    hide Applying, NoneHalfDone, Next, Enabled, RangesOk, FilterOk;
    ApplyingRun(states, steps, i, j);
    ApplyingStep(states[j], steps[j], states[i].c.wanted);
    RunKeeps(states, steps, j);
  }

  /** The condition is needed: between the two stores of a call the vCPU still reads the old wish, and
      clears the flag of a request that then waits for nobody. */
  lemma {:induction false} RequestLost(s: State, t: nat)
    requires s.vcpu == SeenPending && s.c.wanted == s.c.configured
    requires t in s.calls && s.calls[t].phase == HalfDone && s.calls[t].op.Enable? != s.c.configured
    ensures Enabled(s, EntryWanted) && Enabled(Next(s, EntryWanted), EntryClear)
    ensures Enabled(Next(Next(s, EntryWanted), EntryClear), Complete(t))
    ensures var c := Next(Next(Next(s, EntryWanted), EntryClear), Complete(t)).c;
            !c.changePending && c.wanted != c.configured
  {
    hide RangeCheck, Autoload, Body;
  }

  // ----- Are the loaded values the configured ones? -------------------------------------------------

  /** Once loaded for a configured vCPU, the values are those of the control word. */
  ghost predicate Synced(s: State) {
    s.c.configured && !s.vcpu.Loading? ==> s.c.hostCtl == s.c.ctrl && s.c.guestCtl == s.c.ctrl + {TraceEn}
  }

  /** The ioctl changes a control bit if it is let through. */
  predicate ChangesBit(c: Config, op: Ioctl) {
    match op
    case EnableAddr(n) => n < 4 && c.addrConfigured[n] && n < c.supported && AddrEn(n) !in c.ctrl
    case DisableAddr(n) => n < 4 && AddrEn(n) in c.ctrl
    case EnableCr3 => c.cr3Match != 0 && !c.multiCr3 && Cr3Filter !in c.ctrl
    case DisableCr3 => Cr3Filter in c.ctrl
    case _ => false
  }

  /**
   A call finishes that read `configured` before tracking was enabled and changes a control bit after the
   values were loaded: the one way they and the configuration come apart.
   */
  predicate ChangesLate(s: State, step: Step) {
    && step.Complete? && step.t in s.calls
    && !s.calls[step.t].saw && s.c.configured && !s.vcpu.Loading?
    && ChangesBit(s.c, s.calls[step.t].op)
  }

  lemma BodyChangesBit(c: Config, op: Ioctl, saw: bool)
    ensures Body(c, op, saw).config.ctrl != c.ctrl <==> !saw && ChangesBit(c, op)
  {
    hide RangeCheck;
  }

  /** From equal values a step leads to unequal ones exactly if it is such a late change. */
  lemma SyncExactly(s: State, step: Step)
    requires Inv(s) && Enabled(s, step) && Synced(s)
    ensures Synced(Next(s, step)) <==> !ChangesLate(s, step)
  {
    hide ConfigOk, ChangesBit, Body, Autoload;
    match step
    case Complete(t) =>
      BodyKeeps(s.c, s.calls[t].op, s.calls[t].saw);
      BodyChangesBit(s.c, s.calls[t].op, s.calls[t].saw);
      SwitchChangesNone(s.c, s.calls[t].op);
      NoTraceInCtrl(s.c);
      NoTraceInCtrl(Body(s.c, s.calls[t].op, s.calls[t].saw).config);
    case EntryLoad => LoadKeeps(s.c, s.vcpu.on);
    case _ =>
  }

  lemma SwitchChangesNone(c: Config, op: Ioctl)
    ensures Switches(op) ==> !ChangesBit(c, op)
  {
  }

  /** A run keeps the loaded values equal to the configured ones throughout exactly if it has no late change. */
  lemma {:induction false} RunSynced(states: seq<State>, steps: seq<Step>, n: nat)
    requires IsRun(states, steps) && n <= |steps|
    ensures (forall i :: 0 <= i <= n ==> Synced(states[i])) <==> (forall i :: 0 <= i < n ==> !ChangesLate(states[i], steps[i]))
  {
    hide Next, Inv, Enabled, Synced, ChangesLate;
    if n == 0 {
      var k: nat :| k <= 4 && states[0] == Init(k);
      InitSynced(k);
    } else {
      RunSynced(states, steps, n - 1);
      RunKeeps(states, steps, n - 1);
      if Synced(states[n - 1]) {
        SyncExactly(states[n - 1], steps[n - 1]);
        assert states[n - 1 + 1] == Next(states[n - 1], steps[n - 1]);
      }
      if forall i :: 0 <= i < n ==> !ChangesLate(states[i], steps[i]) {
        forall i | 0 <= i <= n
          ensures Synced(states[i])
        {
          assert i < n ==> Synced(states[i]);
        }
      } else {
        assert (forall i :: 0 <= i <= n - 1 ==> Synced(states[i])) ==> ChangesLate(states[n - 1], steps[n - 1]);
      }
    }
  }

  lemma InitSynced(k: nat)
    ensures Synced(Init(k))
  {
  }

  /** The condition is needed: here is a run whose last step is its only late change. */
  lemma LateChangeDiffers() returns (states: seq<State>, steps: seq<Step>)
    ensures IsRun(states, steps) && !Synced(states[|steps|])
    ensures forall i :: 0 <= i < |steps| - 1 ==> !ChangesLate(states[i], steps[i])
  {
    hide IsRun, Synced, ChangesLate, Next, Enabled, RangeCheck, Autoload;
    var c0 := Init(1).c;
    var c3 := c0.(addr := c0.addr[0 := Range(0, 1)], addrConfigured := c0.addrConfigured[0 := true]);
    var c7 := c3.(changePending := true, wanted := true);
    var s1, s2 := AddrCall(c0);
    var s5, s6 := EnableCall(c3);
    var late := EntryThenCall(c7);
    steps := [Begin(0, ConfigureAddr(0, true, Range(0, 1))), Acquire(0), Complete(0), Begin(1, Enable), Acquire(1),
              Announce(1), Complete(1)] + LateSteps();
    states := [State(c0, Free, Outside, map[]), s1, s2, State(c3, Free, Outside, map[]),
               State(c3, Free, Outside, map[1 := Call(Enable, false, Started)]), s5, s6] + late;
    RunOf(states, steps);
    NotSynced(states[14], AddrEn(0));
    forall i | 0 <= i < |steps| - 1
      ensures !ChangesLate(states[i], steps[i])
    {
      NotLate(states[i], steps[i]);
    }
  }

  function LateSteps(): seq<Step> {
    [Begin(2, EnableAddr(0)), EntryPending, EntryWanted, EntryFlag, EntryLoad, Acquire(2), Complete(2)]
  }

  lemma AddrCall(c0: Config) returns (s1: State, s2: State)
    requires c0 == Init(1).c
    ensures var begin := Begin(0, ConfigureAddr(0, true, Range(0, 1)));
            var s0 := State(c0, Free, Outside, map[]);
            && Enabled(s0, begin) && s1 == Next(s0, begin)
            && Enabled(s1, Acquire(0)) && s2 == Next(s1, Acquire(0))
            && Enabled(s2, Complete(0))
            && Next(s2, Complete(0)) == State(
                 c0.(addr := c0.addr[0 := Range(0, 1)], addrConfigured := c0.addrConfigured[0 := true]), Free, Outside, map[])
            && !s1.c.configured && !s2.c.configured
  {
    s1 := Next(State(c0, Free, Outside, map[]), Begin(0, ConfigureAddr(0, true, Range(0, 1))));
    s2 := Next(s1, Acquire(0));
    assert s2.calls - {0} == map[];
  }

  lemma EnableCall(c3: Config) returns (s5: State, s6: State)
    requires !c3.configured && !c3.changePending
    ensures var s4 := State(c3, Free, Outside, map[1 := Call(Enable, false, Started)]);
            && Enabled(State(c3, Free, Outside, map[]), Begin(1, Enable)) && s4 == Next(State(c3, Free, Outside, map[]), Begin(1, Enable))
            && Enabled(s4, Acquire(1)) && s5 == Next(s4, Acquire(1))
            && Enabled(s5, Announce(1)) && s6 == Next(s5, Announce(1))
            && Enabled(s6, Complete(1))
            && Next(s6, Complete(1)) == State(c3.(changePending := true, wanted := true), Free, Outside, map[])
            && !s5.c.configured && !s6.c.configured
  {
    s5 := Next(State(c3, Free, Outside, map[1 := Call(Enable, false, Started)]), Acquire(1));
    s6 := Next(s5, Announce(1));
    assert s6.calls - {1} == map[];
  }

  /** A call begins, the vCPU applies the pending enabling, and the call sets its bit. */
  lemma EntryThenCall(c7: Config) returns (late: seq<State>)
    requires !c7.configured && c7.changePending && c7.wanted && c7.addrConfigured[0] && c7.supported == 1
    requires AddrEn(0) !in c7.ctrl && TraceEn !in c7.ctrl
    ensures |late| == 8 && late[0] == State(c7, Free, Outside, map[])
    ensures forall i :: 0 <= i < 7 ==> Enabled(late[i], LateSteps()[i]) && late[i + 1] == Next(late[i], LateSteps()[i])
    ensures late[7].c.configured && late[7].vcpu == Clearing && AddrEn(0) in late[7].c.ctrl && AddrEn(0) !in late[7].c.hostCtl
  {
    hide RangeCheck;
    var calls := map[2 := Call(EnableAddr(0), false, Started)];
    var on := c7.(configured := true);
    var loaded := Autoload(on, true);
    var locked := map[2 := Call(EnableAddr(0), false, Locked)];
    var l6 := State(loaded, ByCall(2), Clearing, locked);
    late := [State(c7, Free, Outside, map[]), State(c7, Free, Outside, calls), State(c7, Free, SeenPending, calls),
             State(c7, Free, Setting(true), calls), State(on, Free, Loading(true), calls), State(loaded, Free, Clearing, calls),
             l6, Next(l6, Complete(2))];
    assert calls == map[][2 := Call(EnableAddr(0), false, Started)];
    assert locked == calls[2 := Call(EnableAddr(0), false, Locked)];
  }

  lemma RunOf(states: seq<State>, steps: seq<Step>)
    requires |states| == |steps| + 1 && states[0] == Init(1)
    requires forall i :: 0 <= i < |steps| ==> Enabled(states[i], steps[i]) && states[i + 1] == Next(states[i], steps[i])
    ensures IsRun(states, steps)
  {
    hide Enabled, Next, Init;
  }

  lemma NotSynced(s: State, b: Bit)
    requires s.c.configured && !s.vcpu.Loading? && b in s.c.ctrl && b !in s.c.hostCtl
    ensures !Synced(s)
  {
  }

  lemma NotLate(s: State, step: Step)
    requires !step.Complete? || !s.c.configured
    ensures !ChangesLate(s, step)
  {
  }

  /** Between the flag and the load there is no such harm: a bit set then is loaded with the rest. */
  lemma EarlyChangeIsLoaded(s: State, t: nat)
    requires Inv(s) && s.vcpu == Loading(true) && Enabled(s, Complete(t))
    ensures var d := Next(s, Complete(t)); Enabled(d, EntryLoad) && Synced(Next(d, EntryLoad))
  {
    hide ConfigOk, Body, Autoload;
    BodyKeeps(s.c, s.calls[t].op, s.calls[t].saw);
    FlagsKeep(s.c, s.c.changePending, s.calls[t].op.Enable?, s.c.configured);
    LoadKeeps(Next(s, Complete(t)).c, true);
  }
}
