/**
 The lockless page-fault path against write protection. Any number of vCPUs load a direct leaf
 entry and later compare-and-swap it; one holder of the mmu lock write-protects, sets, ages or
 clears entries, one memory access at a time; processors cache writable translations and set
 accessed and dirty bits on their own.
 */
module FastFault {

  type Gfn = nat
  type Vcpu = nat

  /** A leaf entry is named by its level, the first frame it maps and a number. */
  datatype SpteId = SpteId(level: nat, gfn: Gfn, slot: nat)

  /** KVM_PAGES_PER_HPAGE */
  function Span(level: nat): nat {
    if level <= 1 then 1 else if level == 2 then 512 else 512 * 512
  }

  /** An entry spans 512 entries of the level below it. */
  lemma SpanNested(level: nat)
    requires 1 <= level <= 3
    ensures Span(level) == if level == 1 then 1 else 512 * Span(level - 1)
  {
  }

  /** The entry maps the frame. */
  predicate Covers(id: SpteId, gfn: Gfn) {
    id.gfn <= gfn < id.gfn + Span(id.level)
  }

  /** The entry maps a frame with a non-zero write-track count. */
  predicate Hot(tracked: set<Gfn>, id: SpteId) {
    exists g :: g in tracked && Covers(id, g)
  }

  /** The special bits 52 and 53: hardware accessed/dirty bits, none, or write protection only. */
  datatype AdKind = AdOn | AdOff | WrprotOnly

  datatype Spte =
    | NonPresent
    | Present(r: bool, w: bool, x: bool, savedR: bool, savedX: bool,
              hostW: bool,      // SPTE_HOST_WRITEABLE
              mmuW: bool,       // SPTE_MMU_WRITEABLE
              ad: AdKind, accessed: bool, dirty: bool)

  // ----- Predicates on entries ----------------------------------------------------------------

  predicate Writable(s: Spte) {
    s.Present? && s.w
  }

  /** spte_can_locklessly_be_made_writable */
  predicate Lockless(s: Spte) {
    s.Present? && s.hostW && s.mmuW
  }

  predicate AdEnabled(s: Spte)
    requires s.Present?
  {
    s.ad != AdOff
  }

  /** is_access_track_spte, with the access-track mask covering R, W and X. */
  predicate AccessTrack(s: Spte)
    requires s.Present?
  {
    !AdEnabled(s) && !s.r && !s.w && !s.x
  }

  /** spte_has_volatile_bits: something outside the lock may change the entry. */
  predicate Volatile(s: Spte) {
    s.Present? && (Lockless(s) || AccessTrack(s) || (AdEnabled(s) && (!s.accessed || (s.w && !s.dirty))))
  }

  predicate IsAccessed(s: Spte)
    requires s.Present?
  {
    if AdEnabled(s) then s.accessed else !AccessTrack(s)
  }

  predicate IsDirty(s: Spte)
    requires s.Present?
  {
    if AdEnabled(s) then s.dirty else s.w
  }

  /** The value mmu_spte_update returns for an update from `prev` to `val`. */
  predicate NeedsFlush(prev: Spte, val: Spte)
    requires val.Present?
  {
    && prev.Present?
    && (|| (Lockless(prev) && !Writable(val))
        || (IsAccessed(prev) && !IsAccessed(val))
        || (IsDirty(prev) && !IsDirty(val)))
  }

  /** A flush is asked for exactly if the processor may go on doing something unseen: write through an
      entry that could be writable, or skip setting an accessed or dirty mark that the update clears. */
  lemma NeedsFlushExactly(prev: Spte, val: Spte)
    requires prev.Present? && val.Present? && prev.ad == val.ad
    ensures NeedsFlush(prev, val) <==>
              || (prev.hostW && prev.mmuW && !val.w)
              || (prev.ad != AdOff && ((prev.accessed && !val.accessed) || (prev.dirty && !val.dirty)))
              || (prev.ad == AdOff && (((prev.r || prev.w || prev.x) && !(val.r || val.w || val.x)) || (prev.w && !val.w)))
  {
  }

  /** mark_spte_for_access_track */
  function MarkAccessTrack(s: Spte): (n: Spte)
    requires s.Present?
    ensures n.Present? && n.hostW == s.hostW && n.mmuW == s.mmuW && (n.w ==> s.w)
  {
    if AdEnabled(s) then s.(accessed := false)
    else if AccessTrack(s) then s
    else s.(savedR := s.savedR || s.r, savedX := s.savedX || s.x, r := false, w := false, x := false)
  }

  /** restore_acc_track_spte */
  function RestoreAccessTrack(s: Spte): (n: Spte)
    requires s.Present?
    ensures n.Present? && n.hostW == s.hostW && n.mmuW == s.mmuW && !n.w
  {
    s.(r := s.savedR, w := false, x := s.savedX, savedR := false, savedX := false)
  }

  datatype Access = Read | Write | Fetch

  /** is_access_allowed */
  predicate Allowed(a: Access, s: Spte) {
    s.Present? && match a case Fetch => s.x case Write => s.w case Read => s.r
  }

  /** The entry fast_page_fault tries to install, given the one it loaded; `small` says that the
      entry is a last-level one, since a large page is not made writable here. */
  function Fixed(a: Access, s: Spte, small: bool): (n: Spte)
    ensures s.Present? ==> n.Present? && n.hostW == s.hostW && n.mmuW == s.mmuW
    ensures Writable(n) ==> Writable(s) || Lockless(s)
  {
    if s.NonPresent? || Allowed(a, s) then s
    else
      var n := if AccessTrack(s) then RestoreAccessTrack(s) else s;
      if a == Write && Lockless(s) then (if small then n.(w := true) else s) else n
  }

  /** What set_spte builds once it has not given up. Write access needs a writable host mapping and
      an untracked frame; the check for the latter is skipped if the entry is writable already and
      must not become unsync. */
  function Granted(base: Spte, cur: Spte, wantWrite: bool, hostWritable: bool, tracked: bool, speculative: bool, canUnsync: bool): (n: Spte)
    requires base.Present?
    ensures n.Present? && (Writable(n) ==> Lockless(n))
    ensures tracked && !Writable(cur) ==> !Lockless(n)
    ensures Lockless(n) ==> wantWrite && hostWritable
  {
    var n := base.(w := wantWrite && hostWritable, hostW := hostWritable, mmuW := wantWrite && hostWritable,
                   savedR := false, savedX := false, accessed := AdEnabled(base) && !speculative, dirty := false);
    if n.w && !canUnsync && Writable(cur) then n
    else
      var w := n.w && !tracked;
      var m := n.(w := w, mmuW := w, dirty := AdEnabled(base) && w);
      if speculative then MarkAccessTrack(m) else m
  }

  // ----- The machine --------------------------------------------------------------------------

  /** The function that calls mmu_spte_update, or mmu_spte_update_no_track for ageing. */
  datatype Origin = ByProtect | BySet | ByAge | ByClearDirty

  /** Where the lock holder is inside one entry update. */
  datatype Pc =
    | Ready
    | Updating(id: SpteId, val: Spte, prev: Spte, loaded: bool, origin: Origin)   // mmu_spte_update
    | Replacing(id: SpteId, val: Spte)        // kvm_set_pte_rmapp, entry cleared

  /** What the lock was taken for: protecting entries, for page tracking or for dirty logging, or
      working on single entries. */
  datatype Job =
    | Protect(pt: bool, gfn: Gfn, todo: set<SpteId>)
    | Single

  datatype Lock = Free | Held(job: Job, pc: Pc, flush: bool)

  datatype Cpu = Idle | Loaded(id: SpteId, seen: Spte, access: Access)

  datatype State = State(
    sptes: map<SpteId, Spte>,
    tlb: set<(Vcpu, SpteId)>,       // cached translations that allow writes
    cpus: map<Vcpu, Cpu>,
    lock: Lock,
    tracked: set<Gfn>,              // frames with a non-zero write-track count
    lateFlush: bool,                // dirty logging still owes its flush
    owed: set<SpteId>)              // entries lowered under the lock since the last flush

  datatype Step =
    // vCPUs and hardware
    | FaultLoad(v: Vcpu, id: SpteId, access: Access)
    | FaultCas(v: Vcpu)
    | TlbFill(v: Vcpu, id: SpteId)
    | TlbEvict(v: Vcpu, id: SpteId)
    | HwMark(id: SpteId, write: bool)
    // the lock holder
    | StartTrack(gfn: Gfn)
    | StartLog(ids: set<SpteId>)
    | StartSingle
    | StopTrack(gfn: Gfn)
    | PickProtect(id: SpteId)
    | PickSet(id: SpteId, base: Spte, wantWrite: bool, hostWritable: bool, speculative: bool, canUnsync: bool, noLarge: bool)
    | PickAge(id: SpteId)
    | PickClearDirty(id: SpteId)
    | ClearAccessed(id: SpteId)
    | ClearWritable(id: SpteId)
    | LoadOld
    | Store
    | Zap(id: SpteId)
    | HostReadOnly(id: SpteId)
    | StoreReplaced
    | Flush
    | Unlock
    | LateFlush

  ghost predicate Init(st: State) {
    && (forall id :: id in st.sptes ==> st.sptes[id] == NonPresent)
    && st.tlb == {} && st.lock == Free && st.tracked == {} && !st.lateFlush && st.owed == {}
  }

  predicate Ready1(st: State, id: SpteId) {
    st.lock.Held? && st.lock.pc == Ready && id in st.sptes
  }

  predicate Enabled(st: State, step: Step) {
    match step
    case FaultLoad(v, id, _) => id in st.sptes
    case FaultCas(v) => v in st.cpus && st.cpus[v].Loaded? && st.cpus[v].id in st.sptes
    case TlbFill(v, id) => id in st.sptes && Writable(st.sptes[id])
    case TlbEvict(_, _) => true
    case HwMark(id, write) => id in st.sptes && Allowed(if write then Write else Read, st.sptes[id]) && AdEnabled(st.sptes[id])
    case StartTrack(_) => st.lock == Free
    case StartLog(_) => st.lock == Free
    case StartSingle => st.lock == Free
    case StopTrack(_) => st.lock == Free
    case PickProtect(id) => Ready1(st, id) && st.lock.job.Protect? && id in st.lock.job.todo
    case PickSet(id, base, _, _, _, _, _) => Ready1(st, id) && st.lock.job == Single && base.Present?
    case PickAge(id) => Ready1(st, id) && st.lock.job == Single && st.sptes[id].Present? && !AdEnabled(st.sptes[id])
    case PickClearDirty(id) =>
      // When logging is what the lock was taken for, the flush is left to the caller.
      Ready1(st, id) && (st.lock.job == Single || LogJob(st.lock)) && st.sptes[id].Present? && st.sptes[id].ad == AdOn
    case ClearAccessed(id) => Ready1(st, id) && st.sptes[id].Present? && AdEnabled(st.sptes[id])
    case ClearWritable(id) => Ready1(st, id) && st.sptes[id].Present? && !AdEnabled(st.sptes[id])
    case LoadOld => st.lock.Held? && st.lock.pc.Updating? && !st.lock.pc.loaded && st.lock.pc.id in st.sptes
    case Store => st.lock.Held? && st.lock.pc.Updating? && st.lock.pc.loaded && st.lock.pc.id in st.sptes && st.lock.pc.val.Present?
    case Zap(id) => Ready1(st, id) && st.lock.job == Single
    case HostReadOnly(id) => Ready1(st, id) && st.lock.job == Single && st.sptes[id].Present?
    case StoreReplaced => st.lock.Held? && st.lock.pc.Replacing? && st.lock.pc.id in st.sptes
    case Flush => st.lock.Held? && st.lock.pc == Ready && st.lock.flush
    case Unlock =>
      && st.lock.Held? && st.lock.pc == Ready
      && (st.lock.job.Protect? ==> forall id :: id in st.lock.job.todo ==> id !in st.sptes)
      && (st.lock.flush ==> st.lock.job.Protect? && !st.lock.job.pt)
    case LateFlush => st.lateFlush
  }

  /** The lock holder replaces the entry; `lowered` collects entries that lose lockless access. */
  function Put(st: State, id: SpteId, val: Spte, lock: Lock): State
    requires id in st.sptes
  {
    st.(sptes := st.sptes[id := val], lock := lock,
        owed := st.owed + if Lockless(st.sptes[id]) && !Lockless(val) then {id} else {})
  }

  function Next(st: State, step: Step): State
    requires Enabled(st, step)
  {
    match step
    case FaultLoad(v, id, access) =>
      st.(cpus := st.cpus[v := Loaded(id, st.sptes[id], access)])
    case FaultCas(v) =>
      var c := st.cpus[v];
      var val := Fixed(c.access, c.seen, c.id.level <= 1);
      var st' := st.(cpus := st.cpus[v := Idle]);
      if val != c.seen && Allowed(c.access, val) && st.sptes[c.id] == c.seen
      then st'.(sptes := st.sptes[c.id := val]) else st'
    case TlbFill(v, id) => st.(tlb := st.tlb + {(v, id)})
    case TlbEvict(v, id) => st.(tlb := st.tlb - {(v, id)})
    case HwMark(id, write) =>
      st.(sptes := st.sptes[id := st.sptes[id].(accessed := true, dirty := st.sptes[id].dirty || write)])
    case StartTrack(gfn) =>
      st.(tracked := st.tracked + {gfn},
          lock := Held(Protect(true, gfn, set id | id in st.sptes && Covers(id, gfn)), Ready, false))
    case StartLog(ids) => st.(lock := Held(Protect(false, 0, ids), Ready, false))
    case StartSingle => st.(lock := Held(Single, Ready, false))
    case StopTrack(gfn) => st.(tracked := st.tracked - {gfn})
    case PickProtect(id) =>
      var s := st.sptes[id];
      var job := st.lock.job.(todo := st.lock.job.todo - {id});
      if s.NonPresent? || (!s.w && !(job.pt && Lockless(s))) then
        st.(lock := st.lock.(job := job))
      else
        var val := if job.pt then s.(w := false, mmuW := false) else s.(w := false);
        st.(lock := st.lock.(job := job, pc := Updating(id, val, NonPresent, false, ByProtect)))
    case PickSet(id, base, wantWrite, hostWritable, speculative, canUnsync, noLarge) =>
      // A writable large mapping is given up if large mappings of the range are disallowed, which
      // tracking one of its frames does, and other reasons (`noLarge`) may do.
      if id.level > 1 && wantWrite && hostWritable && (noLarge || Hot(st.tracked, id)) then st
      else
        var val := Granted(base, st.sptes[id], wantWrite, hostWritable, Hot(st.tracked, id), speculative, canUnsync);
        st.(lock := st.lock.(pc := Updating(id, val, NonPresent, false, BySet)))
    case PickAge(id) =>
      var s := st.sptes[id];
      if IsAccessed(s) then
        st.(lock := st.lock.(pc := Updating(id, MarkAccessTrack(s), NonPresent, false, ByAge)))
      else st
    case PickClearDirty(id) =>
      st.(lock := st.lock.(pc := Updating(id, st.sptes[id].(dirty := false), NonPresent, false, ByClearDirty)))
    case ClearAccessed(id) =>
      st.(sptes := st.sptes[id := st.sptes[id].(accessed := false)])
    case ClearWritable(id) =>
      Put(st, id, st.sptes[id].(w := false), st.lock.(flush := st.lock.flush || st.sptes[id].w))
    case LoadOld =>
      st.(lock := st.lock.(pc := st.lock.pc.(prev := st.sptes[st.lock.pc.id], loaded := true)))
    case Store =>
      var pc := st.lock.pc;
      // A volatile entry is exchanged atomically, any other is simply overwritten.
      var returned := if Volatile(pc.prev) then st.sptes[pc.id] else pc.prev;
      var flush := st.lock.flush || (pc.origin != ByAge && NeedsFlush(returned, pc.val));
      Put(st, pc.id, pc.val, st.lock.(pc := Ready, flush := flush))
    case Zap(id) =>
      Put(st, id, NonPresent, st.lock.(flush := st.lock.flush || st.sptes[id].Present?))
    case HostReadOnly(id) =>
      var val := MarkAccessTrack(st.sptes[id].(w := false, hostW := false));
      Put(st, id, NonPresent, st.lock.(pc := Replacing(id, val), flush := true))
    case StoreReplaced =>
      Put(st, st.lock.pc.id, st.lock.pc.val, st.lock.(pc := Ready))
    case Flush => st.(tlb := {}, owed := {}, lock := st.lock.(flush := false))
    case Unlock => st.(lock := Free, lateFlush := st.lateFlush || st.lock.flush)
    case LateFlush => st.(tlb := {}, lateFlush := false)
  }

  // ----- The invariant ---------------------------------------------------------------------------

  /** A writable entry carries both software bits. */
  ghost predicate WritableIsLockless(st: State) {
    forall id :: id in st.sptes && Writable(st.sptes[id]) ==> Lockless(st.sptes[id])
  }

  /** A cached writable translation belongs to an entry with both bits, or a flush is owed. */
  ghost predicate CachedIsLockless(st: State) {
    forall e :: e in st.tlb ==> e.1 in st.sptes && (Lockless(st.sptes[e.1]) || e.1 in st.owed)
  }

  /** The flush that is owed will be done: the lock holder's own variable says so. */
  ghost predicate OwedWillFlush(st: State) {
    st.owed != {} ==> st.lock.Held? && st.lock.flush
  }

  /** The lock is held to start tracking the frame. */
  ghost predicate TrackJob(lock: Lock, gfn: Gfn) {
    lock.Held? && lock.job.Protect? && lock.job.pt && lock.job.gfn == gfn
  }

  /** The holder works on `id`, or still has it before it. */
  ghost predicate Coming(lock: Lock, id: SpteId) {
    lock.Held? && lock.job.Protect? && (id in lock.job.todo || (lock.pc.Updating? && lock.pc.id == id))
  }

  /** Entries that map a tracked frame cannot become writable without the lock, except those the
      tracking step for that very frame has yet to reach. */
  ghost predicate TrackedIsLocked(st: State) {
    forall id, g :: id in st.sptes && g in st.tracked && Covers(id, g) && Lockless(st.sptes[id]) ==>
      TrackJob(st.lock, g) && Coming(st.lock, id)
  }

  /** The update in progress starts from what the entry still is, as far as it matters. */
  ghost predicate UpdateOk(st: State) {
    st.lock.Held? ==>
      match st.lock.pc
      case Ready => true
      case Replacing(id, val) => id in st.sptes && st.sptes[id] == NonPresent && val.Present? && !Writable(val) && !Lockless(val)
      case Updating(id, val, prev, loaded, origin) =>
        && id in st.sptes && val.Present?
        && (Writable(val) ==> Lockless(val))
        && (Hot(st.tracked, id) || (st.lock.job.Protect? && st.lock.job.pt) ==> !Lockless(val))
        && (origin == BySet <==> st.lock.job == Single && origin !in {ByAge, ByClearDirty})
        && (origin in {ByAge, ByClearDirty} || LogJob(st.lock) ==> Lockless(val) == Lockless(st.sptes[id]))
        && (loaded ==> Lockless(prev) == Lockless(st.sptes[id]) && prev.Present? == st.sptes[id].Present?)
        && (loaded && !Volatile(prev) ==> prev == st.sptes[id])
  }

  predicate LogJob(lock: Lock) {
    lock.Held? && lock.job.Protect? && !lock.job.pt
  }

  /** Dirty logging never owes a flush of this kind, and an entry of a tracked frame only while
      the tracking step itself is at work. */
  ghost predicate OwedOk(st: State) {
    && (LogJob(st.lock) ==> st.owed == {})
    && (forall id, g :: id in st.owed && g in st.tracked && Covers(id, g) ==> TrackJob(st.lock, g))
  }

  ghost predicate Inv(st: State) {
    && WritableIsLockless(st)
    && CachedIsLockless(st)
    && OwedWillFlush(st)
    && TrackedIsLocked(st)
    && UpdateOk(st)
    && OwedOk(st)
  }

  // ----- Steps keep it -----------------------------------------------------------------------------

  lemma InitKeeps(st: State)
    requires Init(st)
    ensures Inv(st)
  {
  }

  lemma LoadKeeps(st: State, step: Step)
    requires Inv(st) && Enabled(st, step) && step.FaultLoad?
    ensures Inv(Next(st, step))
  {
    hide Fixed, Hot;
  }

  /** A compare-and-swap changes an entry only in ways the lock holder is prepared for. */
  lemma FaultKeeps(st: State, step: Step)
    requires Inv(st) && Enabled(st, step) && step.FaultCas?
    ensures Inv(Next(st, step))
  {
    hide Hot;
  }

  lemma HardwareKeeps(st: State, step: Step)
    requires Inv(st) && Enabled(st, step) && (step.TlbFill? || step.TlbEvict? || step.HwMark?)
    ensures Inv(Next(st, step))
  {
  }

  lemma StartKeeps(st: State, step: Step)
    requires Inv(st) && Enabled(st, step)
    requires step.StartTrack? || step.StartLog? || step.StartSingle? || step.StopTrack?
    ensures Inv(Next(st, step))
  {
  }

  lemma ProtectKeeps(st: State, step: Step)
    requires Inv(st) && Enabled(st, step) && step.PickProtect?
    ensures Inv(Next(st, step))
  {
  }

  /** What set_spte is about to store is not writable if one of the entry's frames is tracked: a
      tracked entry is not writable, so the check is not skipped for it. */
  lemma SetKeeps(st: State, step: Step)
    requires Inv(st) && Enabled(st, step) && step.PickSet?
    ensures Inv(Next(st, step))
  {
    hide Granted;
  }

  lemma PickKeeps(st: State, step: Step)
    requires Inv(st) && Enabled(st, step) && (step.PickAge? || step.PickClearDirty?)
    ensures Inv(Next(st, step))
  {
  }

  /** Whenever a store takes lockless access away, the flush variable is set. */
  lemma StoreKeeps(st: State, step: Step)
    requires Inv(st) && Enabled(st, step)
    requires step.LoadOld? || step.Store? || step.StoreReplaced?
    ensures Inv(Next(st, step))
  {
  }

  /** The store goes by what the entry was at that moment: marks that the processor set after the entry
      was loaded are not lost unseen. */
  lemma StoreSeesLatest(st: State)
    requires Inv(st) && Enabled(st, Store)
    ensures var pc := st.lock.pc;
            Next(st, Store).lock.flush <==> st.lock.flush || (pc.origin != ByAge && NeedsFlush(st.sptes[pc.id], pc.val))
  {
    hide NeedsFlush, Hot, CachedIsLockless, TrackedIsLocked, OwedOk;
  }

  lemma ClearKeeps(st: State, step: Step)
    requires Inv(st) && Enabled(st, step) && (step.ClearAccessed? || step.ClearWritable?)
    ensures Inv(Next(st, step))
  {
  }

  lemma ZapKeeps(st: State, step: Step)
    requires Inv(st) && Enabled(st, step) && (step.Zap? || step.HostReadOnly?)
    ensures Inv(Next(st, step))
  {
  }

  lemma FlushKeeps(st: State, step: Step)
    requires Inv(st) && Enabled(st, step)
    requires step.Flush? || step.Unlock? || step.LateFlush?
    ensures Inv(Next(st, step))
  {
  }

  lemma StepKeeps(st: State, step: Step)
    requires Inv(st) && Enabled(st, step)
    ensures Inv(Next(st, step))
  {
    hide Inv, Next, Enabled;
    match step
    case FaultLoad(_, _, _) => LoadKeeps(st, step);
    case FaultCas(_) => FaultKeeps(st, step);
    case TlbFill(_, _) => HardwareKeeps(st, step);
    case TlbEvict(_, _) => HardwareKeeps(st, step);
    case HwMark(_, _) => HardwareKeeps(st, step);
    case StartTrack(_) => StartKeeps(st, step);
    case StartLog(_) => StartKeeps(st, step);
    case StartSingle => StartKeeps(st, step);
    case StopTrack(_) => StartKeeps(st, step);
    case PickProtect(_) => ProtectKeeps(st, step);
    case PickSet(_, _, _, _, _, _, _) => SetKeeps(st, step);
    case PickAge(_) => PickKeeps(st, step);
    case PickClearDirty(_) => PickKeeps(st, step);
    case ClearAccessed(_) => ClearKeeps(st, step);
    case ClearWritable(_) => ClearKeeps(st, step);
    case LoadOld => StoreKeeps(st, step);
    case Store => StoreKeeps(st, step);
    case Zap(_) => ZapKeeps(st, step);
    case HostReadOnly(_) => ZapKeeps(st, step);
    case StoreReplaced => StoreKeeps(st, step);
    case Flush => FlushKeeps(st, step);
    case Unlock => FlushKeeps(st, step);
    case LateFlush => FlushKeeps(st, step);
  }

  // ----- Runs ------------------------------------------------------------------------------------------

  /** Any interleaving of steps that starts with no entry present. */
  ghost predicate IsRun(states: seq<State>, steps: seq<Step>) {
    && |states| == |steps| + 1
    && Init(states[0])
    && forall i :: 0 <= i < |steps| ==> Enabled(states[i], steps[i]) && states[i + 1] == Next(states[i], steps[i])
  }

  lemma {:induction false} RunKeeps(states: seq<State>, steps: seq<Step>, n: nat)
    requires IsRun(states, steps) && n < |states|
    ensures Inv(states[n])
  {
    hide Inv, Next, Enabled, Init;
    if n == 0 {
      InitKeeps(states[0]);
    } else {
      RunKeeps(states, steps, n - 1);
      StepKeeps(states[n - 1], steps[n - 1]);
    }
  }

  /** Rules a) and b) of the write-protection comment, in every reachable state: a writable entry
      is host-writable and MMU-writable, and a cached writable translation has both bits in its
      entry unless the lock holder is about to flush. */
  lemma WritableHasBothBits(states: seq<State>, steps: seq<Step>, n: nat, id: SpteId)
    requires IsRun(states, steps) && n < |states| && id in states[n].sptes
    ensures var st := states[n];
      && (Writable(st.sptes[id]) ==> st.sptes[id].hostW && st.sptes[id].mmuW)
      && (forall v :: (v, id) in st.tlb ==> Lockless(st.sptes[id]) || (st.lock.Held? && st.lock.flush))
  {
    RunKeeps(states, steps, n);
  }

  /** Once the tracking step for a frame has given the lock back, no entry of any level that maps
      the frame is writable and no processor caches a writable translation through one, for as long
      as the frame stays tracked. */
  lemma TrackedIsReadOnly(states: seq<State>, steps: seq<Step>, n: nat, gfn: Gfn, id: SpteId)
    requires IsRun(states, steps) && n < |states|
    requires gfn in states[n].tracked && !TrackJob(states[n].lock, gfn)
    requires id in states[n].sptes && Covers(id, gfn)
    ensures !Writable(states[n].sptes[id]) && !Lockless(states[n].sptes[id])
    ensures forall v :: (v, id) !in states[n].tlb
  {
    RunKeeps(states, steps, n);
  }

  /** Lockless access is only ever given by a store under the lock that set_spte asked for, with the
      host mapping writable, and not if one of the entry's frames is tracked. */
  lemma OnlySetGrants(states: seq<State>, steps: seq<Step>, n: nat, id: SpteId) returns (m: nat)
    requires IsRun(states, steps) && n < |steps| && id in states[n].sptes
    requires !Lockless(states[n].sptes[id]) && id in states[n + 1].sptes && Lockless(states[n + 1].sptes[id])
    ensures steps[n] == Store && !Hot(states[n].tracked, id)
    ensures m < n && steps[m].PickSet? && steps[m].id == id && steps[m].wantWrite && steps[m].hostWritable
    ensures forall i :: m < i <= n ==> states[i].lock.Held? && states[i].lock.pc.Updating? && states[i].lock.pc.id == id
  {
    RunKeeps(states, steps, n);
    GrantIsSet(states[n], steps[n], id);
    m := SetFrom(states, steps, n);
  }

  lemma GrantIsSet(st: State, step: Step, id: SpteId)
    requires Inv(st) && Enabled(st, step) && id in st.sptes && !Lockless(st.sptes[id])
    requires id in Next(st, step).sptes && Lockless(Next(st, step).sptes[id])
    ensures step == Store && !Hot(st.tracked, id)
    ensures st.lock.Held? && st.lock.pc.Updating? && st.lock.pc.id == id && st.lock.pc.origin == BySet && Lockless(st.lock.pc.val)
  {
    hide Hot, Granted, CachedIsLockless, OwedWillFlush, OwedOk, TrackedIsLocked;
  }

  /** An update on behalf of set_spte goes back to the step that built its value. */
  lemma {:induction false} SetFrom(states: seq<State>, steps: seq<Step>, n: nat) returns (m: nat)
    requires IsRun(states, steps) && n < |states| && states[n].lock.Held? && states[n].lock.pc.Updating?
    requires states[n].lock.pc.origin == BySet && Lockless(states[n].lock.pc.val)
    ensures m < n && steps[m].PickSet? && steps[m].id == states[n].lock.pc.id && steps[m].wantWrite && steps[m].hostWritable
    ensures forall i :: m < i <= n ==> states[i].lock.Held? && states[i].lock.pc.Updating? && states[i].lock.pc.id == states[n].lock.pc.id
  {
    assert n > 0;
    UpdateFrom(states[n - 1], steps[n - 1]);
    if steps[n - 1].PickSet? && states[n - 1].lock.Held? && states[n - 1].lock.pc == Ready {
      m := n - 1;
    } else {
      m := SetFrom(states, steps, n - 1);
    }
  }

  lemma UpdateFrom(st: State, step: Step)
    requires Enabled(st, step)
    requires Next(st, step).lock.Held? && Next(st, step).lock.pc.Updating? && Next(st, step).lock.pc.origin == BySet
    ensures var pc := Next(st, step).lock.pc;
            || (step.PickSet? && step.id == pc.id && st.lock.Held? && st.lock.pc == Ready
                && (Lockless(pc.val) ==> step.wantWrite && step.hostWritable))
            || (!step.PickSet? && st.lock.Held? && st.lock.pc.Updating? && st.lock.pc.origin == BySet
                && st.lock.pc.id == pc.id && st.lock.pc.val == pc.val)
  {
  }

  /** Without lockless access a fault cannot make an entry writable. */
  lemma FaultNeedsBothBits(states: seq<State>, steps: seq<Step>, n: nat, id: SpteId)
    requires IsRun(states, steps) && n < |steps| && id in states[n].sptes && steps[n].FaultCas?
    requires !Writable(states[n].sptes[id]) && Writable(states[n + 1].sptes[id])
    ensures Lockless(states[n].sptes[id])
  {
    RunKeeps(states, steps, n);
  }

  // ----- What the steps achieve ------------------------------------------------------------------------

  /** `set_spte` gives lockless write access exactly if it is asked for, the host mapping is writable
      and no frame of the entry is tracked, or if the check is skipped; the entry is writable at once
      unless it is put under access tracking. */
  lemma GrantedExactly(base: Spte, cur: Spte, wantWrite: bool, hostWritable: bool, tracked: bool, speculative: bool, canUnsync: bool)
    requires base.Present?
    ensures var n := Granted(base, cur, wantWrite, hostWritable, tracked, speculative, canUnsync);
            var skip := !canUnsync && Writable(cur);
            && (Lockless(n) <==> wantWrite && hostWritable && (!tracked || skip))
            && (Writable(n) <==> Lockless(n) && (!speculative || base.ad != AdOff || skip))
            && (n.hostW <==> hostWritable) && n.ad == base.ad
  {
  }

  /** Whatever `set_spte` stores, a later fault gets the access that was asked for, and no other:
      access tracking puts it off and loses nothing. */
  lemma FaultGetsGranted(base: Spte, cur: Spte, wantWrite: bool, hostWritable: bool, tracked: bool, speculative: bool, canUnsync: bool)
    requires base.Present?
    ensures var n := Granted(base, cur, wantWrite, hostWritable, tracked, speculative, canUnsync);
            && (Allowed(Read, Fixed(Read, n, true)) <==> base.r)
            && (Allowed(Fetch, Fixed(Fetch, n, true)) <==> base.x)
            && (Allowed(Write, Fixed(Write, n, true)) <==>
                  wantWrite && hostWritable && (!tracked || (!canUnsync && Writable(cur))))
  {
  }

  /** When a fault can be fixed without the lock. */
  lemma FixedExactly(a: Access, s: Spte, small: bool)
    ensures Allowed(a, Fixed(a, s, small)) <==>
              s.Present? && match a
                            case Write => s.w || (s.hostW && s.mmuW && small)
                            case Read => s.r || (s.ad == AdOff && !s.w && !s.x && s.savedR)
                            case Fetch => s.x || (s.ad == AdOff && !s.r && !s.w && s.savedX)
  {
  }

  /** Marking an entry for access tracking and restoring it gives back read and execute access. */
  lemma TrackThenRestore(s: Spte)
    requires s.Present? && s.ad == AdOff && !AccessTrack(s) && !s.savedR && !s.savedX
    ensures AccessTrack(MarkAccessTrack(s))
    ensures RestoreAccessTrack(MarkAccessTrack(s)) == s.(w := false)
  {
  }

  /** The steps can be taken one after the other from `st` and end in `end`. */
  ghost predicate Leads(st: State, steps: seq<Step>, end: State)
    decreases |steps|
  {
    if steps == [] then st == end
    else Enabled(st, steps[0]) && Leads(Next(st, steps[0]), steps[1..], end)
  }

  lemma {:induction false} LeadsStep(st: State, step: Step, steps: seq<Step>, end: State)
    requires Enabled(st, step) && Leads(Next(st, step), steps, end)
    ensures Leads(st, [step] + steps, end)
  {
    hide Enabled, Next;
    assert ([step] + steps)[1..] == steps;
  }

  lemma {:induction false} LeadsFour(st: State, a: Step, b: Step, c: Step, d: Step)
    requires Enabled(st, a) && Enabled(Next(st, a), b) && Enabled(Next(Next(st, a), b), c)
    requires Enabled(Next(Next(Next(st, a), b), c), d)
    ensures Leads(st, [a, b, c, d], Next(Next(Next(Next(st, a), b), c), d))
  {
    hide Enabled, Next;
    var end := Next(Next(Next(Next(st, a), b), c), d);
    LeadsStep(Next(Next(Next(st, a), b), c), d, [], end);
    LeadsStep(Next(Next(st, a), b), c, [d], end);
    LeadsStep(Next(st, a), b, [c, d], end);
    LeadsStep(st, a, [b, c, d], end);
  }

  /** An update that nobody disturbs stores its value. */
  lemma {:induction false} UpdateStores(st: State)
    requires st.lock.Held? && st.lock.pc.Updating? && !st.lock.pc.loaded && st.lock.pc.id in st.sptes && st.lock.pc.val.Present?
    ensures Enabled(st, LoadOld) && Enabled(Next(st, LoadOld), Store)
    ensures var pc, end := st.lock.pc, Next(Next(st, LoadOld), Store);
            && end.sptes == st.sptes[pc.id := pc.val]
            && end.tlb == st.tlb && end.cpus == st.cpus && end.tracked == st.tracked && end.lateFlush == st.lateFlush
            && end.lock == Held(st.lock.job, Ready, st.lock.flush || (pc.origin != ByAge && NeedsFlush(st.sptes[pc.id], pc.val)))
  {
    hide Granted, Hot, Fixed, NeedsFlush, Volatile, Lockless, MarkAccessTrack;
  }

  /** Taking the lock and setting one entry stores what `set_spte` built for it, and touches no other. */
  lemma {:induction false} SetStores(st: State, id: SpteId, base: Spte, wantWrite: bool, hostWritable: bool, speculative: bool,
                                     canUnsync: bool, noLarge: bool) returns (end: State)
    requires st.lock == Free && id in st.sptes && base.Present?
    requires id.level <= 1 || !wantWrite || !hostWritable || !(noLarge || Hot(st.tracked, id))
    ensures Leads(st, [StartSingle, PickSet(id, base, wantWrite, hostWritable, speculative, canUnsync, noLarge), LoadOld, Store], end)
    ensures end.sptes == st.sptes[id := Granted(base, st.sptes[id], wantWrite, hostWritable, Hot(st.tracked, id), speculative, canUnsync)]
    ensures end.sptes[id].Present? && end.lock == Held(Single, Ready, NeedsFlush(st.sptes[id], end.sptes[id]))
    ensures end.tlb == st.tlb && end.tracked == st.tracked
  {
    hide Leads, Granted, Hot, Fixed, NeedsFlush, Volatile, Lockless, MarkAccessTrack, Put;
    var pick := PickSet(id, base, wantWrite, hostWritable, speculative, canUnsync, noLarge);
    var s2 := Next(Next(st, StartSingle), pick);
    UpdateStores(s2);
    end := Next(Next(s2, LoadOld), Store);
    LeadsFour(st, StartSingle, pick, LoadOld, Store);
  }

  /** Dirty logging takes write access to a small page away and asks for a flush. */
  lemma {:induction false} LogStores(st: State, id: SpteId) returns (end: State)
    requires st.lock == Free && id in st.sptes && Writable(st.sptes[id]) && Lockless(st.sptes[id])
    ensures Leads(st, [StartLog({id}), PickProtect(id), LoadOld, Store], end)
    ensures end.sptes == st.sptes[id := st.sptes[id].(w := false)]
    ensures end.lock == Held(Protect(false, 0, {}), Ready, true)
  {
    hide Leads, Granted, Hot, Fixed, Volatile, MarkAccessTrack, Put;
    var s1 := Next(st, StartLog({id}));
    assert {id} - {id} == {};
    var s2 := Next(s1, PickProtect(id));
    UpdateStores(s2);
    end := Next(Next(s2, LoadOld), Store);
    LeadsFour(st, StartLog({id}), PickProtect(id), LoadOld, Store);
  }

  lemma {:induction false} FlushThenFault(st: State, id: SpteId, v: Vcpu) returns (end: State)
    requires st.lock == Held(Protect(false, 0, {}), Ready, true)
    requires id in st.sptes && id.level <= 1 && Lockless(st.sptes[id]) && !Writable(st.sptes[id])
    ensures Leads(st, [Flush, Unlock, FaultLoad(v, id, Write), FaultCas(v)], end)
    ensures end.sptes == st.sptes[id := Fixed(Write, st.sptes[id], true)] && end.lock == Free && end.tlb == {}
  {
    hide Leads, Hot, Granted, Fixed, Put, Volatile, MarkAccessTrack, RestoreAccessTrack;
    FixedExactly(Write, st.sptes[id], true);
    var s1 := Next(st, Flush);
    var s2 := Next(s1, Unlock);
    var s3 := Next(s2, FaultLoad(v, id, Write));
    end := Next(s3, FaultCas(v));
    LeadsFour(st, Flush, Unlock, FaultLoad(v, id, Write), FaultCas(v));
  }

  /** After dirty logging took write access to a small page away, the next write fault of any vCPU
      gives it back without the lock; the entry is then as it was, unless it allowed nothing but
      writes. */
  lemma {:induction false} LogThenFault(st: State, id: SpteId, v: Vcpu) returns (mid: State, end: State)
    requires Inv(st) && st.lock == Free && id in st.sptes && id.level <= 1 && Writable(st.sptes[id])
    ensures Leads(st, [StartLog({id}), PickProtect(id), LoadOld, Store], mid)
    ensures mid.sptes == st.sptes[id := st.sptes[id].(w := false)] && mid.lock.Held? && mid.lock.flush
    ensures Leads(mid, [Flush, Unlock, FaultLoad(v, id, Write), FaultCas(v)], end)
    ensures id in end.sptes && end.sptes == st.sptes[id := end.sptes[id]] && Writable(end.sptes[id]) && end.lock == Free && end.tlb == {}
    ensures st.sptes[id].r || st.sptes[id].x || st.sptes[id].ad != AdOff ==> end.sptes == st.sptes
  {
    hide Leads, Hot, Granted, Next, Enabled;
    assert Lockless(st.sptes[id]);
    mid := LogStores(st, id);
    end := FlushThenFault(mid, id, v);
  }

  /** Every state that a run and further steps lead to is the end of a run. */
  lemma {:induction false} LeadsRun(states: seq<State>, steps: seq<Step>, more: seq<Step>, end: State) returns (all: seq<State>)
    requires IsRun(states, steps) && Leads(states[|steps|], more, end)
    ensures IsRun(all, steps + more) && all[|steps + more|] == end && states <= all
    decreases |more|
  {
    hide Enabled, Next, Init;
    if more == [] {
      all := states;
      assert steps + more == steps;
    } else {
      var next := Next(states[|steps|], more[0]);
      all := LeadsRun(states + [next], steps + [more[0]], more[1..], end);
      assert steps + [more[0]] + more[1..] == steps + more;
    }
  }

  /** There are runs in which a frame becomes writable, loses write access to dirty logging and gets
      it back from a fault. */
  lemma {:induction false} WritableAgain(id: SpteId, v: Vcpu) returns (states: seq<State>, steps: seq<Step>, a: nat, b: nat)
    requires id.level <= 1
    ensures IsRun(states, steps) && a < b < |steps| && id in states[a].sptes && id in states[b].sptes && id in states[|steps|].sptes
    ensures Writable(states[a].sptes[id]) && !Writable(states[b].sptes[id]) && Writable(states[|steps|].sptes[id])
    ensures forall i :: b <= i < |steps| ==> !steps[i].PickSet?
  {
    hide Leads, Granted, Next, Enabled;
    var st := State(map[id := NonPresent], {}, map[], Free, {}, false, {});
    var base := Present(true, false, true, false, false, false, false, AdOn, false, false);
    GrantedExactly(base, NonPresent, true, true, Hot({}, id), false, true);
    var set1 := [StartSingle, PickSet(id, base, true, true, false, true, false), LoadOld, Store];
    var s1 := SetStores(st, id, base, true, true, false, true, false);
    var st1 := LeadsRun([st], [], set1, s1);
    assert [] + set1 == set1;
    var s2 := Unlocked(s1);
    var st2 := LeadsRun(st1, set1, [Unlock], s2);
    var pre := set1 + [Unlock];
    RunKeeps(st2, pre, |pre|);
    var log := [StartLog({id}), PickProtect(id), LoadOld, Store];
    var fault := [Flush, Unlock, FaultLoad(v, id, Write), FaultCas(v)];
    var mid, end := LogThenFault(s2, id, v);
    var st3 := LeadsRun(st2, pre, log, mid);
    states := LeadsRun(st3, pre + log, fault, end);
    steps := pre + log + fault;
    a, b := |pre|, |pre + log|;
  }

  lemma {:induction false} Unlocked(st: State) returns (end: State)
    requires st.lock == Held(Single, Ready, false)
    ensures Leads(st, [Unlock], end) && end.sptes == st.sptes && end.lock == Free
  {
    hide Leads, Granted, Fixed, Hot, Put;
    end := Next(st, Unlock);
    LeadsNone(end);
    LeadsStep(st, Unlock, [], end);
    assert [Unlock] + [] == [Unlock];
  }

  lemma {:induction false} LeadsNone(st: State)
    ensures Leads(st, [], st)
  {
  }
}
