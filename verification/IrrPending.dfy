/**
 The lock-free `irr_pending` hint: any number of threads set request bits while the vCPU clears
 one, each memory access being a step of its own, including every word the vCPU scans.
 */
module IrrPending {

  type Thread = nat
  type Vector = v: nat | v < 256

  const LAST_WORD: nat := 7

  /** kvm_lapic_set_irr between its two stores. */
  datatype Setter = Idle | BitSet

  /** apic_clear_irr: after dropping the hint, while scanning word `k`, and after a hit. */
  datatype Clearer = Resting | HintDropped(v: Vector) | Scanning(k: nat) | Hit

  datatype State = State(irr: set<Vector>, pending: bool, setters: map<Thread, Setter>, clearer: Clearer)

  datatype Step =
    | SetBit(t: Thread, v: Vector)
    | SetHint(t: Thread)
    | DropHint(v: Vector)
    | ClearBit
    | ScanWord
    | RaiseHint

  function Word(v: Vector): nat {
    v / 32
  }

  predicate WordEmpty(irr: set<Vector>, k: nat) {
    forall v :: v in irr ==> Word(v) != k
  }

  predicate Enabled(st: State, step: Step) {
    match step
    case SetBit(t, _) => t !in st.setters || st.setters[t] == Idle
    case SetHint(t) => t in st.setters && st.setters[t] == BitSet
    case DropHint(_) => st.clearer == Resting
    case ClearBit => st.clearer.HintDropped?
    case ScanWord => st.clearer.Scanning? && st.clearer.k <= LAST_WORD
    case RaiseHint => st.clearer == Hit
  }

  function Next(st: State, step: Step): State
    requires Enabled(st, step)
  {
    match step
    case SetBit(t, v) => st.(irr := st.irr + {v}, setters := st.setters[t := BitSet])
    case SetHint(t) => st.(pending := true, setters := st.setters[t := Idle])
    case DropHint(v) => st.(pending := false, clearer := HintDropped(v))
    case ClearBit => st.(irr := st.irr - {st.clearer.v}, clearer := Scanning(LAST_WORD))
    case ScanWord =>
      var k := st.clearer.k;
      if !WordEmpty(st.irr, k) then st.(clearer := Hit)
      else if k == 0 then st.(clearer := Resting)
      else st.(clearer := Scanning(k - 1))
    case RaiseHint => st.(pending := true, clearer := Resting)
  }

  /** Every thread is between calls. */
  ghost predicate Quiescent(st: State) {
    st.clearer == Resting && forall t :: t in st.setters ==> st.setters[t] == Idle
  }

  /** The vCPU will still see a request bit that is there now. */
  ghost predicate WillHit(st: State) {
    match st.clearer
    case Resting => false
    case HintDropped(_) => true
    case Scanning(k) => exists v :: v in st.irr && Word(v) <= k
    case Hit => true
  }

  /** A request without the hint has someone who will raise it. */
  ghost predicate Inv(st: State) {
    && (st.clearer.Scanning? ==> st.clearer.k <= LAST_WORD)
    && (st.irr != {} ==>
          || st.pending
          || (exists t :: t in st.setters && st.setters[t] == BitSet)
          || WillHit(st))
  }

  lemma StepKeeps(st: State, step: Step)
    requires Inv(st) && Enabled(st, step)
    ensures Inv(Next(st, step))
  {
    var st' := Next(st, step);
    match step
    case SetBit(t, v) =>
      assert st'.setters[t] == BitSet;
    case SetHint(t) =>
    case DropHint(v) =>
    case ClearBit =>
      if st'.irr != {} {
        var v :| v in st'.irr;
        assert Word(v) <= LAST_WORD;
      }
    case ScanWord =>
      if st'.irr != {} && !st.pending && WillHit(st) {
        var v :| v in st.irr && Word(v) <= st.clearer.k;
        assert WordEmpty(st.irr, st.clearer.k) ==> Word(v) < st.clearer.k;
      } else if st'.irr != {} && !st.pending {
        var t :| t in st.setters && st.setters[t] == BitSet;
        assert t in st'.setters;
      }
    case RaiseHint =>
  }

  /** Any interleaving from a state in which a request implies the hint. */
  ghost predicate IsRun(states: seq<State>, steps: seq<Step>) {
    && |states| == |steps| + 1
    && Quiescent(states[0]) && (states[0].irr != {} ==> states[0].pending)
    && forall i :: 0 <= i < |steps| ==> Enabled(states[i], steps[i]) && states[i + 1] == Next(states[i], steps[i])
  }

  lemma {:induction false} RunKeeps(states: seq<State>, steps: seq<Step>, n: nat)
    requires IsRun(states, steps) && n < |states|
    ensures Inv(states[n])
  {
    hide Inv, Next, Enabled;
    if n == 0 {
      QuiescentInv(states[0]);
    } else {
      RunKeeps(states, steps, n - 1);
      StepKeeps(states[n - 1], steps[n - 1]);
    }
  }

  lemma QuiescentInv(st: State)
    requires Quiescent(st)
    ensures Inv(st) <==> (st.irr != {} ==> st.pending)
  {
  }

  /** Once every caller has finished, a non-empty request register has the hint set. */
  lemma HintNotLost(states: seq<State>, steps: seq<Step>, n: nat)
    requires IsRun(states, steps) && n < |states| && Quiescent(states[n])
    ensures states[n].irr != {} ==> states[n].pending
  {
    RunKeeps(states, steps, n);
    QuiescentInv(states[n]);
  }
}
