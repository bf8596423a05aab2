/**
 Reinjection of PIT interrupts: the timer callback, the worker and any number of acknowledging
 vCPUs, as interleaved atomic steps on `pending`, `irq_ack` and the work queue.
 */
module Pit {

  datatype Timer = Armed | AboutToQueue

  datatype Worker = Waiting | BeforeExchange

  /** An acknowledging vCPU: it has set irq_ack, or has drained a tick and must queue the work. */
  datatype Ack = HasSet | MustQueue

  /**
   Shared words, thread positions, and counts of what has happened: ticks counted in `pending`,
   ticks drained from it, acknowledgements begun, those among them that found `irq_ack` clear, and
   interrupts injected.
   */
  datatype State = State(
    reinject: bool,
    pending: nat,
    irqAck: bool,
    queued: bool,
    timer: Timer,
    worker: Worker,
    acks: map<nat, Ack>,
    ticks: nat,
    drained: nat,
    acked: nat,
    answered: nat,
    injected: nat)

  datatype Step =
    | TimerCount        // pit_timer_fn: count the tick when reinjecting
    | TimerQueue        // pit_timer_fn: queue the work
    | WorkerTake        // the worker picks up the queued work
    | WorkerExchange    // pit_do_work: exchange irq_ack and inject
    | AckSet(v: nat)    // kvm_pit_ack_irq: set irq_ack
    | AckDrain(v: nat)  // kvm_pit_ack_irq: atomic_dec_if_positive
    | AckQueue(v: nat)  // kvm_pit_ack_irq: queue the work

  predicate Enabled(s: State, step: Step) {
    match step
    case TimerCount => s.timer.Armed?
    case TimerQueue => s.timer.AboutToQueue?
    case WorkerTake => s.worker.Waiting? && s.queued
    case WorkerExchange => s.worker.BeforeExchange?
    case AckSet(v) => v !in s.acks
    case AckDrain(v) => v in s.acks && s.acks[v].HasSet?
    case AckQueue(v) => v in s.acks && s.acks[v].MustQueue?
  }

  function Next(s: State, step: Step): State
    requires Enabled(s, step)
  {
    match step
    case TimerCount =>
      var t := if s.reinject then s.(pending := s.pending + 1, ticks := s.ticks + 1) else s;
      t.(timer := AboutToQueue)
    case TimerQueue => s.(timer := Armed, queued := true)
    case WorkerTake => s.(worker := BeforeExchange, queued := false)
    case WorkerExchange =>
      var t := s.(worker := Waiting);
      if s.reinject && !s.irqAck then t
      else if s.reinject then t.(irqAck := false, injected := s.injected + 1)
      else t.(injected := s.injected + 1)
    case AckSet(v) =>
      s.(irqAck := true, acks := s.acks[v := HasSet], acked := s.acked + 1, answered := s.answered + if s.irqAck then 0 else 1)
    case AckDrain(v) =>
      if s.pending == 0 then s.(acks := s.acks - {v})
      else
        var t := s.(pending := s.pending - 1, drained := s.drained + 1);
        if t.pending > 0 then t.(acks := s.acks[v := MustQueue]) else t.(acks := s.acks - {v})
    case AckQueue(v) => s.(queued := true, acks := s.acks - {v})
  }

  /** kvm_pit_reset_reinject, with nothing in flight. */
  function Init(reinject: bool): State {
    State(reinject, 0, true, false, Armed, Waiting, map[], 0, 0, 0, 0, 0)
  }

  /** Someone will still run the work, queue it, or look at `pending` again. */
  ghost predicate WakeupComing(s: State) {
    || s.queued
    || s.worker.BeforeExchange?
    || s.timer.AboutToQueue?
    || exists v :: v in s.acks
  }

  /** No wakeup is lost. */
  ghost predicate NoLostWakeup(s: State) {
    s.irqAck && s.pending > 0 ==> WakeupComing(s)
  }

  /** Every tick is pending or drained, and every injection but the first used up one acknowledgement
      of the one before. */
  ghost predicate Accounted(s: State) {
    && s.ticks == s.pending + s.drained
    && s.drained <= s.acked
    && s.answered <= s.acked
    && (s.reinject ==> s.injected + (if s.irqAck then 1 else 0) == s.answered + 1)
    && (!s.reinject ==> s.pending == 0)
  }

  /** An acknowledgement that has not drained yet accounts for one not counted in `drained`. */
  ghost predicate Inv(s: State) {
    && NoLostWakeup(s)
    && Accounted(s)
    && s.drained + |Undrained(s)| <= s.acked
  }

  ghost function Undrained(s: State): set<nat> {
    set v | v in s.acks && s.acks[v].HasSet?
  }

  lemma StepKeeps(s: State, step: Step)
    requires Inv(s) && Enabled(s, step)
    ensures Inv(Next(s, step))
  {
    var t := Next(s, step);
    UndrainedAfter(s, step);
    match step
    case AckSet(v) => assert v in t.acks;
    case AckDrain(v) => assert t.pending > 0 ==> s.pending > 0 && v in t.acks;
    case AckQueue(v) =>
    case _ => assert forall v :: v in s.acks ==> v in t.acks;
  }

  lemma UndrainedAfter(s: State, step: Step)
    requires Enabled(s, step)
    ensures Undrained(Next(s, step)) ==
      match step
      case AckSet(v) => Undrained(s) + {v}
      case AckDrain(v) => Undrained(s) - {v}
      case _ => Undrained(s)
    ensures step.AckSet? ==> step.v !in Undrained(s)
    ensures step.AckDrain? ==> step.v in Undrained(s)
  {
  }

  ghost predicate IsRun(states: seq<State>, steps: seq<Step>) {
    && |states| == |steps| + 1
    && (exists r :: states[0] == Init(r))
    && forall i :: 0 <= i < |steps| ==> Enabled(states[i], steps[i]) && states[i + 1] == Next(states[i], steps[i])
  }

  lemma {:induction false} RunKeeps(states: seq<State>, steps: seq<Step>, n: nat)
    requires IsRun(states, steps) && n <= |steps|
    ensures Inv(states[n])
  {
    if n == 0 {
      var r :| states[0] == Init(r);
      assert Undrained(states[0]) == {};
    } else {
      RunKeeps(states, steps, n - 1);
      StepKeeps(states[n - 1], steps[n - 1]);
    }
  }

  /**
   Whenever every thread has finished its callback and the queue is empty, a tick that is still
   pending is waiting for an acknowledgement. When reinjecting, the interrupts injected are exactly
   the acknowledgements that found `irq_ack` clear, and one more while an interrupt is unanswered.
   */
  lemma QuietMeansWaiting(states: seq<State>, steps: seq<Step>, n: nat)
    requires IsRun(states, steps) && n <= |steps|
    ensures !WakeupComing(states[n]) && states[n].pending > 0 ==> !states[n].irqAck
    ensures states[n].ticks == states[n].pending + states[n].drained
    ensures states[n].drained <= states[n].acked
    ensures states[n].answered <= states[n].acked
    ensures states[0].reinject ==> states[n].injected == states[n].answered + if states[n].irqAck then 0 else 1
  {
    RunKeeps(states, steps, n);
    ModeConstant(states, steps, n);
  }

  lemma {:induction false} ModeConstant(states: seq<State>, steps: seq<Step>, n: nat)
    requires IsRun(states, steps) && n <= |steps|
    ensures states[n].reinject == states[0].reinject
  {
    if n > 0 {
      ModeConstant(states, steps, n - 1);
    }
  }
}
