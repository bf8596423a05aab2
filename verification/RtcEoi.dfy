/** Tracking of end-of-interrupt for the RTC pin of the IOAPIC. */
module RtcEoi {

  const RTC_GSI: nat := 8
  const NUM_PINS: nat := 24

  datatype DeliveryMode = Fixed | LowestPriority | OtherMode

  /** The fields of a redirection entry that the tracking depends on. */
  datatype Entry = Entry(vector: nat, mode: DeliveryMode, levelTriggered: bool, remoteIrr: bool, masked: bool)

  /**
   What kvm_irq_delivery_to_apic meets: whether any local APIC matched the destination, and the
   vCPUs whose local APIC accepted.
   */
  datatype Targets = Targets(matched: bool, accepted: set<nat>) {
    function Ret(): int { if matched then |accepted| else -1 }
    ghost predicate Wf() { !matched ==> accepted == {} }
  }

  predicate Tracks(mode: DeliveryMode) {
    mode.Fixed? || mode.LowestPriority?
  }

  /** One call from outside, with what the vCPUs look like at that moment. */
  datatype Op =
    | SetIrq(irq: nat, level: bool, lineStatus: bool, targets: Targets)
    | UpdateEoi(vcpu: nat, vec: nat)
    | RestoreOne(v: nat, matchesDest: bool, pending: bool)
    | SetState(irr: set<nat>, table: seq<Entry>, at: map<nat, Targets>, vcpus: seq<nat>, matching: set<nat>, waiting: set<nat>)
    | WriteEntry(pin: nat, entry: Entry, reached: Targets)
    | Reset

  ghost predicate OpWf(op: Op) {
    match op
    case SetIrq(irq, _, _, targets) => irq < NUM_PINS && targets.Wf()
    case SetState(irr, table, at, _, _, _) =>
      |table| == NUM_PINS && forall i :: 0 <= i < NUM_PINS ==> i in at && at[i].Wf()
    case WriteEntry(pin, _, reached) => pin < NUM_PINS && reached.Wf()
    case _ => true
  }

  /** The operation does not program the RTC pin to a mode that marks nobody. */
  ghost predicate KeepsMode(op: Op) {
    && (op.WriteEntry? && op.pin == RTC_GSI ==> Tracks(op.entry.mode))
    && (op.SetState? && RTC_GSI < |op.table| ==> Tracks(op.table[RTC_GSI].mode))
  }

  /** Every mark was made for the vector. */
  ghost predicate MarkedWith(destMap: set<nat>, vectors: map<nat, nat>, vec: nat) {
    forall v :: v in destMap ==> v in vectors && vectors[v] == vec
  }

  /** Entries differ at most in the remote-IRR bit. */
  ghost predicate SameButRemote(t: seq<Entry>, t': seq<Entry>) {
    |t| == |t'| && forall i :: 0 <= i < |t| ==> t'[i] == t[i].(remoteIrr := t'[i].remoteIrr)
  }

  lemma MarkedNone(vectors: map<nat, nat>, vec: nat)
    ensures MarkedWith({}, vectors, vec)
  {
  }

  lemma MarkedStep(destMap: set<nat>, vectors: map<nat, nat>, vec: nat, v: nat)
    requires MarkedWith(destMap, vectors, vec)
    ensures MarkedWith(destMap - {v}, vectors, vec) && MarkedWith(destMap + {v}, vectors[v := vec], vec)
    ensures v in destMap ==> destMap + {v} == destMap
  {
  }

  class Ioapic {
    var irr: set<nat>
    var irrDelivered: set<nat>
    var redirtbl: seq<Entry>
    var pendingEoi: int
    var destMap: set<nat>
    var vectors: map<nat, nat>

    /** The count never drops below the number of marked vCPUs, so it is never negative. */
    ghost predicate Valid()
      reads this
    {
      && |redirtbl| == NUM_PINS
      && pendingEoi >= |destMap|
      && destMap <= vectors.Keys
    }

    /** The count is exact. */
    ghost predicate Exact()
      reads this
    {
      pendingEoi == |destMap|
    }

    constructor ()
      ensures Valid() && Exact() && destMap == {} && irr == {}
    {
      redirtbl := seq(NUM_PINS, _ => Entry(0, Fixed, false, false, true));
      irr, irrDelivered, pendingEoi, destMap, vectors := {}, {}, 0, {}, map[];
    }

    /** rtc_irq_eoi_tracking_reset */
    method TrackingReset()
      modifies this`pendingEoi, this`destMap
      ensures pendingEoi == 0 && destMap == {}
    {
      pendingEoi, destMap := 0, {};
    }

    /** __rtc_irq_eoi_tracking_restore_one */
    method TrackOne(v: nat, matchesDest: bool, pending: bool)
      requires Valid()
      modifies this`pendingEoi, this`destMap, this`vectors
      ensures Valid()
      ensures destMap == if !matchesDest then old(destMap) else if pending then old(destMap) + {v} else old(destMap) - {v}
      ensures vectors == if matchesDest && pending && v !in old(destMap) then old(vectors)[v := redirtbl[RTC_GSI].vector] else old(vectors)
      ensures pendingEoi - |destMap| == old(pendingEoi - |destMap|)
    {
      if !matchesDest || pending == (v in destMap) {
        return;
      }
      if pending {
        destMap := destMap + {v};
        vectors := vectors[v := redirtbl[RTC_GSI].vector];
        pendingEoi := pendingEoi + 1;
      } else {
        destMap := destMap - {v};
        pendingEoi := pendingEoi - 1;
        assert pendingEoi >= 0;
      }
    }

    /** kvm_rtc_eoi_tracking_restore_all: the marks are rebuilt from what the vCPUs still owe. */
    method RestoreAll(vcpus: seq<nat>, matching: set<nat>, waiting: set<nat>)
      requires |redirtbl| == NUM_PINS
      modifies this`pendingEoi, this`destMap, this`vectors
      ensures Valid() && Exact()
      ensures destMap == set v | v in vcpus && v in matching && v in waiting
      ensures MarkedWith(destMap, vectors, redirtbl[RTC_GSI].vector)
    {
      hide MarkedWith;
      TrackingReset();
      MarkedNone(vectors, redirtbl[RTC_GSI].vector);
      for i := 0 to |vcpus|
        invariant Valid() && Exact()
        invariant MarkedWith(destMap, vectors, redirtbl[RTC_GSI].vector)
        invariant destMap == set v | v in vcpus[..i] && v in matching && v in waiting
      {
        assert vcpus[..i + 1] == vcpus[..i] + [vcpus[i]];
        MarkedStep(destMap, vectors, redirtbl[RTC_GSI].vector, vcpus[i]);
        TrackOne(vcpus[i], vcpus[i] in matching, vcpus[i] in waiting);
      }
      assert vcpus[..|vcpus|] == vcpus;
    }

    /** rtc_irq_eoi */
    method Eoi(v: nat)
      requires Valid()
      modifies this`pendingEoi, this`destMap
      ensures Valid() && destMap == old(destMap) - {v}
      ensures pendingEoi - |destMap| == old(pendingEoi - |destMap|)
    {
      if v in destMap {
        destMap := destMap - {v};
        pendingEoi := pendingEoi - 1;
        assert pendingEoi >= 0;
      }
    }

    /** The RTC part of __kvm_ioapic_update_eoi: only the vector that was sent clears the mark. */
    method DoUpdateEoi(v: nat, vec: nat)
      requires Valid()
      modifies this`pendingEoi, this`destMap
      ensures Valid()
      ensures destMap == if v in old(destMap) && vectors[v] == vec then old(destMap) - {v} else old(destMap)
      ensures pendingEoi - |destMap| == old(pendingEoi - |destMap|)
    {
      if v in destMap && vec == vectors[v] {
        Eoi(v);
      }
    }

    /** End-of-interrupts for one vector, one after the other: the marks made for that vector go. */
    method UpdateEois(vcpus: seq<nat>, vec: nat)
      requires Valid()
      modifies this`pendingEoi, this`destMap
      ensures Valid() && pendingEoi - |destMap| == old(pendingEoi - |destMap|)
      ensures destMap == set v | v in old(destMap) && !(v in vcpus && vectors[v] == vec)
    {
      for i := 0 to |vcpus|
        invariant Valid() && pendingEoi - |destMap| == old(pendingEoi - |destMap|)
        invariant destMap == set v | v in old(destMap) && !(v in vcpus[..i] && vectors[v] == vec)
      {
        assert vcpus[..i + 1] == vcpus[..i] + [vcpus[i]];
        DoUpdateEoi(vcpus[i], vec);
      }
      assert vcpus[..|vcpus|] == vcpus;
    }

    /** Does ioapic_service get as far as the local APICs? */
    predicate Delivers(irq: nat)
      requires irq < |redirtbl|
      reads this
    {
      !redirtbl[irq].masked && !(redirtbl[irq].levelTriggered && redirtbl[irq].remoteIrr)
    }

    /** The part of the delivery that counts and marks the acceptors of the RTC interrupt. */
    method MarkAcceptors(entry: Entry, targets: Targets)
      requires Valid() && targets.Wf() && pendingEoi == 0
      modifies this`pendingEoi, this`destMap, this`vectors
      ensures Valid() && pendingEoi == |targets.accepted|
      ensures destMap == if Tracks(entry.mode) then targets.accepted else {}
      ensures vectors == if Tracks(entry.mode) then old(vectors) + (map v | v in targets.accepted :: entry.vector) else old(vectors)
      ensures Exact() <==> Tracks(entry.mode) || targets.accepted == {}
    {
      EmptyMap(destMap);
      if Tracks(entry.mode) {
        destMap := destMap + targets.accepted;
        vectors := vectors + map v | v in targets.accepted :: entry.vector;
      }
      pendingEoi := if targets.Ret() < 0 then 0 else targets.Ret();
      EmptyMap(targets.accepted);
    }

    /**
     ioapic_service. The caller establishes that no end-of-interrupt is outstanding for a tracked
     delivery, and then the count is exact afterwards if and only if nobody accepted or the delivery
     mode marks the acceptors.
     */
    method Service(irq: nat, lineStatus: bool, targets: Targets) returns (ret: int)
      requires Valid() && irq < NUM_PINS && targets.Wf()
      requires irq == RTC_GSI && lineStatus ==> pendingEoi == 0
      modifies this`irrDelivered, this`redirtbl, this`pendingEoi, this`destMap, this`vectors
      ensures Valid() && ret == if old(Delivers(irq)) then targets.Ret() else -1
      ensures !(irq == RTC_GSI && lineStatus && old(Delivers(irq))) ==>
                pendingEoi == old(pendingEoi) && destMap == old(destMap) && vectors == old(vectors)
      ensures irq == RTC_GSI && lineStatus && old(Delivers(irq)) ==>
                && destMap == (if Tracks(old(redirtbl[irq].mode)) then targets.accepted else {})
                && pendingEoi == |targets.accepted|
                && vectors == (if Tracks(old(redirtbl[irq].mode)) then old(vectors) + (map v | v in targets.accepted :: old(redirtbl[irq].vector))
                               else old(vectors))
                && (Exact() <==> Tracks(old(redirtbl[irq].mode)) || targets.accepted == {})
      ensures irrDelivered == if old(Delivers(irq)) && !old(redirtbl[irq].levelTriggered) then old(irrDelivered) + {irq} else old(irrDelivered)
      ensures redirtbl == old(redirtbl)[irq := old(redirtbl[irq]).(remoteIrr := old(redirtbl[irq]).remoteIrr
                || (old(redirtbl[irq]).levelTriggered && old(Delivers(irq)) && targets.Ret() != 0))]
    {
      var entry := redirtbl[irq];
      if entry.masked || (entry.levelTriggered && entry.remoteIrr) {
        return -1;
      }
      if !entry.levelTriggered {
        irrDelivered := irrDelivered + {irq};
      }
      ret := targets.Ret();
      if irq == RTC_GSI && lineStatus {
        MarkAcceptors(entry, targets);
      }
      if ret != 0 && entry.levelTriggered {
        redirtbl := redirtbl[irq := entry.(remoteIrr := true)];
      }
    }

    /** ioapic_set_irq: an outstanding RTC interrupt coalesces and changes nothing. */
    method DoSetIrq(irq: nat, level: bool, lineStatus: bool, targets: Targets) returns (ret: int)
      requires Valid() && irq < NUM_PINS && targets.Wf()
      modifies this
      ensures Valid()
      ensures level && irq == RTC_GSI && lineStatus && old(pendingEoi) > 0 ==>
                ret == 0 && pendingEoi == old(pendingEoi) && destMap == old(destMap) && irr == old(irr)
      ensures level && !(irq == RTC_GSI && lineStatus && old(pendingEoi) > 0) ==>
                && irr == old(irr) + {irq}
                && ret == (if !old(redirtbl[irq].levelTriggered) && irq in old(irr) then 0
                           else if old(Delivers(irq)) then targets.Ret() else -1)
      ensures irq != RTC_GSI || !lineStatus ==> pendingEoi == old(pendingEoi) && destMap == old(destMap)
      ensures level && irq == RTC_GSI && lineStatus && old(pendingEoi) == 0 && old(Delivers(irq))
                && (old(redirtbl[irq].levelTriggered) || irq !in old(irr)) ==>
                && pendingEoi == |targets.accepted| && destMap == (if Tracks(old(redirtbl[irq].mode)) then targets.accepted else {})
                && MarkedWith(destMap, vectors, old(redirtbl[irq].vector))
      ensures !level ==> ret == 1 && irr == old(irr) - {irq} && pendingEoi == old(pendingEoi) && destMap == old(destMap)
      ensures irq in irrDelivered <==>
                if level && !old(redirtbl[irq].levelTriggered) && !(irq == RTC_GSI && lineStatus && old(pendingEoi) > 0)
                then irq !in old(irr) && old(Delivers(irq)) else irq in old(irrDelivered)
      ensures old(Exact()) && (Tracks(old(redirtbl[RTC_GSI].mode)) || targets.accepted == {}) ==> Exact()
      ensures SameButRemote(old(redirtbl), redirtbl)
    {
      if !level {
        irr := irr - {irq};
        return 1;
      }
      if irq == RTC_GSI && lineStatus && pendingEoi > 0 {
        return 0;
      }
      var before := irr;
      irr := irr + {irq};
      if !redirtbl[irq].levelTriggered {
        irrDelivered := irrDelivered - {irq};
        if before == irr {
          return 0;
        }
      }
      ret := Service(irq, lineStatus, targets);
    }

    /** kvm_ioapic_inject_all, after the table has been loaded: the lines in `pins` are up. */
    method InjectAll(pins: set<nat>, at: map<nat, Targets>, vcpus: seq<nat>, matching: set<nat>, waiting: set<nat>)
      requires |redirtbl| == NUM_PINS
      requires forall i :: 0 <= i < NUM_PINS ==> i in at && at[i].Wf()
      modifies this
      ensures Valid() && Exact()
      ensures destMap == set v | v in vcpus && v in matching && v in waiting
      ensures irr == old(irr) + set i | i in pins && i < NUM_PINS
      ensures SameButRemote(old(redirtbl), redirtbl)
    {
      TrackingReset();
      for idx := 0 to NUM_PINS
        invariant Valid() && (idx <= RTC_GSI ==> pendingEoi == 0)
        invariant irr == old(irr) + set i | i in pins && i < idx
        invariant SameButRemote(old(redirtbl), redirtbl)
      {
        if idx in pins {
          var _ := DoSetIrq(idx, true, true, at[idx]);
        }
      }
      RestoreAll(vcpus, matching, waiting);
    }

    /** ioapic_write_indirect on a redirection entry: the read-only bit is kept unless the entry is edge
        triggered, and a line that is up is serviced if it is level triggered. The tracking is not touched. */
    method DoWriteEntry(pin: nat, entry: Entry, reached: Targets)
      requires Valid() && pin < NUM_PINS && reached.Wf()
      modifies this`irrDelivered, this`redirtbl, this`pendingEoi, this`destMap, this`vectors
      ensures Valid() && pendingEoi == old(pendingEoi) && destMap == old(destMap)
      ensures redirtbl == old(redirtbl)[pin := entry.(remoteIrr := entry.levelTriggered
                && (old(redirtbl[pin]).remoteIrr || (pin in irr && !entry.masked && reached.Ret() != 0)))]
    {
      redirtbl := redirtbl[pin := entry.(remoteIrr := entry.levelTriggered && redirtbl[pin].remoteIrr)];
      if entry.levelTriggered && pin in irr {
        var _ := Service(pin, false, reached);
      }
    }

    /** One operation; it can only upset the count by delivering in a mode that marks nobody. */
    method Do(op: Op)
      requires Valid() && OpWf(op)
      modifies this
      ensures Valid()
      ensures old(Exact()) && !(op.SetIrq? && !Tracks(old(redirtbl[RTC_GSI].mode)) && op.targets.accepted != {}) ==> Exact()
      ensures Tracks(old(redirtbl[RTC_GSI].mode)) && KeepsMode(op) ==> Tracks(redirtbl[RTC_GSI].mode)
      ensures op.SetState? ==> SameButRemote(op.table, redirtbl) && irr == set i | i in op.irr && i < NUM_PINS
      ensures op.Reset? ==> irr == {} && irrDelivered == {} && destMap == {} && pendingEoi == 0
      ensures op.Reset? ==> forall i :: 0 <= i < NUM_PINS ==> redirtbl[i] == old(redirtbl[i]).(masked := true)
    {
      match op
      case SetIrq(irq, level, lineStatus, targets) => var _ := DoSetIrq(irq, level, lineStatus, targets);
      case UpdateEoi(v, vec) => DoUpdateEoi(v, vec);
      case RestoreOne(v, matchesDest, pending) => TrackOne(v, matchesDest, pending);
      case SetState(pins, table, at, vcpus, matching, waiting) =>
        redirtbl, irr, irrDelivered := table, {}, {};
        InjectAll(pins, at, vcpus, matching, waiting);
      case WriteEntry(pin, entry, reached) => DoWriteEntry(pin, entry, reached);
      case Reset =>
        var table := redirtbl;
        redirtbl := seq(NUM_PINS, i requires 0 <= i < |table| => table[i].(masked := true));
        irr, irrDelivered := {}, {};
        TrackingReset();
    }

    /**
     Any run keeps the count at or above the marks; it keeps the two equal as long as the RTC pin
     stays in fixed or lowest-priority mode.
     */
    method Run(ops: seq<Op>)
      requires Valid() && forall i :: 0 <= i < |ops| ==> OpWf(ops[i])
      modifies this
      ensures Valid() && pendingEoi >= 0
      ensures old(Exact() && Tracks(redirtbl[RTC_GSI].mode)) && (forall i :: 0 <= i < |ops| ==> KeepsMode(ops[i])) ==> Exact()
    {
      for n := 0 to |ops|
        invariant Valid()
        invariant old(Exact() && Tracks(redirtbl[RTC_GSI].mode)) && (forall i :: 0 <= i < |ops| ==> KeepsMode(ops[i])) ==>
                    Exact() && Tracks(redirtbl[RTC_GSI].mode)
      {
        Do(ops[n]);
      }
    }
  }

  /** An RTC interrupt that gets through, and then its end from those who accepted it, in any order:
      exactly when all have sent it, the next interrupt is no longer coalesced. */
  method TickThenEois(io: Ioapic, targets: Targets, vcpus: seq<nat>)
    requires io.Valid() && targets.Wf() && io.pendingEoi == 0 && io.Delivers(RTC_GSI) && Tracks(io.redirtbl[RTC_GSI].mode)
    requires io.redirtbl[RTC_GSI].levelTriggered || RTC_GSI !in io.irr
    modifies io
    ensures io.Valid() && io.destMap == targets.accepted - set v | v in vcpus
    ensures io.pendingEoi == 0 <==> forall v :: v in targets.accepted ==> v in vcpus
  {
    var vec := io.redirtbl[RTC_GSI].vector;
    var _ := io.DoSetIrq(RTC_GSI, true, true, targets);
    io.UpdateEois(vcpus, vec);
    EmptyMap(io.destMap);
    assert io.destMap == {} <==> forall v :: v in targets.accepted ==> v in vcpus by {
      if v :| v in targets.accepted && v !in vcpus {
        assert v in io.destMap;
      }
    }
  }

  /** The RTC pin in a mode that marks nobody: one vCPU accepts, one is counted and none is marked, so no
      end-of-interrupt will ever bring the count back. */
  method CountedNotMarked() returns (io: Ioapic)
    ensures fresh(io) && io.Valid() && io.pendingEoi == 1 && io.destMap == {} && !io.Exact()
  {
    io := new Ioapic();
    io.DoWriteEntry(RTC_GSI, Entry(0x28, OtherMode, false, false, false), Targets(false, {}));
    var _ := io.DoSetIrq(RTC_GSI, true, true, Targets(true, {0}));
  }

  lemma EmptyMap(s: set<nat>)
    ensures |s| == 0 <==> s == {}
  {
  }
}
