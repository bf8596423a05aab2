/**
 Interrupt destinations: the table rebuilt by recalculate_apic_map and its fast lookup, against
 the loop that asks every local APIC whether it matches.
 */
module ApicMap {
  import opened Arith

  const BROADCAST: nat := 0xFF                // APIC_BROADCAST
  const X2_BROADCAST: nat := 0xFFFF_FFFF      // X2APIC_BROADCAST
  const MAX_VCPU_ID: nat := 1023              // KVM_MAX_VCPU_ID
  const DFR_FLAT: nat := 0xFFFF_FFFF
  const DFR_CLUSTER: nat := 0x0FFF_FFFF

  /** A vCPU's local APIC, as far as destinations are concerned. */
  datatype Lapic = Lapic(present: bool, x2apic: bool, id: nat, xapicId: nat, ldr: nat, dfr: nat)

  datatype Irq = Irq(destId: nat, logical: bool, shorthand: Shorthand)

  datatype Shorthand = NoShort | Self | AllInc | AllBut

  // ----- Bits --------------------------------------------------------------------------------

  predicate Bit(x: nat, i: nat) {
    if i == 0 then x % 2 == 1 else Bit(x / 2, i - 1)
  }

  lemma {:induction false} BitZero(c: nat, n: nat, i: nat)
    requires i < n
    ensures !Bit(c * Pow2(n), i)
    decreases n
  {
    assert c * Pow2(n) == 2 * (c * Pow2(n - 1));
    if i > 0 {
      BitZero(c, n - 1, i - 1);
    }
  }

  lemma {:induction false} BitPow(c: nat, n: nat, k: nat, i: nat)
    requires i < n && k < n
    ensures Bit(c * Pow2(n) + Pow2(k), i) <==> i == k
    decreases n
  {
    assert c * Pow2(n) == 2 * (c * Pow2(n - 1));
    if i > 0 {
      if k == 0 {
        BitZero(c, n - 1, i - 1);
      } else {
        BitPow(c, n - 1, k - 1, i - 1);
      }
    }
  }

  /** kvm_apic_calc_x2apic_ldr, on 32 bits. */
  function X2apicLdr(id: nat): nat {
    id / 16 % 65536 * 65536 + Pow2(id % 16)
  }

  lemma {:induction false} Pow2Bound(n: nat)
    requires n < 16
    ensures 0 < Pow2(n) <= 32768 && Pow2(16) == 65536
  {
    Pow2Values();
    Pow2Mono(n, 15);
  }

  /** The logical id is the cluster in the high half and one bit in the low half. */
  lemma {:induction false} LdrParts(id: nat, i: nat)
    requires id / 16 < 65536 && i < 16
    ensures X2apicLdr(id) / 65536 == id / 16
    ensures Bit(X2apicLdr(id), i) <==> i == id % 16
  {
    Pow2Bound(id % 16);
    BitPow(id / 16, 16, id % 16, i);
  }

  // ----- The slow path ------------------------------------------------------------------------

  /** kvm_apic_mda */
  function Mda(quirkDisabled: bool, dest: nat, ipi: bool, target: Lapic): nat {
    if !quirkDisabled && !ipi && dest == BROADCAST && target.x2apic then X2_BROADCAST else dest
  }

  predicate IsBroadcast(target: Lapic, mda: nat) {
    mda == if target.x2apic then X2_BROADCAST else BROADCAST
  }

  /** kvm_apic_match_physical_addr */
  predicate MatchPhysical(target: Lapic, mda: nat) {
    || IsBroadcast(target, mda)
    || (if target.x2apic then mda == target.id
        else (target.id > 0xFF && mda == target.id) || mda == target.xapicId)
  }

  /** kvm_apic_match_logical_addr */
  predicate MatchLogical(target: Lapic, mda: nat) {
    || IsBroadcast(target, mda)
    || (if target.x2apic then
          target.ldr / 65536 == mda / 65536 && exists i :: 0 <= i < 16 && Bit(target.ldr, i) && Bit(mda, i)
        else
          var logicalId := target.ldr / 0x100_0000 % 256;
          if target.dfr == DFR_FLAT then exists i :: 0 <= i < 8 && Bit(logicalId, i) && Bit(mda, i)
          else if target.dfr == DFR_CLUSTER then
            logicalId / 16 == mda / 16 && exists i :: 0 <= i < 4 && Bit(logicalId, i) && Bit(mda, i)
          else false)
  }

  /** kvm_apic_match_dest; `source` is the index of the sending APIC, if any. */
  predicate MatchDest(lapics: seq<Lapic>, j: nat, source: Option<nat>, irq: Irq, quirkDisabled: bool)
    requires j < |lapics|
  {
    match irq.shorthand
    case NoShort =>
      var mda := Mda(quirkDisabled, irq.destId, source.Some?, lapics[j]);
      if irq.logical then MatchLogical(lapics[j], mda) else MatchPhysical(lapics[j], mda)
    case Self => source == Some(j)
    case AllInc => true
    case AllBut => source != Some(j)
  }

  ghost function SlowSet(lapics: seq<Lapic>, source: Option<nat>, irq: Irq, quirkDisabled: bool): set<nat> {
    set j: nat | j < |lapics| && lapics[j].present && MatchDest(lapics, j, source, irq, quirkDisabled)
  }

  /** The fixed-delivery loop of kvm_irq_delivery_to_apic. */
  method SlowDeliver(lapics: seq<Lapic>, source: Option<nat>, irq: Irq, quirkDisabled: bool)
    returns (selected: set<nat>)
    ensures selected == SlowSet(lapics, source, irq, quirkDisabled)
  {
    selected := {};
    for i := 0 to |lapics|
      invariant selected == set j: nat | j < i && lapics[j].present && MatchDest(lapics, j, source, irq, quirkDisabled)
    {
      if lapics[i].present && MatchDest(lapics, i, source, irq, quirkDisabled) {
        selected := selected + {i};
      }
    }
  }

  // ----- The map -------------------------------------------------------------------------------

  datatype Mode = Cluster | Flat | X2apic

  /** struct kvm_apic_map; entries are indices of local APICs. */
  datatype Map = Map(
    maxId: nat,
    modes: set<Mode>,
    phys: seq<Option<nat>>,
    flat: seq<Option<nat>>,
    clusters: seq<seq<Option<nat>>>)

  /** Where a logical destination's slots start. */
  datatype Slots = InPhys(offset: nat) | InFlat | InCluster(c: nat)

  datatype Logical = Unoptimized | Lookup(slots: Slots, mask: set<nat>)

  function BitsBelow(x: nat, n: nat): set<nat> {
    set i: nat | i < n && Bit(x, i)
  }

  /** kvm_apic_map_get_logical_dest */
  function LogicalDest(map_: Map, dest: nat): Logical {
    if map_.modes == {X2apic} then
      var offset := dest / 65536 * 16;
      if offset <= map_.maxId then
        var size := if map_.maxId - offset + 1 < 16 then map_.maxId - offset + 1 else 16;
        Lookup(InPhys(offset), BitsBelow(dest, size))
      else Lookup(InFlat, {})
    else if map_.modes == {Flat} then Lookup(InFlat, BitsBelow(dest, 8))
    else if map_.modes == {Cluster} then Lookup(InCluster(dest / 16 % 16), BitsBelow(dest, 4))
    else Unoptimized
  }

  function Slot(map_: Map, s: Slots, i: nat): Option<nat> {
    match s
    case InPhys(offset) => if offset + i < |map_.phys| then map_.phys[offset + i] else None
    case InFlat => if i < |map_.flat| then map_.flat[i] else None
    case InCluster(c) => if c < |map_.clusters| && i < |map_.clusters[c]| then map_.clusters[c][i] else None
  }

  function SetSlot(map_: Map, s: Slots, i: nat, j: nat): Map {
    match s
    case InPhys(offset) => if offset + i < |map_.phys| then map_.(phys := map_.phys[offset + i := Some(j)]) else map_
    case InFlat => if i < |map_.flat| then map_.(flat := map_.flat[i := Some(j)]) else map_
    case InCluster(c) =>
      if c < |map_.clusters| && i < |map_.clusters[c]| then map_.(clusters := map_.clusters[c := map_.clusters[c][i := Some(j)]]) else map_
  }

  /** ffs(mask) - 1: the lowest set bit. */
  function Lowest(mask: set<nat>, from: nat): (r: nat)
    requires exists i :: i in mask && i >= from && i < 16
    ensures r in mask && from <= r < 16 && forall i :: from <= i < r ==> i !in mask
    decreases 16 - from
  {
    if from in mask then from else Lowest(mask, from + 1)
  }

  /** The loop body of recalculate_apic_map for local APIC `j`. */
  function AddLapic(map_: Map, j: nat, a: Lapic): Map {
    if !a.present then map_ else
      var phys1 := if (a.x2apic || a.id > 0xFF) && a.id < |map_.phys| then map_.phys[a.id := Some(j)] else map_.phys;
      var phys2 := if !a.x2apic && a.xapicId < |phys1| && phys1[a.xapicId] == None then phys1[a.xapicId := Some(j)] else phys1;
      var ldr := if !a.x2apic && a.ldr != 0 then a.ldr / 0x100_0000 % 256 else a.ldr;
      var modes := map_.modes +
        if a.x2apic then {X2apic} else if a.ldr == 0 then {} else if a.dfr == DFR_FLAT then {Flat} else {Cluster};
      var map2 := map_.(phys := phys2, modes := modes);
      match LogicalDest(map2, ldr)
      case Unoptimized => map2
      case Lookup(slots, mask) =>
        if exists i :: i in mask && i >= 0 && i < 16 then SetSlot(map2, slots, Lowest(mask, 0), j) else map2
  }

  function MaxId(lapics: seq<Lapic>): (r: nat)
    ensures r >= 255
  {
    if lapics == [] then 255
    else
      var m, a := MaxId(lapics[..|lapics| - 1]), lapics[|lapics| - 1];
      if a.present && a.id > m then a.id else m
  }

  function EmptyMap(maxId: nat): Map {
    Map(maxId, {}, seq(maxId + 1, _ => None), seq(8, _ => None), seq(16, _ => seq(4, _ => None)))
  }

  function Built(lapics: seq<Lapic>, n: nat): Map
    requires n <= |lapics|
  {
    if n == 0 then EmptyMap(MaxId(lapics)) else AddLapic(Built(lapics, n - 1), n - 1, lapics[n - 1])
  }

  function Rebuilt(lapics: seq<Lapic>): Map {
    Built(lapics, |lapics|)
  }

  /** recalculate_apic_map */
  method Recalculate(lapics: seq<Lapic>) returns (map_: Map)
    ensures map_ == Rebuilt(lapics)
  {
    var maxId := 255;
    for i := 0 to |lapics|
      invariant maxId == MaxId(lapics[..i])
    {
      assert lapics[..i + 1][..i] == lapics[..i];
      if lapics[i].present && lapics[i].id > maxId {
        maxId := lapics[i].id;
      }
    }
    assert lapics[..|lapics|] == lapics;
    map_ := EmptyMap(maxId);
    for i := 0 to |lapics|
      invariant map_ == Built(lapics, i)
    {
      map_ := AddLapic(map_, i, lapics[i]);
    }
  }

  // ----- The fast path -------------------------------------------------------------------------

  /** kvm_apic_is_broadcast_dest */
  predicate BroadcastDest(quirkDisabled: bool, sourceIsX2apic: bool, irq: Irq, map_: Map) {
    if quirkDisabled then
      (irq.destId == BROADCAST && map_.modes != {X2apic}) || irq.destId == X2_BROADCAST
    else irq.destId == if sourceIsX2apic then X2_BROADCAST else BROADCAST
  }

  ghost function Chosen(map_: Map, slots: Slots, mask: set<nat>): set<nat> {
    set i | i in mask && Slot(map_, slots, i).Some? :: Slot(map_, slots, i).value
  }

  /** The answer of kvm_apic_map_get_dest_lapic for a fixed interrupt: nothing if the lookup declines. */
  ghost function FastSet(map_: Map, source: Option<nat>, sourceIsX2apic: bool, irq: Irq, quirkDisabled: bool): Option<set<nat>> {
    if irq.shorthand == Self && source.Some? then Some({source.value})
    else if irq.shorthand != NoShort then None
    else if BroadcastDest(quirkDisabled, sourceIsX2apic, irq, map_) then None
    else if !irq.logical then
      if irq.destId > map_.maxId then Some({}) else Some(Chosen(map_, InPhys(irq.destId), {0}))
    else
      match LogicalDest(map_, irq.destId)
      case Unoptimized => None
      case Lookup(slots, mask) => Some(Chosen(map_, slots, mask))
  }

  /** kvm_irq_delivery_to_apic_fast for a fixed interrupt. */
  method FastDeliver(map_: Map, source: Option<nat>, sourceIsX2apic: bool, irq: Irq, quirkDisabled: bool)
    returns (ok: bool, selected: set<nat>)
    ensures FastSet(map_, source, sourceIsX2apic, irq, quirkDisabled) == if ok then Some(selected) else None
  {
    ok, selected := true, {};
    if irq.shorthand == Self && source.Some? {
      selected := {source.value};
      return;
    } else if irq.shorthand != NoShort {
      return false, {};
    }
    if BroadcastDest(quirkDisabled, sourceIsX2apic, irq, map_) {
      return false, {};
    }
    var slots, mask := InFlat, {};
    if !irq.logical {
      if irq.destId <= map_.maxId {
        slots, mask := InPhys(irq.destId), {0};
      }
    } else {
      match LogicalDest(map_, irq.destId)
      case Unoptimized => return false, {};
      case Lookup(s, m) => slots, mask := s, m;
    }
    assert forall i :: i in mask ==> i < 16;
    for i := 0 to 16
      invariant selected == set k | k in mask && k < i && Slot(map_, slots, k).Some? :: Slot(map_, slots, k).value
    {
      if i in mask && Slot(map_, slots, i).Some? {
        selected := selected + {Slot(map_, slots, i).value};
      }
    }
    assert selected == Chosen(map_, slots, mask);
    assert mask == {} ==> selected == {};
  }

  // ----- Agreement when every local APIC is in x2APIC mode --------------------------------------

  /** Every present local APIC is in x2APIC mode with its fixed logical id, and ids are unique. */
  ghost predicate AllX2apic(lapics: seq<Lapic>) {
    && (forall j :: 0 <= j < |lapics| && lapics[j].present ==>
          lapics[j].x2apic && lapics[j].id < MAX_VCPU_ID && lapics[j].ldr == X2apicLdr(lapics[j].id))
    && (forall i, j :: 0 <= i < j < |lapics| && lapics[i].present && lapics[j].present ==> lapics[i].id != lapics[j].id)
  }

  ghost predicate Present(lapics: seq<Lapic>, n: nat)
    requires n <= |lapics|
  {
    exists j :: 0 <= j < n && lapics[j].present
  }

  lemma {:induction false} MaxIdBounds(lapics: seq<Lapic>, j: nat)
    requires j < |lapics| && lapics[j].present
    ensures lapics[j].id <= MaxId(lapics)
    decreases |lapics|
  {
    if j < |lapics| - 1 {
      MaxIdBounds(lapics[..|lapics| - 1], j);
    }
  }

  lemma {:induction false} MaxIdSmall(lapics: seq<Lapic>)
    requires AllX2apic(lapics)
    ensures MaxId(lapics) < MAX_VCPU_ID
  {
    if lapics != [] {
      MaxIdSmall(lapics[..|lapics| - 1]);
    }
  }

  /** What the map holds after the first `n` local APICs. */
  ghost predicate Holds(map_: Map, lapics: seq<Lapic>, n: nat)
    requires n <= |lapics|
  {
    && map_.maxId == MaxId(lapics)
    && |map_.phys| == map_.maxId + 1
    && map_.modes <= {X2apic}
    && (X2apic in map_.modes <==> Present(lapics, n))
    && (forall x :: 0 <= x < |map_.phys| && map_.phys[x].Some? ==>
          map_.phys[x].value < n && lapics[map_.phys[x].value].present && lapics[map_.phys[x].value].id == x)
    && (forall j :: 0 <= j < n && lapics[j].present ==>
          lapics[j].id < |map_.phys| && map_.phys[lapics[j].id] == Some(j))
  }

  /** The logical slot of an x2APIC is its own entry in the physical table. */
  lemma AddX2apic(map_: Map, j: nat, a: Lapic)
    requires a.present && a.x2apic && a.id < MAX_VCPU_ID && a.ldr == X2apicLdr(a.id)
    requires |map_.phys| == map_.maxId + 1 && a.id <= map_.maxId && map_.modes <= {X2apic}
    ensures AddLapic(map_, j, a) == map_.(phys := map_.phys[a.id := Some(j)], modes := {X2apic})
  {
    hide Bit, X2apicLdr;
    var map2 := map_.(phys := map_.phys[a.id := Some(j)], modes := {X2apic});
    assert map_.modes + {X2apic} == {X2apic};
    var bit := a.id % 16;
    LdrParts(a.id, bit);
    forall i | 0 <= i < 16
      ensures Bit(a.ldr, i) <==> i == bit
    {
      LdrParts(a.id, i);
    }
    var size := if map_.maxId - a.id / 16 * 16 + 1 < 16 then map_.maxId - a.id / 16 * 16 + 1 else 16;
    assert BitsBelow(a.ldr, size) == {bit};
    assert LogicalDest(map2, a.ldr) == Lookup(InPhys(a.id / 16 * 16), {bit});
    assert bit in {bit} && bit >= 0 && bit < 16;
    assert SetSlot(map2, InPhys(a.id / 16 * 16), bit, j) == map2;
  }

  /** After the rebuild the physical table is the id-to-APIC function of the present APICs. */
  lemma {:induction false} BuiltHolds(lapics: seq<Lapic>, n: nat)
    requires AllX2apic(lapics) && n <= |lapics|
    ensures Holds(Built(lapics, n), lapics, n)
  {
    hide AddLapic, MaxId, X2apicLdr;
    if n > 0 {
      BuiltHolds(lapics, n - 1);
      if lapics[n - 1].present {
        MaxIdBounds(lapics, n - 1);
        AddX2apic(Built(lapics, n - 1), n - 1, lapics[n - 1]);
      } else {
        AddAbsent(Built(lapics, n - 1), n - 1, lapics[n - 1]);
      }
    }
  }

  lemma AddAbsent(map_: Map, j: nat, a: Lapic)
    requires !a.present
    ensures AddLapic(map_, j, a) == map_
  {
  }

  lemma PhysicalAgree(lapics: seq<Lapic>, map_: Map, dest: nat)
    requires AllX2apic(lapics) && Holds(map_, lapics, |lapics|)
    requires dest != X2_BROADCAST
    ensures (if dest > map_.maxId then {} else Chosen(map_, InPhys(dest), {0}))
         == set j: nat | j < |lapics| && lapics[j].present && MatchPhysical(lapics[j], dest)
  {
    hide X2apicLdr, MaxId;
    assert dest <= map_.maxId ==> Slot(map_, InPhys(dest), 0) == map_.phys[dest];
  }

  /** An x2APIC matches a logical address exactly when the cluster agrees and its bit is set. */
  lemma {:induction false} MatchesByBit(a: Lapic, dest: nat)
    requires a.x2apic && a.id < MAX_VCPU_ID && a.ldr == X2apicLdr(a.id) && dest != X2_BROADCAST
    ensures MatchLogical(a, dest) <==> a.id / 16 == dest / 65536 && Bit(dest, a.id % 16)
  {
    hide Bit, X2apicLdr;
    LdrParts(a.id, a.id % 16);
    forall i | 0 <= i < 16
      ensures Bit(a.ldr, i) <==> i == a.id % 16
    {
      LdrParts(a.id, i);
    }
  }

  ghost function LogicalMatches(lapics: seq<Lapic>, dest: nat): set<nat> {
    set j: nat | j < |lapics| && lapics[j].present && MatchLogical(lapics[j], dest)
  }

  lemma LogicalAgree(lapics: seq<Lapic>, map_: Map, dest: nat)
    requires AllX2apic(lapics) && Holds(map_, lapics, |lapics|)
    requires dest != X2_BROADCAST && map_.modes == {X2apic}
    ensures LogicalDest(map_, dest).Lookup?
    ensures Chosen(map_, LogicalDest(map_, dest).slots, LogicalDest(map_, dest).mask) == LogicalMatches(lapics, dest)
  {
    hide Bit, X2apicLdr, MaxId, MatchLogical;
    var l := LogicalDest(map_, dest);
    forall j | j in LogicalMatches(lapics, dest)
      ensures j in Chosen(map_, l.slots, l.mask)
    {
      MatchesByBit(lapics[j], dest);
      var i := lapics[j].id % 16;
      assert i in l.mask && Slot(map_, l.slots, i) == Some(j);
    }
    forall j | j in Chosen(map_, l.slots, l.mask)
      ensures j in LogicalMatches(lapics, dest)
    {
      var i :| i in l.mask && Slot(map_, l.slots, i) == Some(j);
      MatchesByBit(lapics[j], dest);
      assert lapics[j].id == dest / 65536 * 16 + i;
    }
  }

  predicate SourceIsX2apic(lapics: seq<Lapic>, source: Option<nat>) {
    source.Some? && source.value < |lapics| && lapics[source.value].x2apic
  }

  /** The x2APIC broadcast reaches everyone on the slow path and nobody through the table. */
  lemma {:induction false} BroadcastDiffers(lapics: seq<Lapic>, source: Option<nat>, irq: Irq, quirkDisabled: bool)
    requires AllX2apic(lapics) && irq.shorthand == NoShort && irq.destId == X2_BROADCAST
    requires FastSet(Rebuilt(lapics), source, SourceIsX2apic(lapics, source), irq, quirkDisabled).Some?
    ensures FastSet(Rebuilt(lapics), source, SourceIsX2apic(lapics, source), irq, quirkDisabled).value == {}
    ensures SlowSet(lapics, source, irq, quirkDisabled) == set j: nat | j < |lapics| && lapics[j].present
  {
    hide Built, X2apicLdr, MaxId, Bit;
    BuiltHolds(lapics, |lapics|);
    MaxIdSmall(lapics);
    var map_ := Rebuilt(lapics);
    assert irq.logical ==> LogicalDest(map_, irq.destId) == Lookup(InFlat, {});
  }

  /**
   When the fast lookup accepts a fixed interrupt without a shorthand, it selects exactly the local
   APICs the full scan would select if and only if the destination is not the x2APIC broadcast
   address or no local APIC is present.
   */
  lemma {:induction false} FastEqualsSlow(lapics: seq<Lapic>, source: Option<nat>, irq: Irq, quirkDisabled: bool)
    requires AllX2apic(lapics) && irq.shorthand == NoShort
    requires FastSet(Rebuilt(lapics), source, SourceIsX2apic(lapics, source), irq, quirkDisabled).Some?
    ensures FastSet(Rebuilt(lapics), source, SourceIsX2apic(lapics, source), irq, quirkDisabled).value
         == SlowSet(lapics, source, irq, quirkDisabled)
       <==> irq.destId != X2_BROADCAST || !Present(lapics, |lapics|)
  {
    hide Built, X2apicLdr, MaxId, Bit, MatchLogical, MatchPhysical, Chosen;
    var map_ := Rebuilt(lapics);
    BuiltHolds(lapics, |lapics|);
    if irq.destId == X2_BROADCAST {
      BroadcastDiffers(lapics, source, irq, quirkDisabled);
      var all := set j: nat | j < |lapics| && lapics[j].present;
      assert all == {} <==> !Present(lapics, |lapics|) by {
        if j :| 0 <= j < |lapics| && lapics[j].present {
          assert j in all;
        }
      }
    } else {
      assert quirkDisabled || source.Some? || irq.destId != BROADCAST;
      if irq.logical {
        LogicalAgree(lapics, map_, irq.destId);
        assert SlowSet(lapics, source, irq, quirkDisabled) == LogicalMatches(lapics, irq.destId);
      } else {
        PhysicalAgree(lapics, map_, irq.destId);
      }
    }
  }

  /** Which destinations the lookup accepts. */
  lemma {:induction false} X2apicAccepts(lapics: seq<Lapic>, source: Option<nat>, irq: Irq, quirkDisabled: bool)
    requires AllX2apic(lapics) && irq.shorthand == NoShort
    ensures FastSet(Rebuilt(lapics), source, SourceIsX2apic(lapics, source), irq, quirkDisabled).Some? <==>
              && (quirkDisabled ==> irq.destId != X2_BROADCAST && (irq.destId != BROADCAST || Present(lapics, |lapics|)))
              && (!quirkDisabled ==> irq.destId != if SourceIsX2apic(lapics, source) then X2_BROADCAST else BROADCAST)
              && (irq.logical ==> Present(lapics, |lapics|))
  {
    hide Built, X2apicLdr, MaxId, Bit;
    BuiltHolds(lapics, |lapics|);
  }

  /** A broadcast raised by a device, with the quirk on: the table drops it, the scan delivers it. */
  lemma BroadcastLost()
    ensures var lapics := [Lapic(true, true, 0, 0, 1, DFR_FLAT)];
            var irq := Irq(X2_BROADCAST, false, NoShort);
            && AllX2apic(lapics)
            && FastSet(Rebuilt(lapics), None, false, irq, false) == Some({})
            && SlowSet(lapics, None, irq, false) == {0}
  {
    var lapics := [Lapic(true, true, 0, 0, 1, DFR_FLAT)];
    var irq := Irq(X2_BROADCAST, false, NoShort);
    assert X2apicLdr(0) == 1;
    BuiltHolds(lapics, 1);
    MaxIdSmall(lapics);
    assert 0 in SlowSet(lapics, None, irq, false);
  }

  // ----- Agreement when every local APIC is in xAPIC mode ---------------------------------------

  function LogicalId(a: Lapic): nat {
    a.ldr / 0x100_0000 % 256
  }

  /** No local APIC is in x2APIC mode, and all that have a logical id use the one model. */
  ghost predicate AllXapic(lapics: seq<Lapic>, flat: bool) {
    forall j :: 0 <= j < |lapics| ==>
      && !lapics[j].x2apic && lapics[j].xapicId < 256
      && (lapics[j].ldr != 0 ==> lapics[j].dfr == if flat then DFR_FLAT else DFR_CLUSTER)
  }

  function XapicMode(flat: bool): Mode {
    if flat then Flat else Cluster
  }

  function Width(flat: bool): nat {
    if flat then 8 else 4
  }

  function XapicSlots(flat: bool, logical: nat): Slots {
    if flat then InFlat else InCluster(logical / 16 % 16)
  }

  /** Bit `i` is the lowest one the logical id has in the part that names single APICs. */
  predicate LowestBit(a: Lapic, flat: bool, i: nat) {
    i < Width(flat) && Bit(LogicalId(a), i) && forall k :: 0 <= k < i ==> !Bit(LogicalId(a), k)
  }

  /** Local APIC `j` asks for slot `i` of the group that `logical` belongs to. */
  predicate Claims(lapics: seq<Lapic>, flat: bool, j: nat, logical: nat, i: nat)
    requires j < |lapics|
  {
    && lapics[j].present
    && LowestBit(lapics[j], flat, i)
    && XapicSlots(flat, LogicalId(lapics[j])) == XapicSlots(flat, logical)
  }

  /** Of those that claim the slot, the last of the first `n` gets it. */
  ghost predicate Owns(lapics: seq<Lapic>, flat: bool, n: nat, j: nat, logical: nat, i: nat)
    requires n <= |lapics|
  {
    && j < n && Claims(lapics, flat, j, logical, i)
    && forall k :: j < k < n ==> !Claims(lapics, flat, k, logical, i)
  }

  /** The local APIC has the physical id `x`; one with an id that does not fit has two. */
  predicate HasId(a: Lapic, x: nat) {
    a.present && ((a.id > 0xFF && x == a.id) || x == a.xapicId)
  }

  /** Each of its ids has an entry in the table. */
  predicate Entered(phys: seq<Option<nat>>, a: Lapic) {
    a.present ==>
      && (a.id > 0xFF ==> a.id < |phys| && phys[a.id].Some?)
      && a.xapicId < |phys| && phys[a.xapicId].Some?
  }

  ghost predicate PhysHolds(map_: Map, lapics: seq<Lapic>, n: nat)
    requires n <= |lapics|
  {
    && map_.maxId == MaxId(lapics)
    && |map_.phys| == map_.maxId + 1
    && (forall x :: 0 <= x < |map_.phys| && map_.phys[x].Some? ==> map_.phys[x].value < n && HasId(lapics[map_.phys[x].value], x))
    && (forall j :: 0 <= j < n ==> Entered(map_.phys, lapics[j]))
  }

  ghost predicate HasLdr(lapics: seq<Lapic>, n: nat)
    requires n <= |lapics|
  {
    exists j :: 0 <= j < n && lapics[j].present && lapics[j].ldr != 0
  }

  ghost predicate SlotsHold(map_: Map, lapics: seq<Lapic>, flat: bool, n: nat)
    requires n <= |lapics|
  {
    && map_.modes <= {XapicMode(flat)}
    && |map_.flat| == 8 && |map_.clusters| == 16 && (forall c :: 0 <= c < 16 ==> |map_.clusters[c]| == 4)
    && (forall j: nat, logical: nat, i: nat :: i < Width(flat) ==>
          (Slot(map_, XapicSlots(flat, logical), i) == Some(j) <==> Owns(lapics, flat, n, j, logical, i)))
  }

  /** The two entries of the physical table that an xAPIC may take. */
  function AddPhys(phys: seq<Option<nat>>, j: nat, a: Lapic): seq<Option<nat>> {
    var phys1 := if a.id > 0xFF && a.id < |phys| then phys[a.id := Some(j)] else phys;
    if a.xapicId < |phys1| && phys1[a.xapicId] == None then phys1[a.xapicId := Some(j)] else phys1
  }

  lemma {:induction false} LowestIs(a: Lapic, flat: bool, i: nat)
    requires LowestBit(a, flat, i)
    ensures i in BitsBelow(LogicalId(a), Width(flat)) && Lowest(BitsBelow(LogicalId(a), Width(flat)), 0) == i
  {
    hide Bit, Lowest, LogicalId;
    var mask := BitsBelow(LogicalId(a), Width(flat));
    assert i in mask && i >= 0 && i < 16;
    var l := Lowest(mask, 0);
    if l < i {
      assert false;
    }
  }

  lemma {:induction false} LowestExists(a: Lapic, flat: bool, i: nat) returns (l: nat)
    requires i < Width(flat) && Bit(LogicalId(a), i)
    ensures LowestBit(a, flat, l) && l <= i
  {
    hide Bit, Lowest, LogicalId;
    var mask := BitsBelow(LogicalId(a), Width(flat));
    assert i in mask && i >= 0 && i < 16;
    l := Lowest(mask, 0);
    forall k: nat | k < l
      ensures !Bit(LogicalId(a), k)
    {
      assert k !in mask;
    }
  }

  /** Adding an xAPIC touches its entries of the physical table and the slot of its lowest bit. */
  lemma {:induction false} AddXapic(map_: Map, j: nat, a: Lapic, flat: bool)
    requires a.present && !a.x2apic && (a.ldr != 0 ==> a.dfr == if flat then DFR_FLAT else DFR_CLUSTER)
    requires map_.modes <= {XapicMode(flat)}
    ensures var map2 := map_.(phys := AddPhys(map_.phys, j, a), modes := map_.modes + if a.ldr == 0 then {} else {XapicMode(flat)});
            && ((forall i :: 0 <= i < Width(flat) ==> !LowestBit(a, flat, i)) ==> AddLapic(map_, j, a) == map2)
            && (forall i :: LowestBit(a, flat, i) ==> AddLapic(map_, j, a) == SetSlot(map2, XapicSlots(flat, LogicalId(a)), i, j))
  {
    hide Bit, Lowest, SetSlot, LowestBit;
    var map2 := map_.(phys := AddPhys(map_.phys, j, a), modes := map_.modes + if a.ldr == 0 then {} else {XapicMode(flat)});
    var mask := BitsBelow(LogicalId(a), Width(flat));
    forall i | LowestBit(a, flat, i)
      ensures a.ldr != 0 && i in mask && Lowest(mask, 0) == i
    {
      LowestIs(a, flat, i);
      HasBit(a, flat, i);
    }
    if i :| i in mask {
      var l := LowestExists(a, flat, i);
      HasBit(a, flat, l);
      assert map2.modes == {XapicMode(flat)};
    }
  }

  lemma {:induction false} HasBit(a: Lapic, flat: bool, i: nat)
    requires LowestBit(a, flat, i)
    ensures a.ldr != 0 && i < Width(flat)
  {
    if a.ldr == 0 {
      NoBits(i);
    }
  }

  lemma {:induction false} NoBits(i: nat)
    ensures !Bit(0, i)
  {
    if i > 0 {
      NoBits(i - 1);
    }
  }

  lemma AddPhysFacts(phys: seq<Option<nat>>, j: nat, a: Lapic)
    requires a.present && a.id < |phys| && a.xapicId < |phys|
    ensures var r := AddPhys(phys, j, a);
            && |r| == |phys| && Entered(r, a)
            && forall x :: 0 <= x < |r| ==> r[x] == phys[x] || (r[x] == Some(j) && HasId(a, x))
  {
  }

  lemma {:induction false} PhysStep(lapics: seq<Lapic>, map_: Map, map2: Map, n: nat)
    requires n < |lapics| && PhysHolds(map_, lapics, n) && lapics[n].xapicId < 256
    requires map2.maxId == map_.maxId
    requires map2.phys == if lapics[n].present then AddPhys(map_.phys, n, lapics[n]) else map_.phys
    ensures PhysHolds(map2, lapics, n + 1)
  {
    hide AddPhys;
    assert MaxId(lapics) >= 255;
    if lapics[n].present {
      MaxIdBounds(lapics, n);
      AddPhysFacts(map_.phys, n, lapics[n]);
    }
    forall j | 0 <= j < n
      ensures Entered(map2.phys, lapics[j])
    {
      assert Entered(map_.phys, lapics[j]);
    }
  }

  lemma {:induction false} SlotsStep(lapics: seq<Lapic>, map_: Map, flat: bool, n: nat)
    requires n < |lapics| && AllXapic(lapics, flat) && SlotsHold(map_, lapics, flat, n)
    ensures SlotsHold(AddLapic(map_, n, lapics[n]), lapics, flat, n + 1)
    ensures AddLapic(map_, n, lapics[n]).maxId == map_.maxId
    ensures AddLapic(map_, n, lapics[n]).modes ==
              map_.modes + if lapics[n].present && lapics[n].ldr != 0 then {XapicMode(flat)} else {}
    ensures AddLapic(map_, n, lapics[n]).phys == if lapics[n].present then AddPhys(map_.phys, n, lapics[n]) else map_.phys
  {
    hide Bit, AddLapic, LowestBit, LogicalId, AddPhys;
    var a := lapics[n];
    if !a.present {
      AddAbsent(map_, n, a);
      assert forall j: nat, logical: nat, i: nat :: Owns(lapics, flat, n + 1, j, logical, i) <==> Owns(lapics, flat, n, j, logical, i);
    } else {
      AddXapic(map_, n, a, flat);
      var map2 := map_.(phys := AddPhys(map_.phys, n, a), modes := map_.modes + if a.ldr == 0 then {} else {XapicMode(flat)});
      if i: nat :| LowestBit(a, flat, i) {
        HasBit(a, flat, i);
        SlotTaken(lapics, map2, flat, n, i);
      } else {
        assert forall j: nat, logical: nat, i: nat :: Owns(lapics, flat, n + 1, j, logical, i) <==> Owns(lapics, flat, n, j, logical, i);
        assert forall s: Slots, i: nat :: s == InFlat || s.InCluster? ==> Slot(map2, s, i) == Slot(map_, s, i);
      }
    }
  }

  lemma {:induction false} LowestUnique(a: Lapic, flat: bool, i: nat, k: nat)
    requires LowestBit(a, flat, i) && LowestBit(a, flat, k)
    ensures i == k
  {
  }

  /** The newcomer becomes the owner of its slot; every other slot keeps its owner. */
  lemma {:induction false} SlotTaken(lapics: seq<Lapic>, map_: Map, flat: bool, n: nat, i: nat)
    requires n < |lapics| && lapics[n].present && SlotsHold(map_, lapics, flat, n)
    requires LowestBit(lapics[n], flat, i) && i < Width(flat)
    ensures SlotsHold(SetSlot(map_, XapicSlots(flat, LogicalId(lapics[n])), i, n), lapics, flat, n + 1)
    ensures SetSlot(map_, XapicSlots(flat, LogicalId(lapics[n])), i, n).maxId == map_.maxId
    ensures SetSlot(map_, XapicSlots(flat, LogicalId(lapics[n])), i, n).modes == map_.modes
    ensures SetSlot(map_, XapicSlots(flat, LogicalId(lapics[n])), i, n).phys == map_.phys
  {
    hide Bit, LowestBit, LogicalId;
    var mine := LogicalId(lapics[n]);
    var map2 := SetSlot(map_, XapicSlots(flat, mine), i, n);
    forall j: nat, logical: nat, k: nat | k < Width(flat)
      ensures Slot(map2, XapicSlots(flat, logical), k) == Some(j) <==> Owns(lapics, flat, n + 1, j, logical, k)
    {
      SlotOther(map_, XapicSlots(flat, mine), i, n, XapicSlots(flat, logical), k);
      if Claims(lapics, flat, n, logical, k) {
        LowestUnique(lapics[n], flat, i, k);
      }
      assert Claims(lapics, flat, n, logical, k) <==> XapicSlots(flat, mine) == XapicSlots(flat, logical) && k == i;
      assert Slot(map_, XapicSlots(flat, logical), k) == Some(j) <==> Owns(lapics, flat, n, j, logical, k);
    }
  }

  lemma SlotOther(map_: Map, s: Slots, i: nat, n: nat, t: Slots, k: nat)
    requires s == InFlat || s.InCluster?
    requires t == InFlat || t.InCluster?
    requires s == InFlat <==> t == InFlat
    requires |map_.flat| == 8 && |map_.clusters| == 16 && (forall c :: 0 <= c < 16 ==> |map_.clusters[c]| == 4)
    requires s == InFlat ==> i < 8
    requires s.InCluster? ==> s.c < 16 && i < 4
    ensures Slot(SetSlot(map_, s, i, n), t, k) == if s == t && i == k then Some(n) else Slot(map_, t, k)
  {
  }

  /** After the rebuild every entry of the physical table has the id it stands at, every id has an
      entry, and every logical slot holds the last local APIC that claims it. */
  lemma {:induction false} BuiltXapic(lapics: seq<Lapic>, flat: bool, n: nat)
    requires AllXapic(lapics, flat) && n <= |lapics|
    ensures PhysHolds(Built(lapics, n), lapics, n) && SlotsHold(Built(lapics, n), lapics, flat, n)
    ensures Built(lapics, n).modes == if HasLdr(lapics, n) then {XapicMode(flat)} else {}
  {
    hide AddLapic, MaxId, PhysHolds, SlotsHold;
    if n == 0 {
      EmptyHolds(lapics, flat);
    } else {
      BuiltXapic(lapics, flat, n - 1);
      SlotsStep(lapics, Built(lapics, n - 1), flat, n - 1);
      PhysStep(lapics, Built(lapics, n - 1), Built(lapics, n), n - 1);
    }
  }

  lemma {:induction false} EmptyHolds(lapics: seq<Lapic>, flat: bool)
    ensures PhysHolds(EmptyMap(MaxId(lapics)), lapics, 0) && SlotsHold(EmptyMap(MaxId(lapics)), lapics, flat, 0)
  {
    hide MaxId, Claims;
    var map_ := EmptyMap(MaxId(lapics));
    forall logical: nat, i: nat | i < Width(flat)
      ensures Slot(map_, XapicSlots(flat, logical), i) == None
    {
    }
  }

  /** A physical destination: the table gives one of the local APICs that the scan finds, and is
      right exactly if no two of them share the destination as an id. */
  lemma {:induction false} XapicPhysical(lapics: seq<Lapic>, flat: bool, map_: Map, dest: nat)
    requires AllXapic(lapics, flat) && PhysHolds(map_, lapics, |lapics|) && dest != BROADCAST
    ensures var fast := if dest > map_.maxId then {} else Chosen(map_, InPhys(dest), {0});
            var slow := set j: nat | j < |lapics| && lapics[j].present && MatchPhysical(lapics[j], dest);
            && fast <= slow
            && (fast == slow <==> forall i, j :: 0 <= i < j < |lapics| && HasId(lapics[i], dest) ==> !HasId(lapics[j], dest))
  {
    hide MaxId, Entered;
    var fast := if dest > map_.maxId then {} else Chosen(map_, InPhys(dest), {0});
    var slow := set j: nat | j < |lapics| && lapics[j].present && MatchPhysical(lapics[j], dest);
    assert forall j: nat :: j in slow <==> j < |lapics| && HasId(lapics[j], dest);
    forall j: nat | j in slow
      ensures dest <= map_.maxId && map_.phys[dest].Some?
    {
      EntryOf(map_.phys, lapics[j], dest);
    }
    assert dest <= map_.maxId ==> fast == if map_.phys[dest].Some? then {map_.phys[dest].value} else {} by {
      assert dest <= map_.maxId ==> Slot(map_, InPhys(dest), 0) == map_.phys[dest];
    }
    if i, j :| 0 <= i < j < |lapics| && HasId(lapics[i], dest) && HasId(lapics[j], dest) {
      assert i in slow && j in slow;
    }
  }

  lemma EntryOf(phys: seq<Option<nat>>, a: Lapic, x: nat)
    requires Entered(phys, a) && HasId(a, x)
    ensures x < |phys| && phys[x].Some?
  {
  }

  /** The local APIC is in the group of the destination and has one of its bits. */
  predicate Addressed(lapics: seq<Lapic>, flat: bool, j: nat, dest: nat)
    requires j < |lapics|
  {
    && lapics[j].present
    && XapicSlots(flat, LogicalId(lapics[j])) == XapicSlots(flat, dest)
    && exists i :: 0 <= i < Width(flat) && Bit(LogicalId(lapics[j]), i) && Bit(dest, i)
  }

  /** The scan looks at all bits of a cluster destination, the table at eight of them. */
  lemma {:induction false} MatchesAddressed(lapics: seq<Lapic>, flat: bool, j: nat, dest: nat)
    requires AllXapic(lapics, flat) && j < |lapics| && lapics[j].present && dest != BROADCAST
    ensures MatchLogical(lapics[j], dest) <==> Addressed(lapics, flat, j, dest) && (flat || dest < 256)
  {
    hide Bit;
    forall i: nat | Bit(LogicalId(lapics[j]), i)
      ensures lapics[j].ldr != 0
    {
      if lapics[j].ldr == 0 {
        NoBits(i);
      }
    }
  }

  /** Distinct ids, one bit for each local APIC, and no bit given to two of one group. */
  ghost predicate Numbered(lapics: seq<Lapic>, flat: bool) {
    && (forall i, j :: 0 <= i < j < |lapics| && lapics[i].present && lapics[j].present ==>
          lapics[i].id != lapics[j].id && lapics[i].xapicId != lapics[j].xapicId)
    && (forall j, i, k :: 0 <= j < |lapics| && lapics[j].present && 0 <= i < k < Width(flat) && Bit(LogicalId(lapics[j]), i) ==>
          !Bit(LogicalId(lapics[j]), k))
    && (forall i, j, k :: 0 <= i < j < |lapics| && lapics[i].present && lapics[j].present && 0 <= k < Width(flat)
                          && XapicSlots(flat, LogicalId(lapics[i])) == XapicSlots(flat, LogicalId(lapics[j]))
                          && Bit(LogicalId(lapics[i]), k)
          ==> !Bit(LogicalId(lapics[j]), k))
  }

  /** The destination has the lowest bit of the local APIC, and no later one of its group has the same. */
  ghost predicate Selected(lapics: seq<Lapic>, flat: bool, j: nat, dest: nat) {
    exists i: nat :: i < Width(flat) && Bit(dest, i) && Owns(lapics, flat, |lapics|, j, dest, i)
  }

  /** The table finds the local APICs that are selected, and all of them are addressed. */
  lemma {:induction false} XapicLogical(lapics: seq<Lapic>, flat: bool, map_: Map, dest: nat)
    requires SlotsHold(map_, lapics, flat, |lapics|)
    ensures Chosen(map_, XapicSlots(flat, dest), BitsBelow(dest, Width(flat)))
         == set j: nat | j < |lapics| && Selected(lapics, flat, j, dest)
    ensures forall j: nat :: Selected(lapics, flat, j, dest) ==> j < |lapics| && Addressed(lapics, flat, j, dest)
  {
    hide Bit, LogicalId, Slot, XapicSlots;
    var n, mask := |lapics|, BitsBelow(dest, Width(flat));
    var fast := Chosen(map_, XapicSlots(flat, dest), mask);
    forall j: nat | Selected(lapics, flat, j, dest)
      ensures j in fast
    {
      var i: nat :| i < Width(flat) && Bit(dest, i) && Owns(lapics, flat, n, j, dest, i);
      assert i in mask && Slot(map_, XapicSlots(flat, dest), i) == Some(j);
    }
    forall j: nat | j in fast
      ensures j < n && Selected(lapics, flat, j, dest)
    {
      var i: nat :| i in mask && Slot(map_, XapicSlots(flat, dest), i) == Some(j);
      assert Owns(lapics, flat, n, j, dest, i);
    }
  }

  /** With one bit for each, everyone who is addressed is selected. */
  lemma {:induction false} NumberedSelects(lapics: seq<Lapic>, flat: bool, j: nat, dest: nat)
    requires Numbered(lapics, flat) && j < |lapics| && Addressed(lapics, flat, j, dest)
    ensures Selected(lapics, flat, j, dest)
  {
    hide Bit, LogicalId, XapicSlots;
    var i: nat :| i < Width(flat) && Bit(LogicalId(lapics[j]), i) && Bit(dest, i);
    assert LowestBit(lapics[j], flat, i);
    assert Owns(lapics, flat, |lapics|, j, dest, i);
  }

  /**
   A machine in xAPIC mode, with flat or with cluster logical ids, whatever the ids: when the lookup
   accepts a fixed interrupt without a shorthand, it selects what the full scan selects if and only if
   no two local APICs share the physical destination; everyone the logical destination addresses is
   selected; or, for a cluster destination of more than eight bits, nobody is.
   */
  lemma {:induction false} XapicExactly(lapics: seq<Lapic>, flat: bool, source: Option<nat>, irq: Irq, quirkDisabled: bool)
    requires AllXapic(lapics, flat) && irq.shorthand == NoShort
    requires FastSet(Rebuilt(lapics), source, SourceIsX2apic(lapics, source), irq, quirkDisabled).Some?
    ensures FastSet(Rebuilt(lapics), source, SourceIsX2apic(lapics, source), irq, quirkDisabled).value
         == SlowSet(lapics, source, irq, quirkDisabled)
       <==> if !irq.logical then
              forall i, j :: 0 <= i < j < |lapics| && HasId(lapics[i], irq.destId) ==> !HasId(lapics[j], irq.destId)
            else if flat || irq.destId < 256 then
              forall j :: 0 <= j < |lapics| && Addressed(lapics, flat, j, irq.destId) ==> Selected(lapics, flat, j, irq.destId)
            else
              forall j :: 0 <= j < |lapics| ==> !Selected(lapics, flat, j, irq.destId)
  {
    hide Built, MaxId, Bit, MatchLogical, MatchPhysical, Chosen, Addressed, Selected, SlotsHold, PhysHolds, LogicalId;
    var map_, dest := Rebuilt(lapics), irq.destId;
    BuiltXapic(lapics, flat, |lapics|);
    assert dest != BROADCAST;
    if irq.logical {
      XapicLogical(lapics, flat, map_, dest);
      var slow := SlowSet(lapics, source, irq, quirkDisabled);
      var fast := set j: nat | j < |lapics| && Selected(lapics, flat, j, dest);
      forall j: nat | j < |lapics|
        ensures j in slow <==> Addressed(lapics, flat, j, dest) && (flat || dest < 256)
      {
        if lapics[j].present {
          MatchesAddressed(lapics, flat, j, dest);
        } else {
          AddressedPresent(lapics, flat, j, dest);
        }
      }
      SameSets(fast, slow);
    } else {
      XapicPhysical(lapics, flat, map_, dest);
    }
  }

  /** With distinct ids and one logical bit for each local APIC, lookup and scan differ only for a cluster
      destination with bits above the eighth that still addresses someone. */
  lemma {:induction false} XapicFastEqualsSlow(lapics: seq<Lapic>, flat: bool, source: Option<nat>, irq: Irq, quirkDisabled: bool)
    requires AllXapic(lapics, flat) && Numbered(lapics, flat) && irq.shorthand == NoShort
    requires FastSet(Rebuilt(lapics), source, SourceIsX2apic(lapics, source), irq, quirkDisabled).Some?
    ensures FastSet(Rebuilt(lapics), source, SourceIsX2apic(lapics, source), irq, quirkDisabled).value
         == SlowSet(lapics, source, irq, quirkDisabled)
       <==> !irq.logical || flat || irq.destId < 256 || forall j :: 0 <= j < |lapics| ==> !Addressed(lapics, flat, j, irq.destId)
  {
    hide Built, Bit, FastSet, SlowSet, Addressed, Selected, Numbered, HasId, SlotsHold, PhysHolds, LogicalId;
    XapicExactly(lapics, flat, source, irq, quirkDisabled);
    NoTwo(lapics, flat, irq.destId);
    BuiltXapic(lapics, flat, |lapics|);
    XapicLogical(lapics, flat, Rebuilt(lapics), irq.destId);
    forall j: nat | j < |lapics|
      ensures Addressed(lapics, flat, j, irq.destId) <==> Selected(lapics, flat, j, irq.destId)
    {
      if Addressed(lapics, flat, j, irq.destId) {
        NumberedSelects(lapics, flat, j, irq.destId);
      }
    }
  }

  /** The lookup accepts a destination unless it is a broadcast, or a logical one when no local APIC
      has a logical id. */
  lemma {:induction false} XapicAccepts(lapics: seq<Lapic>, flat: bool, source: Option<nat>, irq: Irq, quirkDisabled: bool)
    requires AllXapic(lapics, flat) && irq.shorthand == NoShort
    ensures FastSet(Rebuilt(lapics), source, SourceIsX2apic(lapics, source), irq, quirkDisabled).Some? <==>
              && irq.destId != BROADCAST && (irq.destId != X2_BROADCAST || !quirkDisabled)
              && (irq.logical ==> exists j :: 0 <= j < |lapics| && lapics[j].present && lapics[j].ldr != 0)
  {
    hide Built, MaxId, Bit, SlotsHold, PhysHolds, LogicalId;
    BuiltXapic(lapics, flat, |lapics|);
  }

  /** A cluster destination with a bit too many: the table drops the bit, the scan does not. */
  lemma ClusterWraps()
    ensures var lapics := [Lapic(true, false, 0, 0, 0x1100_0000, DFR_CLUSTER)];
            var irq := Irq(0x111, true, NoShort);
            && AllXapic(lapics, false) && Numbered(lapics, false)
            && FastSet(Rebuilt(lapics), None, false, irq, false) == Some({0})
            && SlowSet(lapics, None, irq, false) == {}
  {
    hide Built, MaxId;
    var lapics := [Lapic(true, false, 0, 0, 0x1100_0000, DFR_CLUSTER)];
    var irq := Irq(0x111, true, NoShort);
    assert LogicalId(lapics[0]) == 17 && Bit(17, 0) && !Bit(17, 1) && !Bit(17, 2) && !Bit(17, 3) && Bit(0x111, 0);
    assert forall i :: 0 <= i < 4 && Bit(17, i) ==> i == 0;
    XapicAccepts(lapics, false, None, irq, false);
    assert Addressed(lapics, false, 0, 0x111);
    NumberedSelects(lapics, false, 0, 0x111);
    assert (set j: nat | j < |lapics| && Selected(lapics, false, j, 0x111)) == {0};
    BuiltXapic(lapics, false, 1);
    XapicLogical(lapics, false, Rebuilt(lapics), 0x111);
    MatchesAddressed(lapics, false, 0, 0x111);
  }

  lemma AddressedPresent(lapics: seq<Lapic>, flat: bool, j: nat, dest: nat)
    requires j < |lapics|
    ensures Addressed(lapics, flat, j, dest) ==> lapics[j].present
  {
  }

  lemma NoTwo(lapics: seq<Lapic>, flat: bool, dest: nat)
    requires AllXapic(lapics, flat) && Numbered(lapics, flat)
    ensures forall i, j :: 0 <= i < j < |lapics| && HasId(lapics[i], dest) ==> !HasId(lapics[j], dest)
  {
    hide Bit, LogicalId;
  }

  lemma SameSets(a: set<nat>, b: set<nat>)
    ensures a == b <==> forall x: nat :: x in a <==> x in b
  {
  }
}
