/**
 The local APIC with APIC virtualization inactive: the in-service and request registers, the
 caches that summarize them, processor priority, injection and end of interrupt.
 */
module Lapic {

  const MAX_VECTOR: nat := 256
  const PER_REG: nat := 32

  /** A 256-bit register: eight 32-bit words, vector v at bit v % 32 of word v / 32. */
  type Bitmap = seq<seq<bool>>

  predicate Sized(b: Bitmap) {
    |b| == 8 && forall k :: 0 <= k < 8 ==> |b[k]| == PER_REG
  }

  predicate Test(b: Bitmap, v: int)
    requires Sized(b)
  {
    0 <= v < MAX_VECTOR && b[v / PER_REG][v % PER_REG]
  }

  function Put(b: Bitmap, v: nat, on: bool): (b': Bitmap)
    requires Sized(b) && v < MAX_VECTOR
    ensures Sized(b')
  {
    b[v / PER_REG := b[v / PER_REG][v % PER_REG := on]]
  }

  ghost function Vectors(b: Bitmap): set<int>
    requires Sized(b)
  {
    set v | 0 <= v < MAX_VECTOR && Test(b, v)
  }

  lemma InVectors(b: Bitmap, v: int)
    requires Sized(b) && v in Vectors(b)
    ensures 0 <= v < MAX_VECTOR && Test(b, v)
  {
  }

  lemma InVectorsIf(b: Bitmap, r: int)
    requires Sized(b) && r != -1 && IsHighest(b, r)
    ensures r in Vectors(b)
  {
  }

  lemma PutVectors(b: Bitmap, v: nat, on: bool)
    requires Sized(b) && v < MAX_VECTOR
    ensures Vectors(Put(b, v, on)) == if on then Vectors(b) + {v} else Vectors(b) - {v}
  {
    var b' := Put(b, v, on);
    forall u | 0 <= u < MAX_VECTOR ensures Test(b', u) == if u == v then on else Test(b, u) {
      if u != v && u / PER_REG == v / PER_REG {
        assert u % PER_REG != v % PER_REG;
      }
    }
  }

  /** `r` is the highest vector of the register, or -1 if there is none. */
  ghost predicate IsHighest(b: Bitmap, r: int)
    requires Sized(b)
  {
    && -1 <= r < MAX_VECTOR
    && (r != -1 ==> Test(b, r))
    && (forall v :: r < v < MAX_VECTOR ==> !Test(b, v))
  }

  /** __fls */
  function Fls(w: seq<bool>): (r: nat)
    requires true in w
    ensures r < |w| && w[r] && forall j :: r < j < |w| ==> !w[j]
  {
    var n := |w| - 1;
    if w[n] then n else assert w == w[..n] + [w[n]]; Fls(w[..n])
  }

  /** find_highest_vector */
  method FindHighest(b: Bitmap) returns (r: int)
    requires Sized(b)
    ensures IsHighest(b, r)
  {
    var k := 7;
    while k >= 0
      invariant -1 <= k < 8
      invariant forall j :: k < j < 8 ==> true !in b[j]
    {
      if true in b[k] {
        r := Fls(b[k]) + PER_REG * k;
        forall v | r < v < MAX_VECTOR ensures !Test(b, v) {
          assert v / PER_REG >= k;
          if v / PER_REG > k {
            assert b[v / PER_REG][v % PER_REG] in b[v / PER_REG];
          }
        }
        assert r / PER_REG == k;
        return;
      }
      k := k - 1;
    }
    forall v | 0 <= v < MAX_VECTOR ensures !Test(b, v) {
      assert b[v / PER_REG][v % PER_REG] in b[v / PER_REG];
    }
    return -1;
  }

  // ----- Counting ----------------------------------------------------------------------------

  /** hweight32 */
  function Weight(w: seq<bool>): (n: nat)
    ensures n <= |w|
  {
    if w == [] then 0 else Weight(w[..|w| - 1]) + if w[|w| - 1] then 1 else 0
  }

  ghost function Below(b: Bitmap, n: int): set<int>
    requires Sized(b)
  {
    set v | 0 <= v < n && Test(b, v)
  }

  /** The vectors below 32k+i are those of the first k words and the first i bits of word k. */
  lemma {:induction false} BelowSize(b: Bitmap, k: nat, i: nat)
    requires Sized(b) && k < 8 && i <= PER_REG
    ensures |Below(b, PER_REG * k + i)| == |Below(b, PER_REG * k)| + Weight(b[k][..i])
    decreases i
  {
    hide Test;
    if i > 0 {
      BelowSize(b, k, i - 1);
      var v := PER_REG * k + i - 1;
      BitAt(b, k, i - 1);
      assert b[k][..i][..i - 1] == b[k][..i - 1];
      BelowStep(b, v);
    }
  }

  lemma BitAt(b: Bitmap, k: nat, i: nat)
    requires Sized(b) && k < 8 && i < PER_REG
    ensures Test(b, PER_REG * k + i) <==> b[k][i]
  {
    assert (PER_REG * k + i) / PER_REG == k && (PER_REG * k + i) % PER_REG == i;
  }

  lemma BelowStep(b: Bitmap, v: nat)
    requires Sized(b) && v < MAX_VECTOR
    ensures |Below(b, v + 1)| == |Below(b, v)| + if Test(b, v) then 1 else 0
  {
    hide Test;
    if Test(b, v) {
      assert Below(b, v + 1) == Below(b, v) + {v};
    } else {
      assert Below(b, v + 1) == Below(b, v);
    }
  }

  /** count_vectors: the sum is kept in eight bits. */
  method CountVectors(b: Bitmap) returns (count: nat)
    requires Sized(b)
    ensures count == |Vectors(b)| % 256
  {
    hide Test, Weight;
    count := 0;
    var k := 0;
    while k < 8
      invariant 0 <= k <= 8 && count == |Below(b, PER_REG * k)| % 256
    {
      BelowSize(b, k, PER_REG);
      assert b[k][..PER_REG] == b[k] && PER_REG * k + PER_REG == PER_REG * (k + 1);
      count := (count + Weight(b[k])) % 256;
      k := k + 1;
    }
    assert Below(b, MAX_VECTOR) == Vectors(b);
  }

  lemma {:induction false} VectorsBound(b: Bitmap, n: nat)
    requires Sized(b) && n <= MAX_VECTOR
    ensures |Below(b, n)| <= n
    ensures |Below(b, n)| == n ==> forall v :: 0 <= v < n ==> Test(b, v)
    decreases n
  {
    if n > 0 {
      VectorsBound(b, n - 1);
      BelowStep(b, n - 1);
    }
  }

  // ----- Priority ----------------------------------------------------------------------------

  function Class(v: nat): nat {
    v % 256 / 16 * 16
  }

  /** Processor priority as section 10.8.3.1 of the Intel SDM Vol. 3A defines it: the class is the
      higher of the two, the sub-class is that of the task priority unless the class in service
      is higher. */
  ghost predicate IsPpr(ppr: nat, tpr: nat, isrv: nat) {
    && Class(ppr) == (if Class(tpr) >= Class(isrv) then Class(tpr) else Class(isrv))
    && ppr % 16 == (if Class(tpr) >= Class(isrv) then tpr % 16 else 0)
    && ppr < 256
  }

  /** The processor priority for the task priority and what is in service. */
  ghost predicate PprOf(ppr: nat, tpr: nat, isr: Bitmap)
    requires Sized(isr)
  {
    exists isrv :: IsHighest(isr, isrv) && IsPpr(ppr, tpr, if isrv == -1 then 0 else isrv)
  }

  /** The two branches of __apic_update_ppr compute it. */
  lemma PprRule(tpr: nat, isrv: nat)
    ensures Class(tpr) >= Class(isrv) ==> IsPpr(tpr % 256, tpr, isrv)
    ensures Class(tpr) < Class(isrv) ==> IsPpr(Class(isrv), tpr, isrv)
    ensures tpr % 256 < 256 && Class(isrv) < 256
  {
    assert tpr % 256 % 16 == tpr % 16;
  }

  /** The vector's class is above the task priority and above everything in service. */
  ghost predicate Outranks(v: int, tpr: nat, isr: Bitmap)
    requires Sized(isr)
  {
    && 0 <= v < MAX_VECTOR
    && Class(v) > Class(tpr)
    && forall u :: u in Vectors(isr) ==> Class(u) < Class(v)
  }

  /** A vector above all others in service: adding it makes it the highest. */
  lemma {:induction false} AboveAll(b: Bitmap, vec: nat)
    requires Sized(b) && vec < MAX_VECTOR && forall v :: v in Vectors(b) ==> v < vec
    ensures !Test(b, vec) && |Vectors(b)| < MAX_VECTOR
    ensures Vectors(Put(b, vec, true)) == Vectors(b) + {vec} && |Vectors(Put(b, vec, true))| == |Vectors(b)| + 1
    ensures IsHighest(Put(b, vec, true), vec)
  {
    hide Put;
    assert vec !in Vectors(b);
    VectorsBound(b, MAX_VECTOR);
    assert Below(b, MAX_VECTOR) == Vectors(b);
    PutVectors(b, vec, true);
    var c := Put(b, vec, true);
    assert vec in Vectors(c);
    assert forall v :: vec < v < MAX_VECTOR ==> (Test(c, v) ==> v in Vectors(c));
  }

  /** A class is the upper four bits of a vector, as a number on the scale of vectors. */
  lemma ClassExactly(u: int, v: int)
    requires 0 <= u < MAX_VECTOR && 0 <= v < MAX_VECTOR
    ensures Class(u) < Class(v) <==> u / 16 < v / 16
    ensures Class(u) < v <==> u / 16 * 16 < v
  {
    hide Class;
    ClassIs(u);
    ClassIs(v);
  }

  lemma ClassIs(v: int)
    requires 0 <= v < MAX_VECTOR
    ensures Class(v) == v / 16 * 16
  {
  }

  lemma ClassFacts(u: int, v: int)
    requires 0 <= u < MAX_VECTOR && 0 <= v < MAX_VECTOR
    ensures u <= v ==> Class(u) <= Class(v)
    ensures Class(u) <= u
    ensures Class(v) > u <==> Class(v) > Class(u)
  {
  }

  lemma OutranksPpr(p: nat, tpr: nat, isr: Bitmap, isrv: int)
    requires Sized(isr) && IsHighest(isr, isrv) && IsPpr(p, tpr, if isrv == -1 then 0 else isrv)
    ensures forall v :: 0 <= v < MAX_VECTOR ==> (Class(v) > p <==> Outranks(v, tpr, isr))
  {
    hide Class, Test;
    assert isrv != -1 ==> isrv in Vectors(isr);
    forall v | 0 <= v < MAX_VECTOR ensures Class(v) > p <==> Outranks(v, tpr, isr) {
      ClassFacts(p, v);
      forall u | u in Vectors(isr) ensures Class(u) <= Class(isrv) {
        ClassFacts(u, isrv);
      }
      ClassFacts(0, v);
      ClassZero();
    }
  }

  lemma OutranksAll(v: int, tpr: nat, isr: Bitmap)
    requires Sized(isr) && Outranks(v, tpr, isr)
    ensures 0 <= v < MAX_VECTOR && forall u :: u in Vectors(isr) ==> u < v && Class(u) < Class(v)
  {
    forall u | u in Vectors(isr) ensures u < v {
      ClassFacts(v, u);
    }
  }

  lemma ClassZero()
    ensures Class(0) == 0
  {
  }

  /** The registers of struct kvm_lapic_state this model reads. */
  datatype Saved = Saved(isr: Bitmap, irr: Bitmap, tmr: Bitmap, tpr: nat, ppr: nat, enabled: bool)

  datatype Op =
    | Accept(vector: nat, level: bool, trigger: bool)
    | Inject
    | Eoi
    | SetTpr(tpr: nat)
    | SetEnabled(on: bool)
    | ResetAll
    | RestoreState(saved: Saved)

  class Apic {
    var isr: Bitmap
    var irr: Bitmap
    var tmr: Bitmap
    var tpr: nat
    var ppr: nat
    var isrCount: int
    var highestIsrCache: int
    var irrPending: bool
    var enabled: bool

    ghost predicate Shape()
      reads this
    {
      Sized(isr) && Sized(irr) && Sized(tmr) && -1 <= highestIsrCache < MAX_VECTOR
    }

    /** The caches summarize the in-service register. */
    ghost predicate CachesOk()
      requires Shape()
      reads this
    {
      isrCount == |Vectors(isr)| && (highestIsrCache == -1 || IsHighest(isr, highestIsrCache))
    }

    ghost predicate Valid()
      reads this
    {
      Shape() && CachesOk() && (Vectors(irr) != {} ==> irrPending)
    }

    constructor ()
      ensures Valid() && Vectors(isr) == {} && Vectors(irr) == {}
    {
      var zero := seq(8, _ => seq(PER_REG, _ => false));
      isr, irr, tmr, tpr, ppr := zero, zero, zero, 0, 0;
      isrCount, highestIsrCache, irrPending, enabled := 0, -1, false, true;
      new;
      assert Vectors(isr) == {};
    }

    /** apic_set_isr: the new vector becomes the cached highest one, which is right because it is
        above everything in service. */
    method SetIsr(vec: nat)
      requires Valid() && vec < MAX_VECTOR
      requires forall v :: v in Vectors(isr) ==> v < vec
      modifies this`isr, this`isrCount, this`highestIsrCache
      ensures Valid() && Vectors(isr) == Vectors(old(isr)) + {vec}
      ensures isrCount <= MAX_VECTOR
    {
      hide Test, Put, Vectors, IsHighest;
      AboveAll(isr, vec);
      if Test(isr, vec) {
        return;
      }
      isr := Put(isr, vec, true);
      isrCount := isrCount + 1;
      highestIsrCache := vec;
    }

    /** apic_clear_isr */
    method ClearIsr(vec: nat)
      requires Valid() && vec < MAX_VECTOR
      modifies this`isr, this`isrCount, this`highestIsrCache
      ensures Valid() && Vectors(isr) == Vectors(old(isr)) - {vec}
      ensures isrCount >= 0
    {
      if !Test(isr, vec) {
        return;
      }
      assert vec in Vectors(isr);
      PutVectors(isr, vec, false);
      isr := Put(isr, vec, false);
      isrCount := isrCount - 1;
      highestIsrCache := -1;
    }

    /** apic_find_highest_isr: exact whenever the caches are. */
    method FindHighestIsr() returns (r: int)
      requires Shape()
      ensures -1 <= r < MAX_VECTOR
      ensures CachesOk() ==> IsHighest(isr, r)
    {
      if isrCount == 0 {
        r := -1;
        assert CachesOk() ==> Vectors(isr) == {};
        assert forall v :: 0 <= v < MAX_VECTOR && Test(isr, v) ==> v in Vectors(isr);
      } else if highestIsrCache != -1 {
        r := highestIsrCache;
      } else {
        r := FindHighest(isr);
      }
    }

    /** apic_find_highest_irr: the hint saves the search only when there is nothing to find. */
    method FindHighestIrr() returns (r: int)
      requires Shape()
      ensures -1 <= r < MAX_VECTOR && (r != -1 ==> Test(irr, r))
      ensures (Vectors(irr) != {} ==> irrPending) ==> IsHighest(irr, r)
    {
      if !irrPending {
        assert forall v :: 0 <= v < MAX_VECTOR && Test(irr, v) ==> v in Vectors(irr);
        return -1;
      }
      r := FindHighest(irr);
    }

    /** apic_clear_irr */
    method ClearIrr(vec: nat)
      requires Shape() && vec < MAX_VECTOR
      modifies this`irr, this`irrPending
      ensures Sized(irr) && Vectors(irr) == Vectors(old(irr)) - {vec}
      ensures irrPending <==> Vectors(irr) != {}
    {
      irrPending := false;
      PutVectors(irr, vec, false);
      irr := Put(irr, vec, false);
      var highest := FindHighest(irr);
      if highest != -1 {
        irrPending := true;
        assert highest in Vectors(irr);
      }
    }

    /** __apic_update_ppr */
    method UpdatePpr() returns (p: nat)
      requires Shape()
      modifies this`ppr
      ensures p == ppr < 256
      ensures CachesOk() ==> PprOf(ppr, tpr, isr)
    {
      hide Test, IsHighest, Vectors, Class, IsPpr;
      var highest := FindHighestIsr();
      var isrv := if highest != -1 then highest else 0;
      if Class(tpr) >= Class(isrv) {
        p := tpr % 256;
      } else {
        p := Class(isrv);
      }
      ppr := p;
      PprRule(tpr, isrv);
    }

    /** apic_has_interrupt_for_ppr */
    method HasInterruptForPpr(p: nat) returns (r: int)
      requires Shape() && (Vectors(irr) != {} ==> irrPending) && p < 256
      ensures r == -1 || (IsHighest(irr, r) && Class(r) > p)
      ensures r == -1 ==> forall v :: v in Vectors(irr) ==> Class(v) <= p
    {
      hide Class, Test;
      var highest := FindHighestIrr();
      if highest == -1 || Class(highest) <= p {
        forall v | v in Vectors(irr)
          ensures Class(v) <= p
        {
          InVectors(irr, v);
          assert v <= highest;
          ClassFacts(v, highest);
        }
        return -1;
      }
      return highest;
    }

    /** kvm_apic_has_interrupt: a vector is offered exactly when its class is above the task
        priority class and above every class in service. */
    method HasInterrupt() returns (r: int)
      requires Valid()
      modifies this`ppr
      ensures Valid()
      ensures !enabled ==> r == -1
      ensures r != -1 ==> IsHighest(irr, r) && Outranks(r, tpr, isr)
      ensures r == -1 && enabled ==> forall v :: v in Vectors(irr) ==> !Outranks(v, tpr, isr)
      ensures if enabled then PprOf(ppr, tpr, isr) else ppr == old(ppr)
    {
      if !enabled {
        return -1;
      }
      var p := UpdatePpr();
      ghost var isrv :| IsHighest(isr, isrv) && IsPpr(p, tpr, if isrv == -1 then 0 else isrv);
      r := HasInterruptForPpr(p);
      OutranksPpr(p, tpr, isr, isrv);
    }

    /** kvm_get_apic_interrupt: the vector leaves IRR and, unless it is an auto-EOI vector, enters
        ISR strictly above every vector in service. */
    method GetInterrupt(autoEoi: set<int>) returns (r: int)
      requires Valid()
      modifies this`ppr, this`irr, this`irrPending, this`isr, this`isrCount, this`highestIsrCache
      ensures Valid()
      ensures r == -1 <==> !enabled || forall v :: v in Vectors(old(irr)) ==> !Outranks(v, tpr, old(isr))
      ensures r == -1 ==> irr == old(irr) && isr == old(isr)
      ensures if enabled then PprOf(ppr, tpr, isr) else ppr == old(ppr)
      ensures r != -1 ==> IsHighest(old(irr), r) && Vectors(irr) == Vectors(old(irr)) - {r}
      ensures r != -1 ==> forall v :: v in Vectors(old(isr)) ==> v < r && Class(v) < Class(r)
      ensures r != -1 ==> Vectors(isr) == if r in autoEoi then Vectors(old(isr)) else Vectors(old(isr)) + {r}
    {
      hide Class, Test, Outranks, PprOf, Vectors, IsHighest;
      r := HasInterrupt();
      if r == -1 {
        return;
      }
      InVectorsIf(irr, r);
      OutranksAll(r, tpr, isr);
      ClearIrr(r);
      if r !in autoEoi {
        SetIsr(r);
      }
      var _ := UpdatePpr();
    }

    /** apic_set_eoi: ends the highest interrupt in service, if any. */
    method SetEoi() returns (r: int)
      requires Valid()
      modifies this`ppr, this`isr, this`isrCount, this`highestIsrCache
      ensures Valid() && IsHighest(old(isr), r)
      ensures Vectors(isr) == Vectors(old(isr)) - {r}
      ensures if r == -1 then ppr == old(ppr) else PprOf(ppr, tpr, isr)
    {
      hide Class, PprOf;
      r := FindHighestIsr();
      if r == -1 {
        return;
      }
      ClearIsr(r);
      var _ := UpdatePpr();
    }

    /** apic_set_tpr */
    method WriteTpr(value: nat)
      requires Valid()
      modifies this`tpr, this`ppr
      ensures Valid() && tpr == value && PprOf(ppr, tpr, isr)
    {
      hide PprOf;
      tpr := value;
      var _ := UpdatePpr();
    }

    /** The fixed and lowest-priority cases of __apic_accept_irq. */
    method AcceptIrq(vector: nat, level: bool, trigger: bool) returns (result: nat)
      requires Valid() && vector < MAX_VECTOR
      modifies this`irr, this`irrPending, this`tmr
      ensures Valid()
      ensures result == if (trigger && !level) || !enabled then 0 else 1
      ensures result == 0 ==> irr == old(irr) && tmr == old(tmr)
      ensures result == 1 ==> Vectors(irr) == Vectors(old(irr)) + {vector}
      ensures result == 1 ==> Vectors(tmr) == if trigger then Vectors(old(tmr)) + {vector} else Vectors(old(tmr)) - {vector}
    {
      hide Put;
      if trigger && !level {
        return 0;
      }
      if !enabled {
        return 0;
      }
      PutVectors(tmr, vector, trigger);
      PutVectors(irr, vector, true);
      if Test(tmr, vector) != trigger {
        tmr := Put(tmr, vector, trigger);
      } else {
        assert vector in Vectors(tmr) <==> trigger;
      }
      irr := Put(irr, vector, true);
      irrPending := true;
      return 1;
    }

    /** The register part of kvm_lapic_reset. */
    method Reset()
      modifies this
      ensures Valid() && Vectors(isr) == {} && Vectors(irr) == {} && tpr == 0
    {
      var zero := seq(8, _ => seq(PER_REG, _ => false));
      isr, irr, tmr, tpr := zero, zero, zero, 0;
      irrPending, isrCount, highestIsrCache := false, 0, -1;
      enabled := false;
      assert Vectors(isr) == {};
      var _ := UpdatePpr();
    }

    /** The register part of kvm_apic_set_state. Priority is recomputed from the old caches before
        these are rebuilt, and the rebuilt count is right exactly when fewer than 256 vectors are
        in service. */
    method Restore(s: Saved)
      requires Shape() && Sized(s.isr) && Sized(s.irr) && Sized(s.tmr)
      modifies this
      ensures Shape() && isr == s.isr && irr == s.irr && tmr == s.tmr && tpr == s.tpr
      ensures enabled == s.enabled
      ensures Valid() <==> |Vectors(s.isr)| < MAX_VECTOR
      ensures |Vectors(s.isr)| == MAX_VECTOR ==> isrCount == 0
    {
      enabled := s.enabled;
      isr, irr, tmr, tpr, ppr := s.isr, s.irr, s.tmr, s.tpr, s.ppr;
      var _ := UpdatePpr();
      irrPending := true;
      isrCount := CountVectors(isr);
      highestIsrCache := -1;
      VectorsBound(isr, MAX_VECTOR);
      assert Below(isr, MAX_VECTOR) == Vectors(isr);
    }

    /** On every run the caches agree with the registers and no pending request is overlooked,
        as long as no restored state has all 256 vectors in service. */
    method Run(ops: seq<Op>, autoEoi: set<int>)
      requires Valid()
      requires forall n :: 0 <= n < |ops| && ops[n].RestoreState? ==>
        Sized(ops[n].saved.isr) && Sized(ops[n].saved.irr) && Sized(ops[n].saved.tmr) && |Vectors(ops[n].saved.isr)| < MAX_VECTOR
      modifies this
      ensures Valid()
    {
      for n := 0 to |ops|
        invariant Valid()
      {
        match ops[n]
        case Accept(vector, level, trigger) =>
          if vector < MAX_VECTOR {
            var _ := AcceptIrq(vector, level, trigger);
          }
        case Inject => var _ := GetInterrupt(autoEoi);
        case Eoi => var _ := SetEoi();
        case SetTpr(t) => WriteTpr(t);
        case SetEnabled(on) => enabled := on;
        case ResetAll => Reset();
        case RestoreState(saved) => Restore(saved);
      }
    }
  }

  lemma {:induction false} FullBelow(b: Bitmap, n: nat)
    requires Sized(b) && n <= MAX_VECTOR && forall v :: 0 <= v < MAX_VECTOR ==> Test(b, v)
    ensures |Below(b, n)| == n
    decreases n
  {
    hide Test;
    if n > 0 {
      FullBelow(b, n - 1);
      BelowStep(b, n - 1);
    } else {
      assert Below(b, 0) == {};
    }
  }

  /** All 256 vectors in service: the restored count is zero and the caches are wrong. */
  method RestoreFull() returns (a: Apic)
    ensures fresh(a) && a.Shape() && |Vectors(a.isr)| == MAX_VECTOR && a.isrCount == 0 && !a.Valid()
  {
    a := new Apic();
    var full := seq(8, _ => seq(PER_REG, _ => true));
    assert forall v :: 0 <= v < MAX_VECTOR ==> Test(full, v);
    FullBelow(full, MAX_VECTOR);
    assert Below(full, MAX_VECTOR) == Vectors(full);
    a.Restore(Saved(full, full, full, 0, 0, true));
  }
}
