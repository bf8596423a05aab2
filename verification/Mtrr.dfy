/**
 Guest memory types: the sorted list of variable ranges, the iterator over fixed and variable
 ranges, the type of one page and the check that a span of pages has one type.
 */
module Mtrr {
  import opened Arith

  const PAGE: nat := 4096
  const FIXED_END: nat := 0x10_0000
  const FIXED_RANGES: nat := 88
  const VAR_RANGES: nat := 8

  const UC: nat := 0
  const WT: nat := 4
  const WB: nat := 6

  /** A variable range: two 64-bit registers. */
  datatype Range = Range(base: nat, mask: nat)

  /** valid_mtrr_type */
  predicate IsType(t: nat) {
    t in {0, 1, 4, 5, 6}
  }

  /** struct kvm_mtrr; `head` lists indices into `ranges`. */
  datatype State = State(deftype: nat, fixed: seq<nat>, ranges: seq<Range>, head: seq<nat>) {

    predicate Enabled() { deftype / 2048 % 2 == 1 }

    predicate FixedEnabled() { deftype / 1024 % 2 == 1 }

    function DefaultType(): nat { deftype % 256 }

    ghost predicate Wf() {
      && |fixed| == FIXED_RANGES
      && |ranges| == VAR_RANGES
      && forall k :: 0 <= k < |head| ==> head[k] < VAR_RANGES
    }

    /** Every type a lookup can meet is one of the five memory types. */
    ghost predicate TypesOk() {
      && (forall i :: 0 <= i < |fixed| ==> IsType(fixed[i]))
      && (forall i :: 0 <= i < |ranges| ==> IsType(RangeType(ranges[i])))
      && IsType(DefaultType())
    }

    function Listed(k: nat): Range
      requires Wf() && k < |head|
    {
      ranges[head[k]]
    }
  }

  // ----- Bounds of a variable range ---------------------------------------------------------

  function Or(a: nat, b: nat): nat
    decreases a + b
  {
    if a == 0 && b == 0 then 0
    else 2 * Or(a / 2, b / 2) + if a % 2 == 1 || b % 2 == 1 then 1 else 0
  }

  lemma {:induction false} OrAtLeast(a: nat, b: nat)
    ensures Or(a, b) >= a
    decreases a + b
  {
    if a != 0 || b != 0 {
      OrAtLeast(a / 2, b / 2);
    }
  }

  lemma {:induction false} OrBelow(a: nat, b: nat, n: nat)
    requires a < Pow2(n) && b < Pow2(n)
    ensures Or(a, b) < Pow2(n)
    decreases n
  {
    if n > 0 {
      OrBelow(a / 2, b / 2, n - 1);
    }
  }

  lemma ModDouble(y: nat, m: nat, bit: nat)
    requires m > 0 && bit < 2
    ensures (2 * y + bit) % (2 * m) == 2 * (y % m) + bit
  {
    var q, r := y / m, y % m;
    assert 2 * y + bit == (2 * m) * q + (2 * r + bit);
    DivUnique(2 * y + bit, 2 * m, q, 2 * r + bit);
  }

  /** Low ones survive the bitwise or. */
  lemma {:induction false} OrLowOnes(a: nat, b: nat, k: nat)
    requires b % Pow2(k) == Pow2(k) - 1
    ensures Or(a, b) % Pow2(k) == Pow2(k) - 1
    decreases k
  {
    if k > 0 {
      ModDouble(b / 2, Pow2(k - 1), b % 2);
      OrLowOnes(a / 2, b / 2, k - 1);
      ModDouble(Or(a / 2, b / 2), Pow2(k - 1), 1);
    }
  }

  predicate RangeValid(r: Range) {
    r.mask / 2048 % 2 == 1
  }

  function RangeType(r: Range): nat {
    r.base % 256
  }

  /** var_mtrr_range, before the 64-bit truncation of the end that NoOverflow shows away. */
  function VarStart(r: Range): nat {
    r.base / PAGE * PAGE
  }

  function PageMask(r: Range): nat {
    r.mask % TWO64 / PAGE * PAGE
  }

  function VarEnd(r: Range): nat {
    Or(VarStart(r), TWO64 - 1 - PageMask(r)) + 1
  }

  lemma {:induction false} OrAligned(a: nat, k: nat)
    requires a % Pow2(k) == 0
    ensures Or(a, Pow2(k) - 1) == a + Pow2(k) - 1
    decreases k
  {
    if k == 0 {
      OrNothing(a);
    } else {
      var m := Pow2(k - 1);
      HalfAligned(a, m);
      OrAligned(a / 2, k - 1);
      assert (2 * m - 1) / 2 == m - 1 && (2 * m - 1) % 2 == 1;
    }
  }

  lemma HalfAligned(a: nat, m: nat)
    requires m > 0 && a % (2 * m) == 0
    ensures a % 2 == 0 && a / 2 % m == 0
  {
    var q := a / (2 * m);
    assert a == 2 * (m * q);
    DivUnique(a / 2, m, q, 0);
  }

  lemma {:induction false} OrNothing(a: nat)
    ensures Or(a, 0) == a
  {
    if a != 0 {
      OrNothing(a / 2);
    }
  }

  /** A variable range is a non-empty span of whole pages. */
  lemma WholePages(r: Range)
    ensures VarStart(r) < VarEnd(r) && VarStart(r) % PAGE == 0 && VarEnd(r) % PAGE == 0
  {
    hide Or, Pow2;
    Pow2Values();
    var low := TWO64 - 1 - PageMask(r);
    assert low % PAGE == PAGE - 1;
    OrAtLeast(VarStart(r), low);
    OrLowOnes(VarStart(r), low, 12);
  }

  /** The mask was extended with ones above the physical width and the base has none there. */
  ghost predicate Extended(r: Range, maxPhy: nat) {
    && r.base < Pow2(maxPhy)
    && (RangeValid(r) ==> TWO64 - Pow2(maxPhy) <= r.mask < TWO64)
  }

  /** The end of a listed range fits in the guest's physical address space, so it cannot wrap. */
  lemma {:induction false} NoOverflow(r: Range, maxPhy: nat)
    requires 12 <= maxPhy <= 52 && Extended(r, maxPhy) && RangeValid(r)
    ensures VarEnd(r) <= Pow2(maxPhy) < TWO64
  {
    hide Pow2, Or, RangeValid;
    Pow2Values();
    Pow2Split(12, maxPhy - 12);
    assert Pow2(12) * Pow2(maxPhy - 12) == PAGE * Pow2(maxPhy - 12);
    PageMaskHigh(r.mask, Pow2(maxPhy - 12));
    OrBelow(VarStart(r), TWO64 - 1 - PageMask(r), maxPhy);
    Pow2Less(maxPhy);
  }

  lemma {:induction false} Pow2Less(n: nat)
    requires n <= 52
    ensures Pow2(n) < TWO64
  {
    hide Pow2;
    Pow2Values();
    Pow2Mono(n, 52);
  }

  lemma PageMaskHigh(mask: nat, m: nat)
    requires TWO64 - PAGE * m <= mask < TWO64
    ensures mask % TWO64 / PAGE * PAGE >= TWO64 - PAGE * m
  {
    assert TWO64 == PAGE * 0x10_0000_0000_0000;
    assert mask / PAGE >= 0x10_0000_0000_0000 - m;
  }

  // ----- Writing a variable range register -----------------------------------------------------

  function Minus(s: seq<nat>, x: nat): seq<nat> {
    if s == [] then [] else (if s[0] == x then [] else [s[0]]) + Minus(s[1..], x)
  }

  ghost function EnabledRanges(ranges: seq<Range>): set<nat> {
    set i: nat | i < |ranges| && RangeValid(ranges[i])
  }

  ghost predicate Distinct(head: seq<nat>) {
    forall j, k :: 0 <= j < k < |head| ==> head[j] != head[k]
  }

  function Base(ranges: seq<Range>, i: nat): nat {
    if i < |ranges| then ranges[i].base else 0
  }

  ghost predicate Descending(ranges: seq<Range>, head: seq<nat>) {
    forall j, k :: 0 <= j < k < |head| ==> Base(ranges, head[j]) >= Base(ranges, head[k])
  }

  /** The list holds exactly the enabled ranges, each once, by descending base. */
  ghost predicate ListOk(ranges: seq<Range>, head: seq<nat>) {
    && (forall i :: i in head <==> i in EnabledRanges(ranges))
    && Distinct(head)
    && Descending(ranges, head)
  }

  lemma {:induction false} MinusCat(a: seq<nat>, b: seq<nat>, x: nat)
    ensures Minus(a + b, x) == Minus(a, x) + Minus(b, x)
  {
    if a == [] {
      assert a + b == b;
    } else {
      assert (a + b)[1..] == a[1..] + b;
      MinusCat(a[1..], b, x);
    }
  }

  lemma {:induction false} MinusAbsent(s: seq<nat>, x: nat)
    requires x !in s
    ensures Minus(s, x) == s
  {
    if s != [] {
      MinusAbsent(s[1..], x);
    }
  }

  lemma {:induction false} MinusSelf(x: nat)
    ensures Minus([x], x) == []
  {
  }

  lemma {:induction false} MinusOne(a: seq<nat>, b: seq<nat>, x: nat)
    requires x !in a && x !in b
    ensures Minus(a + [x] + b, x) == a + b
  {
    hide Minus;
    MinusSelf(x);
    MinusCat(a + [x], b, x);
    MinusCat(a, [x], x);
    MinusAbsent(a, x);
    MinusAbsent(b, x);
    assert a + [] == a;
  }

  /** The same for all enabled ranges but `x`. */
  ghost predicate ListOkBut(ranges: seq<Range>, rest: seq<nat>, x: nat) {
    && (forall i :: i in rest <==> i in EnabledRanges(ranges) && i != x)
    && Distinct(rest)
    && Descending(ranges, rest)
  }

  lemma RemoveOrder(ranges: seq<Range>, head: seq<nat>, p: nat)
    requires p < |head| && Distinct(head) && Descending(ranges, head)
    ensures head[p] !in head[..p] && head[p] !in head[p + 1..]
    ensures Distinct(head[..p] + head[p + 1..]) && Descending(ranges, head[..p] + head[p + 1..])
  {
    hide Base;
    var rest := head[..p] + head[p + 1..];
    forall j, k | 0 <= j < k < |rest|
      ensures rest[j] != rest[k] && Base(ranges, rest[j]) >= Base(ranges, rest[k])
    {
      var j', k' := if j < p then j else j + 1, if k < p then k else k + 1;
      assert rest[j] == head[j'] && rest[k] == head[k'];
    }
  }

  /** Taking a range off the list leaves a correct list of the others. */
  lemma {:induction false} Unlist(ranges: seq<Range>, head: seq<nat>, x: nat)
    requires ListOk(ranges, head)
    ensures ListOkBut(ranges, Minus(head, x), x)
  {
    hide Minus, Distinct, Descending, EnabledRanges;
    if x in head {
      var p :| 0 <= p < |head| && head[p] == x;
      RemoveOrder(ranges, head, p);
      assert head == head[..p] + [x] + head[p + 1..];
      MinusOne(head[..p], head[p + 1..], x);
    } else {
      MinusAbsent(head, x);
    }
  }

  lemma {:induction false} ChangeOther(ranges: seq<Range>, rest: seq<nat>, x: nat, val: Range)
    requires ListOkBut(ranges, rest, x) && x < |ranges|
    ensures ListOkBut(ranges[x := val], rest, x)
    ensures !RangeValid(val) ==> ListOk(ranges[x := val], rest)
  {
    hide RangeValid, Distinct;
    assert EnabledRanges(ranges[x := val]) - {x} == EnabledRanges(ranges) - {x};
    forall j, k | 0 <= j < k < |rest|
      ensures Base(ranges[x := val], rest[j]) >= Base(ranges[x := val], rest[k])
    {
      assert rest[j] in rest && rest[k] in rest;
    }
  }

  lemma {:induction false} InsertOrder(ranges: seq<Range>, rest: seq<nat>, x: nat, pos: nat)
    requires pos <= |rest| && x !in rest && Distinct(rest) && Descending(ranges, rest)
    requires forall k :: 0 <= k < pos ==> Base(ranges, rest[k]) > Base(ranges, x)
    requires pos < |rest| ==> Base(ranges, x) >= Base(ranges, rest[pos])
    ensures Distinct(rest[..pos] + [x] + rest[pos..]) && Descending(ranges, rest[..pos] + [x] + rest[pos..])
  {
    hide Base;
    var head := rest[..pos] + [x] + rest[pos..];
    forall j, k | 0 <= j < k < |head|
      ensures head[j] != head[k] && Base(ranges, head[j]) >= Base(ranges, head[k])
    {
      var j', k' := if j < pos then j else j - 1, if k < pos then k else k - 1;
      assert j != pos ==> head[j] == rest[j'];
      assert k != pos ==> head[k] == rest[k'];
      assert j == pos && k' > pos ==> Base(ranges, rest[pos]) >= Base(ranges, rest[k']);
    }
  }

  /** Putting it in before the first range whose base is not larger keeps the order. */
  lemma {:induction false} Enlist(ranges: seq<Range>, rest: seq<nat>, x: nat, pos: nat)
    requires ListOkBut(ranges, rest, x) && x in EnabledRanges(ranges) && pos <= |rest|
    requires forall k :: 0 <= k < pos ==> Base(ranges, rest[k]) > Base(ranges, x)
    requires pos < |rest| ==> Base(ranges, x) >= Base(ranges, rest[pos])
    ensures ListOk(ranges, rest[..pos] + [x] + rest[pos..])
    ensures Minus(rest[..pos] + [x] + rest[pos..], x) == rest
  {
    hide Minus, Distinct, Descending, EnabledRanges, Base;
    assert rest[..pos] + rest[pos..] == rest;
    InsertOrder(ranges, rest, x, pos);
    MinusOne(rest[..pos], rest[pos..], x);
    forall i
      ensures i in rest[..pos] + [x] + rest[pos..] <==> i in rest || i == x
    {
      assert i in rest <==> i in rest[..pos] + rest[pos..];
    }
  }

  /** kvm_mtrr_valid for the variable-range registers. */
  predicate VarDataOk(isMask: bool, data: nat, maxPhy: nat) {
    && data < Pow2(maxPhy)
    && if isMask then data % 2048 == 0
       else IsType(data % 256) && data / 256 % 16 == 0
  }

  /** A base is a page address with a type below it, a mask a page mask with at most the enable bit. */
  lemma {:induction false} VarDataExactly(isMask: bool, data: nat, maxPhy: nat)
    ensures VarDataOk(isMask, data, maxPhy) <==>
              data < Pow2(maxPhy) && if isMask then data % PAGE == 0 || data % PAGE == 2048 else IsType(data % PAGE)
  {
    hide Pow2, IsType;
    PageOffset(data);
    TypeSmall(data % PAGE);
  }

  lemma PageOffset(data: nat)
    ensures data % PAGE == data % 256 + 256 * (data / 256 % 16)
    ensures data % 2048 == 0 <==> data % PAGE == 0 || data % PAGE == 2048
  {
    DivUnique(data, PAGE, data / 256 / 16, data % 256 + 256 * (data / 256 % 16));
    DivUnique(data, PAGE, data / 2048 / 2, data % 2048 + 2048 * (data / 2048 % 2));
  }

  lemma TypeSmall(t: nat)
    ensures IsType(t) ==> t < 256
  {
  }

  function Written(r: Range, isMask: bool, data: nat, maxPhy: nat): Range
    requires data < Pow2(maxPhy) <= TWO64
  {
    if isMask then r.(mask := data + (TWO64 - Pow2(maxPhy))) else r.(base := data)
  }

  // ----- Registers -------------------------------------------------------------------------------

  /** The `n` low bytes of a value, the least first, as the store to fixed_ranges lays them out. */
  function Bytes(data: nat, n: nat): (s: seq<nat>)
    ensures |s| == n
  {
    if n == 0 then [] else [data % 256] + Bytes(data / 256, n - 1)
  }

  function Joined(bytes: seq<nat>): nat {
    if bytes == [] then 0 else bytes[0] + 256 * Joined(bytes[1..])
  }

  lemma {:induction false} BytesJoined(data: nat, n: nat)
    requires data < Pow2(8 * n)
    ensures Joined(Bytes(data, n)) == data
    decreases n
  {
    if n > 0 {
      Pow2Split(8, 8 * n - 8);
      assert Pow2(8) == 256;
      BytesJoined(data / 256, n - 1);
    }
  }

  /** The registers of the model; `u` counts the eleven fixed-range registers in address order. */
  datatype Msr = Fixed(u: nat) | DefType | VarBase(i: nat) | VarMask(i: nat)

  predicate IsMsr(m: Msr) {
    match m
    case Fixed(u) => u < FIXED_RANGES / 8
    case DefType => true
    case VarBase(i) => i < VAR_RANGES
    case VarMask(i) => i < VAR_RANGES
  }

  /** kvm_mtrr_valid */
  predicate DataOk(m: Msr, data: nat, maxPhy: nat) {
    match m
    case Fixed(_) => forall i :: 0 <= i < 8 ==> IsType(Bytes(data, 8)[i])
    case DefType => data < 4096 && data / 256 % 4 == 0 && IsType(data % 256)
    case VarBase(_) => VarDataOk(false, data, maxPhy)
    case VarMask(_) => VarDataOk(true, data, maxPhy)
  }

  /** kvm_mtrr_get_msr */
  function Get(st: State, m: Msr, maxPhy: nat): nat
    requires st.Wf() && IsMsr(m)
  {
    match m
    case Fixed(u) => Joined(st.fixed[8 * u..8 * u + 8])
    case DefType => st.deftype
    case VarBase(i) => st.ranges[i].base % Pow2(maxPhy)
    case VarMask(i) => st.ranges[i].mask % Pow2(maxPhy)
  }

  function StoreBytes(fixed: seq<nat>, u: nat, bytes: seq<nat>): (s: seq<nat>)
    requires |fixed| == FIXED_RANGES && u < FIXED_RANGES / 8 && |bytes| == 8
    ensures |s| == FIXED_RANGES
  {
    fixed[..8 * u] + bytes + fixed[8 * u + 8..]
  }

  lemma StoredBytes(fixed: seq<nat>, u: nat, bytes: seq<nat>, v: nat)
    requires |fixed| == FIXED_RANGES && u < FIXED_RANGES / 8 && v < FIXED_RANGES / 8 && |bytes| == 8
    ensures StoreBytes(fixed, u, bytes)[8 * v..8 * v + 8] == if v == u then bytes else fixed[8 * v..8 * v + 8]
  {
  }

  /** Byte `j` of a value, the least first. */
  function ByteAt(data: nat, j: nat): nat {
    if j == 0 then data % 256 else ByteAt(data / 256, j - 1)
  }

  lemma {:induction false} JoinedByte(bytes: seq<nat>, j: nat)
    requires j < |bytes| && forall i :: 0 <= i < |bytes| ==> bytes[i] < 256
    ensures ByteAt(Joined(bytes), j) == bytes[j]
    decreases j
  {
    if j > 0 {
      assert Joined(bytes) / 256 == Joined(bytes[1..]);
      JoinedByte(bytes[1..], j - 1);
    }
  }

  /** The ones put above the physical width disappear again when the mask is read. */
  lemma {:induction false} MaskReadsBack(data: nat, maxPhy: nat)
    requires maxPhy <= 52 && data < Pow2(maxPhy)
    ensures data + (TWO64 - Pow2(maxPhy)) >= 0 && (data + (TWO64 - Pow2(maxPhy))) % Pow2(maxPhy) == data
  {
    hide Pow2;
    Pow2Values();
    var p, q := Pow2(maxPhy), Pow2(64 - maxPhy);
    Pow2Split(64 - maxPhy, maxPhy);
    assert q * p - p == p * (q - 1);
    DivUnique(data + p * (q - 1), p, q - 1, data);
  }

  /** What every write to the registers keeps. */
  ghost predicate StateOk(st: State, maxPhy: nat) {
    && 12 <= maxPhy <= 52
    && st.Wf()
    && st.TypesOk()
    && ListOk(st.ranges, st.head)
    && forall i :: 0 <= i < VAR_RANGES ==> Extended(st.ranges[i], maxPhy)
  }

  class Registers {
    var state: State
    const maxPhy: nat

    ghost predicate Valid()
      reads this
    {
      StateOk(state, maxPhy)
    }

    /** kvm_vcpu_mtrr_init on the zeroed vCPU. */
    constructor (maxPhy: nat)
      requires 12 <= maxPhy <= 52
      ensures Valid() && this.maxPhy == maxPhy && state.head == [] && !state.Enabled()
    {
      this.maxPhy := maxPhy;
      state := State(0, seq(FIXED_RANGES, _ => 0), seq(VAR_RANGES, _ => Range(0, 0)), []);
    }

    /**
     kvm_mtrr_set_msr: a value that is not valid for the register is refused with no change; a valid
     one reads back as it was written, and every other register reads as before.
     */
    method SetMsr(m: Msr, data: nat) returns (ok: bool)
      requires Valid() && IsMsr(m) && data < TWO64
      modifies this
      ensures Valid() && ok == DataOk(m, data, maxPhy)
      ensures !ok ==> state == old(state)
      ensures ok ==> Get(state, m, maxPhy) == data
      ensures forall k :: IsMsr(k) && k != m ==> Get(state, k, maxPhy) == Get(old(state), k, maxPhy)
    {
      hide Pow2, Joined, ListOk, Bytes, Extended, StoreBytes, VarDataOk, Minus;
      match m
      case Fixed(u) =>
        var bytes := Bytes(data, 8);
        ok := forall i :: 0 <= i < 8 ==> IsType(bytes[i]);
        if ok {
          Pow2Values();
          BytesJoined(data, 8);
          forall v | 0 <= v < FIXED_RANGES / 8
            ensures StoreBytes(state.fixed, u, bytes)[8 * v..8 * v + 8] == if v == u then bytes else state.fixed[8 * v..8 * v + 8]
          {
            StoredBytes(state.fixed, u, bytes, v);
          }
          StoredTypes(state.fixed, u, bytes);
          state := state.(fixed := StoreBytes(state.fixed, u, bytes));
        }
      case DefType =>
        ok := data < 4096 && data / 256 % 4 == 0 && IsType(data % 256);
        if ok {
          state := state.(deftype := data);
        }
      case VarBase(i) =>
        ok := SetVar(i, false, data);
        if ok {
          SmallMod(data, Pow2(maxPhy));
        }
      case VarMask(i) =>
        ok := SetVar(i, true, data);
        if ok {
          MaskReadsBack(data, maxPhy);
        }
    }

    /**
     kvm_mtrr_set_msr on a variable-range register: a bad value is refused with no change; a good
     one is stored and the list again holds exactly the enabled ranges by descending base, the other
     ranges keeping their order.
     */
    method SetVar(index: nat, isMask: bool, data: nat) returns (ok: bool)
      requires Valid() && index < VAR_RANGES
      modifies this
      ensures Valid() && ok == VarDataOk(isMask, data, maxPhy)
      ensures !ok ==> state == old(state)
      ensures ok ==>
        && data < Pow2(maxPhy) <= TWO64
        && state.ranges == old(state.ranges)[index := Written(old(state.ranges[index]), isMask, data, maxPhy)]
        && Minus(state.head, index) == Minus(old(state.head), index)
        && state.deftype == old(state.deftype) && state.fixed == old(state.fixed)
    {
      hide IsType, Pow2, Minus, RangeValid, ListOk, ListOkBut, Extended, Written;
      if !VarDataOk(isMask, data, maxPhy) {
        return false;
      }
      ok := true;
      Pow2Less(maxPhy);
      var cur := state.ranges[index];
      var val := Written(cur, isMask, data, maxPhy);
      WrittenExtended(cur, isMask, data, maxPhy);
      WrittenType(cur, isMask, data, maxPhy);
      var ranges := state.ranges[index := val];
      var rest := if RangeValid(cur) then Minus(state.head, index) else state.head;
      DropFromList(state.ranges, state.head, index, val);
      if RangeValid(val) {
        rest := AddToList(ranges, rest, index);
      }
      ListBounded(ranges, rest);
      state := state.(ranges := ranges, head := rest);
    }
  }

  /** list_del, done only when the old register value was enabled. */
  lemma {:induction false} DropFromList(ranges: seq<Range>, head: seq<nat>, x: nat, val: Range)
    requires ListOk(ranges, head) && x < |ranges|
    ensures var rest := if RangeValid(ranges[x]) then Minus(head, x) else head;
            && rest == Minus(head, x)
            && Minus(rest, x) == rest
            && ListOkBut(ranges[x := val], rest, x)
            && (!RangeValid(val) ==> ListOk(ranges[x := val], rest))
  {
    hide RangeValid, Minus, Distinct, Descending;
    Unlist(ranges, head, x);
    ChangeOther(ranges, Minus(head, x), x, val);
    MinusAbsent(Minus(head, x), x);
    if !RangeValid(ranges[x]) {
      MinusAbsent(head, x);
    }
  }

  lemma {:induction false} ListBounded(ranges: seq<Range>, head: seq<nat>)
    requires ListOk(ranges, head)
    ensures forall k :: 0 <= k < |head| ==> head[k] < |ranges|
  {
    forall k | 0 <= k < |head|
      ensures head[k] < |ranges|
    {
      assert head[k] in EnabledRanges(ranges);
    }
  }

  /** The sorted insertion loop. */
  method AddToList(ranges: seq<Range>, rest: seq<nat>, x: nat) returns (head: seq<nat>)
    requires x < |ranges| && RangeValid(ranges[x]) && ListOkBut(ranges, rest, x)
    ensures ListOk(ranges, head) && Minus(head, x) == rest
  {
    hide Minus, RangeValid, ListOkBut, ListOk, Base;
    var pos := 0;
    while pos < |rest| && !(Base(ranges, x) >= Base(ranges, rest[pos]))
      invariant 0 <= pos <= |rest|
      invariant forall k :: 0 <= k < pos ==> Base(ranges, rest[k]) > Base(ranges, x)
    {
      pos := pos + 1;
    }
    Enlist(ranges, rest, x, pos);
    head := rest[..pos] + [x] + rest[pos..];
  }

  lemma {:induction false} WrittenType(r: Range, isMask: bool, data: nat, maxPhy: nat)
    requires VarDataOk(isMask, data, maxPhy) && Pow2(maxPhy) <= TWO64
    ensures IsType(RangeType(r)) ==> IsType(RangeType(Written(r, isMask, data, maxPhy)))
  {
  }

  lemma StoredTypes(fixed: seq<nat>, u: nat, bytes: seq<nat>)
    requires |fixed| == FIXED_RANGES && u < FIXED_RANGES / 8 && |bytes| == 8
    requires (forall i :: 0 <= i < |fixed| ==> IsType(fixed[i])) && forall i :: 0 <= i < 8 ==> IsType(bytes[i])
    ensures forall i :: 0 <= i < FIXED_RANGES ==> IsType(StoreBytes(fixed, u, bytes)[i])
  {
    hide IsType;
  }

  lemma SmallMod(a: nat, m: nat)
    requires a < m
    ensures a % m == a
  {
  }

  lemma {:induction false} WrittenExtended(r: Range, isMask: bool, data: nat, maxPhy: nat)
    requires maxPhy <= 52 && Extended(r, maxPhy) && VarDataOk(isMask, data, maxPhy) && Pow2(maxPhy) <= TWO64
    ensures Extended(Written(r, isMask, data, maxPhy), maxPhy)
  {
  }

  // ----- Ranges read off the registers ---------------------------------------------------------------

  /** Where the range ends, from its two registers as they read. */
  function ReadEnd(base: nat, mask: nat, maxPhy: nat): nat
    requires mask < Pow2(maxPhy)
  {
    Or(base / PAGE * PAGE, Pow2(maxPhy) - 1 - mask / PAGE * PAGE) + 1
  }

  /** An enabled range is the one its registers describe. */
  lemma {:induction false} RangeReads(st: State, i: nat, maxPhy: nat)
    requires StateOk(st, maxPhy) && i < VAR_RANGES
    ensures Get(st, VarMask(i), maxPhy) < Pow2(maxPhy)
    ensures var base, mask := Get(st, VarBase(i), maxPhy), Get(st, VarMask(i), maxPhy);
            && (RangeValid(st.ranges[i]) <==> mask / 2048 % 2 == 1)
            && RangeType(st.ranges[i]) == base % 256
            && VarStart(st.ranges[i]) == base / PAGE * PAGE
            && (RangeValid(st.ranges[i]) ==> VarEnd(st.ranges[i]) == ReadEnd(base, mask, maxPhy))
  {
    hide Pow2, Or, ListOk;
    var r := st.ranges[i];
    assert Extended(r, maxPhy);
    EnableBitReads(r.mask, maxPhy);
    SmallMod(r.base, Pow2(maxPhy));
    if RangeValid(r) {
      MaskReads(r.mask, maxPhy);
    }
  }

  lemma {:induction false} EnableBitReads(mask: nat, maxPhy: nat)
    requires 12 <= maxPhy
    ensures mask % Pow2(maxPhy) / 2048 % 2 == mask / 2048 % 2
  {
    hide Pow2;
    Pow2Values();
    Pow2Split(maxPhy - 12, 12);
    PageMultiple(mask, Pow2(maxPhy), Pow2(maxPhy - 12));
    LowBit(mask, mask % Pow2(maxPhy), Pow2(maxPhy - 12) * (mask / Pow2(maxPhy)));
  }

  lemma PageMultiple(mask: nat, m: nat, p: nat)
    requires m == p * PAGE && m > 0
    ensures mask == mask % m + PAGE * (p * (mask / m)) && p * (mask / m) >= 0
  {
    Whole(mask, m);
    Scale(m, p, mask / m);
  }

  lemma Whole(a: nat, m: nat)
    requires m > 0
    ensures a == m * (a / m) + a % m
  {
  }

  lemma Scale(m: nat, p: nat, q: nat)
    requires m == p * PAGE
    ensures m * q == PAGE * (p * q) && p * q >= 0
  {
  }

  lemma LowBit(mask: nat, m: nat, q: nat)
    requires mask == m + PAGE * q
    ensures m / 2048 % 2 == mask / 2048 % 2
  {
    assert mask / 2048 == m / 2048 + 2 * q;
  }

  lemma {:induction false} MaskReads(mask: nat, maxPhy: nat)
    requires 12 <= maxPhy <= 52 && TWO64 - Pow2(maxPhy) <= mask < TWO64
    ensures var m := mask % Pow2(maxPhy);
            m == mask - (TWO64 - Pow2(maxPhy))
            && TWO64 - 1 - mask % TWO64 / PAGE * PAGE == Pow2(maxPhy) - 1 - m / PAGE * PAGE
  {
    hide Pow2;
    Pow2Values();
    var p := Pow2(maxPhy);
    var m := mask - (TWO64 - p);
    Pow2Less(maxPhy);
    MaskReadsBack(m, maxPhy);
    Pow2Split(maxPhy - 12, 12);
    HighPart(mask, m, TWO64 - p, 0x10_0000_0000_0000 - Pow2(maxPhy - 12));
  }

  lemma HighPart(mask: nat, m: nat, h: nat, q: nat)
    requires mask == m + h && h == PAGE * q && mask < TWO64
    ensures mask % TWO64 / PAGE * PAGE == m / PAGE * PAGE + h
  {
    assert mask / PAGE == m / PAGE + q;
  }

  /** A range programmed the usual way, with a power of two as size and a base aligned to it. */
  lemma {:induction false} NaturalRange(base: nat, k: nat, maxPhy: nat)
    requires 12 <= k <= maxPhy <= 52 && base / PAGE * PAGE % Pow2(k) == 0
    ensures Pow2(k) <= Pow2(maxPhy)
    ensures var mask := Pow2(maxPhy) - Pow2(k) + 2048;
            mask < Pow2(maxPhy) ==> ReadEnd(base, mask, maxPhy) == base / PAGE * PAGE + Pow2(k)
  {
    hide Pow2, Or;
    Pow2Values();
    Pow2Mono(k, maxPhy);
    Pow2Split(k - 12, 12);
    Pow2Split(maxPhy - 12, 12);
    var mask := Pow2(maxPhy) - Pow2(k) + 2048;
    PageOfMask(Pow2(maxPhy - 12) - Pow2(k - 12), mask);
    OrAligned(base / PAGE * PAGE, k);
  }

  lemma PageOfMask(q: int, mask: nat)
    requires mask == PAGE * q + 2048
    ensures mask / PAGE * PAGE == mask - 2048
  {
  }
}
