/** The MTRR iterator, the memory type of a page and the consistency check over a span of pages. */
module MtrrLookup {
  import opened Arith
  import opened Mtrr

  // ----- Fixed ranges ------------------------------------------------------------------------

  /** fixed_mtrr_addr_to_seg followed by fixed_mtrr_addr_seg_to_range_index. */
  function SegOf(addr: nat): int {
    if addr < 0x80000 then 0 else if addr < 0xC0000 then 1 else if addr < FIXED_END then 2 else -1
  }

  function IndexOf(addr: nat, seg: int): nat
    requires seg == SegOf(addr) && seg >= 0
  {
    if seg == 0 then addr / 0x10000
    else if seg == 1 then 8 + (addr - 0x80000) / 0x4000
    else 24 + (addr - 0xC0000) / 0x1000
  }

  function SegOfIndex(i: nat): int {
    if i < 8 then 0 else if i < 24 then 1 else 2
  }

  /** fixed_mtrr_range_end_addr */
  function RangeEnd(seg: int, i: int): int {
    if seg == 0 then (i + 1) * 0x10000
    else if seg == 1 then 0x80000 + (i - 8 + 1) * 0x4000
    else 0xC0000 + (i - 24 + 1) * 0x1000
  }

  /** fixed_mtrr_seg_end_range_index */
  function SegLast(seg: int): int {
    if seg == 0 then 7 else if seg == 1 then 23 else 87
  }

  function RangeStart(i: nat): int {
    if i == 0 then 0 else RangeEnd(SegOfIndex(i - 1), i - 1)
  }

  /** A page below 1MB lies within the fixed range its address selects. */
  lemma InFixedRange(addr: nat)
    requires addr < FIXED_END
    ensures IndexOf(addr, SegOf(addr)) < FIXED_RANGES
    ensures SegOfIndex(IndexOf(addr, SegOf(addr))) == SegOf(addr)
    ensures var i := IndexOf(addr, SegOf(addr)); RangeStart(i) <= addr < RangeEnd(SegOf(addr), i)
    ensures addr % PAGE == 0 ==> addr + PAGE <= RangeEnd(SegOf(addr), IndexOf(addr, SegOf(addr)))
  {
  }

  // ----- What a lookup visits -----------------------------------------------------------------

  /** The types a lookup yields, in order, and whether it finds the span only partly covered. */
  datatype Walk = Walk(types: seq<nat>, partial: bool)

  /** Does the variable range at list position `k` meet [start, end)? */
  predicate Meets(st: State, k: nat, start: nat, end: nat)
    requires st.Wf() && k < |st.head|
  {
    !(VarStart(st.Listed(k)) >= end || VarEnd(st.Listed(k)) <= start)
  }

  function Max(a: nat, b: nat): nat {
    if a > b then a else b
  }

  function VarWalk(st: State, k: nat, start: nat, end: nat, startMax: nat, partial: bool): Walk
    requires st.Wf() && k <= |st.head|
    decreases |st.head| - k
  {
    if k == |st.head| then Walk([], partial || startMax < end)
    else if Meets(st, k, start, end) then
      var r := st.Listed(k);
      var rest := VarWalk(st, k + 1, start, end, Max(startMax, VarEnd(r)), partial || startMax < VarStart(r));
      Walk([RangeType(r)] + rest.types, rest.partial)
    else VarWalk(st, k + 1, start, end, startMax, partial)
  }

  function FixedWalk(st: State, i: nat, start: nat, end: nat, partial: bool): Walk
    requires st.Wf() && i < FIXED_RANGES
    decreases FIXED_RANGES - i
  {
    var rest :=
      if RangeEnd(SegOfIndex(i), i) >= end then Walk([], partial)
      else if i + 1 >= FIXED_RANGES then VarWalk(st, 0, start, end, start, partial)
      else FixedWalk(st, i + 1, start, end, partial);
    Walk([st.fixed[i]] + rest.types, rest.partial)
  }

  /** Everything a lookup of [start, end) visits. */
  function Visits(st: State, start: nat, end: nat): Walk
    requires st.Wf()
  {
    if !st.Enabled() then Walk([], false)
    else if st.FixedEnabled() && start < FIXED_END then
      InFixedRange(start);
      FixedWalk(st, IndexOf(start, SegOf(start)), start, end, false)
    else VarWalk(st, 0, start, end, start, false)
  }

  /** struct mtrr_iter */
  class Iter {
    const st: State
    const start: nat
    const end: nat
    var memType: nat
    var disabled: bool
    var partial: bool
    var index: nat
    var seg: int
    var range: Option<nat>
    var startMax: nat
    var fixed: bool

    ghost predicate Valid()
      reads this
    {
      && st.Wf()
      && (fixed ==> index < FIXED_RANGES && seg == SegOfIndex(index))
      && (!fixed && range.Some? ==> range.value < |st.head|)
    }

    /** What is still to be visited, the current item first. */
    ghost function Rest(): Walk
      requires Valid()
      reads this
    {
      if fixed then FixedWalk(st, index, start, end, partial)
      else match range
        case None => Walk([], partial)
        case Some(k) =>
          var rest := VarWalk(st, k + 1, start, end, startMax, partial);
          Walk([RangeType(st.Listed(k))] + rest.types, rest.partial)
    }

    /** mtrr_lookup_init */
    constructor (st: State, start: nat, end: nat)
      requires st.Wf()
      ensures Valid() && this.st == st && this.start == start && this.end == end
      ensures disabled == !st.Enabled()
      ensures Rest() == Visits(st, start, end)
    {
      this.st, this.start, this.end := st, start, end;
      memType, index, seg, startMax := 0, 0, 0, 0;
      disabled, partial, fixed, range := false, false, false, None;
      new;
      if !st.Enabled() {
        disabled := true;
      } else {
        var found := FixedStart();
        if !found {
          VarBegin();
        }
      }
    }

    /** mtrr_lookup_fixed_start */
    method FixedStart() returns (found: bool)
      requires st.Wf() && st.Enabled() && !partial && !fixed && range.None?
      modifies this`fixed, this`index, this`seg
      ensures Valid() && found == fixed == (st.FixedEnabled() && start < FIXED_END)
      ensures found ==> Rest() == Visits(st, start, end)
    {
      if !st.FixedEnabled() {
        return false;
      }
      var s := SegOf(start);
      if s < 0 {
        return false;
      }
      InFixedRange(start);
      fixed, index, seg := true, IndexOf(start, s), s;
      return true;
    }

    /** mtrr_lookup_var_start */
    method VarBegin()
      requires st.Wf()
      modifies this`fixed, this`startMax, this`range, this`partial
      ensures Valid() && Rest() == VarWalk(st, 0, start, end, start, old(partial))
    {
      fixed, startMax, range := false, start, None;
      VarScan(0);
    }

    /** __mtrr_lookup_var_next, from list position `from` on. */
    method VarScan(from: nat)
      requires st.Wf() && !fixed && from <= |st.head|
      modifies this`startMax, this`range, this`partial
      ensures Valid() && Rest() == VarWalk(st, from, start, end, old(startMax), old(partial))
    {
      for k := from to |st.head|
        invariant startMax == old(startMax) && partial == old(partial)
        invariant VarWalk(st, from, start, end, startMax, partial) == VarWalk(st, k, start, end, startMax, partial)
      {
        if Meets(st, k, start, end) {
          var r := st.Listed(k);
          range := Some(k);
          partial := partial || startMax < VarStart(r);
          startMax := Max(startMax, VarEnd(r));
          return;
        }
      }
      range := None;
      partial := partial || startMax < end;
    }

    /** mtrr_lookup_fixed_next */
    method FixedNext()
      requires Valid() && fixed
      modifies this`fixed, this`range, this`index, this`seg, this`startMax, this`partial
      ensures Valid() && Rest() == Walk(old(Rest()).types[1..], old(Rest()).partial)
    {
      if RangeEnd(seg, index) >= end {
        fixed, range := false, None;
        return;
      }
      index := index + 1;
      if index >= FIXED_RANGES {
        VarBegin();
        return;
      }
      if index > SegLast(seg) {
        seg := seg + 1;
      }
    }

    /** mtrr_lookup_okay */
    method Okay() returns (more: bool)
      requires Valid()
      modifies this`memType
      ensures Valid() && Rest() == old(Rest()) && more == (Rest().types != [])
      ensures more ==> memType == Rest().types[0]
      ensures !more ==> partial == Rest().partial
    {
      if fixed {
        memType := st.fixed[index];
        return true;
      }
      if range.Some? {
        memType := RangeType(st.Listed(range.value));
        return true;
      }
      return false;
    }

    /** mtrr_lookup_next */
    method Next()
      requires Valid() && Rest().types != []
      modifies this`fixed, this`range, this`index, this`seg, this`startMax, this`partial
      ensures Valid() && Rest() == Walk(old(Rest()).types[1..], old(Rest()).partial)
    {
      if fixed {
        FixedNext();
      } else {
        VarScan(range.value + 1);
      }
    }
  }

  // ----- The type of one page -------------------------------------------------------------------

  function Combine(first: nat, types: seq<nat>): nat {
    if types == [] then first
    else if first == types[0] then Combine(first, types[1..])
    else if types[0] == UC then UC
    else if first in {WT, WB} && types[0] in {WT, WB} then Combine(WT, types[1..])
    else WB
  }

  function DisabledType(cpuidHasMtrr: bool): nat {
    if cpuidHasMtrr then UC else WB
  }

  function PageType(st: State, gfn: nat, cpuidHasMtrr: bool): nat
    requires st.Wf()
  {
    var types := Visits(st, gfn * PAGE, gfn * PAGE + PAGE).types;
    if !st.Enabled() then DisabledType(cpuidHasMtrr)
    else if types == [] then st.DefaultType()
    else Combine(types[0], types[1..])
  }

  /** kvm_mtrr_get_guest_memory_type; its warning about partial coverage cannot fire. */
  method GetGuestMemoryType(st: State, gfn: nat, cpuidHasMtrr: bool) returns (t: nat)
    requires st.Wf()
    ensures t == PageType(st, gfn, cpuidHasMtrr)
  {
    hide Visits, FixedWalk, VarWalk;
    var start := gfn * PAGE;
    var it := new Iter(st, start, start + PAGE);
    ghost var all := it.Rest();
    var found: int := -1;
    var more := it.Okay();
    while more
      invariant it.Valid() && more == (it.Rest().types != []) && it.Rest().partial == all.partial
      invariant it.st == st && it.disabled == !st.Enabled()
      invariant if more then it.memType == it.Rest().types[0] else it.partial == all.partial
      invariant found == -1 ==> it.Rest().types == all.types
      invariant found != -1 ==> found >= 0 && all.types != [] && Combine(all.types[0], all.types[1..]) == Combine(found, it.Rest().types)
      decreases |it.Rest().types|
    {
      var cur := it.memType;
      if found == -1 {
        found := cur;
      } else if found == cur {
      } else if cur == UC {
        DisabledVisits(st, start, start + PAGE);
        return UC;
      } else if found in {WT, WB} && cur in {WT, WB} {
        found := WT;
      } else {
        DisabledVisits(st, start, start + PAGE);
        return WB;
      }
      it.Next();
      more := it.Okay();
    }
    DisabledVisits(st, start, start + PAGE);
    if it.disabled {
      return DisabledType(cpuidHasMtrr);
    }
    if found == -1 {
      return st.DefaultType();
    }
    PageNotPartial(st, start);
    assert !it.partial;
    return found;
  }

  lemma DisabledVisits(st: State, start: nat, end: nat)
    requires st.Wf()
    ensures !st.Enabled() ==> Visits(st, start, end).types == []
  {
  }

  /** The check's answer in terms of what the lookup visits. */
  ghost predicate SpanAccepted(st: State, start: nat, end: nat)
    requires st.Wf()
  {
    var w := Visits(st, start, end);
    || !st.Enabled()
    || (&& (forall k :: 0 <= k < |w.types| ==> w.types[k] == w.types[0])
        && (w.partial && w.types != [] ==> w.types[0] == st.DefaultType()))
  }

  // ----- One page is covered whole or not at all -------------------------------------------------

  lemma {:induction false} PageVarWalk(st: State, k: nat, start: nat, startMax: nat)
    requires st.Wf() && k <= |st.head| && start % PAGE == 0
    requires startMax == start || startMax >= start + PAGE
    ensures var w := VarWalk(st, k, start, start + PAGE, startMax, false);
            w.types != [] || startMax >= start + PAGE ==> !w.partial
    decreases |st.head| - k
  {
    hide VarStart, VarEnd;
    if k < |st.head| {
      if Meets(st, k, start, start + PAGE) {
        WholePages(st.Listed(k));
        PageVarWalk(st, k + 1, start, Max(startMax, VarEnd(st.Listed(k))));
      } else {
        PageVarWalk(st, k + 1, start, startMax);
      }
    }
  }

  lemma {:induction false} PageNotPartial(st: State, start: nat)
    requires st.Wf() && start % PAGE == 0 && Visits(st, start, start + PAGE).types != []
    ensures !Visits(st, start, start + PAGE).partial
  {
    if st.FixedEnabled() && start < FIXED_END {
      InFixedRange(start);
    } else {
      PageVarWalk(st, 0, start, start);
    }
  }

  // ----- A page of a span ------------------------------------------------------------------------

  /** Whatever meets a part of the span is visited by the walk over the whole span. */
  lemma {:induction false} PartVarWalk(st: State, k: nat, ps: nat, pe: nat, psm: nat, pp: bool, start: nat, end: nat, sm: nat, p: bool)
    requires st.Wf() && k <= |st.head| && start <= ps && pe <= end
    ensures forall t :: t in VarWalk(st, k, ps, pe, psm, pp).types ==> t in VarWalk(st, k, start, end, sm, p).types
    decreases |st.head| - k
  {
    hide VarStart, VarEnd, RangeType;
    if k < |st.head| {
      var r := st.Listed(k);
      var psm', pp' := if Meets(st, k, ps, pe) then Max(psm, VarEnd(r)) else psm, if Meets(st, k, ps, pe) then pp || psm < VarStart(r) else pp;
      var sm', p' := if Meets(st, k, start, end) then Max(sm, VarEnd(r)) else sm, if Meets(st, k, start, end) then p || sm < VarStart(r) else p;
      PartVarWalk(st, k + 1, ps, pe, psm', pp', start, end, sm', p');
    }
  }

  lemma {:induction false} PartialStays(st: State, k: nat, start: nat, end: nat, sm: nat)
    requires st.Wf() && k <= |st.head|
    ensures VarWalk(st, k, start, end, sm, true).partial
    decreases |st.head| - k
  {
    hide VarStart, VarEnd, RangeType;
    if k < |st.head| {
      var sm' := if Meets(st, k, start, end) then Max(sm, VarEnd(st.Listed(k))) else sm;
      PartialStays(st, k + 1, start, end, sm');
    }
  }

  /** A walk that ends without the partial mark has covered every address from `sm` to the end. */
  lemma {:induction false} Covers(st: State, k: nat, start: nat, end: nat, sm: nat, a: nat) returns (j: nat)
    requires st.Wf() && k <= |st.head| && start <= sm <= a < end
    requires !VarWalk(st, k, start, end, sm, false).partial
    ensures k <= j < |st.head| && VarStart(st.Listed(j)) <= a < VarEnd(st.Listed(j))
    decreases |st.head| - k
  {
    hide VarStart, VarEnd, RangeType;
    var r := st.Listed(k);
    if Meets(st, k, start, end) {
      if sm < VarStart(r) {
        PartialStays(st, k + 1, start, end, Max(sm, VarEnd(r)));
      }
      if a < VarEnd(r) {
        j := k;
      } else {
        j := Covers(st, k + 1, start, end, Max(sm, VarEnd(r)), a);
      }
    } else {
      j := Covers(st, k + 1, start, end, sm, a);
    }
  }

  lemma {:induction false} MeetsIsVisited(st: State, k: nat, j: nat, start: nat, end: nat, sm: nat, p: bool)
    requires st.Wf() && k <= j < |st.head| && Meets(st, j, start, end)
    ensures VarWalk(st, k, start, end, sm, p).types != []
    decreases j - k
  {
    hide VarStart, VarEnd, RangeType;
    if k < j && !Meets(st, k, start, end) {
      MeetsIsVisited(st, k + 1, j, start, end, sm, p);
    }
  }

  lemma {:induction false} RangesAscend(i: nat, k: nat)
    requires i < k < FIXED_RANGES
    ensures RangeEnd(SegOfIndex(i), i) <= RangeStart(k)
    decreases k
  {
    if i < k - 1 {
      RangesAscend(i, k - 1);
    }
  }

  /** The walk from fixed range `i` passes through every later fixed range below the end. */
  lemma {:induction false} FixedVisited(st: State, i: nat, k: nat, start: nat, end: nat, p: bool)
    requires st.Wf() && i <= k < FIXED_RANGES && RangeStart(k) < end
    ensures st.fixed[k] in FixedWalk(st, i, start, end, p).types
    decreases k - i
  {
    hide RangeStart, RangeEnd, VarWalk;
    if i < k {
      RangesAscend(i, k);
      FixedVisited(st, i + 1, k, start, end, p);
    }
  }

  /** Past 1MB the walk goes on through the variable ranges, from the start of the span again. */
  lemma {:induction false} FixedThenVar(st: State, i: nat, start: nat, end: nat, p: bool)
    requires st.Wf() && i < FIXED_RANGES && end > FIXED_END
    ensures var w, v := FixedWalk(st, i, start, end, p), VarWalk(st, 0, start, end, start, p);
            w.partial == v.partial && forall t :: t in v.types ==> t in w.types
    decreases FIXED_RANGES - i
  {
    hide VarWalk;
    if i + 1 < FIXED_RANGES {
      FixedThenVar(st, i + 1, start, end, p);
    }
  }

  lemma {:induction false} IndexMonotone(a: nat, b: nat)
    requires a <= b < FIXED_END
    ensures IndexOf(a, SegOf(a)) <= IndexOf(b, SegOf(b))
  {
  }

  predicate UsesFixed(st: State, a: nat) {
    st.FixedEnabled() && a < FIXED_END
  }

  /** Every type seen on one page is seen on the span. */
  lemma {:induction false} PageInSpan(st: State, start: nat, end: nat, p: nat)
    requires st.Wf() && st.Enabled()
    requires start % PAGE == 0 && p % PAGE == 0 && start <= p && p + PAGE <= end
    ensures forall t :: t in Visits(st, p, p + PAGE).types ==> t in Visits(st, start, end).types
  {
    hide VarWalk, RangeStart, RangeEnd, FixedWalk;
    if UsesFixed(st, start) {
      InFixedRange(start);
    }
    if UsesFixed(st, p) {
      InFixedRange(p);
      IndexMonotone(start, p);
      FixedVisited(st, IndexOf(start, SegOf(start)), IndexOf(p, SegOf(p)), start, end, false);
      FixedPage(st, p);
    } else {
      PartVarWalk(st, 0, p, p + PAGE, p, false, start, end, start, false);
      if UsesFixed(st, start) {
        FixedThenVar(st, IndexOf(start, SegOf(start)), start, end, false);
      }
    }
  }

  lemma {:induction false} FixedPage(st: State, p: nat)
    requires st.Wf() && p % PAGE == 0 && p < FIXED_END
    ensures IndexOf(p, SegOf(p)) < FIXED_RANGES
    ensures FixedWalk(st, IndexOf(p, SegOf(p)), p, p + PAGE, false).types == [st.fixed[IndexOf(p, SegOf(p))]]
  {
    InFixedRange(p);
  }

  /** A page is visited at all unless the walk over the span was marked partial. */
  lemma {:induction false} PageCovered(st: State, start: nat, end: nat, p: nat)
    requires st.Wf() && st.Enabled()
    requires p % PAGE == 0 && start <= p && p + PAGE <= end
    requires !Visits(st, start, end).partial
    ensures Visits(st, p, p + PAGE).types != []
  {
    hide VarWalk, VarStart, VarEnd, FixedWalk;
    if UsesFixed(st, p) {
      FixedPage(st, p);
    } else {
      if UsesFixed(st, start) {
        InFixedRange(start);
        FixedThenVar(st, IndexOf(start, SegOf(start)), start, end, false);
      }
      var j := Covers(st, 0, start, end, start, p);
      MeetsIsVisited(st, 0, j, p, p + PAGE, p, false);
    }
  }

  lemma {:induction false} CombineSame(t: nat, types: seq<nat>)
    requires forall k :: 0 <= k < |types| ==> types[k] == t
    ensures Combine(t, types) == t
  {
    if types != [] {
      CombineSame(t, types[1..]);
    }
  }

  /** The one type every page of an accepted span has. */
  function SpanType(st: State, start: nat, end: nat, cpuidHasMtrr: bool): nat
    requires st.Wf()
  {
    var w := Visits(st, start, end);
    if !st.Enabled() then DisabledType(cpuidHasMtrr)
    else if w.types == [] then st.DefaultType() else w.types[0]
  }

  /** If the check accepts a span, every page in it has the same memory type. */
  lemma {:induction false} AcceptedIsUniform(st: State, gfn: nat, pages: nat, g: nat, cpuidHasMtrr: bool)
    requires st.Wf() && SpanAccepted(st, gfn * PAGE, (gfn + pages) * PAGE)
    requires gfn <= g < gfn + pages
    ensures PageType(st, g, cpuidHasMtrr) == SpanType(st, gfn * PAGE, (gfn + pages) * PAGE, cpuidHasMtrr)
  {
    hide Visits, Combine;
    if st.Enabled() {
      var start, end := gfn * PAGE, (gfn + pages) * PAGE;
      var w, v := Visits(st, start, end), Visits(st, g * PAGE, g * PAGE + PAGE);
      PageInSpan(st, start, end, g * PAGE);
      if v.types == [] {
        if !w.partial {
          PageCovered(st, start, end, g * PAGE);
        }
      } else {
        assert v.types[0] in w.types;
        forall k | 0 <= k < |v.types|
          ensures v.types[k] == w.types[0]
        {
          assert v.types[k] in w.types;
        }
        CombineSame(v.types[0], v.types[1..]);
      }
    }
  }

  /** kvm_mtrr_check_gfn_range_consistency */
  method CheckGfnRangeConsistency(st: State, gfn: nat, pages: nat) returns (ok: bool)
    requires st.Wf()
    ensures ok == SpanAccepted(st, gfn * PAGE, (gfn + pages) * PAGE)
    ensures ok ==> forall g, h, c :: gfn <= g < gfn + pages && gfn <= h < gfn + pages ==> PageType(st, g, c) == PageType(st, h, c)
  {
    hide Visits, FixedWalk, VarWalk, PageType;
    var start, end := gfn * PAGE, (gfn + pages) * PAGE;
    var it := new Iter(st, start, end);
    ghost var all := it.Rest();
    ghost var n := 0;
    var found: int := -1;
    var more := it.Okay();
    while more
      invariant it.Valid() && more == (it.Rest().types != []) && it.Rest().partial == all.partial
      invariant it.st == st && it.disabled == !st.Enabled()
      invariant if more then it.memType == it.Rest().types[0] else it.partial == all.partial
      invariant n <= |all.types| && it.Rest().types == all.types[n..]
      invariant found == -1 <==> n == 0
      invariant n > 0 ==> found == all.types[0]
      invariant forall k :: 0 <= k < n ==> all.types[k] == all.types[0]
      decreases |it.Rest().types|
    {
      if found == -1 {
        found := it.memType;
      } else if found != it.memType {
        DisabledVisits(st, start, end);
        return false;
      }
      n := n + 1;
      it.Next();
      more := it.Okay();
    }
    DisabledVisits(st, start, end);
    ok := it.disabled || !it.partial || found == -1 || found == st.DefaultType();
    if ok {
      forall g, h, c | gfn <= g < gfn + pages && gfn <= h < gfn + pages
        ensures PageType(st, g, c) == PageType(st, h, c)
      {
        AcceptedIsUniform(st, gfn, pages, g, c);
        AcceptedIsUniform(st, gfn, pages, h, c);
      }
    }
  }

  // ----- When the check accepts ----------------------------------------------------------------

  /** One enabled range covers the whole span and none begins strictly inside it. */
  ghost predicate CoveredWhole(ranges: seq<Range>, start: nat, end: nat) {
    && (exists i :: i in EnabledRanges(ranges) && VarStart(ranges[i]) <= start && end <= VarEnd(ranges[i]))
    && (forall i :: i in EnabledRanges(ranges) ==> !(start < VarStart(ranges[i]) < end))
  }

  ghost predicate BeginsInside(st: State, k: nat, start: nat, end: nat)
    requires st.Wf() && k < |st.head|
  {
    start < VarStart(st.Listed(k)) < end
  }

  ghost predicate CoversAt(st: State, k: nat, start: nat, end: nat)
    requires st.Wf() && k < |st.head|
  {
    VarStart(st.Listed(k)) <= start && end <= VarEnd(st.Listed(k))
  }

  lemma StartsDescend(st: State, j: nat, k: nat)
    requires st.Wf() && ListOk(st.ranges, st.head) && j <= k < |st.head|
    ensures VarStart(st.Listed(j)) >= VarStart(st.Listed(k))
  {
    if j < k {
      assert Base(st.ranges, st.head[j]) >= Base(st.ranges, st.head[k]);
    }
  }

  /** If no range begins inside, the mark is left off exactly if one of them reaches the end. */
  lemma {:induction false} PartialByEnd(st: State, k: nat, start: nat, end: nat, sm: nat)
    requires st.Wf() && k <= |st.head| && start <= sm && start < end
    requires forall j :: k <= j < |st.head| ==> !BeginsInside(st, j, start, end)
    ensures VarWalk(st, k, start, end, sm, false).partial <==> sm < end && forall j :: k <= j < |st.head| ==> !CoversAt(st, j, start, end)
    decreases |st.head| - k
  {
    hide VarStart, VarEnd, RangeType;
    if k < |st.head| {
      WholePages(st.Listed(k));
      assert !BeginsInside(st, k, start, end);
      if Meets(st, k, start, end) {
        PartialByEnd(st, k + 1, start, end, Max(sm, VarEnd(st.Listed(k))));
        assert CoversAt(st, k, start, end) <==> end <= VarEnd(st.Listed(k));
      } else {
        PartialByEnd(st, k + 1, start, end, sm);
        assert !CoversAt(st, k, start, end);
      }
    }
  }

  /** In a list by descending base, a range that begins inside sets the mark. */
  lemma {:induction false} PartialByStart(st: State, k: nat, j: nat, start: nat, end: nat)
    requires st.Wf() && ListOk(st.ranges, st.head) && k <= j < |st.head| && BeginsInside(st, j, start, end)
    ensures VarWalk(st, k, start, end, start, false).partial
    decreases j - k
  {
    hide VarStart, VarEnd, RangeType, ListOk;
    WholePages(st.Listed(j));
    StartsDescend(st, k, j);
    if Meets(st, k, start, end) {
      PartialStays(st, k + 1, start, end, Max(start, VarEnd(st.Listed(k))));
    } else {
      PartialByStart(st, k + 1, j, start, end);
    }
  }

  /** Listed ranges are the enabled ones. */
  lemma ListedIsEnabled(st: State, start: nat, end: nat)
    requires st.Wf() && ListOk(st.ranges, st.head)
    ensures CoveredWhole(st.ranges, start, end) <==>
              && (exists k :: 0 <= k < |st.head| && CoversAt(st, k, start, end))
              && (forall k :: 0 <= k < |st.head| ==> !BeginsInside(st, k, start, end))
  {
    hide VarStart, VarEnd, EnabledRanges;
    forall k | 0 <= k < |st.head|
      ensures st.head[k] in EnabledRanges(st.ranges)
    {
      assert st.head[k] in st.head;
    }
    forall i | i in EnabledRanges(st.ranges)
      ensures exists k :: 0 <= k < |st.head| && st.head[k] == i
    {
      assert i in st.head;
    }
    if i :| i in EnabledRanges(st.ranges) && VarStart(st.ranges[i]) <= start && end <= VarEnd(st.ranges[i]) {
      var k :| 0 <= k < |st.head| && st.head[k] == i;
      assert CoversAt(st, k, start, end);
    }
    if k :| 0 <= k < |st.head| && CoversAt(st, k, start, end) {
      assert st.head[k] in EnabledRanges(st.ranges);
    }
    if forall k :: 0 <= k < |st.head| ==> !BeginsInside(st, k, start, end) {
      forall i | i in EnabledRanges(st.ranges)
        ensures !(start < VarStart(st.ranges[i]) < end)
      {
        var k :| 0 <= k < |st.head| && st.head[k] == i;
        assert !BeginsInside(st, k, start, end);
      }
    }
  }

  /** The partial mark over the variable ranges, read off the registers. */
  lemma {:induction false} PartialExactly(st: State, start: nat, end: nat)
    requires st.Wf() && ListOk(st.ranges, st.head) && start < end
    ensures VarWalk(st, 0, start, end, start, false).partial <==> !CoveredWhole(st.ranges, start, end)
  {
    hide VarWalk, ListOk, CoveredWhole, CoversAt, BeginsInside;
    ListedIsEnabled(st, start, end);
    if j :| 0 <= j < |st.head| && BeginsInside(st, j, start, end) {
      PartialByStart(st, 0, j, start, end);
    } else {
      PartialByEnd(st, 0, start, end, start);
    }
  }

  /** The lookup of the span goes on to the variable ranges. */
  predicate ReachesVar(st: State, start: nat, end: nat) {
    !UsesFixed(st, start) || end > FIXED_END
  }

  /** Some fixed range or enabled variable range that the span's lookup visits has the type. */
  ghost predicate Touches(st: State, start: nat, end: nat, t: nat)
    requires st.Wf()
  {
    || (UsesFixed(st, start) && exists i :: IndexOf(start, SegOf(start)) <= i < FIXED_RANGES && RangeStart(i) < end && st.fixed[i] == t)
    || (ReachesVar(st, start, end) && VarTouches(st.ranges, start, end, t))
  }

  ghost predicate VarTouches(ranges: seq<Range>, start: nat, end: nat, t: nat) {
    exists i :: i in EnabledRanges(ranges) && VarStart(ranges[i]) < end && start < VarEnd(ranges[i]) && RangeType(ranges[i]) == t
  }

  lemma {:induction false} VarTypesExactly(st: State, k: nat, start: nat, end: nat, sm: nat, p: bool, t: nat)
    requires st.Wf() && k <= |st.head|
    ensures t in VarWalk(st, k, start, end, sm, p).types <==>
              exists j :: k <= j < |st.head| && Meets(st, j, start, end) && RangeType(st.Listed(j)) == t
    decreases |st.head| - k
  {
    hide VarStart, VarEnd, RangeType, Meets;
    if k < |st.head| {
      var r := st.Listed(k);
      if Meets(st, k, start, end) {
        VarTypesExactly(st, k + 1, start, end, Max(sm, VarEnd(r)), p || sm < VarStart(r), t);
      } else {
        VarTypesExactly(st, k + 1, start, end, sm, p, t);
      }
    }
  }

  lemma {:induction false} VarTouchesExactly(st: State, start: nat, end: nat, sm: nat, p: bool, t: nat)
    requires st.Wf() && ListOk(st.ranges, st.head)
    ensures t in VarWalk(st, 0, start, end, sm, p).types <==> VarTouches(st.ranges, start, end, t)
  {
    hide VarStart, VarEnd, RangeType, VarWalk, EnabledRanges;
    VarTypesExactly(st, 0, start, end, sm, p, t);
    if j :| 0 <= j < |st.head| && Meets(st, j, start, end) && RangeType(st.Listed(j)) == t {
      assert st.head[j] in st.head;
    }
    if i :| i in EnabledRanges(st.ranges) && VarStart(st.ranges[i]) < end && start < VarEnd(st.ranges[i]) && RangeType(st.ranges[i]) == t {
      var j :| 0 <= j < |st.head| && st.head[j] == i;
      assert Meets(st, j, start, end) && RangeType(st.Listed(j)) == t;
    }
  }

  lemma {:induction false} FixedTypesExactly(st: State, i: nat, start: nat, end: nat, p: bool, t: nat)
    requires st.Wf() && i < FIXED_RANGES
    ensures t in FixedWalk(st, i, start, end, p).types <==>
              || (exists j :: i <= j < FIXED_RANGES && (j == i || RangeStart(j) < end) && st.fixed[j] == t)
              || (end > FIXED_END && t in VarWalk(st, 0, start, end, start, p).types)
    ensures end <= FIXED_END ==> FixedWalk(st, i, start, end, p).partial == p
    decreases FIXED_RANGES - i
  {
    hide VarWalk;
    if RangeEnd(SegOfIndex(i), i) >= end {
      forall j | i < j < FIXED_RANGES
        ensures RangeStart(j) >= end
      {
        RangesAscend(i, j);
      }
    } else if i + 1 < FIXED_RANGES {
      FixedTypesExactly(st, i + 1, start, end, p, t);
      assert RangeStart(i + 1) < end;
    }
  }

  /** What a lookup of the span yields and marks, read off the registers. */
  lemma {:induction false} VisitsExactly(st: State, start: nat, end: nat, t: nat)
    requires st.Wf() && st.Enabled() && ListOk(st.ranges, st.head) && start < end
    ensures t in Visits(st, start, end).types <==> Touches(st, start, end, t)
    ensures Visits(st, start, end).partial <==> ReachesVar(st, start, end) && !CoveredWhole(st.ranges, start, end)
  {
    hide VarWalk, FixedWalk, ListOk, CoveredWhole, VarTouches, RangeStart;
    VarTouchesExactly(st, start, end, start, false, t);
    PartialExactly(st, start, end);
    if UsesFixed(st, start) {
      InFixedRange(start);
      var i := IndexOf(start, SegOf(start));
      FixedTypesExactly(st, i, start, end, false, t);
      if end > FIXED_END {
        FixedThenVar(st, i, start, end, false);
      }
    }
  }

  /**
   The check accepts a span exactly when everything it visits has one type and, unless it stays
   within the fixed ranges or one variable range covers it whole with none beginning inside, that
   type is the default.
   */
  lemma {:induction false} AcceptedExactly(st: State, start: nat, end: nat)
    requires st.Wf() && ListOk(st.ranges, st.head) && start < end
    ensures SpanAccepted(st, start, end) <==>
      || !st.Enabled()
      || (&& (forall t, u :: Touches(st, start, end, t) && Touches(st, start, end, u) ==> t == u)
          && (ReachesVar(st, start, end) && !CoveredWhole(st.ranges, start, end) ==>
                forall t :: Touches(st, start, end, t) ==> t == st.DefaultType()))
  {
    hide Visits, ListOk, CoveredWhole, Touches;
    if st.Enabled() {
      var w := Visits(st, start, end);
      forall t
        ensures t in w.types <==> Touches(st, start, end, t)
      {
        VisitsExactly(st, start, end, t);
      }
      VisitsExactly(st, start, end, 0);
      AllSame(w.types);
      if w.types != [] {
        assert w.types[0] in w.types;
      }
    }
  }

  lemma AllSame(types: seq<nat>)
    ensures (forall k :: 0 <= k < |types| ==> types[k] == types[0]) <==> forall t, u :: t in types && u in types ==> t == u
  {
    if forall t, u :: t in types && u in types ==> t == u {
      forall k | 0 <= k < |types|
        ensures types[k] == types[0]
      {
        assert types[k] in types && types[0] in types;
      }
    }
  }

  /** So a span whose visited ranges all have one type other than the default is refused exactly when
      the variable ranges are reached and do not cover it in the one accepted way. */
  lemma {:induction false} RefusedUniformExactly(st: State, start: nat, end: nat, t: nat)
    requires st.Wf() && ListOk(st.ranges, st.head) && start < end && st.Enabled()
    requires Touches(st, start, end, t) && t != st.DefaultType()
    requires forall u :: Touches(st, start, end, u) ==> u == t
    ensures !SpanAccepted(st, start, end) <==> ReachesVar(st, start, end) && !CoveredWhole(st.ranges, start, end)
  {
    hide SpanAccepted, ListOk, CoveredWhole, Touches;
    AcceptedExactly(st, start, end);
  }

  // ----- The type is always a memory type ------------------------------------------------------------

  lemma {:induction false} VarTypesOk(st: State, k: nat, start: nat, end: nat, sm: nat, p: bool)
    requires st.Wf() && st.TypesOk() && k <= |st.head|
    ensures forall t :: t in VarWalk(st, k, start, end, sm, p).types ==> IsType(t)
  {
    hide VarWalk, VarStart, VarEnd;
    forall t | t in VarWalk(st, k, start, end, sm, p).types
      ensures IsType(t)
    {
      VarTypesExactly(st, k, start, end, sm, p, t);
    }
  }

  lemma {:induction false} FixedTypesOk(st: State, i: nat, start: nat, end: nat, p: bool)
    requires st.Wf() && st.TypesOk() && i < FIXED_RANGES
    ensures forall t :: t in FixedWalk(st, i, start, end, p).types ==> IsType(t)
  {
    hide VarWalk, FixedWalk;
    VarTypesOk(st, 0, start, end, start, p);
    forall t | t in FixedWalk(st, i, start, end, p).types
      ensures IsType(t)
    {
      FixedTypesExactly(st, i, start, end, p, t);
    }
  }

  lemma {:induction false} CombineOk(first: nat, types: seq<nat>)
    requires IsType(first) && forall t :: t in types ==> IsType(t)
    ensures IsType(Combine(first, types))
    decreases types
  {
    if types != [] {
      CombineOk(first, types[1..]);
      CombineOk(WT, types[1..]);
    }
  }

  /** With the registers the guest can set, every page has one of the five memory types. */
  lemma {:induction false} PageTypeOk(st: State, gfn: nat, cpuidHasMtrr: bool)
    requires st.Wf() && st.TypesOk()
    ensures IsType(PageType(st, gfn, cpuidHasMtrr))
  {
    hide VarWalk, FixedWalk, Combine;
    var start := gfn * PAGE;
    var w := Visits(st, start, start + PAGE);
    VarTypesOk(st, 0, start, start + PAGE, start, false);
    if UsesFixed(st, start) {
      InFixedRange(start);
      FixedTypesOk(st, IndexOf(start, SegOf(start)), start, start + PAGE, false);
    }
    if w.types != [] {
      assert w.types[0] in w.types;
      CombineOk(w.types[0], w.types[1..]);
    }
  }

  // ----- A uniform span that is refused ----------------------------------------------------------------

  /**
   The check can refuse a span that is uniform: the list runs from the highest base down, so two
   adjoining ranges of one type are marked partial.
   */
  lemma RefusesUniformSpan()
    ensures var st := State(2048, seq(FIXED_RANGES, _ => UC),
                            [Range(0x1006, TWO64 - 0x800), Range(6, TWO64 - 0x800)] + seq(6, _ => Range(0, 0)), [0, 1]);
            && st.Wf() && ListOk(st.ranges, st.head)
            && !SpanAccepted(st, 0, 2 * PAGE)
            && PageType(st, 0, true) == PageType(st, 1, true) == WB
  {
    hide VarStart, VarEnd, FixedWalk, VarWalk, Visits;
    var high, low := Range(0x1006, TWO64 - 0x800), Range(6, TWO64 - 0x800);
    var st := State(2048, seq(FIXED_RANGES, _ => UC), [high, low] + seq(6, _ => Range(0, 0)), [0, 1]);
    SmallRange(high);
    SmallRange(low);
    assert st.Listed(0) == high && st.Listed(1) == low;
    assert forall i :: i in st.head <==> i in EnabledRanges(st.ranges) by {
      assert 0 == st.head[0] && 1 == st.head[1];
    }
    TwoPages(st);
  }

  lemma TwoPages(st: State)
    requires st.Wf() && st.Enabled() && !st.FixedEnabled() && |st.head| == 2
    requires VarStart(st.Listed(0)) == PAGE && VarEnd(st.Listed(0)) == 2 * PAGE && RangeType(st.Listed(0)) == 6
    requires VarStart(st.Listed(1)) == 0 && VarEnd(st.Listed(1)) == PAGE && RangeType(st.Listed(1)) == 6
    ensures Visits(st, 0, 2 * PAGE) == Walk([6, 6], true)
    ensures Visits(st, 0, PAGE) == Visits(st, PAGE, 2 * PAGE) == Walk([6], false)
  {
    hide VarStart, VarEnd, FixedWalk, RangeType;
    assert VarWalk(st, 1, 0, 2 * PAGE, 2 * PAGE, true) == Walk([6], true);
    assert VarWalk(st, 1, 0, PAGE, 0, false) == Walk([6], false);
    assert VarWalk(st, 1, PAGE, 2 * PAGE, 2 * PAGE, false) == Walk([], false);
  }

  lemma SmallRange(r: Range)
    requires r.base < 2 * PAGE && r.mask == TWO64 - 0x800
    ensures VarStart(r) == r.base / PAGE * PAGE && VarEnd(r) == VarStart(r) + PAGE
  {
    hide Or, Pow2;
    Pow2Values();
    assert PageMask(r) == TWO64 - PAGE;
    WholePages(r);
    SmallOr(VarStart(r));
  }

  lemma SmallOr(start: nat)
    requires start == 0 || start == PAGE
    ensures Or(start, PAGE - 1) < start + PAGE
  {
    hide Or;
    Pow2Values();
    OrBelow(start, PAGE - 1, if start == 0 then 12 else 13);
  }

  // ----- Precedence of UC ------------------------------------------------------------------------

  predicate Compatible(first: nat, t: nat) {
    t == first || (first in {WT, WB} && t in {WT, WB})
  }

  /** The position of the first range that does not combine with the first one. */
  function FirstIncompatible(first: nat, types: seq<nat>): (k: nat)
    ensures k <= |types|
    ensures forall j :: 0 <= j < k ==> Compatible(first, types[j])
    ensures k < |types| ==> !Compatible(first, types[k])
  {
    if types == [] || !Compatible(first, types[0]) then 0 else 1 + FirstIncompatible(first, types[1..])
  }

  lemma {:induction false} FirstIncompatibleSame(a: nat, b: nat, types: seq<nat>)
    requires forall t :: Compatible(a, t) <==> Compatible(b, t)
    ensures FirstIncompatible(a, types) == FirstIncompatible(b, types)
  {
    if types != [] {
      FirstIncompatibleSame(a, b, types[1..]);
    }
  }

  /**
   The combined type of overlapping ranges, in list order: decided by the first range that does not
   combine with the first one, and otherwise their common type, or WT for a mix of WT and WB.
   */
  lemma {:induction false} CombineExactly(first: nat, types: seq<nat>)
    ensures var k := FirstIncompatible(first, types);
            Combine(first, types) ==
              if k < |types| then (if types[k] == UC then UC else WB)
              else if forall j :: 0 <= j < |types| ==> types[j] == first then first
              else WT
    decreases types
  {
    if types != [] && Compatible(first, types[0]) {
      var next := if first == types[0] then first else WT;
      CombineExactly(next, types[1..]);
      FirstIncompatibleSame(first, next, types[1..]);
      MixedIsWt(first, next, types);
    }
  }

  lemma MixedIsWt(first: nat, next: nat, types: seq<nat>)
    requires types != [] && Compatible(first, types[0]) && next == if first == types[0] then first else WT
    ensures (forall j :: 0 <= j < |types| ==> types[j] == first) ==> forall j :: 0 <= j < |types[1..]| ==> types[1..][j] == next
    ensures (forall j :: 0 <= j < |types[1..]| ==> types[1..][j] == next) ==>
              next == (if forall j :: 0 <= j < |types| ==> types[j] == first then first else WT)
  {
    if forall j :: 0 <= j < |types[1..]| ==> types[1..][j] == next {
      forall j | 0 <= j < |types| && first == types[0]
        ensures types[j] == first
      {
        assert j > 0 ==> types[j] == types[1..][j - 1];
      }
    }
  }

  /** A UC range comes before any that does not combine with the first one. */
  ghost predicate UcComes(first: nat, rest: seq<nat>) {
    exists k :: 0 <= k < |rest| && rest[k] == UC && forall j :: 0 <= j < k ==> Compatible(first, rest[j])
  }

  /**
   When ranges overlap, the result is UC exactly when the first one is not UC and a UC one comes before
   any that does not combine with it, or when all are UC.
   */
  lemma {:induction false} UcWinsExactly(first: nat, types: seq<nat>)
    ensures Combine(first, types) == UC <==>
              if first == UC then forall k :: 0 <= k < |types| ==> types[k] == UC else UcComes(first, types)
  {
    hide Combine, Compatible;
    CombineExactly(first, types);
    var k := FirstIncompatible(first, types);
    UcIncompatible(first, types);
    if first == UC {
      assert k == |types| <==> forall j :: 0 <= j < |types| ==> types[j] == UC;
    } else if UcComes(first, types) {
      var i :| 0 <= i < |types| && types[i] == UC && forall j :: 0 <= j < i ==> Compatible(first, types[j]);
      assert i == k;
    }
  }

  lemma UcIncompatible(first: nat, types: seq<nat>)
    ensures forall j :: 0 <= j < |types| && types[j] == UC && first != UC ==> !Compatible(first, types[j])
    ensures forall j :: 0 <= j < |types| && first == UC ==> (Compatible(first, types[j]) <==> types[j] == UC)
  {
  }

  /** The types of the listed ranges that meet the span, in list order. */
  function MeetingTypes(st: State, k: nat, start: nat, end: nat): seq<nat>
    requires st.Wf() && k <= |st.head|
    decreases |st.head| - k
  {
    if k == |st.head| then []
    else (if Meets(st, k, start, end) then [RangeType(st.Listed(k))] else []) + MeetingTypes(st, k + 1, start, end)
  }

  lemma {:induction false} WalkTypes(st: State, k: nat, start: nat, end: nat, sm: nat, p: bool)
    requires st.Wf() && k <= |st.head|
    ensures VarWalk(st, k, start, end, sm, p).types == MeetingTypes(st, k, start, end)
    decreases |st.head| - k
  {
    hide VarStart, VarEnd, RangeType, Meets;
    if k < |st.head| {
      var r := st.Listed(k);
      if Meets(st, k, start, end) {
        WalkTypes(st, k + 1, start, end, Max(sm, VarEnd(r)), p || sm < VarStart(r));
      } else {
        WalkTypes(st, k + 1, start, end, sm, p);
      }
    }
  }

  /**
   When a page is UC: by its fixed range; or by the default if no variable range meets it; or if all
   that meet it are UC; or if the one with the highest base is not UC and, going down, a UC range
   comes before any that does not combine with that one.
   */
  lemma {:induction false} PageUcExactly(st: State, gfn: nat, cpuidHasMtrr: bool)
    requires st.Wf() && st.Enabled()
    ensures PageType(st, gfn, cpuidHasMtrr) == UC <==>
      var start := gfn * PAGE;
      var types := MeetingTypes(st, 0, start, start + PAGE);
      if UsesFixed(st, start) then InFixedRange(start); st.fixed[IndexOf(start, SegOf(start))] == UC
      else if types == [] then st.DefaultType() == UC
      else if types[0] == UC then forall k :: 0 <= k < |types[1..]| ==> types[1..][k] == UC
      else UcComes(types[0], types[1..])
  {
    hide VarWalk, FixedWalk, Combine, UcComes, MeetingTypes;
    var start := gfn * PAGE;
    if UsesFixed(st, start) {
      InFixedRange(start);
      FixedPage(st, start);
      var t := st.fixed[IndexOf(start, SegOf(start))];
      assert Visits(st, start, start + PAGE).types == [t];
      assert [t][1..] == [];
      CombineNone(t);
    } else {
      WalkTypes(st, 0, start, start + PAGE, start, false);
      var types := MeetingTypes(st, 0, start, start + PAGE);
      if types != [] {
        UcWinsExactly(types[0], types[1..]);
      }
    }
  }

  lemma {:induction false} CombineNone(t: nat)
    ensures Combine(t, []) == t
  {
  }

  /** A UC range and a WB range over one page, the UC one with the higher base: the page is WB. */
  lemma UcLoses()
    ensures var st := State(2048, seq(FIXED_RANGES, _ => UC),
                            [Range(0x1000, TWO64 - 0x800), Range(6, TWO64 - 0x1800)] + seq(6, _ => Range(0, 0)), [0, 1]);
            && st.Wf() && ListOk(st.ranges, st.head)
            && Meets(st, 0, PAGE, 2 * PAGE) && RangeType(st.Listed(0)) == UC
            && PageType(st, 1, true) == WB
  {
    hide VarStart, VarEnd, FixedWalk, VarWalk, Visits;
    var high, low := Range(0x1000, TWO64 - 0x800), Range(6, TWO64 - 0x1800);
    var st := State(2048, seq(FIXED_RANGES, _ => UC), [high, low] + seq(6, _ => Range(0, 0)), [0, 1]);
    SmallRange(high);
    LowRange(low);
    assert st.Listed(0) == high && st.Listed(1) == low;
    assert forall i :: i in st.head <==> i in EnabledRanges(st.ranges) by {
      assert 0 == st.head[0] && 1 == st.head[1];
    }
    BothMeet(st);
  }

  lemma LowRange(r: Range)
    requires r.base == 6 && r.mask == TWO64 - 0x1800
    ensures VarStart(r) == 0 && VarEnd(r) == 2 * PAGE
  {
    hide Or, Pow2;
    Pow2Values();
    Pow2Split(1, 12);
    assert Pow2(1 + 12) == 2 * PAGE by {
      OneBit();
    }
    assert PageMask(r) == TWO64 - 2 * PAGE;
    OrBelow(0, 2 * PAGE - 1, 13);
    OrZero(2 * PAGE - 1);
  }

  lemma OneBit()
    ensures Pow2(1) == 2
  {
  }

  lemma {:induction false} OrZero(b: nat)
    ensures Or(0, b) == b
  {
    if b != 0 {
      OrZero(b / 2);
    }
  }

  lemma BothMeet(st: State)
    requires st.Wf() && st.Enabled() && !st.FixedEnabled() && |st.head| == 2
    requires VarStart(st.Listed(0)) == PAGE && VarEnd(st.Listed(0)) == 2 * PAGE && RangeType(st.Listed(0)) == UC
    requires VarStart(st.Listed(1)) == 0 && VarEnd(st.Listed(1)) == 2 * PAGE && RangeType(st.Listed(1)) == WB
    ensures Visits(st, PAGE, 2 * PAGE).types == [UC, WB]
  {
    hide VarStart, VarEnd, FixedWalk, RangeType;
    assert VarWalk(st, 1, PAGE, 2 * PAGE, 2 * PAGE, false).types == [WB];
  }

  // ----- The type of a page, read off the registers -----------------------------------------------------

  /** The fixed-range register that covers an address below 1MB, and the byte of it. */
  function FixedUnit(a: nat): nat {
    if a < 0x80000 then 0 else if a < 0xC0000 then 1 + (a - 0x80000) / 0x20000 else 3 + (a - 0xC0000) / 0x8000
  }

  function FixedByte(a: nat): nat {
    if a < 0x80000 then a / 0x10000 else if a < 0xC0000 then (a - 0x80000) / 0x4000 % 8 else (a - 0xC0000) / 0x1000 % 8
  }

  lemma FixedPlace(a: nat)
    requires a < FIXED_END
    ensures FixedUnit(a) < FIXED_RANGES / 8 && FixedByte(a) < 8
    ensures IndexOf(a, SegOf(a)) == 8 * FixedUnit(a) + FixedByte(a)
  {
  }

  /** The registers of variable range `i` describe an enabled range that meets the page. */
  predicate ReadMeets(st: State, i: nat, maxPhy: nat, start: nat)
    requires st.Wf() && i < VAR_RANGES
  {
    var base, mask := Get(st, VarBase(i), maxPhy), Get(st, VarMask(i), maxPhy);
    && mask / 2048 % 2 == 1
    && mask < Pow2(maxPhy)
    && base / PAGE * PAGE < start + PAGE
    && start < ReadEnd(base, mask, maxPhy)
  }

  /** No bit 11 in the default-type register: UC, or WB for a guest without MTRRs. */
  lemma TypeWhenDisabled(st: State, maxPhy: nat, gfn: nat, cpuidHasMtrr: bool)
    requires StateOk(st, maxPhy) && Get(st, DefType, maxPhy) / 2048 % 2 == 0
    ensures PageType(st, gfn, cpuidHasMtrr) == if cpuidHasMtrr then 0 else 6
  {
  }

  /** Bits 11 and 10: a page below 1MB has the type in its byte of its fixed-range register. */
  lemma {:induction false} TypeFromFixed(st: State, maxPhy: nat, gfn: nat, cpuidHasMtrr: bool)
    requires StateOk(st, maxPhy) && gfn * PAGE < FIXED_END
    requires Get(st, DefType, maxPhy) / 2048 % 2 == 1 && Get(st, DefType, maxPhy) / 1024 % 2 == 1
    ensures FixedUnit(gfn * PAGE) < FIXED_RANGES / 8
    ensures PageType(st, gfn, cpuidHasMtrr) == ByteAt(Get(st, Fixed(FixedUnit(gfn * PAGE)), maxPhy), FixedByte(gfn * PAGE))
  {
    hide FixedWalk, VarWalk, Combine, ByteAt, Joined, ListOk, FixedUnit, FixedByte, IndexOf;
    var a := gfn * PAGE;
    FixedPlace(a);
    InFixedRange(a);
    FixedPage(st, a);
    var u := FixedUnit(a);
    var bytes := st.fixed[8 * u..8 * u + 8];
    assert forall i :: 0 <= i < 8 ==> bytes[i] < 256;
    JoinedByte(bytes, FixedByte(a));
    var t := st.fixed[IndexOf(a, SegOf(a))];
    assert Visits(st, a, a + PAGE).types == [t];
    assert [t][1..] == [];
    CombineNone(t);
  }

  /**
   Bit 11, and not a page for the fixed ranges: the type in the low byte of the default-type register if
   no enabled range meets the page.
   */
  lemma {:induction false} TypeFromDefault(st: State, maxPhy: nat, gfn: nat, cpuidHasMtrr: bool)
    requires StateOk(st, maxPhy)
    requires var d := Get(st, DefType, maxPhy); d / 2048 % 2 == 1 && (d / 1024 % 2 == 0 || gfn * PAGE >= FIXED_END)
    requires forall i :: 0 <= i < VAR_RANGES ==> !ReadMeets(st, i, maxPhy, gfn * PAGE)
    ensures PageType(st, gfn, cpuidHasMtrr) == Get(st, DefType, maxPhy) % 256
  {
    hide FixedWalk, VarWalk, Combine, ListOk, ReadMeets, VarTouches, Pow2;
    var start := gfn * PAGE;
    var w := Visits(st, start, start + PAGE);
    if w.types != [] {
      TypeRead(st, maxPhy, start, w.types[0]);
      assert false;
    }
    assert w.types == [];
  }

  /** The same page, met by enabled ranges that all hold the type `t`: that type. */
  lemma {:induction false} TypeFromRanges(st: State, maxPhy: nat, gfn: nat, cpuidHasMtrr: bool, k: nat, t: nat)
    requires StateOk(st, maxPhy)
    requires var d := Get(st, DefType, maxPhy); d / 2048 % 2 == 1 && (d / 1024 % 2 == 0 || gfn * PAGE >= FIXED_END)
    requires k < VAR_RANGES && ReadMeets(st, k, maxPhy, gfn * PAGE)
    requires forall i :: 0 <= i < VAR_RANGES && ReadMeets(st, i, maxPhy, gfn * PAGE) ==> Get(st, VarBase(i), maxPhy) % 256 == t
    ensures PageType(st, gfn, cpuidHasMtrr) == t
  {
    hide FixedWalk, VarWalk, Combine, ListOk, ReadMeets, VarTouches, Pow2;
    var start := gfn * PAGE;
    var w := Visits(st, start, start + PAGE);
    TypeRead(st, maxPhy, start, t);
    forall j | 0 <= j < |w.types|
      ensures w.types[j] == t
    {
      TypeRead(st, maxPhy, start, w.types[j]);
    }
    CombineSame(t, w.types[1..]);
  }

  /** The walk of a page outside the fixed ranges meets the types that the registers hold for it. */
  lemma {:induction false} TypeRead(st: State, maxPhy: nat, start: nat, t: nat)
    requires StateOk(st, maxPhy) && st.Enabled() && !UsesFixed(st, start)
    ensures t in Visits(st, start, start + PAGE).types <==>
              exists i :: 0 <= i < VAR_RANGES && ReadMeets(st, i, maxPhy, start) && Get(st, VarBase(i), maxPhy) % 256 == t
  {
    hide FixedWalk, VarWalk, Combine, ReadMeets, VarTouches, Pow2, Get;
    VarTouchesExactly(st, start, start + PAGE, start, false, t);
    TouchesReads(st, maxPhy, start, t);
  }

  lemma {:induction false} TouchesReads(st: State, maxPhy: nat, start: nat, t: nat)
    requires StateOk(st, maxPhy)
    ensures VarTouches(st.ranges, start, start + PAGE, t) <==>
              exists i :: 0 <= i < VAR_RANGES && ReadMeets(st, i, maxPhy, start) && Get(st, VarBase(i), maxPhy) % 256 == t
  {
    hide VarStart, VarEnd, RangeType, RangeValid, ListOk, Pow2, ReadEnd, Get;
    forall i | 0 <= i < VAR_RANGES
      ensures ReadMeets(st, i, maxPhy, start) <==>
                i in EnabledRanges(st.ranges) && VarStart(st.ranges[i]) < start + PAGE && start < VarEnd(st.ranges[i])
      ensures RangeType(st.ranges[i]) == Get(st, VarBase(i), maxPhy) % 256
    {
      RangeReads(st, i, maxPhy);
    }
  }
}
