/**
 The reverse map of a guest frame: the shadow page table entries that map it. The list is empty,
 one pointer, or a chain of descriptors with three slots each; it must behave as a collection of
 pointers whatever the shape.
 */
module RmapList {

  const EXT: nat := 3         // PTE_LIST_EXT
  const NULL: Sptep := 0

  type Sptep = nat            // address of an entry; zero is the null pointer

  /** struct pte_list_desc; `more` is the next descriptor of the sequence it sits in. */
  datatype Desc = Desc(sptes: seq<Sptep>)
  {
    /** Used slots come first, and there is at least one. */
    predicate Compact() {
      && |sptes| == EXT
      && sptes[0] != NULL
      && (sptes[1] == NULL ==> sptes[2] == NULL)
    }

    function Count(): (n: nat)
      requires |sptes| == EXT
      ensures n <= EXT
    {
      if sptes[0] == NULL then 0 else if sptes[1] == NULL then 1 else if sptes[2] == NULL then 2 else 3
    }

    function Used(): seq<Sptep>
      requires |sptes| == EXT
    {
      sptes[..Count()]
    }
  }

  /** kvm_rmap_head: null, a tagged descriptor chain, or the only pointer itself. */
  datatype Head = Zero | One(spte: Sptep) | Many(descs: seq<Desc>)
  {
    ghost predicate Wf() {
      match this
      case Zero => true
      case One(s) => s != NULL
      case Many(ds) => |ds| > 0 && AllCompact(ds)
    }
  }

  ghost predicate AllCompact(ds: seq<Desc>) {
    forall k :: 0 <= k < |ds| ==> ds[k].Compact()
  }

  ghost function Flatten(ds: seq<Desc>): seq<Sptep>
    requires AllCompact(ds)
  {
    if ds == [] then [] else ds[0].Used() + Flatten(ds[1..])
  }

  ghost function Elements(h: Head): seq<Sptep>
    requires h.Wf()
  {
    match h
    case Zero => []
    case One(s) => [s]
    case Many(ds) => Flatten(ds)
  }

  lemma {:induction false} FlattenConcat(a: seq<Desc>, b: seq<Desc>)
    requires AllCompact(a) && AllCompact(b)
    ensures AllCompact(a + b) && Flatten(a + b) == Flatten(a) + Flatten(b)
    decreases |a|
  {
    hide Desc.Used, Desc.Count, Desc.Compact;
    if a == [] {
      assert a + b == b;
    } else {
      FlattenConcat(a[1..], b);
      assert (a + b)[0] == a[0] && (a + b)[1..] == a[1..] + b;
    }
  }

  lemma FlattenOne(d: Desc)
    requires d.Compact()
    ensures AllCompact([d]) && Flatten([d]) == d.Used()
  {
    assert [d][1..] == [];
  }

  /** The chain around descriptor `k`. */
  lemma {:induction false} FlattenAt(ds: seq<Desc>, k: nat)
    requires AllCompact(ds) && k < |ds|
    ensures AllCompact(ds[..k]) && AllCompact(ds[k + 1..]) && AllCompact(ds[..k + 1])
    ensures Flatten(ds) == Flatten(ds[..k]) + ds[k].Used() + Flatten(ds[k + 1..])
    ensures Flatten(ds[..k + 1]) == Flatten(ds[..k]) + ds[k].Used()
  {
    hide Flatten, Desc.Used;
    FlattenOne(ds[k]);
    FlattenConcat(ds[..k], [ds[k]]);
    assert ds[..k + 1] == ds[..k] + [ds[k]];
    FlattenConcat(ds[..k + 1], ds[k + 1..]);
    assert ds == ds[..k + 1] + ds[k + 1..];
  }

  lemma FlattenReplace(ds: seq<Desc>, k: nat, d: Desc)
    requires AllCompact(ds) && k < |ds| && d.Compact()
    ensures AllCompact(ds[k := d])
    ensures Flatten(ds[k := d]) == Flatten(ds[..k]) + d.Used() + Flatten(ds[k + 1..])
  {
    hide Flatten, Desc.Used;
    var ds' := ds[k := d];
    FlattenAt(ds', k);
    assert ds'[..k] == ds[..k] && ds'[k + 1..] == ds[k + 1..];
  }

  lemma FlattenDrop(ds: seq<Desc>, k: nat)
    requires AllCompact(ds) && k < |ds|
    ensures AllCompact(ds[..k] + ds[k + 1..])
    ensures Flatten(ds[..k] + ds[k + 1..]) == Flatten(ds[..k]) + Flatten(ds[k + 1..])
  {
    FlattenConcat(ds[..k], ds[k + 1..]);
  }

  lemma FlattenEmpty()
    ensures AllCompact([]) && Flatten([]) == []
  {
  }

  lemma {:induction false} FlattenNonEmpty(ds: seq<Desc>)
    requires AllCompact(ds)
    ensures Flatten(ds) == [] <==> ds == []
  {
  }

  predicate Full(d: Desc)
    requires |d.sptes| == EXT
  {
    d.sptes[EXT - 1] != NULL
  }

  /** The first descriptor with a free slot, or the length of the chain. */
  function FirstFree(ds: seq<Desc>): (k: nat)
    requires forall i :: 0 <= i < |ds| ==> |ds[i].sptes| == EXT
    ensures k <= |ds| && (forall i :: 0 <= i < k ==> Full(ds[i])) && (k < |ds| ==> !Full(ds[k]))
  {
    if ds == [] || !Full(ds[0]) then 0 else 1 + FirstFree(ds[1..])
  }

  /** How many pointers come before the one pte_list_add puts in. */
  ghost function InsertAt(h: Head): nat
    requires h.Wf()
  {
    match h
    case Zero => 0
    case One(_) => 1
    case Many(ds) => var k := FirstFree(ds); EXT * k + if k < |ds| then ds[k].Count() else 0
  }

  /** No descriptor but the last has a free slot, and the last has one. */
  ghost predicate RoomAtEndOnly(ds: seq<Desc>)
    requires |ds| > 0 && AllCompact(ds)
  {
    (forall k :: 0 <= k < |ds| - 1 ==> Full(ds[k])) && !Full(ds[|ds| - 1])
  }

  /** What pte_list_add returns: a descriptor it appends behind is not counted. */
  ghost function ReturnedCount(h: Head): int
    requires h.Wf()
  {
    InsertAt(h) - if h.Many? && FirstFree(h.descs) == |h.descs| then EXT else 0
  }

  lemma {:induction false} FullPrefix(ds: seq<Desc>, k: nat)
    requires AllCompact(ds) && k <= |ds| && forall i :: 0 <= i < k ==> Full(ds[i])
    ensures AllCompact(ds[..k]) && |Flatten(ds[..k])| == EXT * k
    decreases k
  {
    hide Flatten, Desc.Used;
    if k == 0 {
      FlattenEmpty();
      assert ds[..0] == [];
    } else {
      FullPrefix(ds, k - 1);
      FlattenAt(ds, k - 1);
      DescFacts(ds[k - 1]);
    }
  }

  lemma InsertAtInside(h: Head)
    requires h.Wf()
    ensures InsertAt(h) <= |Elements(h)|
  {
    hide Flatten, Desc.Used;
    if h.Many? {
      var k := FirstFree(h.descs);
      FullPrefix(h.descs, k);
      if k < |h.descs| {
        FlattenAt(h.descs, k);
        DescFacts(h.descs[k]);
      } else {
        assert h.descs[..k] == h.descs;
      }
    }
  }

  /**
   The comment on pte_list_add promises the number of pointers already there. For a chain that is
   what it returns exactly when no descriptor but the last has a free slot and the last has one.
   */
  lemma ReturnedCountExactly(h: Head)
    requires h.Wf()
    ensures 0 <= ReturnedCount(h) <= |Elements(h)|
    ensures ReturnedCount(h) == |Elements(h)| <==> h.Many? ==> RoomAtEndOnly(h.descs)
  {
    hide Flatten, Desc.Used, Desc.Count;
    if h.Many? {
      var ds := h.descs;
      var k := FirstFree(ds);
      FullPrefix(ds, k);
      if k == |ds| {
        assert ds[..k] == ds;
      } else {
        FlattenAt(ds, k);
        DescFacts(ds[k]);
        FlattenNonEmpty(ds[k + 1..]);
        assert |Elements(h)| == EXT * k + ds[k].Count() + |Flatten(ds[k + 1..])|;
        assert RoomAtEndOnly(ds) <==> k == |ds| - 1;
      }
    }
  }

  /** Three pointers in one full descriptor: the count returned for a fourth is zero. */
  lemma FullChainReturnsZero(a: Sptep, b: Sptep, c: Sptep)
    requires a != NULL && b != NULL && c != NULL
    ensures var h := Many([Desc([a, b, c])]); h.Wf() && |Elements(h)| == 3 && ReturnedCount(h) == 0
  {
    var d := Desc([a, b, c]);
    assert Full(d) && [d][1..] == [];
    FlattenOne(d);
  }

  /** A removal left room in the first of two descriptors: the pointers behind it are not counted. */
  lemma GapReturnsFewer(a: Sptep, b: Sptep, c: Sptep)
    requires a != NULL && b != NULL && c != NULL
    ensures var h := Many([Desc([a, b, NULL]), Desc([c, NULL, NULL])]);
            h.Wf() && |Elements(h)| == 3 && ReturnedCount(h) == 2
  {
    var d, e := Desc([a, b, NULL]), Desc([c, NULL, NULL]);
    FlattenOne(d);
    FlattenOne(e);
    FlattenConcat([d], [e]);
    assert [d, e] == [d] + [e];
  }

  lemma DescFacts(d: Desc)
    requires d.Compact()
    ensures 1 <= d.Count() <= EXT && |d.Used()| == d.Count() && d.Used() == d.sptes[..d.Count()]
    ensures forall i :: 0 <= i < EXT ==> (d.sptes[i] != NULL <==> i < d.Count())
  {
  }

  lemma AddSlot(d: Desc, spte: Sptep)
    requires d.Compact() && d.Count() < EXT && spte != NULL
    ensures var d' := Desc(d.sptes[d.Count() := spte]);
      d'.Compact() && d'.Used() == d.Used() + [spte]
  {
  }

  lemma RemovedSlot(d: Desc, d': Desc, i: nat, j: nat)
    requires d.Compact() && i < d.Count() && j == d.Count() - 1
    requires d'.sptes == d.sptes[i := d.sptes[j]][j := NULL]
    ensures d.sptes[i] in d.Used() && multiset(d'.Used()) == multiset(d.Used()) - multiset{d.sptes[i]}
    ensures if j != 0 then d'.Compact() else d'.Used() == []
  {
    assert d.Used() == d.sptes[..j] + [d.sptes[j]];
    assert d.Used()[i] == d.sptes[i];
    assert d'.Used() == if i == j then d.sptes[..j] else d.sptes[..j][i := d.sptes[j]];
  }

  lemma RemovedMiddle(a: seq<Sptep>, u: seq<Sptep>, u': seq<Sptep>, b: seq<Sptep>, x: Sptep)
    requires x in u && multiset(u') == multiset(u) - multiset{x}
    ensures multiset(a + u' + b) == multiset(a + u + b) - multiset{x}
  {
    assert x in multiset(u);
  }

  // ----- Iteration -----------------------------------------------------------------------------

  /** struct rmap_iterator: the descriptor holding the current pointer, if any, and its slot. */
  datatype Iter = Iter(desc: int, pos: nat)

  const NO_DESC: int := -1

  /** How many pointers come before the one the iterator is at. */
  ghost function Position(h: Head, it: Iter): nat
    requires h.Wf()
  {
    if h.Many? && 0 <= it.desc < |h.descs| then |Flatten(h.descs[..it.desc])| + it.pos else 0
  }

  /** The iterator is at a pointer of the list. */
  ghost predicate At(h: Head, it: Iter) {
    match h
    case Zero => false
    case One(_) => it.desc == NO_DESC
    case Many(ds) => 0 <= it.desc < |ds| && |ds[it.desc].sptes| == EXT && it.pos < ds[it.desc].Count()
  }

  lemma PositionFacts(h: Head, it: Iter)
    requires h.Wf() && At(h, it)
    ensures Position(h, it) < |Elements(h)|
    ensures Elements(h)[Position(h, it)] == if h.Many? then h.descs[it.desc].sptes[it.pos] else h.spte
    ensures Elements(h)[Position(h, it)] != NULL
  {
    if h.Many? {
      FlattenAt(h.descs, it.desc);
    }
  }

  lemma {:induction false} Appended(ds: seq<Desc>, spte: Sptep)
    requires AllCompact(ds) && spte != NULL && forall k :: 0 <= k < |ds| ==> Full(ds[k])
    ensures AllCompact(ds + [Desc([spte, NULL, NULL])])
    ensures Flatten(ds + [Desc([spte, NULL, NULL])]) == Flatten(ds) + [spte] && |Flatten(ds)| == EXT * |ds|
  {
    hide Flatten;
    var d := Desc([spte, NULL, NULL]);
    FlattenOne(d);
    FlattenConcat(ds, [d]);
    FullPrefix(ds, |ds|);
    assert ds[..|ds|] == ds;
    assert d.Used() == [spte];
  }

  class RmapHead {
    var head: Head

    constructor ()
      ensures head == Zero && Elements(head) == []
    {
      head := Zero;
    }

    /** pte_list_add: the new pointer goes into the first free slot, or into a new descriptor at the
        end, and everything else keeps its place. */
    method Add(spte: Sptep) returns (count: nat)
      requires head.Wf() && spte != NULL
      modifies this
      ensures head.Wf()
      ensures InsertAt(old(head)) <= |Elements(old(head))|
      ensures Elements(head) == Elements(old(head))[..InsertAt(old(head))] + [spte] + Elements(old(head))[InsertAt(old(head))..]
      ensures count == ReturnedCount(old(head))
    {
      count := 0;
      match head
      case Zero =>
        head := One(spte);
      case One(s) =>
        head := Many([Desc([s, spte, NULL])]);
        count := 1;
        assert Flatten(head.descs[1..]) == [];
      case Many(ds) =>
        var ds';
        count, ds' := AddToChain(ds, spte);
        head := Many(ds');
    }

    /** The many-to-many case of pte_list_add. */
    static method AddToChain(ds: seq<Desc>, spte: Sptep) returns (count: nat, ds': seq<Desc>)
      requires |ds| > 0 && AllCompact(ds) && spte != NULL
      ensures |ds'| > 0 && AllCompact(ds') && InsertAt(Many(ds)) <= |Flatten(ds)|
      ensures Flatten(ds') == Flatten(ds)[..InsertAt(Many(ds))] + [spte] + Flatten(ds)[InsertAt(Many(ds))..]
      ensures count == ReturnedCount(Many(ds))
    {
      hide Flatten, Desc.Used, Desc.Count;
      var k := 0;
      count := 0;
      InsertAtInside(Many(ds));
      DescFacts(ds[k]);
      while ds[k].sptes[EXT - 1] != NULL && k + 1 < |ds|
        invariant 0 <= k < |ds| && count == EXT * k
        invariant forall m :: 0 <= m < k ==> Full(ds[m])
        decreases |ds| - k
      {
        count := count + EXT;
        k := k + 1;
      }
      FullPrefix(ds, k);
      FlattenAt(ds, k);
      DescFacts(ds[k]);
      if ds[k].sptes[EXT - 1] != NULL {
        assert FirstFree(ds) == |ds|;
        ds' := ds + [Desc([spte, NULL, NULL])];
        Appended(ds, spte);
        // the scan of the new descriptor stops at its first slot
      } else {
        assert FirstFree(ds) == k;
        var i := 0;
        while ds[k].sptes[i] != NULL
          invariant 0 <= i <= ds[k].Count()
          invariant count == EXT * k + i
          decreases EXT - i
        {
          i := i + 1;
          count := count + 1;
        }
        var d := Desc(ds[k].sptes[i := spte]);
        AddSlot(ds[k], spte);
        FlattenReplace(ds, k, d);
        ds' := ds[k := d];
        assert Flatten(ds)[..count] == Flatten(ds[..k]) + ds[k].Used();
      }
    }

    /** pte_list_desc_remove_entry: fills the gap from the same descriptor, and drops the
        descriptor when it runs empty. */
    method RemoveEntry(k: nat, i: nat)
      requires head.Wf() && head.Many? && k < |head.descs| && i < head.descs[k].Count()
      modifies this
      ensures head.Wf()
      ensures multiset(Elements(head)) == multiset(Elements(old(head))) - multiset{old(head).descs[k].sptes[i]}
    {
      hide Flatten, Desc.Used, Desc.Count;
      var ds := head.descs;
      FlattenAt(ds, k);
      DescFacts(ds[k]);
      var j := EXT - 1;
      while ds[k].sptes[j] == NULL && j > i
        invariant i <= j < EXT
        invariant j + 1 >= ds[k].Count()
      {
        j := j - 1;
      }
      var sptes := ds[k].sptes[i := ds[k].sptes[j]];
      sptes := sptes[j := NULL];
      var d := Desc(sptes);
      RemovedSlot(ds[k], d, i, j);
      RemovedMiddle(Flatten(ds[..k]), ds[k].Used(), d.Used(), Flatten(ds[k + 1..]), ds[k].sptes[i]);
      if j != 0 {
        FlattenReplace(ds, k, d);
        head := Many(ds[k := d]);
      } else {
        FlattenDrop(ds, k);
        if k == 0 && |ds| == 1 {
          FlattenEmpty();
          assert ds[..k] == [] && ds[k + 1..] == [];
          head := Zero;
        } else {
          assert Flatten(ds[..k]) + [] == Flatten(ds[..k]);
          head := Many(ds[..k] + ds[k + 1..]);
        }
      }
    }

    /** __pte_list_remove: takes out one occurrence; a pointer that is not there is a bug. */
    method Remove(spte: Sptep) returns (bug: bool)
      requires head.Wf() && spte != NULL
      modifies this
      ensures head.Wf()
      ensures bug <==> spte !in Elements(old(head))
      ensures bug ==> head == old(head)
      ensures !bug ==> multiset(Elements(head)) == multiset(Elements(old(head))) - multiset{spte}
    {
      hide Flatten, Desc.Used, Desc.Count;
      match head
      case Zero =>
        return true;
      case One(s) =>
        if s != spte {
          return true;
        }
        head := Zero;
        return false;
      case Many(ds) =>
        var k := 0;
        FlattenEmpty();
        assert ds[..0] == [];
        while k < |ds|
          invariant 0 <= k <= |ds| && head == old(head)
          invariant spte !in Flatten(ds[..k])
        {
          FlattenAt(ds, k);
          DescFacts(ds[k]);
          var i := 0;
          while i < EXT && ds[k].sptes[i] != NULL
            invariant 0 <= i <= ds[k].Count() && head == old(head)
            invariant forall m :: 0 <= m < i ==> ds[k].sptes[m] != spte
          {
            if ds[k].sptes[i] == spte {
              assert ds[k].Used()[i] == spte;
              RemoveEntry(k, i);
              return false;
            }
            i := i + 1;
          }
          assert ds[..k + 1] == ds[..k] + [ds[k]];
          k := k + 1;
        }
        assert ds[..k] == ds;
        return true;
    }

    /** rmap_get_first */
    method GetFirst() returns (sptep: Sptep, it: Iter)
      requires head.Wf()
      ensures sptep == NULL <==> Elements(head) == []
      ensures sptep != NULL ==> At(head, it) && Position(head, it) == 0 && sptep == Elements(head)[0]
    {
      it := Iter(NO_DESC, 0);
      match head
      case Zero =>
        sptep := NULL;
      case One(s) =>
        sptep := s;
      case Many(ds) =>
        it := Iter(0, 0);
        sptep := ds[0].sptes[0];
        PositionFacts(head, it);
    }

    /** rmap_get_next: the pointer right behind the current one, or null at the end. */
    method GetNext(it: Iter) returns (sptep: Sptep, it': Iter)
      requires head.Wf() && At(head, it)
      ensures sptep == NULL <==> Position(head, it) + 1 == |Elements(head)|
      ensures sptep != NULL ==>
        && At(head, it') && Position(head, it') == Position(head, it) + 1
        && Position(head, it') < |Elements(head)| && sptep == Elements(head)[Position(head, it')]
    {
      hide Flatten, Desc.Used;
      it' := it;
      if it.desc != NO_DESC {
        FlattenAt(head.descs, it.desc);
        DescFacts(head.descs[it.desc]);
        if it.pos < EXT - 1 {
          it' := Iter(it.desc, it.pos + 1);
          sptep := head.descs[it.desc].sptes[it'.pos];
          if sptep != NULL {
            PositionFacts(head, it');
            return;
          }
        }
        if it.desc + 1 < |head.descs| {
          it' := Iter(it.desc + 1, 0);
          sptep := head.descs[it'.desc].sptes[0];
          PositionFacts(head, it');
          return;
        }
        assert head.descs[it.desc + 1..] == [];
        FlattenEmpty();
      }
      sptep := NULL;
    }

    /** for_each_rmap_spte: visits every pointer exactly once, in list order. */
    method ForEach() returns (visited: seq<Sptep>)
      requires head.Wf()
      ensures visited == Elements(head)
    {
      visited := [];
      var sptep, it := GetFirst();
      while sptep != NULL
        invariant sptep != NULL ==> At(head, it) && Position(head, it) < |Elements(head)|
        invariant sptep != NULL ==> sptep == Elements(head)[Position(head, it)]
        invariant sptep != NULL ==> visited == Elements(head)[..Position(head, it)]
        invariant sptep == NULL ==> visited == Elements(head)
        decreases |Elements(head)| - |visited|, sptep != NULL
      {
        PositionFacts(head, it);
        visited := visited + [sptep];
        sptep, it := GetNext(it);
      }
    }

    /** kvm_zap_rmapp: terminates with an empty list. */
    method ZapAll() returns (flush: bool)
      requires head.Wf()
      modifies this
      ensures head == Zero && (flush <==> Elements(old(head)) != [])
    {
      flush := false;
      var sptep, it := GetFirst();
      while sptep != NULL
        invariant head.Wf()
        invariant sptep == NULL <==> Elements(head) == []
        invariant sptep != NULL ==> sptep == Elements(head)[0]
        invariant flush <==> head != old(head)
        decreases |Elements(head)|
      {
        var bug := Remove(sptep);
        flush := true;
        sptep, it := GetFirst();
      }
    }
  }
}
