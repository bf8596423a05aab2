/**
 The shadow MMU under the mmu lock: marking pages unsync, the unsync walk, syncing and
 zapping.
 */
module ShadowMmu {
  import opened Arith
  import opened ShadowGraph
  import opened PageVec
  import opened PageAccounting
  import opened PageCull

  /** What other parts of KVM ask of the shadow MMU while holding the lock. */
  datatype Op =
    | GetPage(page: PageId, gfn: Gfn, level: nat, direct: bool)
    | Link(sp: PageId, index: nat, child: PageId)
    | Map(sp: PageId, index: nat)
    | Drop(sp: PageId, index: nat)
    | WriteFault(gfn: Gfn, canUnsync: bool)
    | Take(sp: PageId)
    | Release(sp: PageId)
    | Sync(sp: PageId)
    | Zap(sp: PageId)
    | Commit
    | Shrink(goal: nat)
    | Bump
    | ZapObsolete
    | ZapAll

  /** One request, with the pages that would fail to sync at that time. */
  datatype Call = Call(op: Op, failing: set<PageId>)

  class Mmu {
    var pages: Graph
    var meta: Metas
    var active: seq<PageId>         // active_mmu_pages, head first
    var zapped: set<PageId>         // pages on an invalid list, not yet freed
    var nUsed: int                  // n_used_mmu_pages
    var indirect: int               // indirect_shadow_pages
    var track: map<Gfn, u16>        // gfn_track[KVM_PAGE_TRACK_WRITE]
    var validGen: nat               // mmu_valid_gen

    var capped: bool                // the warning in update_gfn_track has fired

    /** Lists and counters agree with the pages' own fields. */
    ghost predicate Books()
      reads this`meta, this`active, this`zapped, this`nUsed, this`indirect, this`track, this`validGen, this`capped
    {
      && Ordered(active, meta, validGen)
      && Listed(active, zapped, meta)
      && nUsed == |active|
      && Counts(meta, indirect, track, capped)
    }

    ghost predicate Valid()
      reads this
    {
      GraphInv(pages) && Books() && Linked(pages, meta, zapped)
    }

    constructor ()
      ensures Valid() && pages == map[] && active == [] && !capped
    {
      pages, meta, active, zapped := map[], map[], [], {};
      nUsed, indirect, track, validGen, capped := 0, 0, map[], 0, false;
    }

    lemma ValidParts()
      ensures Valid() <==> GraphInv(pages) && Books() && Linked(pages, meta, zapped)
    {
    }

    lemma SameKeys()
      requires Valid()
      ensures pages.Keys == meta.Keys && forall p :: p in active ==> p in meta
      ensures Ordered(active, meta, validGen)
    {
    }

    lemma ActiveFacts(p: PageId)
      requires Valid() && p in active
      ensures p in pages && p in meta && p !in zapped && 1 <= pages[p].level == meta[p].level
      ensures NoDup(active) && (meta[p].level == 1 ==> meta[p].rootCount == 0)
    {
    }

    lemma UnsyncIsActive(p: PageId)
      requires Valid() && p in pages && pages[p].unsync
      ensures p in active
    {
    }

    // ----- Marking -------------------------------------------------------------------------

    /** mark_unsync: sets the bit of one entry and, if it is the page's first, goes on upwards.
        Pages in `pending` may still have parents that are not marked; all of them are below. */
    method MarkUnsync(sp: PageId, index: nat, ghost pending: set<PageId>)
      requires WellFormed(pages) && Counted(pages) && CoveredExcept(pages, pending)
      requires sp in pages && index < ENTRIES && pages[sp].level >= 2
      requires forall q :: q in pending && q in pages ==> pages[q].level < pages[sp].level
      modifies this`pages
      ensures WellFormed(pages) && Counted(pages) && CoveredExcept(pages, pending)
      ensures OnlyMarked(old(pages), pages)
      ensures index in pages[sp].bitmap
      decreases MAX_LEVEL - pages[sp].level, 1
    {
      if index in pages[sp].bitmap {
        return;
      }
      var before := pages[sp].unsyncChildren;
      SetBitKeeps(pages, sp, index, pending);
      pages := SetBit(pages, sp, index);
      if before != 0 {
        return;
      }
      MarkParentsUnsync(sp, pending);
    }

    /** kvm_mmu_mark_parents_unsync: afterwards every entry pointing to `sp` has its bit set. */
    method MarkParentsUnsync(sp: PageId, ghost pending: set<PageId>)
      requires WellFormed(pages) && Counted(pages) && CoveredExcept(pages, pending + {sp})
      requires sp in pages
      requires forall q :: q in pending && q in pages ==> pages[q].level < pages[sp].level
      modifies this`pages
      ensures WellFormed(pages) && Counted(pages) && CoveredExcept(pages, pending)
      ensures OnlyMarked(old(pages), pages)
      decreases MAX_LEVEL - pages[sp].level, 0
    {
      hide WellFormed, EdgesOk, Counted, CoveredExcept, OnlyMarked;
      MarkedSelf(pages);
      MarkedMore(pages, pages, pages, sp);
      WellFormedEdges(pages);
      var todo := pages[sp].parents;
      while todo != {}
        invariant WellFormed(pages) && Counted(pages) && EdgesOk(pages) && CoveredExcept(pages, pending + {sp})
        invariant OnlyMarked(old(pages), pages) && sp in pages && pages[sp].level == old(pages)[sp].level
        invariant pages[sp].parents == old(pages)[sp].parents && todo <= pages[sp].parents
        invariant forall q :: q in pages ==> q in old(pages) && pages[q].level == old(pages)[q].level
        invariant forall e :: e in pages[sp].parents && e !in todo ==> BitAt(pages, e)
        decreases todo
      {
        ghost var g := pages;
        var e :| e in todo;
        todo := todo - {e};
        ParentEdge(pages, sp, e);
        MarkUnsync(e.0, e.1, pending + {sp});
        MarkedFacts(g, pages, e.0);
        MarkedMore(old(pages), g, pages, sp);
        assert BitAt(pages, e);
        WellFormedEdges(pages);
      }
      ParentsMarked(pages, sp, pending);
    }

    // ----- The unsync walk ------------------------------------------------------------------

    /** mmu_pages_add: a page that is unsync goes in once; says whether the vector is full. */
    static method PagesAdd(vec: seq<VecEntry>, g: Graph, sp: PageId, idx: int)
      returns (full: bool, vec': seq<VecEntry>)
      requires sp in g && |vec| < ARRAY_NR
      ensures vec' == vec + [VecEntry(sp, idx)] || (vec' == vec && g[sp].unsync)
      ensures vec' == vec <==> g[sp].unsync && exists n :: 0 <= n < |vec| && vec[n].sp == sp
      ensures full <==> |vec'| == ARRAY_NR
    {
      if g[sp].unsync {
        for i := 0 to |vec|
          invariant forall n :: 0 <= n < i ==> vec[n].sp != sp
        {
          if vec[i].sp == sp {
            return false, vec;
          }
        }
      }
      vec' := vec + [VecEntry(sp, idx)];
      full := |vec'| == ARRAY_NR;
    }

    /** clear_unsync_child_bit: only ever called for a bit that is set. */
    method ClearUnsyncChildBit(sp: PageId, idx: nat)
      requires GraphInv(pages) && sp in pages && idx in pages[sp].bitmap
      requires pages[sp].spt[idx].Table? ==> !pages[pages[sp].spt[idx].child].Dirty()
      modifies this`pages
      ensures pages == ClearBit(old(pages), sp, idx)
      ensures GraphInv(pages) && OnlyCleared(old(pages), pages)
      ensures pages[sp].unsyncChildren >= 0
      ensures Work(pages) == Work(old(pages)) - 1
    {
      ClearBitKeeps(pages, sp, idx);
      WorkClearBit(pages, sp, idx);
      pages := ClearBit(pages, sp, idx);
    }

    /** __mmu_unsync_walk: visits the set bits of `sp`, clearing those that need no bit. */
    method UnsyncWalk(sp: PageId, vec: seq<VecEntry>, ghost init: Path)
      returns (ret: int, vec': seq<VecEntry>)
      requires WalkPre(pages, init, vec, sp)
      modifies this`pages
      ensures WalkKeeps(old(pages), pages, init, vec, vec', sp)
      ensures WalkResult(old(pages), pages, vec, vec', sp, ret)
      ensures ret == 0 ==> pages[sp].bitmap == {}
      decreases pages[sp].level, 2
    {
      hide GraphInv, VecOk, LeavesOk, Chain, PathOf, LevelsOk, Work, HasLeaf;
      ret, vec' := 0, vec;
      WalkKeepsStart(pages, init, vec, sp);
      for i := 0 to ENTRIES
        invariant WalkKeeps(old(pages), pages, init, vec, vec', sp)
        invariant WalkResult(old(pages), pages, vec, vec', sp, ret)
        invariant WalkPre(pages, init, vec', sp)
        invariant ret >= 0
        invariant ret == 0 ==> forall j :: j in pages[sp].bitmap ==> j >= i
      {
        if i in pages[sp].bitmap {
          ghost var before, vec0, r0 := pages, vec', ret;
          var r;
          r, vec' := WalkEntry(sp, i, vec', init);
          WalkCompose(old(pages), before, pages, init, vec, vec0, vec', sp, r0, r);
          if r < 0 {
            ret := r;
            return;
          }
          ret := ret + r;
        }
      }
      GraphFacts(pages, sp);
    }

    /** Clears the bit of an entry whose child is clean or gone, in the middle of a walk. */
    method ClearEntry(sp: PageId, i: nat, ghost vec: seq<VecEntry>, ghost init: Path)
      requires WalkPre(pages, init, vec, sp) && i in pages[sp].bitmap
      requires PageOk(pages[sp])
      requires forall c :: Points(pages, sp, i, c) ==> c in pages && !pages[c].Dirty()
      modifies this`pages
      ensures WalkKeeps(old(pages), pages, init, vec, vec, sp)
      ensures WalkResult(old(pages), pages, vec, vec, sp, 0)
      ensures pages == ClearBit(old(pages), sp, i) && Work(pages) == Work(old(pages)) - 1
    {
      hide GraphInv, VecOk, LeavesOk, Chain, PathOf, LevelsOk, Work;
      ClearUnsyncChildBit(sp, i);
      GraphFacts(pages, sp);
      WalkClear(old(pages), pages, init, vec, sp, i);
    }

    /** The loop body of __mmu_unsync_walk for one set bit. */
    method WalkEntry(sp: PageId, i: nat, vec: seq<VecEntry>, ghost init: Path)
      returns (ret: int, vec': seq<VecEntry>)
      requires WalkPre(pages, init, vec, sp) && i in pages[sp].bitmap
      modifies this`pages
      ensures WalkKeeps(old(pages), pages, init, vec, vec', sp)
      ensures WalkResult(old(pages), pages, vec, vec', sp, ret)
      ensures ret >= 0 ==> WalkPre(pages, init, vec', sp)
      ensures pages[sp].bitmap == if ret == 0 then old(pages)[sp].bitmap - {i} else old(pages)[sp].bitmap
      decreases pages[sp].level, 1
    {
      hide GraphInv, VecOk, LeavesOk, Chain, PathOf, LevelsOk, Work;
      ret, vec' := 0, vec;
      GraphFacts(pages, sp);
      var ent := pages[sp].spt[i];
      if !ent.Table? {
        ClearEntry(sp, i, vec, init);
      } else {
        ret, vec' := WalkChild(sp, i, ent.child, vec, init);
      }
      if ret >= 0 {
        WalkKeepsPre(old(pages), pages, init, vec, vec', sp);
      }
    }

    method WalkChild(sp: PageId, i: nat, child: PageId, vec: seq<VecEntry>, ghost init: Path)
      returns (ret: int, vec': seq<VecEntry>)
      requires WalkPre(pages, init, vec, sp) && i in pages[sp].bitmap && Points(pages, sp, i, child)
      requires child in pages && pages[child].level + 1 == pages[sp].level
      modifies this`pages
      ensures WalkKeeps(old(pages), pages, init, vec, vec', sp)
      ensures WalkResult(old(pages), pages, vec, vec', sp, ret)
      ensures pages[sp].bitmap == if ret == 0 then old(pages)[sp].bitmap - {i} else old(pages)[sp].bitmap
      decreases pages[sp].level, 0
    {
      hide GraphInv, VecOk, LeavesOk, Chain, PathOf, LevelsOk, Work;
      ret, vec' := 0, vec;
      GraphFacts(pages, sp);
      GraphFacts(pages, child);
      var full;
      if pages[child].unsyncChildren != 0 {
        full, vec' := PagesAdd(vec, pages, child, i);
        WalkAdd(pages, init, vec, sp, i, child);
        if full {
          ret := -ENOSPC;
          return;
        }
        ghost var vec1 := vec';
        ret, vec' := UnsyncWalk(child, vec', init);
        WalkBelow(old(pages), pages, init, vec, vec1, vec', sp, child);
        if ret == 0 {
          WalkKeepsPre(old(pages), pages, init, vec, vec', sp);
          ghost var g1 := pages;
          GraphFacts(pages, child);
          ClearEntry(sp, i, vec', init);
          WalkKeepsTrans(old(pages), g1, pages, init, vec, vec', vec', sp);
        }
      } else if pages[child].unsync {
        full, vec' := PagesAdd(vec, pages, child, i);
        if vec' == vec {
          WalkKeepsStart(pages, init, vec, sp);
          ghost var n :| 0 <= n < |vec| && vec[n].sp == child;
          assert IsLeafAt(pages, vec', n);
        } else {
          WalkAdd(pages, init, vec, sp, i, child);
          assert IsLeafAt(pages, vec', |vec|);
        }
        ret := if full then -ENOSPC else 1;
      } else {
        ClearEntry(sp, i, vec, init);
      }
    }

    /** mmu_unsync_walk */
    method StartWalk(sp: PageId, ghost init: Path) returns (ret: int, vec: seq<VecEntry>)
      requires GraphInv(pages) && sp in pages && pages[sp].level >= 2 && init.Sized()
      modifies this`pages
      ensures GraphInv(pages) && LevelsOk(pages) && OnlyCleared(old(pages), pages) && Work(pages) <= Work(old(pages))
      ensures ret == 0 ==> pages[sp].bitmap == {}
      ensures ret != 0 ==> Rooted(pages, vec) && VecOk(pages, init, vec) && LeavesOk(pages, vec) && vec[0].sp == sp
      ensures ret != 0 ==> HasLeaf(pages, vec) || Work(pages) < Work(old(pages))
    {
      hide GraphInv, VecOk, LeavesOk, Chain, PathOf, LevelsOk, Work, HasLeaf;
      vec, ret := [], 0;
      GraphFacts(pages, sp);
      if pages[sp].unsyncChildren == 0 {
        return;
      }
      var full;
      full, vec := PagesAdd(vec, pages, sp, INVALID_INDEX);
      assert vec == [VecEntry(sp, INVALID_INDEX)];
      StartWalkPre(pages, init, sp);
      ret, vec := UnsyncWalk(sp, vec, init);
    }

    // ----- Replaying the vector -----------------------------------------------------------------

    /** mmu_pages_next: goes to the next leaf, keeping the path up to date. */
    method PagesNext(vec: seq<VecEntry>, path: Path, i: nat, ghost init: Path) returns (n: nat, path': Path)
      requires LevelsOk(pages) && Rooted(pages, vec) && init.Sized()
      requires i < |vec| && Rooted(pages, vec[..i + 1]) && path == PathOf(pages, init, vec[..i + 1])
      ensures i < n <= |vec|
      ensures n < |vec| ==> IsLeafAt(pages, vec, n)
      ensures forall k :: i < k < n ==> !IsLeafAt(pages, vec, k)
      ensures n < |vec| ==> Rooted(pages, vec[..n + 1]) && path' == PathOf(pages, init, vec[..n + 1])
    {
      hide PathOf, LevelsOk;
      n, path' := i + 1, path;
      while n < |vec|
        invariant i < n <= |vec|
        invariant Rooted(pages, vec[..n]) && path' == PathOf(pages, init, vec[..n])
        invariant forall k :: i < k < n ==> !IsLeafAt(pages, vec, k)
      {
        PathOfStep(pages, init, vec, n);
        path' := StepPath(pages, path', vec[n]);
        if pages[vec[n].sp].level == 1 {
          break;
        }
        n := n + 1;
      }
    }

    /** mmu_pages_first */
    method PagesFirst(vec: seq<VecEntry>, init: Path) returns (n: nat, path: Path)
      requires LevelsOk(pages) && Rooted(pages, vec) && init.Sized()
      ensures 0 < n <= |vec|
      ensures n < |vec| ==> IsLeafAt(pages, vec, n)
      ensures forall k :: 0 <= k < n ==> !IsLeafAt(pages, vec, k)
      ensures n < |vec| ==> Rooted(pages, vec[..n + 1]) && path == PathOf(pages, init, vec[..n + 1])
    {
      path := FirstPath(pages, init, vec[0].sp);
      n, path := PagesNext(vec, path, 0, init);
    }

    /** mmu_pages_clear_parents: goes up the path as long as pages run out of unsync children.
        Every bit it clears is set. */
    method ClearParents(path: Path, ghost top: nat)
      requires GraphInv(pages) && path.Sized() && 2 <= top <= MAX_LEVEL
      requires Chain(pages, path, 2, top) && OnPath(pages, path, 2) && path.parent[top - 1] == None
      requires path.idx[0] in pages[path.parent[0].value].bitmap
      requires forall c :: Points(pages, path.parent[0].value, path.idx[0], c) ==> c in pages && !pages[c].Dirty()
      modifies this`pages
      ensures GraphInv(pages) && OnlyCleared(old(pages), pages) && Work(pages) < Work(old(pages))
    {
      hide Work, GraphInv, Chain;
      var level := 0;
      var again := true;
      while again
        invariant 0 <= level <= top - 1
        invariant GraphInv(pages) && OnlyCleared(old(pages), pages)
        invariant level == 0 ==> pages == old(pages)
        invariant level > 0 ==> Work(pages) < Work(old(pages))
        invariant again || level > 0
        invariant SameAbove(old(pages), pages, level + 1)
        invariant 0 < level ==> OnPath(old(pages), path, level + 1)
        invariant again && 0 < level ==> !pages[path.parent[level - 1].value].Dirty()
        invariant again && 0 < level ==> old(pages)[path.parent[level - 1].value].Dirty()
        decreases if again then top - level else -1
      {
        var idx, sp := path.idx[level], path.parent[level];
        if sp == None {
          return;
        }
        ghost var l := level + 2;
        ChainAt(old(pages), path, 2, top, l);
        if level > 0 {
          CoveredBit(old(pages), sp.value, idx, path.parent[level - 1].value);
        }
        GraphFacts(old(pages), sp.value);
        GraphFacts(pages, sp.value);
        ClearUnsyncChildBit(sp.value, idx);
        level := level + 1;
        again := pages[sp.value].unsyncChildren == 0;
      }
    }

    // ----- Zapping ------------------------------------------------------------------------------

    /** kvm_mmu_page_unlink_children */
    method UnlinkChildren(sp: PageId)
      requires GraphInv(pages) && sp in pages
      modifies this`pages
      ensures GraphInv(pages) && Unlinked(old(pages), pages, sp) && Work(pages) == Work(old(pages))
      ensures forall i :: 0 <= i < |pages[sp].spt| ==> pages[sp].spt[i] == Absent
    {
      hide GraphInv, Work, Unlinked;
      GraphFacts(pages, sp);
      UnlinkedSelf(pages, sp);
      for i := 0 to ENTRIES
        invariant GraphInv(pages) && Unlinked(old(pages), pages, sp) && Work(pages) == Work(old(pages))
        invariant sp in pages && |pages[sp].spt| == ENTRIES
        invariant forall j :: 0 <= j < i ==> pages[sp].spt[j] == Absent
      {
        ghost var before := pages;
        ZapPte(sp, i);
        UnlinkedTrans(old(pages), before, pages, sp);
        UnlinkedFacts(old(pages), pages, sp);
      }
    }

    /** mmu_page_zap_pte */
    method ZapPte(sp: PageId, i: nat)
      requires GraphInv(pages) && sp in pages && i < |pages[sp].spt|
      modifies this`pages
      ensures GraphInv(pages) && Unlinked(old(pages), pages, sp) && Work(pages) == Work(old(pages))
      ensures pages[sp].spt == old(pages)[sp].spt[i := Absent] && pages == DropEntryAt(old(pages), sp, i)
    {
      hide GraphInv, Work, Unlinked;
      GraphFacts(pages, sp);
      if pages[sp].spt[i].Table? {
        var child := pages[sp].spt[i].child;
        assert Points(pages, sp, i, child);
        DropEdgeKeeps(pages, sp, i, child);
        pages := DropEdge(pages, sp, i, child);
      } else {
        DropLeafKeeps(pages, sp, i);
        pages := pages[sp := pages[sp].(spt := pages[sp].spt[i := Absent])];
      }
    }

    /** kvm_mmu_unlink_parents */
    method UnlinkParents(sp: PageId)
      requires GraphInv(pages) && sp in pages
      modifies this`pages
      ensures GraphInv(pages) && Unlinked(old(pages), pages, sp) && Work(pages) == Work(old(pages))
      ensures pages[sp].parents == {}
    {
      hide GraphInv, Work;
      while pages[sp].parents != {}
        invariant GraphInv(pages) && Unlinked(old(pages), pages, sp) && Work(pages) == Work(old(pages))
        decreases pages[sp].parents
      {
        var e :| e in pages[sp].parents;
        ParentPoints(pages, sp, e);
        ghost var before := pages;
        DropEdgeKeeps(pages, e.0, e.1, sp);
        pages := DropEdge(pages, e.0, e.1, sp);
        UnlinkedTrans(old(pages), before, pages, sp);
      }
    }

    /** unaccount_shadowed: the counters become right for the page being invalid, and the count of
        its frame, which includes it, is never refused. */
    method UnaccountShadowed(sp: PageId)
      requires sp in meta && IsIndirect(meta[sp]) && Counts(meta, indirect, track, capped)
      modifies this`indirect, this`track, this`capped
      ensures Counts(meta[sp := meta[sp].(invalid := true)], indirect, track, capped)
      ensures capped == old(capped)
    {
      hide Counts, UpdateTrack, IsIndirect;
      RetireCounts(meta, indirect, track, capped, sp);
      indirect := indirect - 1;
      if meta[sp].level > 1 {
        var (t, ok) := UpdateTrack(track, meta[sp].gfn, -1);
        track := t;
        capped := capped || !ok;
      }
    }

    /** The end of kvm_mmu_prepare_zap_page: counters, lists and the invalid mark. */
    method Retire(sp: PageId) returns (n: nat)
      requires Books() && sp in active
      modifies this`meta, this`active, this`zapped, this`nUsed, this`indirect, this`track, this`capped
      ensures Books()
      ensures n == if old(meta)[sp].rootCount == 0 then 1 else 0
      ensures meta == old(meta)[sp := old(meta)[sp].(invalid := true)]
      ensures active == if n == 1 then Without(old(active), sp) else [sp] + Without(old(active), sp)
      ensures zapped == if n == 1 then old(zapped) + {sp} else old(zapped)
      ensures !old(capped) ==> !capped
    {
      hide Ordered, Listed, Counts, UpdateTrack, Without, NoDup;
      ListedRetire(active, zapped, meta, validGen, sp);
      OrderedRemove(active, meta, validGen, sp);
      OrderedMoveToHead(active, meta, validGen, sp);
      RetireCounts(meta, indirect, track, capped, sp);
      if !meta[sp].invalid && !meta[sp].direct {
        UnaccountShadowed(sp);
      }
      if meta[sp].rootCount == 0 {
        n := 1;
        active := Without(active, sp);
        zapped := zapped + {sp};
        nUsed := nUsed - 1;
      } else {
        n := 0;
        active := [sp] + Without(active, sp);
      }
      meta := meta[sp := meta[sp].(invalid := true)];
    }

    /** kvm_mmu_prepare_zap_page: the page and the unsync pages under it are blank, invalid and off the
        active list, the page at its head if a root still refers to it. Returns how many pages left
        the list. */
    method PrepareZap(sp: PageId, init: Path) returns (ret: nat, ghost gone: set<PageId>)
      requires Valid() && sp in active && init.Sized()
      modifies this`pages, this`meta, this`active, this`zapped, this`nUsed, this`indirect, this`track, this`capped
      ensures Valid() && SameLevels(old(pages), pages) && Work(pages) <= Work(old(pages))
      ensures Zapped(old(active), active, old(meta), meta, sp, ret) && (!old(capped) ==> !capped)
      ensures sp in pages && pages[sp].Blank() && pages[sp].bitmap == {}
      ensures old(pages)[sp].level == 1 ==> Unlinked(SetSync(old(pages), sp), pages, sp) && ret == 1 && gone == {}
      ensures ZappedOut(old(Snapshot(pages, meta, active, zapped)), Snapshot(pages, meta, active, zapped), sp, gone)
      ensures gone == Victims(old(pages), sp, true, {}) - {sp}
      decreases pages[sp].level, 2
    {
      hide *;
      ActiveFacts(sp);
      ghost var s0 := Snapshot(pages, meta, active, zapped);
      ValidParts();
      if pages[sp].level == 1 {
        VictimsOfLeaf(pages, sp, true, {});
      } else {
        VictimsOfTable(pages, sp, true, {});
      }
      ret, gone := ZapUnsyncChildren(sp, init);
      ghost var s1 := Snapshot(pages, meta, active, zapped);
      CulledParts(s0, s1, gone, true, {}, Under(s0.pages, sp));
      ShrankAt(old(active), active, old(meta), meta, ret, sp);
      ActiveFacts(sp);
      ghost var g0, meta0, active0, ret0 := pages, meta, active, ret;
      ValidParts();
      ZapGraph(sp);
      SameLevelsTrans(old(pages), g0, pages);
      LinkedUnlinked(g0, pages, meta, zapped, sp);
      ghost var zapped0 := zapped;
      var n := Retire(sp);
      LinkedRetire(pages, meta0, zapped0, sp);
      ValidParts();
      ret := ret + n;
      ZappedIntro(old(active), active0, old(meta), meta0, sp, ret0, n);
      ZappedOutIntro(s0, s1, Snapshot(pages, meta, active, zapped), sp, gone);
    }

    /** The graph part of kvm_mmu_prepare_zap_page once no unsync children are left. */
    method ZapGraph(sp: PageId)
      requires GraphInv(pages) && sp in pages
      modifies this`pages
      ensures GraphInv(pages) && Work(pages) <= Work(old(pages)) && SameLevels(old(pages), pages)
      ensures Unlinked(SetSync(old(pages), sp), pages, sp)
      ensures pages[sp].Blank() && pages[sp].bitmap == old(pages)[sp].bitmap
    {
      hide GraphInv, Work;
      UnlinkChildren(sp);
      ghost var g1 := pages;
      UnlinkParents(sp);
      ghost var g2 := pages;
      UnlinkedTrans(old(pages), g1, g2, sp);
      UnlinkedFacts(old(pages), g2, sp);
      UnlinkedSync(old(pages), g2, sp);
      UnlinkedBlank(g1, g2, sp);
      SetSyncKeeps(g2, sp);
      if pages[sp].unsync {
        pages := SetSync(pages, sp);
      }
    }

    /** mmu_zap_unsync_children: the unsync pages under `parent`, and no others, are zapped. */
    method ZapUnsyncChildren(parent: PageId, init: Path) returns (zaps: nat, ghost gone: set<PageId>)
      requires Valid() && parent in active && init.Sized()
      modifies this`pages, this`meta, this`active, this`zapped, this`nUsed, this`indirect, this`track, this`capped
      ensures Valid() && SameLevels(old(pages), pages) && Work(pages) <= Work(old(pages))
      ensures Shrank(old(active), active, old(meta), meta, zaps) && (!old(capped) ==> !capped)
      ensures parent in pages && pages[parent].bitmap == {}
      ensures old(pages)[parent].level == 1 ==> pages == old(pages) && zaps == 0 && gone == {}
      ensures Culled(old(Snapshot(pages, meta, active, zapped)), Snapshot(pages, meta, active, zapped), gone, true, {}, Under(old(pages), parent))
      ensures old(pages)[parent].level > 1 ==> gone == Victims(old(pages), parent, true, {})
      decreases pages[parent].level, 1
    {
      hide *;
      ActiveFacts(parent);
      ValidParts();
      ShrankSelf(active, meta);
      SameLevelsSelf(pages);
      ghost var s0 := Snapshot(pages, meta, active, zapped);
      CulledStart(s0, true, {}, Under(pages, parent));
      zaps, gone := 0, {};
      if pages[parent].level == 1 {
        LevelOneBits(pages, parent);
        return;
      }
      ghost var m := meta[parent];
      var ret := 1;
      while ret != 0
        invariant Valid() && SameLevels(old(pages), pages) && Work(pages) <= Work(old(pages))
        invariant Shrank(old(active), active, old(meta), meta, zaps) && (!old(capped) ==> !capped)
        invariant Culled(s0, Snapshot(pages, meta, active, zapped), gone, true, {}, Under(s0.pages, parent))
        invariant parent in active && parent in meta && meta[parent] == m
        invariant ret == 0 ==> parent in pages && pages[parent].bitmap == {}
        decreases Work(pages), ret != 0
      {
        ActiveFacts(parent);
        ValidParts();
        ghost var g0, meta0, active0 := pages, meta, active;
        var vec;
        ret, vec := StartWalk(parent, init);
        LinkedCleared(g0, pages, meta, zapped);
        ValidParts();
        SameLevelsTrans(old(pages), g0, pages);
        ghost var s1 := Snapshot(pages, meta, active, zapped);
        CulledThenCleared(s0, s1.(pages := g0), pages, gone, true, {}, Under(s0.pages, parent));
        if ret != 0 {
          ghost var g1 := pages;
          RootedFacts(g1, vec);
          LeavesWereUnder(s0, s1, gone, true, {}, Under(s0.pages, parent), init, vec, parent);
          ghost var more;
          var n;
          n, more := Replay(vec, init, true, {});
          CulledThen(s0, s1, Snapshot(pages, meta, active, zapped), gone, more, true, {}, Under(s0.pages, parent), LeafPages(g1, vec, |vec|));
          gone := gone + more;
          SameLevelsTrans(old(pages), g1, pages);
          ShrankAt(active0, active, meta0, meta, n, parent);
          ShrankTrans(old(active), active0, active, old(meta), meta0, meta, zaps, n);
          zaps := zaps + n;
        }
      }
      ActiveFacts(parent);
      ValidParts();
      CulledAll(s0, Snapshot(pages, meta, active, zapped), gone, true, {}, parent);
    }

    /** The loop over the work vector: each leaf is synced or zapped and its bits are cleared.
        The leaves that fail, and nothing else, leave the active list. */
    method Replay(vec: seq<VecEntry>, init: Path, zapAll: bool, failing: set<PageId>) returns (zaps: nat, ghost gone: set<PageId>)
      requires Valid() && LevelsOk(pages)
      requires init.Sized() && Rooted(pages, vec) && VecOk(pages, init, vec) && LeavesOk(pages, vec)
      modifies this`pages, this`meta, this`active, this`zapped, this`nUsed, this`indirect, this`track, this`capped
      ensures Valid() && SameLevels(old(pages), pages) && Work(pages) <= Work(old(pages))
      ensures HasLeaf(old(pages), vec) ==> Work(pages) < Work(old(pages))
      ensures Shrank(old(active), active, old(meta), meta, zaps) && (!old(capped) ==> !capped)
      ensures Culled(old(Snapshot(pages, meta, active, zapped)), Snapshot(pages, meta, active, zapped), gone, zapAll, failing,
                     LeafPages(old(pages), vec, |vec|))
      decreases 2, 0
    {
      hide *;
      zaps, gone := 0, {};
      RootedFacts(pages, vec);
      ghost var s0, leaves := Snapshot(pages, meta, active, zapped), LeafPages(pages, vec, |vec|);
      CulledStart(s0, zapAll, failing, leaves);
      ghost var g, top := pages, pages[vec[0].sp].level;
      RetiredStart(pages);
      ShrankSelf(active, meta);
      var n, path := PagesFirst(vec, init);
      LeafPagesStep(g, vec, 0, n);
      while n < |vec|
        invariant Valid() && 0 < n <= |vec|
        invariant Retired(g, pages, LeafPages(g, vec, n))
        invariant Culled(s0, Snapshot(pages, meta, active, zapped), gone, zapAll, failing, leaves)
        invariant Shrank(old(active), active, old(meta), meta, zaps) && (!old(capped) ==> !capped)
        invariant Work(pages) <= Work(g) && (LeafPages(g, vec, n) != {} ==> Work(pages) < Work(g))
        invariant n < |vec| ==> IsLeafAt(g, vec, n) && Rooted(g, vec[..n + 1]) && path == PathOf(g, init, vec[..n + 1])
      {
        LeafStillReady(g, pages, init, vec, n);
        LeafFacts(pages, path, vec[n].sp, top);
        ghost var g0, meta0, active0 := pages, meta, active;
        ghost var s1 := Snapshot(pages, meta, active, zapped);
        LeafPagesHas(g, vec, n);
        var r;
        ghost var mid, more;
        r, mid, more := VisitLeaf(vec[n].sp, path, init, zapAll, failing, top);
        CulledThen(s0, s1, Snapshot(pages, meta, active, zapped), gone, more, zapAll, failing, leaves, {vec[n].sp});
        gone := gone + more;
        RetireOne(g, g0, mid, pages, LeafPages(g, vec, n), vec[n].sp);
        ShrankTrans(old(active), active0, active, old(meta), meta0, meta, zaps, r);
        zaps := zaps + r;
        RetiredLevels(g, pages, LeafPages(g, vec, n) + {vec[n].sp});
        LeafKept(g, pages, vec);
        LeafKept(g, pages, vec[..n + 1]);
        PathOfSameLevels(g, pages, init, vec[..n + 1]);
        ghost var n0 := n;
        n, path := PagesNext(vec, path, n, init);
        LeafPagesStep(g, vec, n0, n);
        if n < |vec| {
          LeafStillReady(g, pages, init, vec, n);
          PathOfSameLevels(g, pages, init, vec[..n + 1]);
        }
      }
      LeafPagesAll(g, vec);
      RetiredLevels(g, pages, LeafPages(g, vec, |vec|));
    }

    /** One turn of the loops in mmu_sync_children and mmu_zap_unsync_children. */
    method VisitLeaf(sp: PageId, path: Path, init: Path, zapAll: bool, failing: set<PageId>, ghost top: nat)
      returns (zaps: nat, ghost mid: Graph, ghost gone: set<PageId>)
      requires Valid() && init.Sized() && LeafReady(pages, path, sp, top)
      modifies this`pages, this`meta, this`active, this`zapped, this`nUsed, this`indirect, this`track, this`capped
      ensures Valid() && Work(pages) < Work(old(pages))
      ensures Unlinked(SetSync(old(pages), sp), mid, sp) && OnlyCleared(mid, pages)
      ensures Shrank(old(active), active, old(meta), meta, zaps) && (!old(capped) ==> !capped)
      ensures Culled(old(Snapshot(pages, meta, active, zapped)), Snapshot(pages, meta, active, zapped), gone, zapAll, failing, {sp})
      ensures gone == if zapAll || sp in failing then {sp} else {}
      decreases 1, 4
    {
      hide *;
      ValidParts();
      LeafFacts(pages, path, sp, top);
      ghost var g, s0 := pages, Snapshot(pages, meta, active, zapped);
      if zapAll {
        UnsyncIsActive(sp);
        ActiveFacts(sp);
        zaps, gone := PrepareZap(sp, init);
        ZappedLeaf(old(active), active, old(meta), meta, sp);
        ZappedOutCulls(s0, Snapshot(pages, meta, active, zapped), sp, zapAll, failing);
        gone := {sp};
      } else {
        zaps, gone := SyncLeaf(sp, failing, init);
      }
      mid := pages;
      ValidParts();
      LeafDone(g, mid, path, sp, top);
      ClearParents(path, top);
      CulledThenCleared(s0, Snapshot(mid, meta, active, zapped), pages, gone, zapAll, failing, {sp});
      LinkedCleared(mid, pages, meta, zapped);
      ValidParts();
    }

    /** kvm_sync_page: the page is synced and stays as it is otherwise, or it is zapped if that fails. */
    method SyncPage(sp: PageId, fails: bool, init: Path) returns (zaps: nat)
      requires Valid() && init.Sized() && sp in pages && pages[sp].unsync && pages[sp].level == 1
      modifies this`pages, this`meta, this`active, this`zapped, this`nUsed, this`indirect, this`track, this`capped
      ensures Valid() && Work(pages) <= Work(old(pages))
      ensures Unlinked(SetSync(old(pages), sp), pages, sp)
      ensures Shrank(old(active), active, old(meta), meta, zaps) && (!old(capped) ==> !capped)
      ensures !fails ==> pages == SetSync(old(pages), sp) && meta == old(meta) && active == old(active) && zapped == old(zapped)
      ensures fails ==> ZappedOut(old(Snapshot(pages, meta, active, zapped)), Snapshot(pages, meta, active, zapped), sp, {})
      ensures fails ==> sp in meta && meta[sp].invalid && sp !in active && sp in pages && pages[sp].Blank()
      decreases 1, 3, 0
    {
      hide *;
      zaps := 0;
      ghost var s0 := Snapshot(pages, meta, active, zapped);
      ValidParts();
      UnsyncIsActive(sp);
      ActiveFacts(sp);
      SetSyncKeeps(pages, sp);
      SetSyncFacts(pages, sp);
      UnlinkedSelf(SetSync(pages, sp), sp);
      ShrankSelf(active, meta);
      LinkedSync(pages, meta, zapped, sp);
      pages := SetSync(pages, sp);
      ValidParts();
      if fails {
        ActiveFacts(sp);
        ghost var none;
        zaps, none := PrepareZap(sp, init);
        ZappedLeaf(old(active), active, old(meta), meta, sp);
        ZappedOutSync(s0, Snapshot(pages, meta, active, zapped), sp);
        ZappedOutFacts(s0, Snapshot(pages, meta, active, zapped), sp, {});
      }
    }

    /** kvm_sync_page, for a page that may be among the failing ones. */
    method SyncLeaf(sp: PageId, failing: set<PageId>, init: Path) returns (zaps: nat, ghost gone: set<PageId>)
      requires Valid() && init.Sized() && sp in pages && pages[sp].unsync && pages[sp].level == 1
      modifies this`pages, this`meta, this`active, this`zapped, this`nUsed, this`indirect, this`track, this`capped
      ensures Valid() && Work(pages) <= Work(old(pages))
      ensures Unlinked(SetSync(old(pages), sp), pages, sp)
      ensures Shrank(old(active), active, old(meta), meta, zaps) && (!old(capped) ==> !capped)
      ensures Culled(old(Snapshot(pages, meta, active, zapped)), Snapshot(pages, meta, active, zapped), gone, false, failing, {sp})
      ensures gone == if sp in failing then {sp} else {}
      decreases 1, 3, 1
    {
      hide *;
      ghost var s0 := Snapshot(pages, meta, active, zapped);
      UnsyncIsActive(sp);
      ActiveFacts(sp);
      zaps := SyncPage(sp, sp in failing, init);
      if sp in failing {
        ZappedOutCulls(s0, Snapshot(pages, meta, active, zapped), sp, false, failing);
        gone := {sp};
      } else {
        CulledSync(s0, sp, failing);
        gone := {};
      }
    }

    // ----- Operations under the lock ---------------------------------------------------------------

    /** kvm_mmu_commit_zap_page: frees the pages on the invalid lists, all of which are invalid,
        blank and without roots. */
    method CommitZap()
      requires Valid()
      modifies this`pages, this`meta, this`zapped
      ensures Valid() && zapped == {} && Dangling(active, meta) == Dangling(active, old(meta))
      ensures pages == old(pages) - old(zapped) && meta == old(meta) - old(zapped)
      ensures forall p :: p in active ==> p !in old(zapped)
    {
      hide GraphInv, Ordered, Listed, Counts, Linked, Dangling;
      ZappedFacts();
      FreeKeeps(pages, zapped);
      FreeBooks(active, zapped, meta, validGen, indirect, track, capped);
      LinkedFree(pages, meta, zapped);
      pages := pages - zapped;
      meta := meta - zapped;
      zapped := {};
    }

    lemma ZappedFacts()
      requires Valid()
      ensures forall p :: p in zapped ==> p in pages && pages[p].Blank()
      ensures forall p :: p in zapped ==> p in meta && meta[p].invalid && meta[p].rootCount == 0
    {
    }

    /** mmu_sync_children: terminates; afterwards no page that can be reached from `parent` through
        present entries is unsync. Of the unsync pages under `parent` those that fail are gone, and
        nothing else changed. */
    method SyncChildren(parent: PageId, failing: set<PageId>, init: Path) returns (ghost gone: set<PageId>)
      requires Valid() && parent in active && pages[parent].level >= 2 && init.Sized()
      modifies this`pages, this`meta, this`active, this`zapped, this`nUsed, this`indirect, this`track, this`capped
      ensures Valid() && Dangling(active, meta) <= Dangling(old(active), old(meta)) && (!old(capped) ==> !capped)
      ensures parent in active && parent in pages
      ensures meta.Keys <= old(meta).Keys
      ensures forall path, q :: ReachesBy(pages, parent, path, q) ==> q in pages && !pages[q].unsync
      ensures gone == Victims(old(pages), parent, false, failing)
      ensures Freed(old(Snapshot(pages, meta, active, zapped)), Snapshot(pages, meta, active, zapped), gone)
      ensures forall q :: q in pages ==> q in old(pages) && (pages[q].unsync <==> old(pages)[q].unsync && !Reaches(old(pages), parent, q))
    {
      hide *;
      ActiveFacts(parent);
      ValidParts();
      ghost var s0 := Snapshot(pages, meta, active, zapped);
      CulledStart(s0, false, failing, Under(pages, parent));
      gone := {};
      ShrankSelf(active, meta);
      SameLevelsSelf(pages);
      ghost var zaps, m := 0, meta[parent];
      var ret := 1;
      while ret != 0
        invariant Valid() && Shrank(old(active), active, old(meta), meta, zaps) && (!old(capped) ==> !capped)
        invariant Culled(s0, Snapshot(pages, meta, active, zapped), gone, false, failing, Under(s0.pages, parent))
        invariant zaps >= 0 && parent in active && parent in meta && meta[parent] == m
        invariant ret == 0 ==> parent in pages && pages[parent].bitmap == {}
        decreases Work(pages), ret != 0
      {
        ActiveFacts(parent);
        ValidParts();
        ghost var g0, meta0, active0 := pages, meta, active;
        var vec;
        ret, vec := StartWalk(parent, init);
        LinkedCleared(g0, pages, meta, zapped);
        ValidParts();
        ghost var s1 := Snapshot(pages, meta, active, zapped);
        CulledThenCleared(s0, s1.(pages := g0), pages, gone, false, failing, Under(s0.pages, parent));
        if ret != 0 {
          ghost var g1 := pages;
          RootedFacts(g1, vec);
          LeavesWereUnder(s0, s1, gone, false, failing, Under(s0.pages, parent), init, vec, parent);
          ghost var more;
          var n;
          n, more := Replay(vec, init, false, failing);
          CulledThen(s0, s1, Snapshot(pages, meta, active, zapped), gone, more, false, failing, Under(s0.pages, parent), LeafPages(g1, vec, |vec|));
          gone := gone + more;
          ShrankAt(active0, active, meta0, meta, n, parent);
          ShrankTrans(old(active), active0, active, old(meta), meta0, meta, zaps, n);
          zaps := zaps + n;
        }
      }
      ShrankDangling(old(active), active, old(meta), meta, zaps);
      ShrankBig(old(active), active, old(meta), meta, zaps);
      ActiveFacts(parent);
      ValidParts();
      ghost var s2 := Snapshot(pages, meta, active, zapped);
      CulledAll(s0, s2, gone, false, failing, parent);
      CulledParts(s0, s2, gone, false, failing, Under(s0.pages, parent));
      CommitZap();
      FreedIntro(s0, s2, Snapshot(pages, meta, active, zapped), gone);
      ActiveFacts(parent);
      ValidParts();
      ReachesClean(pages, parent);
      CutKeys(s0.pages, s2.pages, gone);
    }

    /** kvm_unsync_page */
    method UnsyncPage(sp: PageId)
      requires Valid() && sp in active && pages[sp].level == 1
      modifies this`pages
      ensures Valid() && sp in pages && pages[sp].unsync
      ensures OnlyMarked(SetUnsync(old(pages), sp), pages)
    {
      hide *;
      ActiveFacts(sp);
      ValidParts();
      SetUnsyncKeeps(pages, sp);
      LinkedUnsync(pages, meta, zapped, sp);
      UnsyncFacts(pages, sp);
      pages := SetUnsync(pages, sp);
      ghost var g := pages;
      assert {} + {sp} == {sp};
      MarkParentsUnsync(sp, {});
      CoveredAll(pages);
      MarkedFacts(g, pages, sp);
      LinkedMarked(g, pages, meta, zapped);
      ValidParts();
    }

    /** mmu_need_write_protect: a frame that shadows a guest page table may only become writable
        if all its shadow pages are level-one pages that are marked unsync; no other page is. */
    method NeedWriteProtect(gfn: Gfn, canUnsync: bool) returns (protect: bool)
      requires Valid() && NoLevelWarning(gfn, canUnsync)
      modifies this`pages
      ensures Valid()
      ensures protect <==> TrackCount(track, gfn) != 0 || (!canUnsync && exists p :: p in meta && ShadowsGfn(meta[p], gfn, validGen))
      ensures !protect ==> forall p :: p in meta && ShadowsGfn(meta[p], gfn, validGen) ==> p in pages && pages[p].unsync
      ensures protect ==> pages == old(pages)
      ensures !protect ==> MadeUnsync(old(pages), pages, FramePages(meta, gfn, validGen))
    {
      hide *;
      if TrackCount(track, gfn) != 0 {
        return true;
      }
      var todo := set p | p in meta && ShadowsGfn(meta[p], gfn, validGen);
      ghost var frame := FramePages(meta, gfn, validGen);
      FrameIs(meta, gfn, validGen);
      MadeUnsyncNone(pages);
      assert frame - todo == {};
      while todo != {}
        invariant Valid() && todo <= frame && MadeUnsync(old(pages), pages, frame - todo)
        invariant forall p :: p in todo ==> p in meta && ShadowsGfn(meta[p], gfn, validGen)
        invariant forall p :: p in meta && ShadowsGfn(meta[p], gfn, validGen) && p !in todo ==> p in pages && pages[p].unsync
        invariant !canUnsync ==> pages == old(pages)
        invariant !canUnsync ==> forall p :: p in meta && ShadowsGfn(meta[p], gfn, validGen) ==> p in todo
        decreases todo
      {
        var sp :| sp in todo;
        if !canUnsync {
          return true;
        }
        assert frame - (todo - {sp}) == frame - todo + {sp};
        ghost var done := frame - todo;
        todo := todo - {sp};
        ShadowFacts(sp, gfn);
        if !pages[sp].unsync {
          ghost var g := pages;
          UnsyncPage(sp);
          MarkedUnsync(g, pages, sp);
          MadeUnsyncStep(old(pages), g, pages, done, sp);
        } else {
          MadeUnsyncAlready(old(pages), pages, done, sp);
        }
      }
      assert frame - todo == frame;
      return false;
    }

    /** What mmu_need_write_protect warns about does not occur: a shadow page of an untracked frame is
        a last-level one. */
    predicate NoLevelWarning(gfn: Gfn, canUnsync: bool)
      reads this`track, this`meta, this`validGen
    {
      canUnsync && TrackCount(track, gfn) == 0 ==> forall p :: p in meta && ShadowsGfn(meta[p], gfn, validGen) ==> meta[p].level == 1
    }

    /** The warning can only occur after a write-track count has been refused. */
    lemma NeverWarns(gfn: Gfn, canUnsync: bool)
      requires Valid()
      ensures !capped ==> NoLevelWarning(gfn, canUnsync)
    {
      if !capped && TrackCount(track, gfn) == 0 {
        forall p | p in meta && ShadowsGfn(meta[p], gfn, validGen)
          ensures meta[p].level == 1
        {
          UntrackedIsLeaf(meta, indirect, track, gfn, p);
        }
      }
    }

    /** A page found in the hash list for an untracked frame is an active level-one page. */
    lemma ShadowFacts(sp: PageId, gfn: Gfn)
      requires Valid() && NoLevelWarning(gfn, true) && TrackCount(track, gfn) == 0
      requires sp in meta && ShadowsGfn(meta[sp], gfn, validGen)
      ensures sp in active && sp in pages && pages[sp].level == 1
    {
    }

    /** link_shadow_page: installs a table entry and marks it if the child is dirty. */
    method LinkShadowPage(sp: PageId, i: nat, child: PageId)
      requires Valid() && sp in active && child in active && i < ENTRIES
      requires i < |pages[sp].spt| && pages[sp].spt[i] == Absent && pages[child].level + 1 == pages[sp].level
      modifies this`pages
      ensures Valid() && Points(pages, sp, i, child)
      ensures OnlyMarked(AddEdge(old(pages), sp, i, child), pages)
    {
      hide *;
      ActiveFacts(sp);
      ActiveFacts(child);
      ValidParts();
      ghost var g := pages;
      AddEdgeKeeps(pages, sp, i, child);
      LinkedAddEdge(pages, meta, zapped, sp, i, child);
      AddEdgeFacts(pages, sp, i, child);
      MarkedSelf(AddEdge(pages, sp, i, child));
      pages := AddEdge(pages, sp, i, child);
      ghost var g1 := pages;
      if pages[child].unsyncChildren != 0 || pages[child].unsync {
        DirtyFacts(g[child]);
        MarkUnsync(sp, i, {child});
        AddEdgeMarked(g, sp, i, child, pages);
        LinkedMarked(g1, pages, meta, zapped);
      } else {
        DirtyFacts(g[child]);
      }
      MarkedPoints(g1, pages, sp, i, child);
      ValidParts();
    }

    /** mmu_set_spte on an absent entry: a last-level entry, at level one or for a large page above. A bit
        left behind by an earlier child may stay; the next walk clears it. */
    method SetLeaf(sp: PageId, i: nat)
      requires Valid() && sp in active && i < |pages[sp].spt| && pages[sp].spt[i] == Absent
      modifies this`pages
      ensures Valid() && pages == old(pages)[sp := old(pages)[sp].(spt := old(pages)[sp].spt[i := Leaf])]
    {
      hide *;
      ActiveFacts(sp);
      ValidParts();
      SetLeafKeeps(pages, sp, i);
      LinkedLeaf(pages, meta, zapped, sp, i);
      pages := pages[sp := pages[sp].(spt := pages[sp].spt[i := Leaf])];
      ValidParts();
    }

    /** mmu_page_zap_pte as used outside zapping: one entry goes, its bit may stay behind. */
    method DropEntry(sp: PageId, i: nat)
      requires Valid() && sp in active && i < ENTRIES && i < |pages[sp].spt|
      modifies this`pages
      ensures Valid() && sp in pages && i < |pages[sp].spt| && pages[sp].spt[i] == Absent
      ensures pages == DropEntryAt(old(pages), sp, i)
    {
      hide *;
      ActiveFacts(sp);
      ValidParts();
      ghost var g := pages;
      ZapPte(sp, i);
      LinkedDropped(g, pages, meta, zapped, sp);
      ValidParts();
    }

    /** ++root_count on a page that kvm_mmu_get_page returned. */
    method TakeRoot(sp: PageId)
      requires Valid() && sp in active && !meta[sp].invalid && meta[sp].level > 1
      modifies this`meta
      ensures Valid() && meta == old(meta)[sp := old(meta)[sp].(rootCount := old(meta)[sp].rootCount + 1)]
      ensures Dangling(active, meta) <= Dangling(active, old(meta))
    {
      hide GraphInv, Ordered, Listed, Counts, Linked, Dangling;
      ActiveFacts(sp);
      RootBooks(active, zapped, meta, validGen, indirect, track, capped, sp, meta[sp].rootCount + 1);
      LinkedRoot(pages, meta, zapped, sp, meta[sp].rootCount + 1);
      meta := meta[sp := meta[sp].(rootCount := meta[sp].rootCount + 1)];
    }

    /** mmu_free_root_page: the last reference to an invalid page zaps it; otherwise only the count
        changes. */
    method FreeRoot(sp: PageId, init: Path) returns (ghost gone: set<PageId>)
      requires Valid() && sp in active && meta[sp].rootCount > 0 && init.Sized()
      modifies this`pages, this`meta, this`active, this`zapped, this`nUsed, this`indirect, this`track, this`capped
      ensures Valid() && (!old(capped) ==> !capped)
      ensures Dangling(active, meta) <= Dangling(old(active), old(meta)) && meta.Keys <= old(meta).Keys
      ensures sp in active ==> sp in meta && meta[sp].rootCount == old(meta)[sp].rootCount - 1
      ensures old(meta)[sp].rootCount == 1 && old(meta)[sp].invalid ==> sp !in active
      ensures var m := old(meta)[sp := old(meta)[sp].(rootCount := old(meta)[sp].rootCount - 1)];
              if old(meta)[sp].rootCount == 1 && old(meta)[sp].invalid
              then ZappedOut(Snapshot(old(pages), m, old(active), old(zapped)), Snapshot(pages, meta, active, zapped), sp, gone)
                   && gone == Victims(old(pages), sp, true, {}) - {sp}
              else pages == old(pages) && meta == m && active == old(active) && zapped == old(zapped)
    {
      hide *;
      gone := {};
      ActiveFacts(sp);
      var n := meta[sp].rootCount - 1;
      DropRoot(sp);
      ActiveFacts(sp);
      if n == 0 && meta[sp].invalid {
        ghost var meta0, active0 := meta, active;
        var ret;
        ret, gone := PrepareZap(sp, init);
        ZappedGone(active0, active, meta0, meta, sp, ret);
        ZappedKeys(active0, active, meta0, meta, sp, ret);
      }
    }

    method DropRoot(sp: PageId)
      requires Valid() && sp in active && meta[sp].rootCount > 0
      modifies this`meta
      ensures Valid() && meta == old(meta)[sp := old(meta)[sp].(rootCount := old(meta)[sp].rootCount - 1)]
      ensures Dangling(active, meta) <= Dangling(active, old(meta)) + {sp}
      ensures meta[sp].rootCount > 0 || !meta[sp].invalid ==> Dangling(active, meta) <= Dangling(active, old(meta))
    {
      hide GraphInv, Ordered, Listed, Counts, Linked, Dangling;
      ActiveFacts(sp);
      RootBooks(active, zapped, meta, validGen, indirect, track, capped, sp, meta[sp].rootCount - 1);
      LinkedRoot(pages, meta, zapped, sp, meta[sp].rootCount - 1);
      meta := meta[sp := meta[sp].(rootCount := meta[sp].rootCount - 1)];
    }

    /** kvm_sync_pages: no valid indirect page of the frame stays unsync; those that fail are zapped,
        and nothing else changes. */
    method SyncPages(gfn: Gfn, failing: set<PageId>, init: Path) returns (ghost gone: set<PageId>)
      requires Valid() && init.Sized()
      modifies this`pages, this`meta, this`active, this`zapped, this`nUsed, this`indirect, this`track, this`capped
      ensures Valid() && (!old(capped) ==> !capped)
      ensures Dangling(active, meta) <= Dangling(old(active), old(meta))
      ensures forall p :: p in meta && ShadowsGfn(meta[p], gfn, validGen) ==> p in pages && !pages[p].unsync
      ensures forall p :: p in old(active) && p in old(meta) && old(meta)[p].level > 1 ==> p in active && p in meta && meta[p] == old(meta)[p]
      ensures forall p :: p in meta ==> p in old(meta)
      ensures Culled(old(Snapshot(pages, meta, active, zapped)), Snapshot(pages, meta, active, zapped), gone, false, failing,
                     FramePages(old(meta), gfn, validGen))
      ensures gone == Stragglers(old(meta), old(pages), gfn, validGen, failing)
    {
      hide *;
      ShrankSelf(active, meta);
      ghost var zaps := 0;
      SameKeys();
      ghost var s0, frame := Snapshot(pages, meta, active, zapped), FramePages(meta, gfn, validGen);
      FrameIs(meta, gfn, validGen);
      CulledStart(s0, false, failing, frame);
      gone := {};
      var todo := set p | p in meta && ShadowsGfn(meta[p], gfn, validGen);
      while todo != {}
        invariant Valid() && Shrank(old(active), active, old(meta), meta, zaps) && zaps >= 0 && (!old(capped) ==> !capped)
        invariant Culled(s0, Snapshot(pages, meta, active, zapped), gone, false, failing, frame)
        invariant (forall p :: p in todo ==> p in pages) && todo <= frame
        invariant forall p :: p in frame && p !in todo ==> p in pages && !pages[p].unsync
        decreases todo
      {
        var sp :| sp in todo;
        todo := todo - {sp};
        ValidParts();
        if pages[sp].unsync {
          UnsyncLevel(pages, sp);
          ghost var g, meta0, active0 := pages, meta, active;
          ghost var s1 := Snapshot(pages, meta, active, zapped);
          ghost var more;
          var r;
          r, more := SyncLeaf(sp, failing, init);
          CulledThen(s0, s1, Snapshot(pages, meta, active, zapped), gone, more, false, failing, frame, {sp});
          gone := gone + more;
          ShrankTrans(old(active), active0, active, old(meta), meta0, meta, zaps, r);
          UnlinkedUnsync(g, pages, sp);
          zaps := zaps + r;
        }
      }
      ShrankDangling(old(active), active, old(meta), meta, zaps);
      ShrankBig(old(active), active, old(meta), meta, zaps);
      CulledFrame(s0, Snapshot(pages, meta, active, zapped), gone, gfn, validGen, failing);
      FrameShrinks(s0, Snapshot(pages, meta, active, zapped), gone, gfn, validGen, failing);
    }

    /** kvm_mmu_alloc_page, and account_shadowed for indirect pages: a blank page of the current
        generation at the head of the list. */
    method AddPage(p: PageId, gfn: Gfn, level: nat, direct: bool)
      requires Valid() && p !in pages && 1 <= level <= MAX_LEVEL
      modifies this`pages, this`meta, this`active, this`nUsed, this`indirect, this`track, this`capped
      ensures Valid()
      ensures pages == old(pages)[p := NewPage(level)] && active == [p] + old(active)
      ensures meta == old(meta)[p := Meta(gfn, level, direct, false, 0, validGen)]
      ensures capped ==> old(capped) || TrackCount(old(track), gfn) == TRACK_MAX
    {
      hide GraphInv, Ordered, Listed, Counts, Linked, NewPage;
      SameKeys();
      var m := Meta(gfn, level, direct, false, 0, validGen);
      NewPageKeeps(pages, p, level);
      OrderedAdd(active, meta, validGen, p, m);
      ListedAdd(active, zapped, meta, p, m);
      AddCounts(meta, indirect, track, capped, p, m);
      LinkedAdd(pages, meta, zapped, p, m);
      active := [p] + active;
      nUsed := nUsed + 1;
      meta := meta[p := m];
      pages := pages[p := NewPage(level)];
      if !direct {
        indirect := indirect + 1;
        if level > 1 {
          var (t, ok) := UpdateTrack(track, gfn, 1);
          track := t;
          capped := capped || !ok;
        }
      }
    }

    /** kvm_mmu_get_page when no shadow page with the wanted role exists: the new page is at the head
        of the list, and the only old pages that go are unsync pages of the frame that fail to sync,
        if the new page is a table of indirect ones. */
    method GetNewPage(p: PageId, gfn: Gfn, level: nat, direct: bool, failing: set<PageId>, init: Path)
      returns (ghost gone: set<PageId>)
      requires Valid() && p !in pages && 1 <= level <= MAX_LEVEL && init.Sized()
      modifies this`pages, this`meta, this`active, this`zapped, this`nUsed, this`indirect, this`track, this`capped
      ensures Valid() && zapped == {} && Dangling(active, meta) <= Dangling(old(active), old(meta))
      ensures p in active && p in meta && meta[p] == Meta(gfn, level, direct, false, 0, validGen)
      ensures capped ==> old(capped) || TrackCount(old(track), gfn) == TRACK_MAX
      ensures meta.Keys <= old(meta).Keys + {p}
      ensures !direct && level > 1 ==> Synced(meta, pages, gfn, validGen)
      ensures gone == if !direct && level > 1 then Stragglers(old(meta), old(pages), gfn, validGen, failing) else {}
      ensures Freed(Snapshot(old(pages)[p := NewPage(level)], old(meta)[p := Meta(gfn, level, direct, false, 0, validGen)],
                             [p] + old(active), old(zapped)),
                    Snapshot(pages, meta, active, zapped), gone)
    {
      hide *;
      SameKeys();
      gone := {};
      var needSync := NeedsSync(gfn);
      ghost var active0, meta0 := active, meta;
      AddPage(p, gfn, level, direct);
      AddDangling(active0, meta0, p, meta[p]);
      NewPageFacts(level);
      AddSynced(meta0, old(pages), p, meta[p], NewPage(level), gfn, validGen);
      AddStragglers(meta0, old(pages), p, meta[p], NewPage(level), gfn, validGen, failing);
      ghost var s1 := Snapshot(pages, meta, active, zapped);
      CutListsSelf(s1);
      CutGraphSelf(pages);
      if !direct && level > 1 && needSync {
        gone := SyncPages(gfn, failing, init);
        SyncedIntro(meta, pages, gfn, validGen);
        CulledParts(s1, Snapshot(pages, meta, active, zapped), gone, false, failing, FramePages(s1.meta, gfn, validGen));
      } else if !direct && level > 1 {
        NoStragglers(meta0, old(pages), gfn, validGen, failing);
      }
      ghost var meta1, pages1 := meta, pages;
      ghost var s2 := Snapshot(pages, meta, active, zapped);
      SameKeys();
      CommitZap();
      FreedIntro(s1, s2, Snapshot(pages, meta, active, zapped), gone);
      if !direct && level > 1 {
        SyncedSubset(meta1, pages1, meta, pages, gfn, validGen);
      }
    }

    /** The search of kvm_mmu_get_page for an unsync page of the frame. */
    method NeedsSync(gfn: Gfn) returns (b: bool)
      requires Valid()
      ensures !b ==> Synced(meta, pages, gfn, validGen)
    {
      hide GraphInv, Books, Counts;
      b := exists q :: q in meta && meta[q].gfn == gfn && !meta[q].invalid && meta[q].gen == validGen && pages[q].unsync;
    }

    /** prepare_zap_oldest_mmu_page */
    method ZapOldest(init: Path) returns (ret: nat, ghost gone: set<PageId>)
      requires Valid() && init.Sized()
      modifies this`pages, this`meta, this`active, this`zapped, this`nUsed, this`indirect, this`track, this`capped
      ensures Valid() && nUsed == old(nUsed) - ret && (!old(capped) ==> !capped)
      ensures Dangling(active, meta) <= Dangling(old(active), old(meta)) && meta.Keys <= old(meta).Keys
      ensures ret == 0 && old(active) != [] ==>
        var sp := old(active)[|old(active)| - 1];
        active == [sp] + Without(old(active), sp) && sp in meta && meta[sp].invalid && meta[sp].rootCount > 0
      ensures if old(active) == [] then ret == 0 && Snapshot(pages, meta, active, zapped) == old(Snapshot(pages, meta, active, zapped))
              else var sp := old(active)[|old(active)| - 1];
                ZappedOut(old(Snapshot(pages, meta, active, zapped)), Snapshot(pages, meta, active, zapped), sp, gone)
                && gone == Victims(old(pages), sp, true, {}) - {sp}
    {
      hide *;
      gone := {};
      ret := 0;
      UsedIsLength();
      if active == [] {
        return;
      }
      var sp := active[|active| - 1];
      ActiveFacts(sp);
      ghost var active0, meta0 := active, meta;
      ret, gone := PrepareZap(sp, init);
      ZappedDangling(active0, active, meta0, meta, sp, ret);
      ZappedKeys(active0, active, meta0, meta, sp, ret);
      ZappedInUse(active0, active, meta0, meta, sp, ret);
      UsedIsLength();
    }

    lemma ListedOnce()
      requires Valid()
      ensures NoDup(active)
    {
    }

    lemma UsedIsLength()
      requires Valid()
      ensures nUsed == |active|
    {
    }

    /** The shrinking part of kvm_mmu_change_mmu_pages: terminates, and falls short of the goal
        only if the oldest page, last in the list `before` the final attempt, is a root in use; it has
        then been moved to the head. Pages are zapped oldest first, apart from unsync pages, which go
        with a page above them, and only while there are more than the goal; the others stay. */
    method ChangeMmuPages(goal: nat, init: Path) returns (ghost before: seq<PageId>, ghost gone: set<PageId>)
      requires Valid() && init.Sized()
      modifies this`pages, this`meta, this`active, this`zapped, this`nUsed, this`indirect, this`track, this`capped
      ensures Valid() && zapped == {} && Dangling(active, meta) <= Dangling(old(active), old(meta))
      ensures nUsed <= old(nUsed) && meta.Keys <= old(meta).Keys && (!old(capped) ==> !capped)
      ensures nUsed <= goal || (before != [] && HeldRoot(active, meta, before))
      ensures if old(nUsed) <= goal then gone == {} && active == old(active) else |before| > goal
      ensures OldestFirst(old(active), old(pages), gone)
      ensures forall p :: p in old(active) && p !in gone ==> p in active && p in meta && p in old(meta) && meta[p] == old(meta)[p]
      ensures forall p :: p in active && p in gone ==> p in meta && meta[p].invalid && meta[p].rootCount > 0
    {
      hide *;
      SameKeys();
      UsedIsLength();
      before, gone := [], {};
      ghost var s0, roots := Snapshot(pages, meta, active, zapped), [];
      ShrunkSelf(s0);
      ListedOnce();
      var more := true;
      while more && nUsed > goal
        invariant Valid() && Dangling(active, meta) <= Dangling(old(active), old(meta)) && nUsed <= old(nUsed)
        invariant nUsed >= 0 && meta.Keys <= old(meta).Keys && (!old(capped) ==> !capped)
        invariant !more ==> before != [] && HeldRoot(active, meta, before)
        invariant Shrunk(s0, Snapshot(pages, meta, active, zapped), gone, roots)
        invariant if old(nUsed) <= goal then gone == {} && active == old(active) else (before == [] && more && nUsed > goal) || |before| > goal
        invariant forall q :: q in pages && pages[q].unsync ==> q in s0.pages && s0.pages[q].unsync
        decreases nUsed, more
      {
        SameKeys();
        UsedIsLength();
        before := active;
        ghost var s1, out := Snapshot(pages, meta, active, zapped), {};
        ListedOnce();
        var ret;
        ret, out := ZapOldest(init);
        ghost var last := before[|before| - 1];
        VictimsUnsync(s1.pages, last, true, {});
        roots := ShrunkStep(s0, s1, Snapshot(pages, meta, active, zapped), gone, roots, last, out);
        gone := gone + out + {last};
        ZappedOutUnsyncs(s1, Snapshot(pages, meta, active, zapped), last, out);
        UsedIsLength();
        more := ret != 0;
        if !more {
          HeldRootIntro(active, meta, before);
        }
      }
      ghost var active0, meta0, zapped0 := active, meta, zapped;
      ShrunkMembers(s0, Snapshot(pages, meta, active, zapped), gone, roots);
      CommitZap();
      if nUsed > goal {
        HeldRootKept(active, meta0, zapped0, before);
      }
    }

    /** kvm_zap_obsolete_pages: scans from the tail and stops at the first page of the current
        generation; terminates and leaves no valid page of an older generation. Pages of the current
        generation stay, unless they are unsync. */
    method ZapObsoletePages(init: Path)
      requires Valid() && init.Sized()
      modifies this`pages, this`meta, this`active, this`zapped, this`nUsed, this`indirect, this`track, this`capped
      ensures Valid() && zapped == {} && (!old(capped) ==> !capped)
      ensures Dangling(active, meta) <= Dangling(old(active), old(meta)) && meta.Keys <= old(meta).Keys
      ensures forall p :: p in meta ==> meta[p].invalid || meta[p].gen == validGen
      ensures forall p :: p in Current(old(Snapshot(pages, meta, active, zapped)), validGen) ==>
                p in old(meta) && p in active && p in meta && meta[p] == old(meta)[p]
    {
      hide *;
      SameKeys();
      ghost var current := Current(Snapshot(pages, meta, active, zapped), validGen);
      StaysStart(Snapshot(pages, meta, active, zapped), validGen);
      var k := |active| - 1;
      while k >= 0
        invariant Stays(Snapshot(pages, meta, active, zapped), old(meta), current, validGen)
        invariant Valid() && (!old(capped) ==> !capped)
        invariant Dangling(active, meta) <= Dangling(old(active), old(meta)) && meta.Keys <= old(meta).Keys
        invariant -1 <= k < |active| && forall p :: p in active ==> p in meta
        invariant forall j :: k < j < |active| ==> meta[active[j]].invalid
        decreases StaleValid(active, meta, validGen), k + 1
      {
        var sp := active[k];
        if meta[sp].gen == validGen {
          break;
        }
        if meta[sp].invalid {
          k := k - 1;
        } else {
          ActiveFacts(sp);
          ghost var active0, meta0 := active, meta;
          ghost var s1 := Snapshot(pages, meta, active, zapped);
          ghost var gone;
          var ret;
          ret, gone := PrepareZap(sp, init);
          StaysAfter(s1, Snapshot(pages, meta, active, zapped), old(meta), current, validGen, sp, gone);
          SameKeys();
          ZappedDangling(active0, active, meta0, meta, sp, ret);
          ZappedKeys(active0, active, meta0, meta, sp, ret);
          StaleShrinks(active0, active, meta0, meta, validGen, sp, ret);
          if ret != 0 {
            k := |active| - 1;      // restart
          } else {
            // The page is now at the head, so its former predecessor has taken its place.
            MovedToHead(active0, active, meta0, meta, k);
            k := if k == 0 then -1 else k;
          }
        }
      }
      SameKeys();
      NoStaleAhead(active, meta, validGen, k);
      StaysMeans(Snapshot(pages, meta, active, zapped), old(meta), current, validGen);
      CommitZap();
      NoStaleMeans();
    }

    lemma NoStaleMeans()
      requires Valid() && zapped == {}
      requires forall p :: p in active ==> p in meta && (meta[p].invalid || meta[p].gen == validGen)
      ensures forall p :: p in meta ==> meta[p].invalid || meta[p].gen == validGen
    {
    }

    /** The first half of kvm_mmu_invalidate_zap_all_pages. Until the second has run, and whenever it
        drops the lock, valid pages of older generations are about. */
    method BumpGeneration()
      requires Valid()
      modifies this`validGen
      ensures Valid() && validGen == old(validGen) + 1
    {
      hide GraphInv, Listed, Counts, Linked;
      validGen := validGen + 1;
    }

    /** kvm_mmu_invalidate_zap_all_pages: no page that existed before stays valid. */
    method InvalidateAll(init: Path)
      requires Valid() && init.Sized()
      modifies this`pages, this`meta, this`active, this`zapped, this`nUsed, this`indirect, this`track, this`capped, this`validGen
      ensures Valid() && zapped == {} && validGen == old(validGen) + 1
      ensures Dangling(active, meta) <= Dangling(old(active), old(meta)) && meta.Keys <= old(meta).Keys && (!old(capped) ==> !capped)
      ensures forall p :: p in meta ==> meta[p].invalid || meta[p].gen == validGen
    {
      hide *;
      BumpGeneration();
      ZapObsoletePages(init);
    }

    /** Whatever is asked, in whatever order, and whichever pages fail to sync: the graph rules and
        the list order hold, no invalid page lingers without a root, the used and indirect counts are
        exact, and so is every frame's write-track count as long as there can be no more pages than a
        count can hold. */
    method Run(calls: seq<Call>, init: Path)
      requires Valid() && Dangling(active, meta) == {} && init.Sized()
      modifies this
      ensures Valid() && Dangling(active, meta) == {}
      ensures nUsed == |active| && indirect == |IndirectPages(meta)|
      ensures !capped ==> TrackExact(meta, track)
      ensures !old(capped) && |old(meta)| + |calls| <= TRACK_MAX ==> !capped
    {
      hide *;
      for n := 0 to |calls|
        invariant Valid() && Dangling(active, meta) == {}
        invariant |meta| <= |old(meta)| + n
        invariant !old(capped) && |old(meta)| + |calls| <= TRACK_MAX ==> !capped
      {
        CountBounds();
        RunOne(calls[n].op, calls[n].failing, init);
      }
      CountBounds();
      UsedIsLength();
    }

    lemma CountBounds()
      requires Valid()
      ensures indirect == |IndirectPages(meta)| && (!capped ==> TrackExact(meta, track))
      ensures !capped ==> forall gfn :: TrackCount(track, gfn) <= |meta|
    {
      hide GraphInv, Ordered, Listed, Linked, TrackCount, IndirectPages, TrackedPages;
      forall gfn
        ensures |TrackedPages(meta, gfn)| <= |meta|
      {
        TrackedAreFew(meta, gfn);
      }
    }

    /** A count is refused only for a new page of a frame whose count is at its limit. */
    method RunOne(op: Op, failing: set<PageId>, init: Path)
      requires Valid() && init.Sized()
      modifies this
      ensures Valid() && Dangling(active, meta) <= Dangling(old(active), old(meta))
      ensures capped ==> old(capped) || (op.GetPage? && TrackCount(old(track), op.gfn) == TRACK_MAX)
      ensures |meta| <= |old(meta)| + 1
    {
      RunKeys(op, failing, init);
      FewMore(old(meta), meta, if op.GetPage? then op.page else 0);
    }

    /** The dispatch: only a new page adds to the pages there are. */
    method RunKeys(op: Op, failing: set<PageId>, init: Path)
      requires Valid() && init.Sized()
      modifies this
      ensures Valid() && Dangling(active, meta) <= Dangling(old(active), old(meta))
      ensures capped ==> old(capped) || (op.GetPage? && TrackCount(old(track), op.gfn) == TRACK_MAX)
      ensures meta.Keys <= old(meta).Keys + if op.GetPage? then {op.page} else {}
    {
      hide *;
      SameKeys();
      match op
      case GetPage(page, gfn, level, direct) =>
        if page !in pages && 1 <= level <= MAX_LEVEL {
          ghost var _ := GetNewPage(page, gfn, level, direct, failing, init);
        }
      case Link(sp, i, child) =>
        if sp in active && child in active && i < ENTRIES && i < |pages[sp].spt| && pages[sp].spt[i] == Absent
           && pages[child].level + 1 == pages[sp].level
        {
          LinkShadowPage(sp, i, child);
        }
      case Map(sp, i) =>
        if sp in active && i < |pages[sp].spt| && pages[sp].spt[i] == Absent {
          SetLeaf(sp, i);
        }
      case Drop(sp, i) =>
        if sp in active && i < ENTRIES && i < |pages[sp].spt| {
          DropEntry(sp, i);
        }
      case WriteFault(gfn, canUnsync) =>
        if NoLevelWarning(gfn, canUnsync) {
          var _ := NeedWriteProtect(gfn, canUnsync);
        }
      case Take(sp) =>
        if sp in active && !meta[sp].invalid && meta[sp].level > 1 {
          TakeRoot(sp);
        }
      case Release(sp) =>
        if sp in active && meta[sp].rootCount > 0 {
          ghost var _ := FreeRoot(sp, init);
        }
      case Sync(sp) =>
        if sp in active && pages[sp].level >= 2 {
          ghost var _ := SyncChildren(sp, failing, init);
        }
      case Zap(sp) =>
        if sp in active {
          ghost var active0, meta0 := active, meta;
          var ret;
          ghost var gone;
          ret, gone := PrepareZap(sp, init);
          ZappedDangling(active0, active, meta0, meta, sp, ret);
          ZappedKeys(active0, active, meta0, meta, sp, ret);
        }
      case Commit =>
        CommitZap();
      case Shrink(goal) =>
        ghost var _, _ := ChangeMmuPages(goal, init);
      case Bump =>
        BumpGeneration();
      case ZapObsolete =>
        ZapObsoletePages(init);
      case ZapAll =>
        InvalidateAll(init);
    }
  }
}
