/**
 The graph of shadow pages: what a page holds, the shape the graph keeps, and the rule
 that every unsync page can be found from above by following set bits of the
 unsync-child bitmaps.
 */
module ShadowGraph {

  const ENTRIES: nat := 512       // PT64_ENT_PER_PAGE
  const MAX_LEVEL: nat := 5       // PT64_ROOT_MAX_LEVEL

  type PageId = nat

  // The address of a shadow page table entry: the page that holds it and its index.
  type Sptep = (PageId, nat)

  /** A shadow page table entry, as far as the graph is concerned. */
  datatype Spte =
    | Absent
    | Leaf                      // a last-level entry: level one, or a large page above
    | Table(child: PageId)

  /** The fields of `struct kvm_mmu_page` that make up the graph. */
  datatype Page = Page(
    level: nat,
    unsync: bool,
    spt: seq<Spte>,
    bitmap: set<nat>,           // unsync_child_bitmap
    unsyncChildren: int,
    parents: set<Sptep>)        // parent_ptes
  {
    predicate Dirty() {
      unsync || unsyncChildren != 0
    }

    predicate Blank() {
      && !unsync
      && parents == {}
      && forall i :: 0 <= i < |spt| ==> spt[i] == Absent
    }
  }

  type Graph = map<PageId, Page>

  // ----- Shape -------------------------------------------------------------------------

  ghost predicate PageOk(pg: Page) {
    && 1 <= pg.level <= MAX_LEVEL
    && |pg.spt| == ENTRIES
    && (forall i :: i in pg.bitmap ==> i < ENTRIES)
    && (pg.unsync ==> pg.level == 1)
    && (pg.level == 1 ==> pg.bitmap == {})
  }

  ghost predicate LevelsOk(g: Graph) {
    forall p :: p in g ==> 1 <= g[p].level <= MAX_LEVEL
  }

  predicate Points(g: Graph, p: PageId, i: int, c: PageId) {
    p in g && 0 <= i < |g[p].spt| && g[p].spt[i] == Table(c)
  }

  ghost predicate EdgesOk(g: Graph) {
    forall p, i :: p in g && 0 <= i < |g[p].spt| && g[p].spt[i].Table? ==>
      var c := g[p].spt[i].child;
      c in g && g[c].level + 1 == g[p].level && (p, i) in g[c].parents
  }

  ghost predicate ParentsOk(g: Graph) {
    forall c, e :: c in g && e in g[c].parents ==> Points(g, e.0, e.1, c)
  }

  /** Pages form a levelled graph and the parent lists are the reverse of the entries. */
  ghost predicate WellFormed(g: Graph) {
    && (forall p :: p in g ==> PageOk(g[p]))
    && EdgesOk(g)
    && ParentsOk(g)
  }

  // ----- Bitmap rules ------------------------------------------------------------------

  /** `unsync_children` is the number of set bits. */
  ghost predicate Counted(g: Graph) {
    forall p :: p in g ==> g[p].unsyncChildren == |g[p].bitmap|
  }

  /** Entries pointing to a dirty page outside `except` have their bit set. */
  ghost predicate CoveredExcept(g: Graph, except: set<PageId>)
    requires EdgesOk(g)
  {
    forall p, i :: p in g && 0 <= i < |g[p].spt| && g[p].spt[i].Table? ==>
      var c := g[p].spt[i].child;
      c !in except && g[c].Dirty() ==> i in g[p].bitmap
  }

  ghost predicate Covered(g: Graph)
    requires EdgesOk(g)
  {
    CoveredExcept(g, {})
  }

  ghost predicate GraphInv(g: Graph) {
    WellFormed(g) && Counted(g) && Covered(g)
  }

  lemma GraphFacts(g: Graph, p: PageId)
    requires GraphInv(g) && p in g
    ensures LevelsOk(g)
    ensures PageOk(g[p]) && g[p].unsyncChildren == |g[p].bitmap|
    ensures forall i, c :: Points(g, p, i, c) ==> c in g && g[c].level + 1 == g[p].level
  {
  }

  lemma LevelOneBits(g: Graph, p: PageId)
    requires GraphInv(g) && p in g && g[p].level == 1
    ensures g[p].bitmap == {}
  {
  }

  lemma ParentPoints(g: Graph, c: PageId, e: Sptep)
    requires GraphInv(g) && c in g && e in g[c].parents
    ensures Points(g, e.0, e.1, c)
  {
  }

  lemma CoveredBit(g: Graph, p: PageId, i: nat, c: PageId)
    requires GraphInv(g) && Points(g, p, i, c) && c in g && g[c].Dirty()
    ensures i in g[p].bitmap
  {
  }

  // ----- What graph steps leave alone ----------------------------------------------------

  /** Only bitmaps (and their counts) differ. */
  ghost predicate SameShape(g: Graph, g': Graph) {
    && g.Keys == g'.Keys
    && forall p :: p in g ==>
         g'[p] == g[p].(bitmap := g'[p].bitmap, unsyncChildren := g'[p].unsyncChildren)
  }

  ghost predicate OnlyMarked(g: Graph, g': Graph) {
    SameShape(g, g') && forall p :: p in g ==> g[p].bitmap <= g'[p].bitmap
  }

  ghost predicate OnlyCleared(g: Graph, g': Graph) {
    SameShape(g, g') && forall p :: p in g ==> g'[p].bitmap <= g[p].bitmap
  }

  /** Pages above level `l` are exactly as before. */
  ghost predicate SameAbove(g: Graph, g': Graph, l: nat)
    requires g.Keys == g'.Keys
  {
    forall p :: p in g && g[p].level > l ==> g'[p] == g[p]
  }

  ghost predicate SameLevels(g: Graph, g': Graph) {
    && g.Keys == g'.Keys
    && forall p :: p in g ==> g'[p].level == g[p].level
  }

  lemma SameLevelsSelf(g: Graph)
    ensures SameLevels(g, g)
  {
  }

  lemma SameLevelsTrans(g: Graph, g1: Graph, g2: Graph)
    requires SameLevels(g, g1) && SameLevels(g1, g2)
    ensures SameLevels(g, g2)
  {
  }

  // ----- Setting and clearing one bit ------------------------------------------------------

  function SetBit(g: Graph, p: PageId, i: nat): (r: Graph)
    requires p in g
  {
    g[p := g[p].(bitmap := g[p].bitmap + {i}, unsyncChildren := g[p].unsyncChildren + 1)]
  }

  function ClearBit(g: Graph, p: PageId, i: nat): (r: Graph)
    requires p in g
  {
    g[p := g[p].(bitmap := g[p].bitmap - {i}, unsyncChildren := g[p].unsyncChildren - 1)]
  }

  ghost predicate SameLinks(g: Graph, g': Graph) {
    && g.Keys == g'.Keys
    && forall p :: p in g ==> g'[p].level == g[p].level && g'[p].spt == g[p].spt && g'[p].parents == g[p].parents
  }

  lemma SameLinksKeeps(g: Graph, g': Graph)
    requires EdgesOk(g) && ParentsOk(g) && SameLinks(g, g')
    ensures EdgesOk(g') && ParentsOk(g')
  {
  }

  /** Changing a page's bitmap within bounds keeps the shape. */
  lemma BitmapKeepsShape(g: Graph, p: PageId, bitmap: set<nat>, n: int)
    requires WellFormed(g) && p in g && PageOk(g[p].(bitmap := bitmap))
    ensures WellFormed(g[p := g[p].(bitmap := bitmap, unsyncChildren := n)])
  {
    hide EdgesOk, ParentsOk;
    var g' := g[p := g[p].(bitmap := bitmap, unsyncChildren := n)];
    assert SameLinks(g, g');
    SameLinksKeeps(g, g');
    assert forall q :: q in g' ==> q in g && (q == p || g'[q] == g[q]);
  }

  lemma BitmapKeepsCount(g: Graph, p: PageId, bitmap: set<nat>)
    requires Counted(g) && p in g
    ensures Counted(g[p := g[p].(bitmap := bitmap, unsyncChildren := |bitmap|)])
  {
  }

  /** A larger bitmap leaves every entry covered except, if the page was clean, those that point to it. */
  lemma MoreBitsCovered(g: Graph, g': Graph, p: PageId, except: set<PageId>)
    requires EdgesOk(g) && EdgesOk(g') && CoveredExcept(g, except) && p in g && p in g'
    requires g' == g[p := g'[p]] && g'[p].spt == g[p].spt && g'[p].unsync == g[p].unsync && g[p].bitmap <= g'[p].bitmap
    ensures CoveredExcept(g', except + {p})
    ensures g[p].Dirty() ==> CoveredExcept(g', except)
  {
  }

  /** Clearing the bit of an entry without a dirty child leaves every entry covered. */
  lemma OneBitLessCovered(g: Graph, g': Graph, p: PageId, i: nat)
    requires EdgesOk(g) && EdgesOk(g') && Covered(g) && p in g && p in g'
    requires g' == g[p := g'[p]] && g'[p].spt == g[p].spt && g'[p].unsync == g[p].unsync && g'[p].bitmap == g[p].bitmap - {i}
    requires g'[p].Dirty() ==> g[p].Dirty()
    requires i < |g[p].spt| && g[p].spt[i].Table? ==> !g[g[p].spt[i].child].Dirty()
    ensures Covered(g')
  {
  }

  /** Setting a bit keeps everything but the page's own parents covered; and those too if the
      page already had a bit set. */
  lemma SetBitKeeps(g: Graph, p: PageId, i: nat, except: set<PageId>)
    requires WellFormed(g) && Counted(g) && CoveredExcept(g, except)
    requires p in g && i < ENTRIES && i !in g[p].bitmap && g[p].level >= 2
    ensures WellFormed(SetBit(g, p, i)) && Counted(SetBit(g, p, i))
    ensures CoveredExcept(SetBit(g, p, i), except + {p})
    ensures g[p].unsyncChildren != 0 ==> CoveredExcept(SetBit(g, p, i), except)
    ensures OnlyMarked(g, SetBit(g, p, i))
  {
    hide EdgesOk, ParentsOk, CoveredExcept;
    assert PageOk(g[p]);
    BitmapKeepsShape(g, p, g[p].bitmap + {i}, g[p].unsyncChildren + 1);
    BitmapKeepsCount(g, p, g[p].bitmap + {i});
    MoreBitsCovered(g, SetBit(g, p, i), p, except);
  }

  /** Clearing the bit of an entry that needs no bit keeps the graph invariant. */
  lemma ClearBitKeeps(g: Graph, p: PageId, i: nat)
    requires GraphInv(g) && p in g && i in g[p].bitmap
    requires g[p].spt[i].Table? ==> !g[g[p].spt[i].child].Dirty()
    ensures GraphInv(ClearBit(g, p, i))
    ensures OnlyCleared(g, ClearBit(g, p, i))
  {
    hide EdgesOk, ParentsOk, Covered;
    assert PageOk(g[p]);
    BitmapKeepsShape(g, p, g[p].bitmap - {i}, g[p].unsyncChildren - 1);
    BitmapKeepsCount(g, p, g[p].bitmap - {i});
    OneBitLessCovered(g, ClearBit(g, p, i), p, i);
  }

  lemma WellFormedEdges(g: Graph)
    requires WellFormed(g)
    ensures EdgesOk(g)
  {
  }

  lemma ParentEdge(g: Graph, c: PageId, e: Sptep)
    requires WellFormed(g) && c in g && e in g[c].parents
    ensures e.0 in g && e.1 < ENTRIES && g[e.0].level == g[c].level + 1 && 2 <= g[e.0].level <= MAX_LEVEL
  {
    assert Points(g, e.0, e.1, c);
    assert PageOk(g[e.0]) && PageOk(g[c]);
  }

  /** With the bits of all its parents set, a page needs no exception. */
  lemma ParentsMarked(g: Graph, c: PageId, except: set<PageId>)
    requires EdgesOk(g) && CoveredExcept(g, except + {c}) && c in g
    requires forall e :: e in g[c].parents ==> BitAt(g, e)
    ensures CoveredExcept(g, except)
  {
    forall p, i | p in g && 0 <= i < |g[p].spt| && g[p].spt[i].Table?
      ensures var d := g[p].spt[i].child; d !in except && g[d].Dirty() ==> i in g[p].bitmap
    {
      assert g[p].spt[i].child == c ==> BitAt(g, (p, i));
    }
  }

  ghost predicate BitAt(g: Graph, e: Sptep) {
    e.0 in g && e.1 in g[e.0].bitmap
  }

  lemma MarkedMore(g: Graph, g1: Graph, g2: Graph, c: PageId)
    requires OnlyMarked(g, g1) && OnlyMarked(g1, g2) && c in g
    ensures OnlyMarked(g, g2) && c in g1 && c in g2 && g2[c].parents == g1[c].parents && g2[c].level == g1[c].level
    ensures forall q :: q in g2 ==> q in g1 && g2[q].level == g1[q].level
    ensures forall e :: BitAt(g1, e) ==> BitAt(g2, e)
  {
  }

  // ----- Work left: set bits plus unsync pages -----------------------------------------------

  ghost function Weight(pg: Page): nat {
    |pg.bitmap| + if pg.unsync then 1 else 0
  }

  ghost function Work(g: Graph): nat
    decreases |g|
  {
    if g == map[] then 0 else
      var p :| p in g;
      Weight(g[p]) + Work(g - {p})
  }

  lemma {:induction false} WorkRemove(g: Graph, p: PageId)
    requires p in g
    ensures Work(g) == Weight(g[p]) + Work(g - {p})
    decreases |g|
  {
    var q :| q in g && Work(g) == Weight(g[q]) + Work(g - {q});
    if q != p {
      WorkRemove(g - {q}, p);
      WorkRemove(g - {p}, q);
      assert g - {q} - {p} == g - {p} - {q};
    }
  }

  lemma WorkUpdate(g: Graph, p: PageId, pg: Page)
    requires p in g
    ensures Work(g[p := pg]) == Work(g) - Weight(g[p]) + Weight(pg)
  {
    WorkRemove(g, p);
    WorkRemove(g[p := pg], p);
    assert g[p := pg] - {p} == g - {p};
  }

  lemma {:induction false} WorkClearBit(g: Graph, p: PageId, i: nat)
    requires p in g && i in g[p].bitmap
    ensures Work(ClearBit(g, p, i)) == Work(g) - 1
  {
    WorkUpdate(g, p, ClearBit(g, p, i)[p]);
  }

  // ----- Unlinking pages --------------------------------------------------------------------

  /** drop_parent_pte: takes the entry out of the child's parent list and clears it. */
  function DropEdge(g: Graph, p: PageId, i: nat, c: PageId): (r: Graph)
    requires p in g && c in g && i < |g[p].spt|
  {
    var g1 := g[c := g[c].(parents := g[c].parents - {(p, i)})];
    g1[p := g1[p].(spt := g1[p].spt[i := Absent])]
  }

  /** mmu_page_zap_pte: one entry goes, and with it the child's record of it. */
  function DropEntryAt(g: Graph, p: PageId, i: nat): (r: Graph)
    requires p in g && i < |g[p].spt|
  {
    if g[p].spt[i].Table? && g[p].spt[i].child in g then DropEdge(g, p, i, g[p].spt[i].child)
    else g[p := g[p].(spt := g[p].spt[i := Absent])]
  }

  ghost predicate UnlinkedPage(pg: Page, pg': Page, q: PageId, s: PageId) {
    && pg' == pg.(spt := pg'.spt, parents := pg'.parents)
    && |pg'.spt| == |pg.spt|
    && pg'.parents <= pg.parents
    && forall i :: 0 <= i < |pg.spt| ==>
         || pg'.spt[i] == pg.spt[i]
         || (pg'.spt[i] == Absent && (q == s || pg.spt[i] == Table(s)))
  }

  /** Only entries in `s` or pointing to `s` are gone, and parent lists with them. */
  ghost predicate Unlinked(g: Graph, g': Graph, s: PageId) {
    g.Keys == g'.Keys && forall q :: q in g ==> UnlinkedPage(g[q], g'[q], q, s)
  }

  lemma UnlinkedKeeps(g: Graph, g': Graph, s: PageId)
    requires GraphInv(g) && Unlinked(g, g', s) && ParentsOk(g')
    requires forall p: PageId, i: nat, c: PageId :: Points(g', p, i, c) && Points(g, p, i, c) && (p, i) in g[c].parents ==> (p, i) in g'[c].parents
    ensures GraphInv(g')
  {
    hide ParentsOk;
    forall p, i | p in g' && 0 <= i < |g'[p].spt| && g'[p].spt[i].Table?
      ensures var c := g'[p].spt[i].child;
        c in g' && g'[c].level + 1 == g'[p].level && (p, i) in g'[c].parents
    {
      assert g'[p].spt[i] == g[p].spt[i];
      assert Points(g', p, i, g[p].spt[i].child) && Points(g, p, i, g[p].spt[i].child);
    }
  }

  lemma {:induction false} DropEdgeKeeps(g: Graph, p: PageId, i: nat, c: PageId)
    requires GraphInv(g) && Points(g, p, i, c) && c in g
    ensures var g' := DropEdge(g, p, i, c);
      && GraphInv(g') && Work(g') == Work(g) && Unlinked(g, g', p) && Unlinked(g, g', c)
  {
    GraphFacts(g, p);
    DropEdgeParents(g, p, i, c);
    DropEdgeUnlinked(g, p, i, c);
    DropEdgeWork(g, p, i, c);
    hide GraphInv, Unlinked, Work;
    UnlinkedKeeps(g, DropEdge(g, p, i, c), p);
  }

  lemma DropEdgeUnlinked(g: Graph, p: PageId, i: nat, c: PageId)
    requires p in g && c in g && p != c && Points(g, p, i, c)
    ensures var g' := DropEdge(g, p, i, c);
      && Unlinked(g, g', p) && Unlinked(g, g', c)
  {
  }

  lemma {:induction false} DropEdgeWork(g: Graph, p: PageId, i: nat, c: PageId)
    requires p in g && c in g && p != c && i < |g[p].spt|
    ensures Work(DropEdge(g, p, i, c)) == Work(g)
  {
    var g1 := g[c := g[c].(parents := g[c].parents - {(p, i)})];
    WorkUpdate(g, c, g1[c]);
    WorkUpdate(g1, p, DropEdge(g, p, i, c)[p]);
  }

  lemma DropEdgeParents(g: Graph, p: PageId, i: nat, c: PageId)
    requires EdgesOk(g) && ParentsOk(g) && Points(g, p, i, c) && c in g
    ensures ParentsOk(DropEdge(g, p, i, c))
  {
    var g' := DropEdge(g, p, i, c);
    forall d, e | d in g' && e in g'[d].parents ensures Points(g', e.0, e.1, d) {
      assert Points(g, e.0, e.1, d);
    }
  }

  /** Clearing a last-level entry. */
  lemma DropLeafKeeps(g: Graph, p: PageId, i: nat)
    requires GraphInv(g) && p in g && i < |g[p].spt| && !g[p].spt[i].Table?
    ensures var g' := g[p := g[p].(spt := g[p].spt[i := Absent])];
      && GraphInv(g') && Work(g') == Work(g) && Unlinked(g, g', p)
  {
    hide Counted, Covered, CoveredExcept;
    var g' := g[p := g[p].(spt := g[p].spt[i := Absent])];
    WorkUpdate(g, p, g'[p]);
    forall d, e | d in g' && e in g'[d].parents ensures Points(g', e.0, e.1, d) {
      assert Points(g, e.0, e.1, d);
    }
    UnlinkedKeeps(g, g', p);
  }

  /** Installing a last-level entry where there was none. */
  lemma SetLeafKeeps(g: Graph, p: PageId, i: nat)
    requires GraphInv(g) && p in g && i < |g[p].spt| && g[p].spt[i] == Absent
    ensures GraphInv(g[p := g[p].(spt := g[p].spt[i := Leaf])])
  {
    var g' := g[p := g[p].(spt := g[p].spt[i := Leaf])];
    forall d, e | d in g' && e in g'[d].parents
      ensures Points(g', e.0, e.1, d)
    {
      assert Points(g, e.0, e.1, d);
    }
    forall q, k | q in g' && 0 <= k < |g'[q].spt| && g'[q].spt[k].Table?
      ensures q in g && k < |g[q].spt| && g[q].spt[k] == g'[q].spt[k]
    {
    }
  }

  lemma UnlinkedSelf(g: Graph, s: PageId)
    ensures Unlinked(g, g, s)
  {
  }

  lemma UnlinkedUnsync(g: Graph, g': Graph, s: PageId)
    requires s in g && Unlinked(SetSync(g, s), g', s)
    ensures g.Keys == g'.Keys && !g'[s].unsync
    ensures forall q :: q in g && !g[q].unsync ==> !g'[q].unsync
  {
    forall q | q in g ensures UnlinkedPage(SetSync(g, s)[q], g'[q], q, s) {
    }
  }

  lemma UnsyncLevel(g: Graph, p: PageId)
    requires GraphInv(g) && p in g && g[p].unsync
    ensures g[p].level == 1
  {
  }

  lemma UnlinkedTrans(g: Graph, g1: Graph, g2: Graph, s: PageId)
    requires Unlinked(g, g1, s) && Unlinked(g1, g2, s)
    ensures Unlinked(g, g2, s)
  {
  }

  /** kvm_unlink_unsync_page */
  function SetSync(g: Graph, s: PageId): (r: Graph)
    requires s in g
  {
    g[s := g[s].(unsync := false)]
  }

  lemma {:induction false} SetSyncKeeps(g: Graph, s: PageId)
    requires GraphInv(g) && s in g
    ensures GraphInv(SetSync(g, s))
    ensures Work(SetSync(g, s)) == Work(g) - if g[s].unsync then 1 else 0
  {
    WorkUpdate(g, s, g[s].(unsync := false));
    SameLinksKeeps(g, SetSync(g, s));
  }

  lemma SetSyncFacts(g: Graph, s: PageId)
    requires s in g
    ensures s in SetSync(g, s) && SetSync(g, s)[s].level == g[s].level
    ensures SetSync(SetSync(g, s), s) == SetSync(g, s)
  {
  }

  lemma UnlinkedSync(g: Graph, g1: Graph, s: PageId)
    requires Unlinked(g, g1, s) && s in g
    ensures Unlinked(SetSync(g, s), SetSync(g1, s), s)
    ensures !g1[s].unsync ==> SetSync(g1, s) == g1
  {
    forall q | q in g ensures UnlinkedPage(SetSync(g, s)[q], SetSync(g1, s)[q], q, s) {
      assert UnlinkedPage(g[q], g1[q], q, s);
    }
  }

  /** Unlinking and syncing keep levels, and blank pages stay blank. */
  lemma UnlinkedFacts(g: Graph, g': Graph, s: PageId)
    requires Unlinked(g, g', s) && s in g
    ensures SameLevels(g, g') && SameLevels(g, SetSync(g', s))
    ensures g.Keys == g'.Keys && g'[s].bitmap == g[s].bitmap && |g'[s].spt| == |g[s].spt|
    ensures forall q :: q in g && g[q].Blank() ==> g'[q].Blank() && SetSync(g', s)[q].Blank()
  {
    forall q | q in g ensures UnlinkedPage(g[q], g'[q], q, s) {
    }
  }

  lemma UnlinkedBlank(g: Graph, g': Graph, s: PageId)
    requires Unlinked(g, g', s) && s in g
    requires forall i :: 0 <= i < |g[s].spt| ==> g[s].spt[i] == Absent
    ensures forall i :: 0 <= i < |g'[s].spt| ==> g'[s].spt[i] == Absent
  {
    assert UnlinkedPage(g[s], g'[s], s, s);
  }

  ghost predicate RetiredPage(pg: Page, pg': Page, q: PageId, done: set<PageId>) {
    && pg'.level == pg.level
    && pg'.unsync == (pg.unsync && q !in done)
    && pg'.bitmap <= pg.bitmap
    && |pg'.spt| == |pg.spt|
    && forall i :: 0 <= i < |pg.spt| ==>
         || pg'.spt[i] == pg.spt[i]
         || (pg'.spt[i] == Absent && (q in done || (pg.spt[i].Table? && pg.spt[i].child in done)))
  }

  /** The leaves in `done` are no longer unsync, some have been unlinked, and bits were cleared. */
  ghost predicate Retired(g: Graph, g': Graph, done: set<PageId>) {
    g.Keys == g'.Keys && forall q :: q in g ==> RetiredPage(g[q], g'[q], q, done)
  }

  lemma RetireOne(g: Graph, g0: Graph, g1: Graph, g2: Graph, done: set<PageId>, s: PageId)
    requires Retired(g, g0, done) && s in g0
    requires Unlinked(SetSync(g0, s), g1, s) && OnlyCleared(g1, g2)
    ensures Retired(g, g2, done + {s})
  {
    forall q | q in g ensures RetiredPage(g[q], g2[q], q, done + {s}) {
      assert RetiredPage(g[q], g0[q], q, done);
      assert UnlinkedPage(SetSync(g0, s)[q], g1[q], q, s);
    }
  }

  lemma RetiredStart(g: Graph)
    ensures Retired(g, g, {})
  {
  }

  lemma RetiredLevels(g: Graph, g': Graph, done: set<PageId>)
    requires Retired(g, g', done)
    ensures SameLevels(g, g')
  {
    forall q | q in g ensures g'[q].level == g[q].level {
      assert RetiredPage(g[q], g'[q], q, done);
    }
  }

  // ----- Marking, linking and freeing whole pages ------------------------------------------------

  function SetUnsync(g: Graph, s: PageId): (r: Graph)
    requires s in g
  {
    g[s := g[s].(unsync := true)]
  }

  lemma SetUnsyncKeeps(g: Graph, s: PageId)
    requires GraphInv(g) && s in g && g[s].level == 1
    ensures var g' := SetUnsync(g, s);
      WellFormed(g') && Counted(g') && CoveredExcept(g', {s})
  {
    SameLinksKeeps(g, SetUnsync(g, s));
  }

  lemma UnsyncFacts(g: Graph, s: PageId)
    requires s in g
    ensures s in SetUnsync(g, s) && SetUnsync(g, s)[s].unsync && SetUnsync(g, s)[s].level == g[s].level
  {
  }

  lemma CoveredAll(g: Graph)
    requires WellFormed(g) && Counted(g) && CoveredExcept(g, {})
    ensures GraphInv(g)
  {
  }

  /** The pages in `s` are unsync now; apart from that, bits of the unsync-child bitmaps were set. */
  ghost predicate MadeUnsync(g: Graph, g': Graph, s: set<PageId>) {
    && g.Keys == g'.Keys
    && forall q :: q in g ==>
         && g'[q] == g[q].(unsync := g[q].unsync || q in s, bitmap := g'[q].bitmap, unsyncChildren := g'[q].unsyncChildren)
         && g[q].bitmap <= g'[q].bitmap
  }

  lemma MadeUnsyncNone(g: Graph)
    ensures MadeUnsync(g, g, {})
  {
  }

  lemma MadeUnsyncStep(g: Graph, g1: Graph, g2: Graph, s: set<PageId>, p: PageId)
    requires MadeUnsync(g, g1, s) && p in g1 && OnlyMarked(SetUnsync(g1, p), g2)
    ensures MadeUnsync(g, g2, s + {p})
  {
  }

  /** A page that is unsync already needs no step. */
  lemma MadeUnsyncAlready(g: Graph, g1: Graph, s: set<PageId>, p: PageId)
    requires MadeUnsync(g, g1, s) && p in g1 && g1[p].unsync
    ensures MadeUnsync(g, g1, s + {p})
  {
  }

  lemma MarkedFacts(g: Graph, g': Graph, s: PageId)
    requires OnlyMarked(g, g') && s in g
    ensures s in g' && g'[s].unsync == g[s].unsync && g'[s].level == g[s].level
  {
  }

  lemma MarkedUnsync(g: Graph, g': Graph, s: PageId)
    requires s in g && OnlyMarked(SetUnsync(g, s), g')
    ensures s in g' && g'[s].unsync && forall q :: q in g && g[q].unsync ==> q in g' && g'[q].unsync
  {
  }

  /** The graph part of link_shadow_page, before the new entry is marked. */
  function AddEdge(g: Graph, p: PageId, i: nat, c: PageId): (r: Graph)
    requires p in g && c in g && i < |g[p].spt|
  {
    var g1 := g[c := g[c].(parents := g[c].parents + {(p, i)})];
    g1[p := g1[p].(spt := g1[p].spt[i := Table(c)])]
  }

  lemma AddEdgeKeeps(g: Graph, p: PageId, i: nat, c: PageId)
    requires GraphInv(g) && p in g && c in g && i < ENTRIES && g[p].spt[i] == Absent
    requires g[c].level + 1 == g[p].level
    ensures var g' := AddEdge(g, p, i, c);
      && WellFormed(g') && Counted(g') && CoveredExcept(g', {c})
      && (!g[c].Dirty() ==> GraphInv(g'))
  {
    AddEdgeLinks(g, p, i, c);
    hide EdgesOk, ParentsOk;
    var g' := AddEdge(g, p, i, c);
    forall q, j | q in g' && 0 <= j < |g'[q].spt| && g'[q].spt[j].Table? && g'[q].spt[j].child != c
      ensures g'[q].spt[j] == g[q].spt[j]
    {
    }
  }

  lemma AddEdgeLinks(g: Graph, p: PageId, i: nat, c: PageId)
    requires EdgesOk(g) && ParentsOk(g) && p in g && c in g && i < |g[p].spt| && g[p].spt[i] == Absent
    requires g[c].level + 1 == g[p].level
    ensures EdgesOk(AddEdge(g, p, i, c)) && ParentsOk(AddEdge(g, p, i, c))
  {
    var g' := AddEdge(g, p, i, c);
    forall d, e | d in g' && e in g'[d].parents ensures Points(g', e.0, e.1, d) {
      if (d, e) != (c, (p, i)) {
        assert Points(g, e.0, e.1, d);
      }
    }
  }

  /** Marking the new entry covers it; the child's other parents were covered before. */
  lemma AddEdgeMarked(g: Graph, p: PageId, i: nat, c: PageId, g': Graph)
    requires GraphInv(g) && p in g && c in g && i < ENTRIES && g[p].spt[i] == Absent && g[c].level + 1 == g[p].level
    requires g[c].Dirty() && OnlyMarked(AddEdge(g, p, i, c), g') && i in g'[p].bitmap
    requires WellFormed(g') && Counted(g') && CoveredExcept(g', {c})
    ensures GraphInv(g')
  {
    var g1 := AddEdge(g, p, i, c);
    hide ParentsOk, Counted;
    forall q, j | q in g' && 0 <= j < |g'[q].spt| && g'[q].spt[j].Table? && g'[g'[q].spt[j].child].Dirty()
      ensures j in g'[q].bitmap
    {
      if g'[q].spt[j].child == c && (q, j) != (p, i) {
        assert g1[q].spt[j] == Table(c) && g[q].spt[j] == Table(c);
      }
    }
  }

  lemma AddEdgeFacts(g: Graph, p: PageId, i: nat, c: PageId)
    requires p in g && c in g && i < |g[p].spt| && p != c
    ensures var g' := AddEdge(g, p, i, c);
      && p in g' && c in g' && Points(g', p, i, c) && g'[p].level == g[p].level
      && g'[c].unsync == g[c].unsync && g'[c].unsyncChildren == g[c].unsyncChildren && g'[c].level == g[c].level
  {
  }

  lemma DirtyFacts(pg: Page)
    ensures pg.Dirty() <==> pg.unsync || pg.unsyncChildren != 0
  {
  }

  lemma MarkedSelf(g: Graph)
    ensures OnlyMarked(g, g)
  {
  }

  lemma MarkedPoints(g: Graph, g': Graph, p: PageId, i: nat, c: PageId)
    requires OnlyMarked(g, g') && Points(g, p, i, c)
    ensures Points(g', p, i, c)
  {
  }

  /** kvm_mmu_free_page: pages nothing points to and that point to nothing can go. */
  lemma FreeKeeps(g: Graph, gone: set<PageId>)
    requires GraphInv(g) && forall p :: p in gone ==> p in g && g[p].Blank()
    ensures GraphInv(g - gone)
  {
    var g' := g - gone;
    forall p, i | p in g' && 0 <= i < |g'[p].spt| && g'[p].spt[i].Table? ensures g'[p].spt[i].child in g' {
      assert (p, i) in g[g[p].spt[i].child].parents;
    }
    forall c, e | c in g' && e in g'[c].parents ensures Points(g', e.0, e.1, c) {
      assert Points(g, e.0, e.1, c);
    }
  }

  function NewPage(level: nat): (pg: Page) {
    Page(level, false, seq(ENTRIES, _ => Absent), {}, 0, {})
  }

  lemma NewPageFacts(level: nat)
    ensures !NewPage(level).unsync && NewPage(level).Blank()
  {
  }

  lemma NewPageKeeps(g: Graph, p: PageId, level: nat)
    requires GraphInv(g) && p !in g && 1 <= level <= MAX_LEVEL
    ensures GraphInv(g[p := NewPage(level)])
  {
    var g' := g[p := NewPage(level)];
    forall c, e | c in g' && e in g'[c].parents ensures Points(g', e.0, e.1, c) {
      assert Points(g, e.0, e.1, c);
    }
  }

  // ----- Reachability ------------------------------------------------------------------------

  /** `path` is a chain of entry indices leading from `p` to `q` through present tables. */
  ghost predicate ReachesBy(g: Graph, p: PageId, path: seq<nat>, q: PageId)
    decreases |path|
  {
    if path == [] then p == q
    else exists c :: Points(g, p, path[0], c) && ReachesBy(g, c, path[1..], q)
  }

  /** A page whose bitmap is empty and that is not itself unsync reaches no unsync page. */
  lemma {:induction false} CleanReachesClean(g: Graph, p: PageId, path: seq<nat>, q: PageId)
    requires GraphInv(g) && p in g && !g[p].Dirty()
    requires ReachesBy(g, p, path, q)
    ensures q in g && !g[q].unsync
    decreases |path|
  {
    if path != [] {
      var c :| Points(g, p, path[0], c) && ReachesBy(g, c, path[1..], q);
      CleanReachesClean(g, c, path[1..], q);
    }
  }

  lemma {:induction false} ReachesClean(g: Graph, p: PageId)
    requires GraphInv(g) && p in g && g[p].level >= 2 && g[p].bitmap == {}
    ensures forall path, q :: ReachesBy(g, p, path, q) ==> q in g && !g[q].unsync
  {
    forall path, q | ReachesBy(g, p, path, q) ensures q in g && !g[q].unsync {
      CleanReachesClean(g, p, path, q);
    }
  }
}
