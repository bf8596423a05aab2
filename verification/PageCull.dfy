/**
 Which shadow pages go when pages are synced or zapped, and what stays of the others: the
 active list loses exactly those pages and keeps its order, and entries that pointed to them
 are empty.
 */
module PageCull {
  import opened Arith
  import opened ShadowGraph
  import opened PageVec
  import opened PageAccounting

  /** The shadow pages, their books, the active list and the pages waiting to be freed. */
  datatype Snapshot = Snapshot(pages: Graph, meta: Metas, active: seq<PageId>, zapped: set<PageId>)

  // ----- Lists -----------------------------------------------------------------------------

  /** The list without the pages in `gone`. */
  function Except(s: seq<PageId>, gone: set<PageId>): seq<PageId> {
    if s == [] then [] else (if s[0] in gone then [] else [s[0]]) + Except(s[1..], gone)
  }

  lemma {:induction false} ExceptMembers(s: seq<PageId>, gone: set<PageId>)
    ensures forall q :: q in Except(s, gone) <==> q in s && q !in gone
  {
    if s != [] {
      ExceptMembers(s[1..], gone);
    }
  }

  lemma {:induction false} ExceptNone(s: seq<PageId>, gone: set<PageId>)
    requires forall q :: q in s ==> q !in gone
    ensures Except(s, gone) == s
  {
    if s != [] {
      ExceptNone(s[1..], gone);
    }
  }

  lemma {:induction false} ExceptTwice(s: seq<PageId>, a: set<PageId>, b: set<PageId>)
    ensures Except(Except(s, a), b) == Except(s, a + b)
  {
    if s != [] {
      ExceptTwice(s[1..], a, b);
      var t := Except(s[1..], a);
      assert [] + t == t && ([s[0]] + t)[1..] == t;
    }
  }

  lemma {:induction false} ExceptOne(s: seq<PageId>, p: PageId)
    requires NoDup(s) && p in s
    ensures Except(s, {p}) == Without(s, p)
  {
    var t := s[1..];
    assert NoDup(t) by {
      assert forall i :: 0 <= i < |t| ==> t[i] == s[i + 1];
    }
    if s[0] == p {
      assert p !in t by {
        assert forall i :: 0 <= i < |t| ==> t[i] == s[i + 1];
      }
      ExceptNone(t, {p});
    } else {
      ExceptOne(t, p);
      var k := IndexOf(t, p);
      assert IndexOf(s, p) == k + 1;
      assert [s[0]] + (t[..k] + t[k + 1..]) == s[..k + 1] + s[k + 2..];
    }
  }

  // ----- Books -------------------------------------------------------------------------------

  /** The pages in `gone` become invalid. */
  function Doomed(meta: Metas, gone: set<PageId>): Metas {
    map p | p in meta :: if p in gone then meta[p].(invalid := true) else meta[p]
  }

  /** The pages in `gone` left the list for the invalid list; nothing else changed. */
  ghost predicate CutLists(s: Snapshot, s': Snapshot, gone: set<PageId>) {
    && (forall p :: p in gone ==> p in s.active)
    && s'.active == Except(s.active, gone)
    && s'.meta == Doomed(s.meta, gone)
    && s'.zapped == s.zapped + gone
  }

  lemma {:induction false} CutListsSelf(s: Snapshot)
    ensures CutLists(s, s, {})
  {
    ExceptNone(s.active, {});
  }

  lemma {:induction false} CutListsTrans(s: Snapshot, s1: Snapshot, s2: Snapshot, a: set<PageId>, b: set<PageId>)
    requires CutLists(s, s1, a) && CutLists(s1, s2, b)
    ensures CutLists(s, s2, a + b)
  {
    hide Except;
    ExceptTwice(s.active, a, b);
    ExceptMembers(s.active, a);
  }

  // ----- Graph -------------------------------------------------------------------------------

  ghost predicate CutPage(pg: Page, pg': Page, q: PageId, cut: set<PageId>) {
    && pg'.level == pg.level && (pg'.unsync ==> pg.unsync)
    && pg'.bitmap <= pg.bitmap && pg'.parents <= pg.parents
    && (q in cut ==> pg'.Blank())
    && |pg'.spt| == |pg.spt|
    && forall i :: 0 <= i < |pg.spt| ==>
         pg'.spt[i] == if q in cut || (pg.spt[i].Table? && pg.spt[i].child in cut) then Absent else pg.spt[i]
  }

  /** The pages in `cut` are blank, entries that pointed to them are empty, and every other entry of
      every other page is as before. */
  ghost predicate CutGraph(g: Graph, g': Graph, cut: set<PageId>) {
    g.Keys == g'.Keys && forall q :: q in g ==> CutPage(g[q], g'[q], q, cut)
  }

  lemma CutPageTrans(pg: Page, pg1: Page, pg2: Page, q: PageId, a: set<PageId>, b: set<PageId>)
    requires CutPage(pg, pg1, q, a) && CutPage(pg1, pg2, q, b)
    ensures CutPage(pg, pg2, q, a + b)
  {
  }

  lemma {:induction false} CutGraphTrans(g: Graph, g1: Graph, g2: Graph, a: set<PageId>, b: set<PageId>)
    requires CutGraph(g, g1, a) && CutGraph(g1, g2, b)
    ensures CutGraph(g, g2, a + b)
  {
    hide CutPage;
    forall q | q in g
      ensures CutPage(g[q], g2[q], q, a + b)
    {
      CutPageTrans(g[q], g1[q], g2[q], q, a, b);
    }
  }

  lemma CutGraphSelf(g: Graph)
    ensures CutGraph(g, g, {})
  {
  }

  lemma CutGraphCleared(g: Graph, g': Graph)
    requires OnlyCleared(g, g')
    ensures CutGraph(g, g', {})
  {
  }

  lemma CutGraphSync(g: Graph, s: PageId)
    requires s in g
    ensures CutGraph(g, SetSync(g, s), {})
  {
  }

  /** A page that is unlinked until it is blank is cut out. */
  lemma {:induction false} CutGraphUnlinked(g: Graph, g': Graph, s: PageId)
    requires s in g && Unlinked(SetSync(g, s), g', s) && GraphInv(g') && g'[s].Blank()
    ensures CutGraph(g, g', {s})
  {
    forall q | q in g
      ensures CutPage(g[q], g'[q], q, {s})
    {
      assert UnlinkedPage(SetSync(g, s)[q], g'[q], q, s);
      forall i | 0 <= i < |g[q].spt|
        ensures g'[q].spt[i] == if q == s || (g[q].spt[i].Table? && g[q].spt[i].child == s) then Absent else g[q].spt[i]
      {
        assert g'[q].spt[i] != Table(s);
      }
    }
  }

  // ----- Which pages are touched -----------------------------------------------------------------

  /** Only unsync pages of `scope` are synced, and those that fail, and no others, go. */
  ghost predicate Picked(g: Graph, g': Graph, gone: set<PageId>, all: bool, failing: set<PageId>, scope: set<PageId>) {
    && (forall q :: q in gone ==> q in g && g[q].unsync && q in scope && (all || q in failing))
    && (forall q :: q in g && q in g' && g'[q].unsync != g[q].unsync ==>
          g[q].unsync && q in scope && (q in gone <==> all || q in failing))
  }

  lemma {:induction false} PickedTrans(g: Graph, g1: Graph, g2: Graph, a: set<PageId>, b: set<PageId>,
                                       all: bool, failing: set<PageId>, sa: set<PageId>, sb: set<PageId>)
    requires Picked(g, g1, a, all, failing, sa) && Picked(g1, g2, b, all, failing, sb)
    requires CutGraph(g, g1, a) && CutGraph(g1, g2, b)
    ensures Picked(g, g2, a + b, all, failing, sa + sb)
  {
    forall q | q in g
      ensures g1[q].unsync ==> g[q].unsync
      ensures q in a ==> !g1[q].unsync
    {
      assert CutPage(g[q], g1[q], q, a);
    }
  }

  /** What a sync of the pages in `scope` has done so far: the pages in `gone` are out. */
  ghost predicate Culled(s: Snapshot, s': Snapshot, gone: set<PageId>, all: bool, failing: set<PageId>, scope: set<PageId>) {
    && CutLists(s, s', gone)
    && CutGraph(s.pages, s'.pages, gone)
    && Picked(s.pages, s'.pages, gone, all, failing, scope)
  }

  lemma {:induction false} CulledSelf(s: Snapshot, all: bool, failing: set<PageId>)
    ensures Culled(s, s, {}, all, failing, {})
  {
    hide CutLists;
    CutListsSelf(s);
  }

  lemma {:induction false} CulledTrans(s: Snapshot, s1: Snapshot, s2: Snapshot, a: set<PageId>, b: set<PageId>,
                                       all: bool, failing: set<PageId>, sa: set<PageId>, sb: set<PageId>)
    requires Culled(s, s1, a, all, failing, sa) && Culled(s1, s2, b, all, failing, sb)
    ensures Culled(s, s2, a + b, all, failing, sa + sb)
  {
    hide CutLists, CutGraph, Picked;
    CutListsTrans(s, s1, s2, a, b);
    CutGraphTrans(s.pages, s1.pages, s2.pages, a, b);
    PickedTrans(s.pages, s1.pages, s2.pages, a, b, all, failing, sa, sb);
  }

  lemma {:induction false} CulledStart(s: Snapshot, all: bool, failing: set<PageId>, scope: set<PageId>)
    ensures Culled(s, s, {}, all, failing, scope)
  {
    hide Culled;
    CulledSelf(s, all, failing);
    CulledWiden(s, s, {}, all, failing, {}, scope);
  }

  lemma {:induction false} CulledThen(s: Snapshot, s1: Snapshot, s2: Snapshot, a: set<PageId>, b: set<PageId>,
                                      all: bool, failing: set<PageId>, scope: set<PageId>, sb: set<PageId>)
    requires Culled(s, s1, a, all, failing, scope) && Culled(s1, s2, b, all, failing, sb) && sb <= scope
    ensures Culled(s, s2, a + b, all, failing, scope)
  {
    hide Culled;
    CulledTrans(s, s1, s2, a, b, all, failing, scope, sb);
    assert scope + sb == scope;
  }

  lemma {:induction false} CulledThenCleared(s: Snapshot, s1: Snapshot, g: Graph, a: set<PageId>,
                                             all: bool, failing: set<PageId>, scope: set<PageId>)
    requires Culled(s, s1, a, all, failing, scope) && OnlyCleared(s1.pages, g)
    ensures Culled(s, s1.(pages := g), a, all, failing, scope)
  {
    hide Culled;
    CulledCleared(s1, g, all, failing);
    CulledThen(s, s1, s1.(pages := g), a, {}, all, failing, scope, {});
    assert a + {} == a;
  }

  lemma CulledParts(s: Snapshot, s': Snapshot, gone: set<PageId>, all: bool, failing: set<PageId>, scope: set<PageId>)
    requires Culled(s, s', gone, all, failing, scope)
    ensures CutLists(s, s', gone) && CutGraph(s.pages, s'.pages, gone) && Picked(s.pages, s'.pages, gone, all, failing, scope)
  {
  }

  lemma CulledWiden(s: Snapshot, s': Snapshot, gone: set<PageId>, all: bool, failing: set<PageId>, a: set<PageId>, b: set<PageId>)
    requires Culled(s, s', gone, all, failing, a) && a <= b
    ensures Culled(s, s', gone, all, failing, b)
  {
    hide CutLists, CutGraph;
  }

  /** Clearing bits of the unsync-child bitmaps is no change. */
  lemma {:induction false} CulledCleared(s: Snapshot, g: Graph, all: bool, failing: set<PageId>)
    requires OnlyCleared(s.pages, g)
    ensures Culled(s, s.(pages := g), {}, all, failing, {})
  {
    hide Except;
    CutListsSelf(s);
    CutGraphCleared(s.pages, g);
  }

  /** A page is synced. */
  lemma {:induction false} CulledSync(s: Snapshot, p: PageId, failing: set<PageId>)
    requires p in s.pages && s.pages[p].unsync && p !in failing
    ensures Culled(s, s.(pages := SetSync(s.pages, p)), {}, false, failing, {p})
  {
    hide Except;
    CutListsSelf(s);
    CutGraphSync(s.pages, p);
  }

  // ----- Reachability ------------------------------------------------------------------------------

  ghost predicate Reaches(g: Graph, p: PageId, q: PageId) {
    exists path :: ReachesBy(g, p, path, q)
  }

  /** The pages that can be reached from `p`. */
  ghost function Under(g: Graph, p: PageId): set<PageId> {
    set q | q in g && Reaches(g, p, q)
  }

  lemma {:induction false} ReachesByBack(g: Graph, g': Graph, cut: set<PageId>, p: PageId, path: seq<nat>, q: PageId)
    requires CutGraph(g, g', cut) && ReachesBy(g', p, path, q)
    ensures ReachesBy(g, p, path, q)
    decreases |path|
  {
    if path != [] {
      var c :| Points(g', p, path[0], c) && ReachesBy(g', c, path[1..], q);
      assert CutPage(g[p], g'[p], p, cut);
      ReachesByBack(g, g', cut, c, path[1..], q);
    }
  }

  /** Cutting pages out adds nothing to what can be reached. */
  lemma {:induction false} UnderShrinks(g: Graph, g': Graph, cut: set<PageId>, p: PageId)
    requires CutGraph(g, g', cut)
    ensures Under(g', p) <= Under(g, p)
  {
    hide CutGraph;
    forall q | q in Under(g', p)
      ensures q in Under(g, p)
    {
      var path :| ReachesBy(g', p, path, q);
      ReachesByBack(g, g', cut, p, path, q);
      CutKeys(g, g', cut);
    }
  }

  lemma CutKeys(g: Graph, g': Graph, cut: set<PageId>)
    requires CutGraph(g, g', cut)
    ensures g.Keys == g'.Keys
  {
  }

  lemma {:induction false} ReachesByStays(g: Graph, g': Graph, cut: set<PageId>, p: PageId, path: seq<nat>, q: PageId)
    requires GraphInv(g) && CutGraph(g, g', cut) && ReachesBy(g, p, path, q)
    requires p !in cut && q !in cut && q in g && g[q].level == 1
    requires forall z :: z in cut && z in g ==> g[z].level == 1
    ensures ReachesBy(g', p, path, q)
    decreases |path|
  {
    if path != [] {
      var c :| Points(g, p, path[0], c) && ReachesBy(g, c, path[1..], q);
      GraphFacts(g, p);
      if c in cut {
        LeafReaches(g, c, path[1..], q);
      }
      assert CutPage(g[p], g'[p], p, cut);
      ReachesByStays(g, g', cut, c, path[1..], q);
    }
  }

  /** A level-one page reaches only itself. */
  lemma {:induction false} LeafReaches(g: Graph, p: PageId, path: seq<nat>, q: PageId)
    requires GraphInv(g) && p in g && g[p].level == 1 && ReachesBy(g, p, path, q)
    ensures p == q
  {
    GraphFacts(g, p);
  }

  ghost predicate Fails(q: PageId, all: bool, failing: set<PageId>) {
    all || q in failing
  }

  /** The unsync pages under `p` that fail to sync. */
  ghost function Victims(g: Graph, p: PageId, all: bool, failing: set<PageId>): set<PageId> {
    set q | q in g && g[q].unsync && Reaches(g, p, q) && Fails(q, all, failing)
  }

  /** When nothing unsync is left under `p`, the pages that went are the unsync ones under `p` that
      failed, and the pages that are still unsync are those that are not under `p`. */
  lemma {:induction false} CulledExactly(s: Snapshot, s': Snapshot, gone: set<PageId>, all: bool, failing: set<PageId>, p: PageId)
    requires GraphInv(s.pages) && Culled(s, s', gone, all, failing, Under(s.pages, p)) && p in s.pages && s.pages[p].level >= 2
    requires forall path, q :: ReachesBy(s'.pages, p, path, q) ==> q in s'.pages && !s'.pages[q].unsync
    ensures gone == Victims(s.pages, p, all, failing)
    ensures forall q :: q in s.pages ==> q in s'.pages && (s'.pages[q].unsync <==> s.pages[q].unsync && !Reaches(s.pages, p, q))
  {
    hide CutLists, GraphInv, CutGraph;
    CutKeys(s.pages, s'.pages, gone);
    forall q | q in gone
      ensures s.pages[q].level == 1 && !s'.pages[q].unsync
    {
      UnsyncLevel(s.pages, q);
      CutBlank(s.pages, s'.pages, gone, q);
    }
    forall q | q in s.pages && s.pages[q].unsync && Reaches(s.pages, p, q)
      ensures !s'.pages[q].unsync
    {
      UnsyncLevel(s.pages, q);
      if q !in gone {
        var path :| ReachesBy(s.pages, p, path, q);
        ReachesByStays(s.pages, s'.pages, gone, p, path, q);
      }
    }
    forall q | q in s.pages
      ensures s'.pages[q].unsync ==> s.pages[q].unsync
    {
      CutUnsync(s.pages, s'.pages, gone, q);
    }
  }

  lemma CutBlank(g: Graph, g': Graph, cut: set<PageId>, q: PageId)
    requires CutGraph(g, g', cut) && q in cut && q in g
    ensures q in g' && g'[q].Blank()
  {
    assert CutPage(g[q], g'[q], q, cut);
  }

  lemma CutUnsync(g: Graph, g': Graph, cut: set<PageId>, q: PageId)
    requires CutGraph(g, g', cut) && q in g
    ensures q in g' && (g'[q].unsync ==> g[q].unsync)
  {
    assert CutPage(g[q], g'[q], q, cut);
  }

  // ----- Leaves of the work vector -----------------------------------------------------------------

  lemma {:induction false} ReachesStep(g: Graph, p: PageId, i: nat, c: PageId, q: PageId)
    requires Points(g, p, i, c) && Reaches(g, c, q)
    ensures Reaches(g, p, q)
  {
    var path :| ReachesBy(g, c, path, q);
    assert ([i] + path)[1..] == path;
    assert ReachesBy(g, p, [i] + path, q);
  }

  lemma {:induction false} ReachesSelf(g: Graph, p: PageId)
    ensures Reaches(g, p, p)
  {
    assert ReachesBy(g, p, [], p);
  }

  /** The page at level `l` of a chain reaches the page at its lower end. */
  lemma {:induction false} ChainReaches(g: Graph, path: Path, top: nat, l: nat)
    requires path.Sized() && Chain(g, path, 2, top) && 2 <= l <= top
    ensures path.parent[l - 2].Some? && path.parent[0].Some? && Reaches(g, path.parent[l - 2].value, path.parent[0].value)
    decreases l
  {
    hide Reaches;
    assert OnPath(g, path, l) && OnPath(g, path, 2);
    if l == 2 {
      ReachesSelf(g, path.parent[0].value);
    } else {
      ChainReaches(g, path, top, l - 1);
      assert LinkedBelow(g, path, l);
      ReachesStep(g, path.parent[l - 2].value, path.idx[l - 2], path.parent[l - 3].value, path.parent[0].value);
    }
  }

  /** The first page of the vector stays at the upper end of the path. */
  lemma {:induction false} PathTop(g: Graph, init: Path, vec: seq<VecEntry>)
    requires LevelsOk(g) && Rooted(g, vec) && init.Sized() && VecOk(g, init, vec)
    ensures PathOf(g, init, vec).parent[g[vec[0].sp].level - 2] == Some(vec[0].sp)
    decreases |vec|
  {
    if |vec| > 1 {
      var e := vec[|vec| - 1];
      PathTop(g, init, vec[..|vec| - 1]);
      assert g[e.sp].level + 1 <= g[vec[0].sp].level;
    }
  }

  lemma {:induction false} VecPrefix(g: Graph, init: Path, vec: seq<VecEntry>, n: nat)
    requires LevelsOk(g) && Rooted(g, vec) && init.Sized() && VecOk(g, init, vec) && 0 < n <= |vec|
    ensures Rooted(g, vec[..n]) && VecOk(g, init, vec[..n])
    decreases |vec|
  {
    hide LevelsOk, EntryOk, PathOf;
    if n < |vec| {
      VecPrefix(g, init, vec[..|vec| - 1], n);
      assert vec[..|vec| - 1][..n] == vec[..n];
    } else {
      assert vec[..n] == vec;
    }
  }

  /** The leaves that a later walk finds were under its first page from the start. */
  lemma {:induction false} LeavesWereUnder(s: Snapshot, s1: Snapshot, a: set<PageId>, all: bool, failing: set<PageId>,
                                           scope: set<PageId>, init: Path, vec: seq<VecEntry>, p: PageId)
    requires Culled(s, s1, a, all, failing, scope)
    requires LevelsOk(s1.pages) && Rooted(s1.pages, vec) && init.Sized() && VecOk(s1.pages, init, vec) && vec[0].sp == p
    ensures LeafPages(s1.pages, vec, |vec|) <= Under(s.pages, p)
  {
    hide CutLists, CutGraph, Picked, Under, LevelsOk, VecOk, LeafPages;
    LeavesUnder(s1.pages, init, vec);
    UnderShrinks(s.pages, s1.pages, a, p);
  }

  /** Every leaf in the vector is under its first page. */
  lemma {:induction false} LeavesUnder(g: Graph, init: Path, vec: seq<VecEntry>)
    requires LevelsOk(g) && Rooted(g, vec) && init.Sized() && VecOk(g, init, vec)
    ensures LeafPages(g, vec, |vec|) <= Under(g, vec[0].sp)
  {
    hide LevelsOk, VecOk, PathOf, Reaches, Chain;
    forall q | q in LeafPages(g, vec, |vec|)
      ensures q in Under(g, vec[0].sp)
    {
      var k :| 0 <= k < |vec| && IsLeafAt(g, vec, k) && vec[k].sp == q;
      EntryAt(g, init, vec, k);
      VecPrefix(g, init, vec, k);
      PathTop(g, init, vec[..k]);
      var path := PathOf(g, init, vec[..k]);
      ChainReaches(g, path, g[vec[0].sp].level, g[vec[0].sp].level);
      ReachesLast(g, vec[0].sp, path.parent[0].value, vec[k].idx, q);
    }
  }

  lemma {:induction false} ReachesLast(g: Graph, p: PageId, c: PageId, i: int, q: PageId)
    requires Reaches(g, p, c) && Points(g, c, i, q)
    ensures Reaches(g, p, q)
  {
    var path :| ReachesBy(g, p, path, c);
    ReachesByLast(g, p, path, c, i, q);
  }

  lemma {:induction false} ReachesByLast(g: Graph, p: PageId, path: seq<nat>, c: PageId, i: nat, q: PageId)
    requires ReachesBy(g, p, path, c) && Points(g, c, i, q)
    ensures ReachesBy(g, p, path + [i], q)
    decreases |path|
  {
    if path == [] {
      assert ([] + [i])[1..] == [];
      assert ReachesBy(g, q, [], q);
    } else {
      var d :| Points(g, p, path[0], d) && ReachesBy(g, d, path[1..], c);
      ReachesByLast(g, d, path[1..], c, i, q);
      assert (path + [i])[1..] == path[1..] + [i];
    }
  }

  // ----- Zapping one page ----------------------------------------------------------------------------

  /** `p` and the pages in `gone` are zapped: blank and invalid. All leave the list, but a page that is
      still a root goes to its head. Nothing else changed. */
  ghost predicate ZappedOut(s: Snapshot, s': Snapshot, p: PageId, gone: set<PageId>) {
    && p in s.meta && p in s.active && p !in gone
    && (forall q :: q in gone ==> q in s.active)
    && s'.meta == Doomed(s.meta, gone + {p})
    && s'.active == (if s.meta[p].rootCount == 0 then [] else [p]) + Except(s.active, gone + {p})
    && s'.zapped == s.zapped + gone + (if s.meta[p].rootCount == 0 then {p} else {})
    && CutGraph(s.pages, s'.pages, gone + {p})
    && forall q :: q in s.pages && q in s'.pages && q !in gone + {p} ==> s'.pages[q].unsync == s.pages[q].unsync
  }

  lemma {:induction false} ZappedOutIntro(s: Snapshot, s0: Snapshot, s': Snapshot, p: PageId, gone: set<PageId>)
    requires CutLists(s, s0, gone) && CutGraph(s.pages, s0.pages, gone)
    requires Picked(s.pages, s0.pages, gone, true, {}, Under(s.pages, p))
    requires p in s.active && p in s0.active && p in s.meta && p in s.pages && p !in gone && NoDup(s0.active)
    requires Unlinked(SetSync(s0.pages, p), s'.pages, p) && GraphInv(s'.pages) && s'.pages[p].Blank()
    requires s'.meta == s0.meta[p := s0.meta[p].(invalid := true)]
    requires s'.active == (if s.meta[p].rootCount == 0 then [] else [p]) + Without(s0.active, p)
    requires s'.zapped == s0.zapped + (if s.meta[p].rootCount == 0 then {p} else {})
    ensures ZappedOut(s, s', p, gone)
  {
    hide Except, GraphInv, CutGraph, Without, Under, Reaches, Unlinked, Picked, CutLists;
    CutKeys(s.pages, s0.pages, gone);
    CutGraphUnlinked(s0.pages, s'.pages, p);
    CutGraphTrans(s.pages, s0.pages, s'.pages, gone, {p});
    ZappedOutLists(s, s0, s', p, gone);
    ZappedOutUnsync(s.pages, s0.pages, s'.pages, p, gone, Under(s.pages, p));
  }

  lemma {:induction false} ZappedOutLists(s: Snapshot, s0: Snapshot, s': Snapshot, p: PageId, gone: set<PageId>)
    requires CutLists(s, s0, gone) && p in s.active && p in s0.active && p in s.meta && p !in gone && NoDup(s0.active)
    requires s'.meta == s0.meta[p := s0.meta[p].(invalid := true)]
    requires s'.active == (if s.meta[p].rootCount == 0 then [] else [p]) + Without(s0.active, p)
    ensures forall q :: q in gone ==> q in s.active
    ensures s'.meta == Doomed(s.meta, gone + {p}) && s0.zapped == s.zapped + gone
    ensures s'.active == (if s.meta[p].rootCount == 0 then [] else [p]) + Except(s.active, gone + {p})
  {
    hide Except, Without;
    ExceptOne(s0.active, p);
    ExceptTwice(s.active, gone, {p});
  }

  lemma ZappedOutUnsync(g: Graph, g0: Graph, g': Graph, p: PageId, gone: set<PageId>, scope: set<PageId>)
    requires Picked(g, g0, gone, true, {}, scope) && g.Keys == g0.Keys && p in g0 && Unlinked(SetSync(g0, p), g', p)
    ensures forall q :: q in g && q in g' && q !in gone + {p} ==> g'[q].unsync == g[q].unsync
  {
    forall q | q in g && q in g' && q !in gone + {p}
      ensures g'[q].unsync == g[q].unsync
    {
      assert UnlinkedPage(SetSync(g0, p)[q], g'[q], q, p);
    }
  }

  lemma {:induction false} ZappedOutLeaf(s: Snapshot, s': Snapshot, p: PageId)
    requires ZappedOut(s, s', p, {}) && s.meta[p].rootCount == 0
    ensures CutLists(s, s', {p}) && CutGraph(s.pages, s'.pages, {p})
  {
    hide CutGraph;
    assert {} + {p} == {p};
    assert [] + Except(s.active, {p}) == Except(s.active, {p});
  }

  /** Syncing the page first makes no difference to a zap. */
  lemma {:induction false} ZappedOutSync(s: Snapshot, s': Snapshot, p: PageId)
    requires p in s.pages && ZappedOut(s.(pages := SetSync(s.pages, p)), s', p, {})
    ensures ZappedOut(s, s', p, {})
  {
    hide CutGraph;
    assert {} + {p} == {p};
    CutGraphSync(s.pages, p);
    CutGraphTrans(s.pages, SetSync(s.pages, p), s'.pages, {}, {p});
  }

  /** The page is out of the list, invalid and blank. */
  lemma {:induction false} ZappedOutFacts(s: Snapshot, s': Snapshot, p: PageId, gone: set<PageId>)
    requires ZappedOut(s, s', p, gone) && p in s.pages
    ensures p in s'.meta && s'.meta[p].invalid && p in s'.pages && s'.pages[p].Blank()
    ensures s.meta[p].rootCount == 0 ==> p !in s'.active
  {
    hide CutGraph;
    ExceptMembers(s.active, gone + {p});
    CutBlank(s.pages, s'.pages, gone + {p}, p);
  }

  /** A page that is neither zapped itself nor an unsync page stays as it was. */
  lemma {:induction false} ZappedOutKeeps(s: Snapshot, s': Snapshot, p: PageId, gone: set<PageId>, q: PageId)
    requires ZappedOut(s, s', p, gone) && q in s.active && q in s.meta && q != p && q !in gone && q in s.pages
    ensures q in s'.active && q in s'.meta && s'.meta[q] == s.meta[q] && q in s'.pages
    ensures s'.pages[q].unsync == s.pages[q].unsync && s'.pages[q].level == s.pages[q].level
  {
    ExceptMembers(s.active, gone + {p});
    assert CutPage(s.pages[q], s'.pages[q], q, gone + {p});
  }

  /** A level-one page that is zapped is a page culled. */
  lemma {:induction false} ZappedOutCulls(s: Snapshot, s': Snapshot, p: PageId, all: bool, failing: set<PageId>)
    requires ZappedOut(s, s', p, {}) && s.meta[p].rootCount == 0 && p in s.pages && s.pages[p].unsync && (all || p in failing)
    ensures Culled(s, s', {p}, all, failing, {p})
  {
    hide CutGraph, CutLists;
    ZappedOutLeaf(s, s', p);
    CutBlank(s.pages, s'.pages, {p}, p);
    assert forall q :: q in s.pages && q in s'.pages && q != p ==> q !in {} + {p};
  }

  /** Nothing unsync is left under the page that the walk started from. */
  lemma {:induction false} CulledAll(s: Snapshot, s': Snapshot, gone: set<PageId>, all: bool, failing: set<PageId>, p: PageId)
    requires GraphInv(s.pages) && Culled(s, s', gone, all, failing, Under(s.pages, p)) && p in s.pages && s.pages[p].level >= 2
    requires GraphInv(s'.pages) && p in s'.pages && s'.pages[p].level >= 2 && s'.pages[p].bitmap == {}
    ensures gone == Victims(s.pages, p, all, failing)
    ensures forall q :: q in s.pages ==> q in s'.pages && (s'.pages[q].unsync <==> s.pages[q].unsync && !Reaches(s.pages, p, q))
  {
    hide GraphInv, Culled, Under, Victims, Reaches;
    ReachesClean(s'.pages, p);
    CulledExactly(s, s', gone, all, failing, p);
  }

  /** There is nothing unsync under a level-one page but itself. */
  lemma {:induction false} VictimsOfLeaf(g: Graph, p: PageId, all: bool, failing: set<PageId>)
    requires GraphInv(g) && p in g && g[p].level == 1
    ensures Victims(g, p, all, failing) - {p} == {}
  {
    hide GraphInv;
    forall q | q in Victims(g, p, all, failing)
      ensures q == p
    {
      var path :| ReachesBy(g, p, path, q);
      LeafReaches(g, p, path, q);
    }
  }

  lemma VictimsUnsync(g: Graph, p: PageId, all: bool, failing: set<PageId>)
    ensures forall q :: q in Victims(g, p, all, failing) ==> q in g && g[q].unsync
  {
    hide Reaches;
  }

  /** A zap makes no page unsync. */
  lemma {:induction false} ZappedOutUnsyncs(s: Snapshot, s': Snapshot, p: PageId, gone: set<PageId>)
    requires ZappedOut(s, s', p, gone)
    ensures forall q :: q in s'.pages && s'.pages[q].unsync ==> q in s.pages && s.pages[q].unsync
  {
    forall q | q in s'.pages
      ensures q in s.pages && (s'.pages[q].unsync ==> s.pages[q].unsync)
    {
      CutUnsync(s.pages, s'.pages, gone + {p}, q);
    }
  }

  /** A page above level one is not unsync itself. */
  lemma VictimsOfTable(g: Graph, p: PageId, all: bool, failing: set<PageId>)
    requires GraphInv(g) && p in g && g[p].level >= 2
    ensures p !in Victims(g, p, all, failing) && Victims(g, p, all, failing) - {p} == Victims(g, p, all, failing)
  {
    hide Reaches;
  }

  // ----- Freeing -------------------------------------------------------------------------------------

  /** The pages in `gone`, and those that waited to be freed, no longer exist; the others keep their
      place, their books and their entries, except for entries that pointed to a page in `gone`. */
  ghost predicate Freed(s: Snapshot, s': Snapshot, gone: set<PageId>) {
    && s'.active == Except(s.active, gone)
    && s'.meta == s.meta - (s.zapped + gone)
    && s'.zapped == {}
    && s'.pages.Keys == s.pages.Keys - (s.zapped + gone)
    && forall q :: q in s'.pages ==> CutPage(s.pages[q], s'.pages[q], q, gone)
  }

  lemma {:induction false} FreedIntro(s: Snapshot, s1: Snapshot, s': Snapshot, gone: set<PageId>)
    requires CutLists(s, s1, gone) && CutGraph(s.pages, s1.pages, gone)
    requires s' == Snapshot(s1.pages - s1.zapped, s1.meta - s1.zapped, s1.active, {})
    ensures Freed(s, s', gone)
  {
    hide Except, CutPage;
  }

  lemma {:induction false} FreedFacts(s: Snapshot, s': Snapshot, gone: set<PageId>, q: PageId)
    requires Freed(s, s', gone) && q in s'.pages
    ensures q in s.pages && (s'.pages[q].unsync ==> s.pages[q].unsync)
  {
    assert CutPage(s.pages[q], s'.pages[q], q, gone);
  }

  // ----- The pages of one frame ------------------------------------------------------------------------

  ghost function FramePages(meta: Metas, gfn: Gfn, validGen: nat): set<PageId> {
    set q | q in meta && ShadowsGfn(meta[q], gfn, validGen)
  }

  lemma FrameIs(meta: Metas, gfn: Gfn, validGen: nat)
    ensures FramePages(meta, gfn, validGen) == set q | q in meta && ShadowsGfn(meta[q], gfn, validGen)
  {
  }

  /** The unsync pages of the frame that fail to sync. */
  ghost function Stragglers(meta: Metas, pages: Graph, gfn: Gfn, validGen: nat, failing: set<PageId>): set<PageId> {
    set q | q in meta && ShadowsGfn(meta[q], gfn, validGen) && q in pages && pages[q].unsync && q in failing
  }

  /** When no page of the frame is unsync any more, those that went are those that failed. */
  lemma {:induction false} CulledFrame(s: Snapshot, s': Snapshot, gone: set<PageId>, gfn: Gfn, validGen: nat, failing: set<PageId>)
    requires Culled(s, s', gone, false, failing, FramePages(s.meta, gfn, validGen)) && s.meta.Keys == s.pages.Keys
    requires forall q :: q in FramePages(s.meta, gfn, validGen) ==> q in s'.pages && !s'.pages[q].unsync
    ensures gone == Stragglers(s.meta, s.pages, gfn, validGen, failing)
  {
    hide CutLists, CutGraph, ShadowsGfn;
  }

  lemma FrameShrinks(s: Snapshot, s': Snapshot, gone: set<PageId>, gfn: Gfn, validGen: nat, failing: set<PageId>)
    requires Culled(s, s', gone, false, failing, FramePages(s.meta, gfn, validGen))
    ensures forall p :: p in s'.meta && ShadowsGfn(s'.meta[p], gfn, validGen) ==> p in FramePages(s.meta, gfn, validGen)
  {
    hide CutGraph, Picked, Except;
  }

  lemma AddStragglers(meta: Metas, pages: Graph, p: PageId, m: Meta, pg: Page, gfn: Gfn, validGen: nat, failing: set<PageId>)
    requires p !in meta && !pg.unsync
    ensures Stragglers(meta[p := m], pages[p := pg], gfn, validGen, failing) == Stragglers(meta, pages, gfn, validGen, failing)
  {
    hide ShadowsGfn;
  }

  lemma NoStragglers(meta: Metas, pages: Graph, gfn: Gfn, validGen: nat, failing: set<PageId>)
    requires Synced(meta, pages, gfn, validGen)
    ensures Stragglers(meta, pages, gfn, validGen, failing) == {}
  {
    hide ShadowsGfn;
  }

  // ----- Oldest first ------------------------------------------------------------------------------------

  /** If a page goes that is not unsync, then so do all older ones. */
  ghost predicate OldestFirst(active: seq<PageId>, pages: Graph, gone: set<PageId>) {
    forall i, j :: 0 <= i < j < |active| && active[i] in gone && active[i] in pages && !pages[active[i]].unsync ==> active[j] in gone
  }

  /** Zapping the last page of what is left goes on in this order. */
  lemma {:induction false} OldestNext(active: seq<PageId>, pages: Graph, a: set<PageId>, last: PageId, more: set<PageId>)
    requires OldestFirst(active, pages, a) && Except(active, a) != [] && last == Except(active, a)[|Except(active, a)| - 1]
    requires NoDup(active) && forall q :: q in more ==> q in pages && pages[q].unsync
    ensures OldestFirst(active, pages, a + more + {last})
  {
    LastLeft(active, a);
  }

  lemma {:induction false} LastLeft(active: seq<PageId>, a: set<PageId>)
    requires Except(active, a) != []
    ensures var last := Except(active, a)[|Except(active, a)| - 1];
            exists k :: 0 <= k < |active| && active[k] == last && forall j :: k < j < |active| ==> active[j] in a
  {
    var t := active[1..];
    if Except(t, a) != [] {
      LastLeft(t, a);
      var last := Except(t, a)[|Except(t, a)| - 1];
      var k :| 0 <= k < |t| && t[k] == last && forall j :: k < j < |t| ==> t[j] in a;
      assert active[k + 1] == last;
      forall j | k + 1 < j < |active|
        ensures active[j] in a
      {
        assert active[j] == t[j - 1];
      }
    } else {
      ExceptMembers(t, a);
      assert active[0] == Except(active, a)[0];
      forall j | 0 < j < |active|
        ensures active[j] in a
      {
        assert active[j] == t[j - 1] && t[j - 1] in t;
      }
    }
  }

  lemma {:induction false} ExceptAppend(s: seq<PageId>, t: seq<PageId>, gone: set<PageId>)
    ensures Except(s + t, gone) == Except(s, gone) + Except(t, gone)
  {
    if s == [] {
      assert s + t == t;
    } else {
      assert (s + t)[1..] == s[1..] + t;
      ExceptAppend(s[1..], t, gone);
    }
  }

  /** Pages have been zapped from the tail of the list: those in `gone` are out, except for roots in
      use, which are at the head. */
  ghost predicate Shrunk(s: Snapshot, s': Snapshot, gone: set<PageId>, roots: seq<PageId>) {
    && s'.active == roots + Except(s.active, gone)
    && (forall p :: p in roots ==> p in gone && p in s'.meta && s'.meta[p].invalid && s'.meta[p].rootCount > 0)
    && (forall p :: p in s.active && p !in gone ==> p in s.meta && p in s'.meta && s'.meta[p] == s.meta[p])
    && OldestFirst(s.active, s.pages, gone)
  }

  lemma {:induction false} ShrunkSelf(s: Snapshot)
    requires forall p :: p in s.active ==> p in s.meta
    ensures Shrunk(s, s, {}, [])
  {
    ExceptNone(s.active, {});
    assert [] + s.active == s.active;
  }

  lemma {:induction false} ShrunkMembers(s: Snapshot, s': Snapshot, gone: set<PageId>, roots: seq<PageId>)
    requires Shrunk(s, s', gone, roots)
    ensures forall p :: p in s.active && p !in gone ==> p in s'.active && p in s'.meta && p in s.meta && s'.meta[p] == s.meta[p]
    ensures forall p :: p in s'.active && p in gone ==> p in s'.meta && s'.meta[p].invalid && s'.meta[p].rootCount > 0
    ensures OldestFirst(s.active, s.pages, gone)
  {
    hide OldestFirst, Except;
    ExceptMembers(s.active, gone);
  }

  /** Zapping the last page goes on in this way. */
  lemma {:induction false} ShrunkStep(s: Snapshot, s1: Snapshot, s2: Snapshot, gone: set<PageId>, roots: seq<PageId>,
                                      last: PageId, more: set<PageId>) returns (roots': seq<PageId>)
    requires Shrunk(s, s1, gone, roots) && s1.active != [] && last == s1.active[|s1.active| - 1] && NoDup(s1.active) && NoDup(s.active)
    requires ZappedOut(s1, s2, last, more) && forall q :: q in more ==> q in s.pages && s.pages[q].unsync
    ensures Shrunk(s, s2, gone + more + {last}, roots')
  {
    hide CutGraph, OldestFirst, NoDup, Except;
    var rest, out := Except(s.active, gone), more + {last};
    roots' := (if s1.meta[last].rootCount == 0 then [] else [last]) + Except(roots, out);
    ExceptAppend(roots, rest, out);
    ExceptTwice(s.active, gone, out);
    ExceptMembers(roots, out);
    assert gone + out == gone + more + {last};
    if rest == [] {
      AllGone(s.active, s.pages, gone, gone + out);
    } else {
      OldestNext(s.active, s.pages, gone, last, more);
    }
  }

  lemma {:induction false} AllGone(active: seq<PageId>, pages: Graph, a: set<PageId>, b: set<PageId>)
    requires Except(active, a) == [] && a <= b
    ensures OldestFirst(active, pages, b)
  {
    ExceptMembers(active, a);
    forall j | 0 <= j < |active|
      ensures active[j] in b
    {
      assert active[j] in active && active[j] !in Except(active, a);
    }
  }

  // ----- Pages of the current generation ----------------------------------------------------------------

  /** The pages of the current generation that are not unsync. */
  ghost function Current(s: Snapshot, validGen: nat): set<PageId> {
    set p | p in s.active && p in s.meta && p in s.pages && s.meta[p].gen == validGen && !s.pages[p].unsync
  }

  /** The pages in `kept` are still listed as they were in `meta`. */
  ghost predicate Stays(s: Snapshot, meta: Metas, kept: set<PageId>, validGen: nat) {
    forall p :: p in kept ==>
      && p in s.active && p in s.meta && p in meta && s.meta[p] == meta[p]
      && s.meta[p].gen == validGen && p in s.pages && !s.pages[p].unsync
  }

  lemma StaysStart(s: Snapshot, validGen: nat)
    ensures Stays(s, s.meta, Current(s, validGen), validGen)
  {
  }

  lemma {:induction false} StaysAfter(s: Snapshot, s': Snapshot, meta: Metas, kept: set<PageId>, validGen: nat,
                                      p: PageId, gone: set<PageId>)
    requires Stays(s, meta, kept, validGen) && ZappedOut(s, s', p, gone) && p in s.meta && s.meta[p].gen != validGen
    requires gone == Victims(s.pages, p, true, {}) - {p}
    ensures Stays(s', meta, kept, validGen)
  {
    hide ZappedOut, Victims;
    VictimsUnsync(s.pages, p, true, {});
    forall q | q in kept
      ensures q in s'.active && q in s'.meta && s'.meta[q] == s.meta[q] && q in s'.pages && !s'.pages[q].unsync
    {
      ZappedOutKeeps(s, s', p, gone, q);
    }
  }

  lemma StaysMeans(s: Snapshot, meta: Metas, kept: set<PageId>, validGen: nat)
    requires Stays(s, meta, kept, validGen)
    ensures forall p :: p in kept ==> p in meta && p in s.active && p in s.meta && s.meta[p] == meta[p]
  {
  }
}
