/**
 The work vector filled by the unsync walk (`struct kvm_mmu_pages`) and the path from a
 leaf up to the root that is rebuilt while the vector is replayed (`struct mmu_page_path`).
 */
module PageVec {
  import opened Arith
  import opened ShadowGraph

  const ARRAY_NR: nat := 16       // KVM_PAGE_ARRAY_NR
  const INVALID_INDEX: int := -1
  const ENOSPC: int := 28

  datatype VecEntry = VecEntry(sp: PageId, idx: int)

  /** `parent[l]` is the page at level l+2 and `idx[l]` the index of its entry on the path. */
  datatype Path = Path(parent: seq<Option<PageId>>, idx: seq<int>)
  {
    predicate Sized() {
      |parent| == MAX_LEVEL && |idx| == MAX_LEVEL
    }
  }

  ghost predicate InVec(g: Graph, vec: seq<VecEntry>) {
    forall n :: 0 <= n < |vec| ==> vec[n].sp in g
  }

  /** The vector starts with a page that can have children. */
  ghost predicate Rooted(g: Graph, vec: seq<VecEntry>) {
    && |vec| > 0
    && InVec(g, vec)
    && g[vec[0].sp].level >= 2
  }

  // ----- Replaying the vector --------------------------------------------------------------

  /** What the vector's first element does to the path (mmu_pages_first). */
  function FirstPath(g: Graph, init: Path, root: PageId): (p: Path)
    requires root in g && 2 <= g[root].level <= MAX_LEVEL && init.Sized()
    ensures p.Sized()
  {
    var l := g[root].level;
    init.(parent := init.parent[l - 2 := Some(root)][l - 1 := None])
  }

  /** What every later element does to the path (the body of mmu_pages_next). */
  function StepPath(g: Graph, path: Path, e: VecEntry): (p: Path)
    requires e.sp in g && 1 <= g[e.sp].level <= MAX_LEVEL && path.Sized()
    ensures p.Sized()
  {
    var l := g[e.sp].level;
    Path(if l == 1 then path.parent else path.parent[l - 2 := Some(e.sp)],
         path.idx[l - 1 := e.idx])
  }

  ghost function PathOf(g: Graph, init: Path, vec: seq<VecEntry>): (p: Path)
    requires LevelsOk(g) && Rooted(g, vec) && init.Sized()
    ensures p.Sized()
    decreases |vec|
  {
    if |vec| == 1 then FirstPath(g, init, vec[0].sp)
    else StepPath(g, PathOf(g, init, vec[..|vec| - 1]), vec[|vec| - 1])
  }

  // ----- Chains ----------------------------------------------------------------------------

  /** The path holds a page of level `l`. */
  ghost predicate OnPath(g: Graph, path: Path, l: nat)
    requires path.Sized()
  {
    && 2 <= l <= MAX_LEVEL
    && path.parent[l - 2].Some?
    && path.parent[l - 2].value in g
    && g[path.parent[l - 2].value].level == l
  }

  /** `c` is the child the path's page of level `l` has at the recorded index `i`. */
  ghost predicate HangsFrom(g: Graph, path: Path, l: nat, i: int, c: PageId)
    requires path.Sized()
  {
    OnPath(g, path, l) && Points(g, path.parent[l - 2].value, i, c)
  }

  ghost predicate LinkedBelow(g: Graph, path: Path, l: nat)
    requires path.Sized()
  {
    && OnPath(g, path, l) && OnPath(g, path, l - 1)
    && HangsFrom(g, path, l, path.idx[l - 2], path.parent[l - 3].value)
  }

  /** From level `lo` up to the root at level `top`, each page on the path is the child of the
      next one through the recorded index, and the entry above the root is the sentinel. */
  ghost predicate Chain(g: Graph, path: Path, lo: nat, top: nat)
    requires path.Sized()
  {
    && 2 <= lo <= top <= MAX_LEVEL
    && path.parent[top - 1] == None
    && (forall l :: lo <= l <= top ==> OnPath(g, path, l))
    && (forall l :: lo < l <= top ==> LinkedBelow(g, path, l))
  }

  /** `e` is a child of the page the path currently holds one level above it. */
  ghost predicate EntryOk(g: Graph, path: Path, e: VecEntry, top: nat)
    requires path.Sized()
  {
    && e.sp in g
    && Chain(g, path, g[e.sp].level + 1, top)
    && HangsFrom(g, path, g[e.sp].level + 1, e.idx, e.sp)
  }

  lemma ChainSameShape(g: Graph, g': Graph, path: Path, lo: nat, top: nat)
    requires SameShape(g, g') && path.Sized() && Chain(g, path, lo, top)
    ensures Chain(g', path, lo, top)
  {
    assert forall l :: OnPath(g, path, l) ==> OnPath(g', path, l);
    assert forall l :: LinkedBelow(g, path, l) ==> LinkedBelow(g', path, l);
  }

  /** Every element hangs off the path its predecessors build. */
  ghost predicate VecOk(g: Graph, init: Path, vec: seq<VecEntry>)
    requires LevelsOk(g) && Rooted(g, vec) && init.Sized()
    decreases |vec|
  {
    if |vec| == 1 then vec[0].idx == INVALID_INDEX
    else
      var k := |vec| - 1;
      && VecOk(g, init, vec[..k])
      && EntryOk(g, PathOf(g, init, vec[..k]), vec[k], g[vec[0].sp].level)
  }

  lemma {:induction false} VecOkAppend(g: Graph, init: Path, vec: seq<VecEntry>, e: VecEntry)
    requires LevelsOk(g) && Rooted(g, vec) && init.Sized() && VecOk(g, init, vec)
    requires e.sp in g && EntryOk(g, PathOf(g, init, vec), e, g[vec[0].sp].level)
    ensures VecOk(g, init, vec + [e])
    ensures PathOf(g, init, vec + [e]) == StepPath(g, PathOf(g, init, vec), e)
  {
    assert (vec + [e])[..|vec|] == vec;
  }

  lemma {:induction false} VecOkPrefix(g: Graph, init: Path, vec: seq<VecEntry>, k: nat)
    requires LevelsOk(g) && Rooted(g, vec) && init.Sized() && VecOk(g, init, vec) && 0 < k <= |vec|
    ensures VecOk(g, init, vec[..k])
    decreases |vec|
  {
    if k < |vec| {
      VecOkPrefix(g, init, vec[..|vec| - 1], k);
      assert vec[..|vec| - 1][..k] == vec[..k];
    } else {
      assert vec[..k] == vec;
    }
  }

  /** A graph with the same levels replays the vector to the same path. */
  lemma {:induction false} PathOfSameLevels(g: Graph, g': Graph, init: Path, vec: seq<VecEntry>)
    requires LevelsOk(g) && LevelsOk(g') && SameLevels(g, g')
    requires Rooted(g, vec) && Rooted(g', vec) && init.Sized()
    ensures PathOf(g, init, vec) == PathOf(g', init, vec)
    decreases |vec|
  {
    if |vec| > 1 {
      PathOfSameLevels(g, g', init, vec[..|vec| - 1]);
    }
  }

  lemma {:induction false} VecOkSameShape(g: Graph, g': Graph, init: Path, vec: seq<VecEntry>)
    requires LevelsOk(g) && LevelsOk(g') && SameShape(g, g')
    requires init.Sized() && Rooted(g, vec) && VecOk(g, init, vec)
    ensures VecOk(g', init, vec)
    ensures PathOf(g, init, vec) == PathOf(g', init, vec)
    decreases |vec|
  {
    PathOfSameLevels(g, g', init, vec);
    if |vec| > 1 {
      var k := |vec| - 1;
      VecOkSameShape(g, g', init, vec[..k]);
      ChainSameShape(g, g', PathOf(g, init, vec[..k]), g[vec[k].sp].level + 1, g[vec[0].sp].level);
    }
  }

  // ----- Leaves ----------------------------------------------------------------------------

  ghost predicate IsLeafAt(g: Graph, vec: seq<VecEntry>, n: int)
    requires InVec(g, vec)
  {
    0 <= n < |vec| && g[vec[n].sp].level == 1
  }

  ghost predicate HasLeaf(g: Graph, vec: seq<VecEntry>)
    requires InVec(g, vec)
  {
    exists n :: IsLeafAt(g, vec, n)
  }

  /** The leaves in the vector are unsync, and no leaf occurs twice. */
  ghost predicate LeavesOk(g: Graph, vec: seq<VecEntry>)
    requires InVec(g, vec)
  {
    && (forall n :: IsLeafAt(g, vec, n) ==> g[vec[n].sp].unsync)
    && (forall m, n :: IsLeafAt(g, vec, m) && IsLeafAt(g, vec, n) && m != n ==> vec[m].sp != vec[n].sp)
  }

  // ----- What one walk promises --------------------------------------------------------------

  /** The walk below `sp` starts with `sp` as the lowest page on the path. */
  ghost predicate WalkPre(g: Graph, init: Path, vec: seq<VecEntry>, sp: PageId) {
    && GraphInv(g) && LevelsOk(g)
    && init.Sized() && Rooted(g, vec) && VecOk(g, init, vec) && LeavesOk(g, vec) && |vec| < ARRAY_NR
    && sp in g && g[sp].level >= 2
    && var path := PathOf(g, init, vec);
       && Chain(g, path, g[sp].level, g[vec[0].sp].level)
       && path.parent[g[sp].level - 2] == Some(sp)
  }

  /** Two paths agree from the page at level `l` upwards. */
  ghost predicate AgreeFrom(p: Path, p': Path, l: nat)
    requires p.Sized() && p'.Sized() && 2 <= l <= MAX_LEVEL
  {
    && p.parent[l - 2..] == p'.parent[l - 2..]
    && p.idx[l - 1..] == p'.idx[l - 1..]
  }

  /** Bits only disappear, and only at or below `sp`; the vector only grows. */
  ghost predicate WalkKeeps(g: Graph, g': Graph, init: Path, vec: seq<VecEntry>, vec': seq<VecEntry>, sp: PageId)
    requires WalkPre(g, init, vec, sp)
  {
    && GraphInv(g') && LevelsOk(g')
    && OnlyCleared(g, g') && SameAbove(g, g', g[sp].level)
    && Work(g') <= Work(g)
    && vec <= vec' && |vec'| <= ARRAY_NR
    && Rooted(g', vec') && VecOk(g', init, vec') && LeavesOk(g', vec')
    && AgreeFrom(PathOf(g, init, vec), PathOf(g', init, vec'), g[sp].level)
  }

  /** -ENOSPC exactly when the vector is full; a positive count means some unsync leaf is in the
      vector; and without a leaf, every added page that is done paid with a cleared bit. */
  ghost predicate WalkResult(g: Graph, g': Graph, vec: seq<VecEntry>, vec': seq<VecEntry>, sp: PageId, ret: int)
    requires InVec(g', vec') && sp in g && g[sp].level >= 2
  {
    && (ret == -ENOSPC <==> |vec'| == ARRAY_NR)
    && (ret == -ENOSPC || ret >= 0)
    && (ret > 0 ==> HasLeaf(g', vec'))
    && (!HasLeaf(g', vec') ==>
          |vec'| - |vec| <= Work(g) - Work(g') + if ret == -ENOSPC then g[sp].level - 2 else 0)
  }

  lemma WalkKeepsStart(g: Graph, init: Path, vec: seq<VecEntry>, sp: PageId)
    requires WalkPre(g, init, vec, sp)
    ensures WalkKeeps(g, g, init, vec, vec, sp)
    ensures WalkResult(g, g, vec, vec, sp, 0)
  {
    hide GraphInv, VecOk, LeavesOk, Chain, PathOf, LevelsOk, Work;
  }

  /** The path keeps leading from `sp` to the root while the vector grows below `sp`. */
  lemma WalkKeepsPre(g: Graph, g': Graph, init: Path, vec: seq<VecEntry>, vec': seq<VecEntry>, sp: PageId)
    requires WalkPre(g, init, vec, sp) && WalkKeeps(g, g', init, vec, vec', sp) && |vec'| < ARRAY_NR
    ensures WalkPre(g', init, vec', sp)
  {
    hide GraphInv, VecOk, LeavesOk, LevelsOk, Work;
    var l, top := g[sp].level, g[vec[0].sp].level;
    var p, p' := PathOf(g, init, vec), PathOf(g', init, vec');
    ChainSameShape(g, g', p, l, top);
    ChainAgree(g', p, p', l, top);
    assert p.parent[l - 2] == p.parent[l - 2..][0] == p'.parent[l - 2];
  }

  lemma ChainAt(g: Graph, path: Path, lo: nat, top: nat, l: nat)
    requires path.Sized() && Chain(g, path, lo, top) && lo <= l <= top
    ensures OnPath(g, path, l)
    ensures lo < l ==> LinkedBelow(g, path, l)
  {
  }

  lemma ChainAgree(g: Graph, p: Path, p': Path, l: nat, top: nat)
    requires p.Sized() && p'.Sized() && Chain(g, p, l, top) && AgreeFrom(p, p', l)
    ensures Chain(g, p', l, top)
  {
    assert forall k :: l - 2 <= k < MAX_LEVEL ==> p.parent[k] == p.parent[l - 2..][k - (l - 2)] == p'.parent[k];
    assert forall k :: l - 1 <= k < MAX_LEVEL ==> p.idx[k] == p.idx[l - 1..][k - (l - 1)] == p'.idx[k];
    assert forall k :: l <= k && OnPath(g, p, k) ==> OnPath(g, p', k);
    assert forall k :: l < k && LinkedBelow(g, p, k) ==> LinkedBelow(g, p', k);
  }

  lemma WalkKeepsTrans(g: Graph, g1: Graph, g2: Graph, init: Path,
                       vec: seq<VecEntry>, vec1: seq<VecEntry>, vec2: seq<VecEntry>, sp: PageId)
    requires WalkPre(g, init, vec, sp) && WalkKeeps(g, g1, init, vec, vec1, sp)
    requires WalkPre(g1, init, vec1, sp) && WalkKeeps(g1, g2, init, vec1, vec2, sp)
    ensures WalkKeeps(g, g2, init, vec, vec2, sp)
    ensures HasLeaf(g1, vec1) ==> HasLeaf(g2, vec2)
  {
    hide GraphInv, VecOk, LeavesOk, Chain, PathOf, LevelsOk, Work;
    if HasLeaf(g1, vec1) {
      var n :| IsLeafAt(g1, vec1, n);
      assert IsLeafAt(g2, vec2, n);
    }
  }

  /** Two consecutive pieces of one page's walk make one piece. */
  lemma WalkCompose(g: Graph, g1: Graph, g2: Graph, init: Path,
                    vec: seq<VecEntry>, vec1: seq<VecEntry>, vec2: seq<VecEntry>, sp: PageId, r1: int, r2: int)
    requires WalkPre(g, init, vec, sp) && WalkKeeps(g, g1, init, vec, vec1, sp) && r1 >= 0
    requires WalkPre(g1, init, vec1, sp) && WalkKeeps(g1, g2, init, vec1, vec2, sp)
    requires WalkResult(g, g1, vec, vec1, sp, r1) && WalkResult(g1, g2, vec1, vec2, sp, r2)
    ensures WalkKeeps(g, g2, init, vec, vec2, sp)
    ensures WalkResult(g, g2, vec, vec2, sp, if r2 < 0 then r2 else r1 + r2)
  {
    hide GraphInv, VecOk, LeavesOk, Chain, PathOf, LevelsOk, Work, HasLeaf;
    WalkKeepsTrans(g, g1, g2, init, vec, vec1, vec2, sp);
  }

  /** Clearing a bit that is not needed is a piece of the walk. */
  lemma {:induction false} WalkClear(g: Graph, g': Graph, init: Path, vec: seq<VecEntry>, sp: PageId, i: nat)
    requires WalkPre(g, init, vec, sp) && i in g[sp].bitmap && g' == ClearBit(g, sp, i)
    requires GraphInv(g') && LevelsOk(g') && OnlyCleared(g, g') && Work(g') == Work(g) - 1
    ensures WalkKeeps(g, g', init, vec, vec, sp)
    ensures WalkResult(g, g', vec, vec, sp, 0)
  {
    hide GraphInv, VecOk, Chain, PathOf, LevelsOk, Work;
    VecOkSameShape(g, g', init, vec);
    assert forall n :: IsLeafAt(g', vec, n) ==> IsLeafAt(g, vec, n);
  }

  /** Adding a child of `sp` to the vector is a piece of the walk of `sp`, and the walk of the
      child can start from there. */
  lemma WalkAdd(g: Graph, init: Path, vec: seq<VecEntry>, sp: PageId, i: nat, c: PageId)
    requires WalkPre(g, init, vec, sp) && Points(g, sp, i, c) && c in g && g[c].level + 1 == g[sp].level >= 2
    requires g[c].level == 1 ==> g[c].unsync && forall n :: 0 <= n < |vec| ==> vec[n].sp != c
    ensures WalkKeeps(g, g, init, vec, vec + [VecEntry(c, i)], sp)
    ensures g[c].level >= 2 && |vec| + 1 < ARRAY_NR ==> WalkPre(g, init, vec + [VecEntry(c, i)], c)
  {
    hide GraphInv, VecOk, PathOf, LevelsOk, Work;
    var e, path, l, top := VecEntry(c, i), PathOf(g, init, vec), g[c].level, g[vec[0].sp].level;
    assert HangsFrom(g, path, l + 1, i, c);
    LevelAtLeastOne(g, c);
    VecOkAppend(g, init, vec, e);
    var path' := StepPath(g, path, e);
    assert forall n :: IsLeafAt(g, vec + [e], n) ==> IsLeafAt(g, vec, n) || (n == |vec| && l == 1);
    assert AgreeFrom(path, path', l + 1);
    if l >= 2 {
      ChainExtend(g, path, e, top);
    }
  }

  lemma LevelAtLeastOne(g: Graph, p: PageId)
    requires LevelsOk(g) && p in g
    ensures 1 <= g[p].level <= MAX_LEVEL
  {
  }

  lemma ChainExtend(g: Graph, path: Path, e: VecEntry, top: nat)
    requires path.Sized() && e.sp in g && 2 <= g[e.sp].level <= MAX_LEVEL && EntryOk(g, path, e, top)
    ensures Chain(g, StepPath(g, path, e), g[e.sp].level, top)
  {
    var l, path' := g[e.sp].level, StepPath(g, path, e);
    assert forall k :: l < k && OnPath(g, path, k) ==> OnPath(g, path', k);
    assert forall k :: l + 1 < k && LinkedBelow(g, path, k) ==> LinkedBelow(g, path', k);
    assert OnPath(g, path', l) && LinkedBelow(g, path', l + 1);
  }

  /** The walk of a child, once the child is in the vector, is a piece of the walk of `sp`. */
  lemma WalkBelow(g: Graph, g': Graph, init: Path, vec: seq<VecEntry>, vec1: seq<VecEntry>, vec': seq<VecEntry>,
                  sp: PageId, c: PageId)
    requires WalkPre(g, init, vec, sp) && WalkKeeps(g, g, init, vec, vec1, sp)
    requires WalkPre(g, init, vec1, c) && WalkKeeps(g, g', init, vec1, vec', c) && g[c].level + 1 == g[sp].level
    ensures WalkKeeps(g, g', init, vec, vec', sp)
    ensures g'[sp] == g[sp]
  {
    hide GraphInv, VecOk, LeavesOk, Chain, PathOf, LevelsOk, Work;
    var l := g[sp].level;
    LevelAtLeastOne(g, sp);
    var p1, p' := PathOf(g, init, vec1), PathOf(g', init, vec');
    assert p1.parent[l - 2..] == p1.parent[l - 3..][1..] == p'.parent[l - 2..];
    assert p1.idx[l - 1..] == p1.idx[l - 2..][1..] == p'.idx[l - 1..];
  }

  lemma StartWalkPre(g: Graph, init: Path, sp: PageId)
    requires GraphInv(g) && LevelsOk(g) && sp in g && g[sp].level >= 2 && init.Sized()
    ensures WalkPre(g, init, [VecEntry(sp, INVALID_INDEX)], sp)
  {
    hide GraphInv;
    var vec := [VecEntry(sp, INVALID_INDEX)];
    assert forall n :: IsLeafAt(g, vec, n) ==> n == 0;
    assert OnPath(g, PathOf(g, init, vec), g[sp].level);
  }

  // ----- Replaying while leaves retire ---------------------------------------------------------

  lemma ChainKept(g: Graph, g': Graph, done: set<PageId>, path: Path, lo: nat, top: nat)
    requires Retired(g, g', done) && path.Sized() && Chain(g, path, lo, top)
    requires forall q :: q in done && q in g ==> g[q].level == 1
    ensures Chain(g', path, lo, top)
  {
    forall l | lo <= l <= top ensures OnPath(g', path, l) {
      ChainAt(g, path, lo, top, l);
      assert RetiredPage(g[path.parent[l - 2].value], g'[path.parent[l - 2].value], path.parent[l - 2].value, done);
    }
    forall l | lo < l <= top ensures LinkedBelow(g', path, l) {
      ChainAt(g, path, lo, top, l);
      ChainAt(g, path, lo, top, l - 1);
      assert RetiredPage(g[path.parent[l - 2].value], g'[path.parent[l - 2].value], path.parent[l - 2].value, done);
    }
  }

  /** `sp` is an unsync leaf at the lower end of the path. */
  ghost predicate LeafReady(g: Graph, path: Path, sp: PageId, top: nat) {
    && sp in g && g[sp].level == 1 && g[sp].unsync
    && path.Sized() && 2 <= top <= MAX_LEVEL && path.parent[top - 1] == None
    && Chain(g, path, 2, top) && HangsFrom(g, path, 2, path.idx[0], sp)
  }

  lemma LeafFacts(g: Graph, path: Path, sp: PageId, top: nat)
    requires LeafReady(g, path, sp, top)
    ensures sp in g && g[sp].unsync && g[sp].level == 1 && path.Sized() && 2 <= top <= MAX_LEVEL
    ensures path.parent[top - 1] == None
  {
  }

  /** The chain above a leaf stays as the walk found it while other leaves retire. */
  lemma {:induction false} LeafStillReady(g: Graph, g': Graph, init: Path, vec: seq<VecEntry>, n: nat)
    requires LevelsOk(g) && Rooted(g, vec) && init.Sized() && VecOk(g, init, vec) && LeavesOk(g, vec)
    requires 0 < n && IsLeafAt(g, vec, n) && Retired(g, g', LeafPages(g, vec, n))
    ensures Rooted(g, vec[..n + 1])
    ensures LeafReady(g', PathOf(g, init, vec[..n + 1]), vec[n].sp, g[vec[0].sp].level)
    ensures vec[n].sp !in LeafPages(g, vec, n)
  {
    hide VecOk, PathOf, LevelsOk;
    EntryAt(g, init, vec, n);
    LeafChain(g, g', LeafPages(g, vec, n), PathOf(g, init, vec[..n]), vec[n], g[vec[0].sp].level);
  }

  lemma LeafChain(g: Graph, g': Graph, done: set<PageId>, path: Path, e: VecEntry, top: nat)
    requires Retired(g, g', done) && path.Sized() && EntryOk(g, path, e, top) && e.sp !in done
    requires g[e.sp].level == 1 && g[e.sp].unsync
    requires forall q :: q in done && q in g ==> g[q].level == 1
    ensures LeafReady(g', StepPath(g, path, e), e.sp, top)
  {
    ChainKept(g, g', done, path, 2, top);
    var path' := StepPath(g, path, e);
    assert AgreeFrom(path, path', 2);
    ChainAgree(g', path, path', 2, top);
    assert RetiredPage(g[e.sp], g'[e.sp], e.sp, done);
    var a := path.parent[0].value;
    ChainAt(g, path, 2, top, 2);
    assert RetiredPage(g[a], g'[a], a, done);
    ChainAt(g', path', 2, top, 2);
  }

  /** Once the leaf is synced, and perhaps unlinked, its bit in the page above is still set but no
      longer needed, and the chain above it is intact. */
  lemma LeafDone(g: Graph, g': Graph, path: Path, sp: PageId, top: nat)
    requires GraphInv(g) && GraphInv(g') && LeafReady(g, path, sp, top) && Unlinked(SetSync(g, sp), g', sp)
    ensures Chain(g', path, 2, top) && OnPath(g', path, 2)
    ensures path.idx[0] in g'[path.parent[0].value].bitmap
    ensures forall c :: Points(g', path.parent[0].value, path.idx[0], c) ==> c in g' && !g'[c].Dirty()
  {
    hide GraphInv, Chain, Retired;
    RetiredStart(g);
    RetireOne(g, g, g', g', {}, sp);
    assert {} + {sp} == {sp};
    ChainKept(g, g', {sp}, path, 2, top);
    ChainAt(g', path, 2, top, 2);
    var a := path.parent[0].value;
    CoveredBit(g, a, path.idx[0], sp);
    assert UnlinkedPage(SetSync(g, sp)[a], g'[a], a, sp);
    assert UnlinkedPage(SetSync(g, sp)[sp], g'[sp], sp, sp);
    GraphFacts(g', sp);
  }

  ghost function LeafPages(g: Graph, vec: seq<VecEntry>, n: nat): set<PageId>
    requires InVec(g, vec) && n <= |vec|
  {
    set k | 0 <= k < n && IsLeafAt(g, vec, k) :: vec[k].sp
  }

  lemma LeafPagesStep(g: Graph, vec: seq<VecEntry>, n: nat, m: nat)
    requires InVec(g, vec) && n < m <= |vec|
    requires forall k :: n < k < m ==> !IsLeafAt(g, vec, k)
    ensures IsLeafAt(g, vec, n) ==> LeafPages(g, vec, m) == LeafPages(g, vec, n) + {vec[n].sp}
    ensures !IsLeafAt(g, vec, n) ==> LeafPages(g, vec, m) == LeafPages(g, vec, n)
  {
  }

  lemma RootedFacts(g: Graph, vec: seq<VecEntry>)
    requires Rooted(g, vec)
    ensures |vec| > 0 && InVec(g, vec) && vec[0].sp in g && g[vec[0].sp].level >= 2
    ensures !IsLeafAt(g, vec, 0) && LeafPages(g, vec, 0) == {}
  {
  }

  lemma LeafPagesHas(g: Graph, vec: seq<VecEntry>, n: nat)
    requires InVec(g, vec) && IsLeafAt(g, vec, n)
    ensures {vec[n].sp} <= LeafPages(g, vec, |vec|)
  {
  }

  lemma LeafPagesAll(g: Graph, vec: seq<VecEntry>)
    requires InVec(g, vec)
    ensures HasLeaf(g, vec) ==> LeafPages(g, vec, |vec|) != {}
  {
    if HasLeaf(g, vec) {
      var n :| IsLeafAt(g, vec, n);
      assert vec[n].sp in LeafPages(g, vec, |vec|);
    }
  }

  /** The element at `n` hangs off the path built by the elements before it. */
  lemma {:induction false} EntryAt(g: Graph, init: Path, vec: seq<VecEntry>, n: nat)
    requires LevelsOk(g) && Rooted(g, vec) && init.Sized() && VecOk(g, init, vec) && 0 < n < |vec|
    ensures Rooted(g, vec[..n]) && EntryOk(g, PathOf(g, init, vec[..n]), vec[n], g[vec[0].sp].level)
    ensures Rooted(g, vec[..n + 1])
    ensures PathOf(g, init, vec[..n + 1]) == StepPath(g, PathOf(g, init, vec[..n]), vec[n])
  {
    hide EntryOk, LevelsOk, StepPath;
    VecOkPrefix(g, init, vec, n + 1);
    assert vec[..n + 1][..n] == vec[..n];
  }

  lemma {:induction false} PathOfStep(g: Graph, init: Path, vec: seq<VecEntry>, n: nat)
    requires LevelsOk(g) && Rooted(g, vec) && init.Sized() && 0 < n < |vec|
    ensures Rooted(g, vec[..n]) && Rooted(g, vec[..n + 1]) && 1 <= g[vec[n].sp].level <= MAX_LEVEL
    ensures PathOf(g, init, vec[..n + 1]) == StepPath(g, PathOf(g, init, vec[..n]), vec[n])
  {
    assert vec[..n + 1][..n] == vec[..n];
  }

  lemma LeafKept(g: Graph, g': Graph, vec: seq<VecEntry>)
    requires SameLevels(g, g') && LevelsOk(g) && Rooted(g, vec)
    ensures LevelsOk(g') && Rooted(g', vec)
    ensures forall n :: IsLeafAt(g, vec, n) <==> IsLeafAt(g', vec, n)
  {
  }
}
