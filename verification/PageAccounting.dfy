/**
 Page lists, generations and counters of the shadow MMU: which pages are in use, which are
 shadowed guest page tables, and how often each guest frame is write-tracked.
 */
module PageAccounting {
  import opened ShadowGraph

  const TRACK_MAX: nat := 65535     // USHRT_MAX

  type Gfn = nat

  type u16 = n: nat | n <= TRACK_MAX

  /** The fields of `struct kvm_mmu_page` that lists and counters depend on. */
  datatype Meta = Meta(
    gfn: Gfn,
    level: nat,
    direct: bool,
    invalid: bool,
    rootCount: nat,
    gen: nat)                       // mmu_valid_gen

  type Metas = map<PageId, Meta>

  ghost predicate NoDup(s: seq<PageId>) {
    forall i, j :: 0 <= i < j < |s| ==> s[i] != s[j]
  }

  // ----- Lists ---------------------------------------------------------------------------

  function IndexOf(s: seq<PageId>, p: PageId): (k: nat)
    requires p in s
    ensures k < |s| && s[k] == p
  {
    if s[0] == p then 0 else 1 + IndexOf(s[1..], p)
  }

  /** list_del: the list without the (only) occurrence of `p`. */
  function Without(s: seq<PageId>, p: PageId): (r: seq<PageId>)
    requires p in s
  {
    var k := IndexOf(s, p);
    s[..k] + s[k + 1..]
  }

  lemma WithoutFacts(s: seq<PageId>, p: PageId)
    requires p in s && NoDup(s)
    ensures |Without(s, p)| == |s| - 1 && NoDup(Without(s, p))
    ensures forall q :: q in Without(s, p) <==> q in s && q != p
  {
    var k, r := IndexOf(s, p), Without(s, p);
    forall q ensures q in r <==> q in s && q != p {
      if q in s && q != p {
        var j :| 0 <= j < |s| && s[j] == q;
        assert q == r[if j < k then j else j - 1];
      }
      if q in r {
        var j :| 0 <= j < |r| && r[j] == q;
        assert q == s[if j < k then j else j + 1];
      }
    }
  }

  // ----- First in, first out -----------------------------------------------------------------

  /** Nearer the head means not older, except that invalid pages may sit anywhere ahead. */
  ghost predicate Fifo(active: seq<PageId>, meta: Metas)
    requires forall p :: p in active ==> p in meta
  {
    forall i, j :: 0 <= i < j < |active| ==>
      !meta[active[i]].invalid ==> meta[active[i]].gen >= meta[active[j]].gen
  }

  ghost predicate Ordered(active: seq<PageId>, meta: Metas, validGen: nat) {
    && NoDup(active)
    && (forall p :: p in active ==> p in meta)
    && Fifo(active, meta)
    && (forall p :: p in meta ==> meta[p].gen <= validGen)
  }

  /** Taking a page off the list and marking it invalid keeps the order ... */
  lemma OrderedRemove(active: seq<PageId>, meta: Metas, validGen: nat, p: PageId)
    requires Ordered(active, meta, validGen) && p in active
    ensures Ordered(Without(active, p), meta[p := meta[p].(invalid := true)], validGen)
  {
    WithoutFacts(active, p);
    var k, r := IndexOf(active, p), Without(active, p);
    forall i, j | 0 <= i < j < |r| && !meta[r[i]].invalid
      ensures meta[r[i]].gen >= meta[r[j]].gen
    {
      var i', j' := if i < k then i else i + 1, if j < k then j else j + 1;
      assert r[i] == active[i'] && r[j] == active[j'];
    }
  }

  /** ... and so does moving it to the head instead. */
  lemma OrderedMoveToHead(active: seq<PageId>, meta: Metas, validGen: nat, p: PageId)
    requires Ordered(active, meta, validGen) && p in active
    ensures Ordered([p] + Without(active, p), meta[p := meta[p].(invalid := true)], validGen)
  {
    OrderedRemove(active, meta, validGen, p);
    WithoutFacts(active, p);
  }

  lemma OrderedAdd(active: seq<PageId>, meta: Metas, validGen: nat, p: PageId, m: Meta)
    requires Ordered(active, meta, validGen) && p !in meta && m.gen == validGen
    ensures Ordered([p] + active, meta[p := m], validGen)
  {
  }

  // ----- Where pages live -----------------------------------------------------------------

  /** Every page is on the active list or on an invalid list; the latter holds only invalid
      pages that no root refers to. */
  ghost predicate Listed(active: seq<PageId>, zapped: set<PageId>, meta: Metas) {
    && (forall p :: p in meta <==> p in active || p in zapped)
    && (forall p :: p in active ==> p !in zapped)
    && (forall p :: p in zapped ==> meta[p].invalid && meta[p].rootCount == 0)
    && (forall p :: p in meta && meta[p].rootCount > 0 ==> meta[p].level > 1)
  }

  lemma ListedRetire(active: seq<PageId>, zapped: set<PageId>, meta: Metas, validGen: nat, p: PageId)
    requires Listed(active, zapped, meta) && p in active && Ordered(active, meta, validGen)
    ensures p in meta
    ensures var meta' := meta[p := meta[p].(invalid := true)];
      && |Without(active, p)| == |active| - 1
      && (meta[p].rootCount == 0 ==> Listed(Without(active, p), zapped + {p}, meta'))
      && (meta[p].rootCount > 0 ==> Listed([p] + Without(active, p), zapped, meta'))
  {
    WithoutFacts(active, p);
  }

  /** Graph and books speak of the same pages; pages waiting to be freed are blank. */
  ghost predicate Linked(g: Graph, meta: Metas, zapped: set<PageId>) {
    && g.Keys == meta.Keys
    && (forall p :: p in g ==> g[p].level == meta[p].level)
    && (forall p :: p in zapped ==> p in g && g[p].Blank())
  }

  lemma LinkedCleared(g: Graph, g': Graph, meta: Metas, zapped: set<PageId>)
    requires Linked(g, meta, zapped) && OnlyCleared(g, g')
    ensures Linked(g', meta, zapped) && SameLevels(g, g')
  {
  }

  // ----- Counters ---------------------------------------------------------------------------

  ghost predicate IsIndirect(m: Meta) {
    !m.direct && !m.invalid
  }

  ghost predicate IsTracked(m: Meta, gfn: Gfn) {
    !m.direct && !m.invalid && m.level > 1 && m.gfn == gfn
  }

  ghost function IndirectPages(meta: Metas): set<PageId> {
    set p | p in meta && IsIndirect(meta[p])
  }

  ghost function TrackedPages(meta: Metas, gfn: Gfn): set<PageId> {
    set p | p in meta && IsTracked(meta[p], gfn)
  }

  function TrackCount(track: map<Gfn, u16>, gfn: Gfn): u16 {
    if gfn in track then track[gfn] else 0
  }

  /** update_gfn_track: refuses to leave the range of an unsigned short. */
  function UpdateTrack(track: map<Gfn, u16>, gfn: Gfn, count: int): (r: (map<Gfn, u16>, bool))
    ensures r.1 <==> 0 <= TrackCount(track, gfn) + count <= TRACK_MAX
    ensures r.1 ==> TrackCount(r.0, gfn) == TrackCount(track, gfn) + count
    ensures !r.1 ==> r.0 == track
    ensures forall h :: h != gfn ==> TrackCount(r.0, h) == TrackCount(track, h)
  {
    var val := TrackCount(track, gfn);
    if val + count < 0 || val + count > TRACK_MAX then (track, false)
    else (track[gfn := val + count], true)
  }

  ghost predicate TrackExact(meta: Metas, track: map<Gfn, u16>) {
    forall gfn :: TrackCount(track, gfn) == |TrackedPages(meta, gfn)|
  }

  /** What marking one page invalid does to the sets that are counted. */
  lemma InvalidateSets(meta: Metas, p: PageId)
    requires p in meta
    ensures var meta' := meta[p := meta[p].(invalid := true)];
      && IndirectPages(meta') == IndirectPages(meta) - {p}
      && forall gfn :: TrackedPages(meta', gfn) == TrackedPages(meta, gfn) - {p}
  {
    var meta' := meta[p := meta[p].(invalid := true)];
    assert IndirectPages(meta') == IndirectPages(meta) - {p};
    forall gfn ensures TrackedPages(meta', gfn) == TrackedPages(meta, gfn) - {p} {
      assert TrackedPages(meta', gfn) == TrackedPages(meta, gfn) - {p};
    }
  }

  /** indirect_shadow_pages counts the valid indirect pages, and unless the range check has
      ever refused, each frame's write-track count is the number of its valid indirect pages
      above level one. */
  ghost predicate Counts(meta: Metas, indirect: int, track: map<Gfn, u16>, capped: bool) {
    indirect == |IndirectPages(meta)| && (!capped ==> TrackExact(meta, track))
  }

  /** unaccount_shadowed and the invalid mark together keep the counts. */
  lemma RetireCounts(meta: Metas, indirect: int, track: map<Gfn, u16>, capped: bool, p: PageId)
    requires p in meta && Counts(meta, indirect, track, capped)
    ensures var m, meta' := meta[p], meta[p := meta[p].(invalid := true)];
      var r := UpdateTrack(track, m.gfn, -1);
      && (!IsIndirect(m) ==> Counts(meta', indirect, track, capped))
      && (IsIndirect(m) && m.level <= 1 ==> Counts(meta', indirect - 1, track, capped))
      && (IsIndirect(m) && m.level > 1 ==> Counts(meta', indirect - 1, r.0, capped || !r.1) && (capped || r.1))
  {
    hide IndirectPages, TrackedPages, IsIndirect, TrackCount;
    RetireSizes(meta, p);
    TrackedIsIndirect(meta[p]);
  }

  lemma TrackedIsIndirect(m: Meta)
    ensures forall gfn :: IsTracked(m, gfn) <==> IsIndirect(m) && m.level > 1 && m.gfn == gfn
  {
  }

  lemma RetireSizes(meta: Metas, p: PageId)
    requires p in meta
    ensures var m, meta' := meta[p], meta[p := meta[p].(invalid := true)];
      && |IndirectPages(meta')| == |IndirectPages(meta)| - (if IsIndirect(m) then 1 else 0)
      && forall gfn :: |TrackedPages(meta', gfn)| == |TrackedPages(meta, gfn)| - if IsTracked(m, gfn) then 1 else 0
  {
    var m, meta' := meta[p], meta[p := meta[p].(invalid := true)];
    InvalidateSets(meta, p);
    if IsIndirect(m) {
      assert p in IndirectPages(meta);
    } else {
      assert IndirectPages(meta) - {p} == IndirectPages(meta);
    }
    forall gfn ensures |TrackedPages(meta', gfn)| == |TrackedPages(meta, gfn)| - if IsTracked(m, gfn) then 1 else 0 {
      if IsTracked(m, gfn) {
        assert p in TrackedPages(meta, gfn);
      } else {
        assert TrackedPages(meta, gfn) - {p} == TrackedPages(meta, gfn);
      }
    }
  }

  /** account_shadowed keeps the counts for a new page. */
  lemma AddCounts(meta: Metas, indirect: int, track: map<Gfn, u16>, capped: bool, p: PageId, m: Meta)
    requires p !in meta && !m.invalid && Counts(meta, indirect, track, capped)
    ensures var meta', r := meta[p := m], UpdateTrack(track, m.gfn, 1);
      && (m.direct ==> Counts(meta', indirect, track, capped))
      && (!m.direct && m.level <= 1 ==> Counts(meta', indirect + 1, track, capped))
      && (!m.direct && m.level > 1 ==> Counts(meta', indirect + 1, r.0, capped || !r.1))
  {
    AddSets(meta, p, m);
    assert p !in IndirectPages(meta);
    assert forall gfn :: p !in TrackedPages(meta, gfn);
  }

  lemma AddSets(meta: Metas, p: PageId, m: Meta)
    requires p !in meta
    ensures var meta' := meta[p := m];
      && IndirectPages(meta') == IndirectPages(meta) + (if IsIndirect(m) then {p} else {})
      && forall gfn :: TrackedPages(meta', gfn) == TrackedPages(meta, gfn) + if IsTracked(m, gfn) then {p} else {}
  {
    var meta' := meta[p := m];
    assert IndirectPages(meta') == IndirectPages(meta) + (if IsIndirect(m) then {p} else {});
    forall gfn ensures TrackedPages(meta', gfn) == TrackedPages(meta, gfn) + if IsTracked(m, gfn) then {p} else {} {
      assert TrackedPages(meta', gfn) == TrackedPages(meta, gfn) + if IsTracked(m, gfn) then {p} else {};
    }
  }

  /** While no count was ever refused, an untracked frame has no valid shadow page above level one. */
  lemma UntrackedIsLeaf(meta: Metas, indirect: int, track: map<Gfn, u16>, gfn: Gfn, p: PageId)
    requires Counts(meta, indirect, track, false) && TrackCount(track, gfn) == 0
    requires p in meta && IsIndirect(meta[p]) && meta[p].gfn == gfn
    ensures meta[p].level <= 1
  {
    assert meta[p].level > 1 ==> p in TrackedPages(meta, gfn);
  }

  lemma SameSets(meta: Metas, meta': Metas)
    requires forall p :: p in meta && !meta[p].invalid ==> p in meta'
    requires forall p :: p in meta' ==>
      p in meta && meta'[p].(rootCount := meta[p].rootCount) == meta[p]
    ensures IndirectPages(meta') == IndirectPages(meta)
    ensures forall gfn :: TrackedPages(meta', gfn) == TrackedPages(meta, gfn)
  {
  }

  /** Invalid pages that are still active although no root refers to them. */
  ghost function Dangling(active: seq<PageId>, meta: Metas): set<PageId> {
    set p | p in active && p in meta && meta[p].invalid && meta[p].rootCount == 0
  }

  // ----- Ageing ------------------------------------------------------------------------------

  /** Pages are as before, except that some have become invalid. */
  ghost predicate Aged(meta: Metas, meta': Metas) {
    && meta.Keys == meta'.Keys
    && forall p :: p in meta ==> meta'[p] == meta[p] || meta'[p] == meta[p].(invalid := true)
  }

  lemma AgedTrans(meta: Metas, meta1: Metas, meta2: Metas)
    requires Aged(meta, meta1) && Aged(meta1, meta2)
    ensures Aged(meta, meta2)
  {
  }

  lemma AgedInvalidate(meta: Metas, meta1: Metas, p: PageId)
    requires Aged(meta, meta1) && p in meta1
    ensures Aged(meta, meta1[p := meta1[p].(invalid := true)])
  {
  }

  /** `n` level-one pages have left the active list; all other pages are as before. */
  ghost predicate Shrank(active: seq<PageId>, active': seq<PageId>, meta: Metas, meta': Metas, n: int) {
    && Aged(meta, meta')
    && |active'| == |active| - n
    && (forall p :: p in active' ==> p in active)
    && (forall p :: p in active && p in meta && meta[p].level > 1 ==> p in active' && meta'[p] == meta[p])
    && Dangling(active', meta') <= Dangling(active, meta)
    && (n == 0 ==> meta' == meta && active' == active)
  }

  lemma ShrankSelf(active: seq<PageId>, meta: Metas)
    ensures Shrank(active, active, meta, meta, 0)
  {
  }

  lemma ShrankTrans(active: seq<PageId>, active1: seq<PageId>, active2: seq<PageId>,
                    meta: Metas, meta1: Metas, meta2: Metas, n: nat, m: nat)
    requires Shrank(active, active1, meta, meta1, n) && Shrank(active1, active2, meta1, meta2, m)
    ensures Shrank(active, active2, meta, meta2, n + m)
  {
    AgedTrans(meta, meta1, meta2);
  }

  lemma ShrankAt(active: seq<PageId>, active': seq<PageId>, meta: Metas, meta': Metas, n: int, p: PageId)
    requires Shrank(active, active', meta, meta', n) && p in active && p in meta && (meta[p].level > 1 || n == 0)
    ensures p in active' && p in meta' && meta'[p] == meta[p]
  {
  }

  lemma ShrankDangling(active: seq<PageId>, active': seq<PageId>, meta: Metas, meta': Metas, n: int)
    requires Shrank(active, active', meta, meta', n)
    ensures Dangling(active', meta') <= Dangling(active, meta)
  {
  }

  /** What zapping `p` does to the list: `n` pages have left it, others only became invalid, and
      a page that stays because a root refers to it is at the head. */
  ghost predicate Zapped(active: seq<PageId>, active': seq<PageId>, meta: Metas, meta': Metas, p: PageId, n: int) {
    && p in active && p in meta
    && Aged(meta, meta') && meta'[p].invalid
    && |active'| == |active| - n
    && (forall q :: q in active' ==> q in active)
    && (forall q :: q != p && q in active && q in meta && meta[q].level > 1 ==> q in active' && meta'[q] == meta[q])
    && Dangling(active', meta') <= Dangling(active, meta) - {p}
    && (n == 0 ==> meta' == meta[p := meta[p].(invalid := true)] && active' == [p] + Without(active, p))
  }

  lemma ZappedIntro(active: seq<PageId>, active1: seq<PageId>, meta: Metas, meta1: Metas, p: PageId, n: nat, m: nat)
    requires Shrank(active, active1, meta, meta1, n) && p in active && p in active1 && p in meta && meta1[p] == meta[p]
    requires NoDup(active1) && m == if meta[p].rootCount == 0 then 1 else 0
    ensures var active' := if m == 1 then Without(active1, p) else [p] + Without(active1, p);
      Zapped(active, active', meta, meta1[p := meta1[p].(invalid := true)], p, n + m)
  {
    WithoutFacts(active1, p);
    AgedInvalidate(meta, meta1, p);
  }

  lemma ZappedLeaf(active: seq<PageId>, active': seq<PageId>, meta: Metas, meta': Metas, p: PageId)
    requires Zapped(active, active', meta, meta', p, 1) && meta[p].level == 1
    ensures Shrank(active, active', meta, meta', 1)
  {
  }

  lemma LinkedSync(g: Graph, meta: Metas, zapped: set<PageId>, s: PageId)
    requires Linked(g, meta, zapped) && s in g
    ensures Linked(SetSync(g, s), meta, zapped)
  {
  }

  lemma LinkedMarked(g: Graph, g': Graph, meta: Metas, zapped: set<PageId>)
    requires Linked(g, meta, zapped) && OnlyMarked(g, g')
    ensures Linked(g', meta, zapped)
  {
  }

  lemma LinkedUnsync(g: Graph, meta: Metas, zapped: set<PageId>, s: PageId)
    requires Linked(g, meta, zapped) && s in g && s !in zapped
    ensures Linked(SetUnsync(g, s), meta, zapped)
  {
  }

  lemma LinkedAddEdge(g: Graph, meta: Metas, zapped: set<PageId>, p: PageId, i: nat, c: PageId)
    requires Linked(g, meta, zapped) && p in g && c in g && p !in zapped && c !in zapped && i < |g[p].spt| && p != c
    ensures Linked(AddEdge(g, p, i, c), meta, zapped)
  {
  }

  lemma LinkedAdd(g: Graph, meta: Metas, zapped: set<PageId>, p: PageId, m: Meta)
    requires Linked(g, meta, zapped) && p !in meta
    ensures Linked(g[p := NewPage(m.level)], meta[p := m], zapped)
  {
  }

  lemma LinkedRoot(g: Graph, meta: Metas, zapped: set<PageId>, p: PageId, n: nat)
    requires Linked(g, meta, zapped) && p in meta
    ensures Linked(g, meta[p := meta[p].(rootCount := n)], zapped)
  {
  }

  lemma LinkedFree(g: Graph, meta: Metas, zapped: set<PageId>)
    requires Linked(g, meta, zapped)
    ensures Linked(g - zapped, meta - zapped, {})
  {
  }

  lemma LinkedUnlinked(g: Graph, g': Graph, meta: Metas, zapped: set<PageId>, s: PageId)
    requires Linked(g, meta, zapped) && s in g && Unlinked(SetSync(g, s), g', s)
    ensures Linked(g', meta, zapped)
  {
    forall q | q in g ensures UnlinkedPage(SetSync(g, s)[q], g'[q], q, s) {
    }
  }

  lemma LinkedDropped(g: Graph, g': Graph, meta: Metas, zapped: set<PageId>, s: PageId)
    requires Linked(g, meta, zapped) && s in g && Unlinked(g, g', s)
    ensures Linked(g', meta, zapped) && s in g' && |g'[s].spt| == |g[s].spt|
  {
    forall q | q in g ensures UnlinkedPage(g[q], g'[q], q, s) {
    }
  }

  lemma LinkedRetire(g: Graph, meta: Metas, zapped: set<PageId>, p: PageId)
    requires Linked(g, meta, zapped) && p in meta && g[p].Blank()
    ensures Linked(g, meta[p := meta[p].(invalid := true)], zapped)
    ensures Linked(g, meta[p := meta[p].(invalid := true)], zapped + {p})
  {
  }

  /** for_each_gfn_indirect_valid_sp visits these pages. */
  predicate ShadowsGfn(m: Meta, gfn: Gfn, validGen: nat) {
    m.gfn == gfn && !m.direct && !m.invalid && m.gen == validGen
  }

  lemma ShrankBig(active: seq<PageId>, active': seq<PageId>, meta: Metas, meta': Metas, n: int)
    requires Shrank(active, active', meta, meta', n)
    ensures forall p :: p in active && p in meta && meta[p].level > 1 ==> p in active' && p in meta' && meta'[p] == meta[p]
    ensures forall p :: p in meta' ==> p in meta
  {
  }

  ghost function StaleValid(active: seq<PageId>, meta: Metas, validGen: nat): set<PageId>
    requires forall p :: p in active ==> p in meta
  {
    set p | p in active && !meta[p].invalid && meta[p].gen != validGen
  }

  // ----- Finding obsolete pages ---------------------------------------------------------------------

  /** Scanning from the tail, once the pages behind `k` are invalid and the page at `k` is
      current, no valid old page can be ahead of it. */
  lemma NoStaleAhead(active: seq<PageId>, meta: Metas, validGen: nat, k: int)
    requires Ordered(active, meta, validGen) && -1 <= k < |active|
    requires forall j :: k < j < |active| ==> meta[active[j]].invalid
    requires k >= 0 ==> meta[active[k]].gen == validGen
    ensures forall p :: p in active ==> meta[p].invalid || meta[p].gen == validGen
  {
    forall p | p in active ensures meta[p].invalid || meta[p].gen == validGen {
      var i :| 0 <= i < |active| && active[i] == p;
    }
  }

  lemma StaleShrinks(active: seq<PageId>, active': seq<PageId>, meta: Metas, meta': Metas, validGen: nat, p: PageId, n: int)
    requires Zapped(active, active', meta, meta', p, n) && !meta[p].invalid && meta[p].gen != validGen
    requires (forall q :: q in active ==> q in meta) && (forall q :: q in active' ==> q in meta')
    ensures StaleValid(active', meta', validGen) < StaleValid(active, meta, validGen)
  {
    assert p in StaleValid(active, meta, validGen) && p !in StaleValid(active', meta', validGen);
  }

  lemma ZappedDangling(active: seq<PageId>, active': seq<PageId>, meta: Metas, meta': Metas, p: PageId, n: int)
    requires Zapped(active, active', meta, meta', p, n)
    ensures Dangling(active', meta') <= Dangling(active, meta) - {p}
    ensures |active'| == |active| - n
  {
  }

  lemma ZappedGone(active: seq<PageId>, active': seq<PageId>, meta: Metas, meta': Metas, p: PageId, n: int)
    requires Zapped(active, active', meta, meta', p, n) && meta[p].rootCount == 0
    ensures p !in active' && Dangling(active', meta') <= Dangling(active, meta) - {p}
  {
    assert p in active' ==> p in Dangling(active', meta');
  }

  lemma ZappedInUse(active: seq<PageId>, active': seq<PageId>, meta: Metas, meta': Metas, p: PageId, n: int)
    requires Zapped(active, active', meta, meta', p, n)
    ensures n == 0 ==> active' == [p] + Without(active, p) && p in meta' && meta'[p].invalid && meta'[p].rootCount > 0
  {
    assert p in active' && meta'[p].rootCount == 0 ==> p in Dangling(active', meta');
  }

  /** A root moved to the head leaves the part of the list behind it in place. */
  lemma MovedToHead(active: seq<PageId>, active': seq<PageId>, meta: Metas, meta': Metas, k: nat)
    requires k < |active| && NoDup(active) && (forall q :: q in active ==> q in meta)
    requires Zapped(active, active', meta, meta', active[k], 0)
    requires forall j :: k < j < |active| ==> meta[active[j]].invalid
    ensures |active'| == |active| && (forall q :: q in active' ==> q in meta')
    ensures forall j :: k < j < |active'| ==> meta'[active'[j]].invalid
    ensures k == 0 ==> meta'[active'[0]].invalid
  {
    assert IndexOf(active, active[k]) == k;
    assert forall j :: k < j < |active| ==> active'[j] == active[j];
  }

  // ----- Freeing and adding ---------------------------------------------------------------------------

  lemma FreeBooks(active: seq<PageId>, zapped: set<PageId>, meta: Metas, validGen: nat,
                  indirect: int, track: map<Gfn, u16>, capped: bool)
    requires Ordered(active, meta, validGen) && Listed(active, zapped, meta) && Counts(meta, indirect, track, capped)
    ensures Ordered(active, meta - zapped, validGen) && Listed(active, {}, meta - zapped)
    ensures Counts(meta - zapped, indirect, track, capped)
    ensures Dangling(active, meta - zapped) == Dangling(active, meta)
    ensures forall p :: p in active ==> p in meta && p !in zapped
  {
    SameSets(meta, meta - zapped);
  }

  lemma AddDangling(active: seq<PageId>, meta: Metas, p: PageId, m: Meta)
    requires p !in meta && !m.invalid && forall q :: q in active ==> q in meta
    ensures Dangling([p] + active, meta[p := m]) == Dangling(active, meta)
  {
  }

  lemma ListedAdd(active: seq<PageId>, zapped: set<PageId>, meta: Metas, p: PageId, m: Meta)
    requires Listed(active, zapped, meta) && p !in meta && !m.invalid && m.rootCount == 0
    ensures Listed([p] + active, zapped, meta[p := m])
  {
  }

  /** Taking or dropping a reference changes no list and no count. */
  lemma RootBooks(active: seq<PageId>, zapped: set<PageId>, meta: Metas, validGen: nat,
                  indirect: int, track: map<Gfn, u16>, capped: bool, p: PageId, n: nat)
    requires Ordered(active, meta, validGen) && Listed(active, zapped, meta) && Counts(meta, indirect, track, capped)
    requires p in active && p in meta && (n > 0 ==> meta[p].level > 1)
    ensures var meta' := meta[p := meta[p].(rootCount := n)];
      && Ordered(active, meta', validGen) && Listed(active, zapped, meta') && Counts(meta', indirect, track, capped)
      && Dangling(active, meta') <= Dangling(active, meta) + {p}
      && (n > 0 || !meta[p].invalid ==> Dangling(active, meta') <= Dangling(active, meta))
  {
    SameSets(meta, meta[p := meta[p].(rootCount := n)]);
  }

  // ----- Syncing a frame ---------------------------------------------------------------------------

  /** No valid indirect page of the frame is unsync. */
  ghost predicate Synced(meta: Metas, pages: Graph, gfn: Gfn, validGen: nat) {
    forall q :: q in meta && ShadowsGfn(meta[q], gfn, validGen) ==> q in pages && !pages[q].unsync
  }

  lemma SyncedIntro(meta: Metas, pages: Graph, gfn: Gfn, validGen: nat)
    requires forall q :: q in meta && ShadowsGfn(meta[q], gfn, validGen) ==> q in pages && !pages[q].unsync
    ensures Synced(meta, pages, gfn, validGen)
  {
  }

  lemma AddSynced(meta: Metas, pages: Graph, p: PageId, m: Meta, pg: Page, gfn: Gfn, validGen: nat)
    requires !pg.unsync
    ensures Synced(meta, pages, gfn, validGen) ==> Synced(meta[p := m], pages[p := pg], gfn, validGen)
  {
    hide ShadowsGfn;
  }

  lemma SyncedSubset(meta: Metas, pages: Graph, meta': Metas, pages': Graph, gfn: Gfn, validGen: nat)
    requires Synced(meta, pages, gfn, validGen)
    requires (forall q :: q in meta' ==> q in meta && meta'[q] == meta[q] && q in pages') && forall q :: q in pages' ==> q in pages && pages'[q] == pages[q]
    ensures Synced(meta', pages', gfn, validGen)
  {
    hide ShadowsGfn;
  }

  // ----- A root that cannot go ----------------------------------------------------------------------

  /** The last page of `before` is an invalid root and has been moved to the head. */
  ghost predicate HeldRoot(active: seq<PageId>, meta: Metas, before: seq<PageId>)
    requires before != []
  {
    var sp := before[|before| - 1];
    active == [sp] + Without(before, sp) && sp in meta && meta[sp].invalid && meta[sp].rootCount > 0
  }

  lemma HeldRootIntro(active: seq<PageId>, meta: Metas, before: seq<PageId>)
    requires before != []
    requires var sp := before[|before| - 1];
      active == [sp] + Without(before, sp) && sp in meta && meta[sp].invalid && meta[sp].rootCount > 0
    ensures HeldRoot(active, meta, before)
  {
  }

  lemma HeldRootKept(active: seq<PageId>, meta: Metas, zapped: set<PageId>, before: seq<PageId>)
    requires before != [] && HeldRoot(active, meta, before) && forall p :: p in active ==> p !in zapped
    ensures HeldRoot(active, meta - zapped, before)
  {
    assert active[0] in active;
  }

  // ----- How many pages there can be -----------------------------------------------------------------

  lemma ZappedKeys(active: seq<PageId>, active': seq<PageId>, meta: Metas, meta': Metas, p: PageId, n: int)
    requires Zapped(active, active', meta, meta', p, n)
    ensures meta'.Keys == meta.Keys
  {
  }

  lemma {:induction false} SubsetSize(a: set<PageId>, b: set<PageId>)
    requires a <= b
    ensures |a| <= |b|
  {
    if a != {} {
      var x :| x in a;
      SubsetSize(a - {x}, b - {x});
    }
  }

  lemma TrackedAreFew(meta: Metas, gfn: Gfn)
    ensures |TrackedPages(meta, gfn)| <= |meta|
  {
    SubsetSize(TrackedPages(meta, gfn), meta.Keys);
    assert |meta.Keys| == |meta|;
  }

  lemma FewMore(meta: Metas, meta': Metas, p: PageId)
    requires meta'.Keys <= meta.Keys + {p}
    ensures |meta'| <= |meta| + 1
  {
    SubsetSize(meta'.Keys, meta.Keys + {p});
    SubsetSize(meta.Keys, meta.Keys + {p});
    assert |meta.Keys + {p}| <= |meta.Keys| + 1;
    assert |meta.Keys| == |meta| && |meta'.Keys| == |meta'|;
  }

  lemma LinkedLeaf(g: Graph, meta: Metas, zapped: set<PageId>, p: PageId, i: nat)
    requires Linked(g, meta, zapped) && p in g && p !in zapped && i < |g[p].spt|
    ensures Linked(g[p := g[p].(spt := g[p].spt[i := Leaf])], meta, zapped)
  {
  }
}
