# KVM-PT in Dafny

KVM-PT is a fork of the x86 part of KVM with Intel Processor Trace support. This project models the
parts of it whose correctness is hardest to see from the code, and proves what they promise.

| file | what it models |
|---|---|
| `ShadowGraph.dfy`, `PageVec.dfy`, `PageAccounting.dfy`, `PageCull.dfy`, `ShadowMmu.dfy` | the shadow page graph of `mmu.c`: unsync marking, the 16-entry work vector, sync, zap, generation-based invalidation, and the counters kept beside it |
| `RmapList.dfy` | the reverse-map list with its zero/one/many encoding |
| `FastFault.dfy` | the lockless page fault against write protection for dirty logging and page tracking |
| `Lapic.dfy`, `IrrPending.dfy` | interrupt priority with the summary caches of the in-service register, and the lock-free `irr_pending` hint |
| `ApicMap.dfy` | the destination table and its fast lookup against the full matching loop |
| `Mtrr.dfy`, `MtrrLookup.dfy` | the sorted list of variable ranges, the iterator over fixed and variable ranges, and the huge-page consistency check |
| `Pit.dfy`, `RtcEoi.dfy` | reinjection of timer interrupts, and tracking of end-of-interrupt for the RTC pin |
| `HvTsc.dfy`, `HvVpSet.dfy` | the Hyper-V reference TSC page, and sparse virtual processor sets |
| `Pusha.dfy` | PUSHA and POPA through the register cache of the emulator |
| `VmxPt.dfy` | the Intel PT control ioctls interleaved with VM entry and exit |
| `Arith.dfy` | powers of two and division, shared by the models above |

Code that updates structures in place is modelled by classes or by methods with loops, each tied to a
specification on values; code that runs concurrently without a common lock is modelled as a state
machine whose steps are the single accesses to what is shared, and its properties are proved of every
state of every run. Sections under `mmu_lock` are one step outside the fault path. Memory is
sequentially consistent.

## Main results

* `mmu_sync_children` terminates and leaves nothing unsync below its root, however often the work
  vector fills up and whichever pages fail to sync. The measure is the number of unsync pages plus
  the number of set bitmap bits. The pages that are gone afterwards are exactly the unsync pages that
  could be reached and failed; every other page keeps its books, its place in the list and its
  entries, apart from entries that pointed to those. Zapping, syncing a frame and shrinking are exact in the same
  way. (`ShadowMmu.Mmu.SyncChildren`, `ShadowMmu.Mmu.PrepareZap`, `ShadowMmu.Mmu.SyncPages`,
  `ShadowMmu.Mmu.ChangeMmuPages`)
* After any sequence of MMU operations the unsync counters equal their bitmaps, every entry leading to
  a dirty page has its bit, the list order and the used and indirect counts are exact, and no dead
  root is left behind. The write-track counts are exact too as long as no count was refused at its
  16-bit limit, and none is while the pages at the start and the operations together are at most
  65535. (`ShadowMmu.Mmu.Run`)
* Stopping at the first page of the current generation is sound when zapping old pages, although
  invalid roots are moved to the head of the list. (`ShadowMmu.Mmu.ZapObsoletePages`)
* In every interleaving of lockless faults, TLB fills and locked updates, rules a) and b) of `mmu.h`
  hold, and a frame whose tracking step has finished is read-only in every entry that maps it, small
  or large, and in every TLB, until `set_spte` says otherwise. `set_spte` grants exactly what it should,
  and what dirty logging takes from a small page the next write fault gives back without the lock.
  (`FastFault.WritableHasBothBits`, `FastFault.TrackedIsReadOnly`, `FastFault.OnlySetGrants`, `FastFault.GrantedExactly`,
  `FastFault.LogThenFault`)
* The summary caches of the in-service register are exact on every run, because an injected vector
  outranks everything in service. (`Lapic.Apic.Run`)
* The fast interrupt lookup agrees with the full scan except for one destination in x2APIC mode, and in
  xAPIC mode, flat or cluster, exactly when the ids do not clash. (`ApicMap.FastEqualsSlow`,
  `ApicMap.XapicExactly`, `ApicMap.XapicFastEqualsSlow`)
* The memory type of a page, read off the registers as the guest sees them. (`MtrrLookup.TypeWhenDisabled`,
  `MtrrLookup.TypeFromFixed`, `MtrrLookup.TypeFromDefault`, `MtrrLookup.TypeFromRanges`)
* A span of pages the MTRR check accepts has one memory type, and which spans it accepts is known
  exactly. (`MtrrLookup.CheckGfnRangeConsistency`, `MtrrLookup.AcceptedExactly`)
* The Hyper-V time a guest reads is within (-3, +1) ticks of kvmclock whenever that fits in 64 bits.
  (`HvTsc.WithinThreeTicks`)

## Where the code and what is said about it differ

Each of these is proved with its exact condition and an input that shows it.

* The comment at `mmu.c:1240-1242` says `pte_list_add` returns the number of pointers already in the chain.
  It returns the number before the place of insertion, less three when it appends a descriptor. For a
  chain that is the promised number exactly when no descriptor but the last has a free slot and the
  last has one. (`RmapList.ReturnedCountExactly`; failing inputs: `RmapList.FullChainReturnsZero`,
  `RmapList.GapReturnsFewer`)
* A restored in-service register with all 256 bits set leaves `isr_count` at zero, since the count is
  an unsigned char; the caches are exact exactly for fewer. (`Lapic.Apic.Restore`; failing input:
  `Lapic.RestoreFull`)
* The fast lookup selects nobody for destination 0xFFFFFFFF where the scan selects everybody; it is
  reached with the broadcast quirk left on. (`ApicMap.FastEqualsSlow`; failing input:
  `ApicMap.BroadcastLost`)
* In xAPIC cluster mode the lookup drops the bits of a logical destination above the eighth and the scan
  does not; with distinct one-bit ids the two agree exactly if there are none or nobody is addressed.
  (`ApicMap.XapicFastEqualsSlow`; failing input: `ApicMap.ClusterWraps`)
* The comment at `mtrr.c:657-660` says UC wins among overlapping ranges. A page is UC exactly when the
  range with the highest base is not UC and, going down, a UC range comes before any that does not
  combine with it, or when all are UC. (`MtrrLookup.PageUcExactly`; failing input: `MtrrLookup.UcLoses`)
* The comment at `mtrr.c:508-512` expects the list in ascending order; it is descending, so the check
  refuses some spans that are uniform. It accepts exactly the spans where everything visited has one
  type and that type is the default, or only fixed ranges are visited, or one range covers the span
  whole and none begins inside it. (`MtrrLookup.AcceptedExactly`, `MtrrLookup.RefusedUniformExactly`;
  refused input: `MtrrLookup.RefusesUniformSpan`)
* `pending_eoi` counts acceptors in every delivery mode but only fixed and lowest-priority delivery
  mark them; the count is exact exactly when nobody accepted or the mode marks. It is never below the
  number of marks in any mode. (`RtcEoi.Ioapic.Service`; failing input: `RtcEoi.CountedNotMarked`)
* The Hyper-V time can go backwards. It does not exactly when adding the offset carries out of 64 bits
  for both readings or for neither. (`HvTsc.MonotoneExactly`; failing inputs:
  `HvTsc.BackwardsBeforeTimestamp`, `HvTsc.BackwardsAfterTimestamp`)
* When the read of the guest's TSC page or the write that zeroes its sequence fails, a guest that had a
  usable page keeps it for the old clock. (`HvTsc.TscPage.Setup`; failing input:
  `HvTsc.StaleAfterFailedWrite`)
* The Intel PT ioctl reads `configured` before it takes the lock. The loaded control value stays equal to
  the configured one exactly as long as no call that read it before an enabling changes a bit after the
  values are loaded.
  (`VmxPt.SyncExactly`, `VmxPt.RunSynced`; failing run: `VmxPt.LateChangeDiffers`)
* VM entry reads a pending ENABLE or DISABLE without the lock. It applies the request if no call is between
  storing the pending flag and storing the wish; otherwise it may clear the flag and leave the request
  unapplied. (`VmxPt.RequestApplied`; failing family: `VmxPt.RequestLost`)

## Model

| member | source | states |
|---|---|---|
| `ShadowGraph.SetBitKeeps` | KVM-PT/mmu.c:2066-2089 | setting a child bit and bumping the counter keeps counters equal to bitmaps, and only the page's own parents may then lack their bit |
| `ShadowGraph.ClearBitKeeps` | KVM-PT/mmu.c:2134-2139 | clearing the bit of a clean or absent child keeps every graph rule |
| `ShadowGraph.WorkClearBit` | KVM-PT/mmu.c:2134-2139 | clearing a set bit lowers (unsync pages + set bits) by exactly one |
| `ShadowGraph.DropEdgeKeeps` | KVM-PT/mmu.c:2604-2627 | removing an entry together with the parent pointer keeps every graph rule |
| `ShadowGraph.SetSyncKeeps` | KVM-PT/mmu.c:2193-2198 | clearing a page's unsync flag keeps every graph rule |
| `ShadowGraph.AddEdgeKeeps` | KVM-PT/mmu.c:2559-2580 | installing an entry and its parent pointer keeps all rules except coverage of the child |
| `ShadowGraph.FreeKeeps` | KVM-PT/mmu.c:2706-2729 | dropping blank pages keeps every graph rule |
| `ShadowGraph.NewPageKeeps` | KVM-PT/mmu.c:2046-2064 | adding a blank page keeps every graph rule |
| `ShadowGraph.ReachesClean` | KVM-PT/mmu_audit.c:169-176 | below a page without child bits and not unsync, no page on any path of present entries is unsync |
| `PageVec.VecOkAppend` | KVM-PT/mmu.c:2118-2132 | appending an entry whose parent is the last path element keeps the vector a depth-first list of chains |
| `PageVec.PathOfStep` | KVM-PT/mmu.c:2298-2317 | the path kept while stepping through the vector is the chain of the last leaf |
| `PageVec.LeafStillReady` | KVM-PT/mmu.c:2373-2384 | handling one leaf leaves the later leaves of the vector on real chains with their bits set |
| `PageAccounting.UpdateTrack` | KVM-PT/page_track.c:65-78 | the count moves by the delta exactly when the result fits in 16 bits; other frames keep theirs |
| `PageAccounting.RetireCounts` | KVM-PT/mmu.c:1124-1139 | taking a page out of account and marking it invalid keeps the indirect and per-frame counts exact |
| `PageAccounting.AddCounts` | KVM-PT/mmu.c:1105-1122 | accounting a new page keeps the counts exact unless the range check refuses |
| `PageAccounting.UntrackedIsLeaf` | KVM-PT/mmu.c:2798-2857 | a frame with write-track count zero has no valid shadow page above level one |
| `PageCull.CutGraphUnlinked` | KVM-PT/mmu.c:2604-2645 | unlinking a page until it is blank empties exactly its entries and those that point to it |
| `PageCull.LeavesUnder` | KVM-PT/mmu.c:2141-2178 | every leaf of the work vector can be reached from the page the walk started at |
| `PageCull.CulledExactly` | KVM-PT/mmu.c:2360-2393 | once nothing under a page is unsync, the pages gone are the unsync ones that were under it and failed, and those still unsync were not under it |
| `PageCull.ZappedOutIntro` | KVM-PT/mmu.c:2671-2704 | unsync children, graph and lists together: what one zap changes |
| `PageCull.CulledFrame` | KVM-PT/mmu.c:2271-2286 | once no page of a frame is unsync, the pages gone are those of the frame that were and failed |
| `PageCull.FreedIntro` | KVM-PT/mmu.c:2706-2729 | what is left after the zapped pages are freed |
| `PageCull.ShrunkStep` | KVM-PT/mmu.c:2731-2742 | zapping the tail of the list keeps the order: no page that is not unsync goes before an older one |
| `PageCull.StaysAfter` | KVM-PT/mmu.c:5768-5816 | a zap of an old page keeps every page of the current generation that is not unsync |
| `ShadowMmu.Mmu.MarkUnsync` | KVM-PT/mmu.c:2077-2089 | sets the bit of one entry and restores coverage upwards; only marks change |
| `ShadowMmu.Mmu.MarkParentsUnsync` | KVM-PT/mmu.c:2067-2075 | afterwards every entry pointing to the page has its bit set |
| `ShadowMmu.Mmu.PagesAdd` | KVM-PT/mmu.c:2118-2132 | an unsync page goes in once; reports full exactly at 16 entries |
| `ShadowMmu.Mmu.ClearUnsyncChildBit` | KVM-PT/mmu.c:2134-2139 | is only called on a set bit, keeps the counter non-negative and lowers the measure by one |
| `ShadowMmu.Mmu.UnsyncWalk` | KVM-PT/mmu.c:2141-2178 | only clears bits that are not needed; returning zero means no child bits are left; otherwise the vector holds real chains |
| `ShadowMmu.Mmu.StartWalk` | KVM-PT/mmu.c:2182-2191 | a nonzero result comes with a leaf to handle or with less work left |
| `ShadowMmu.Mmu.PagesNext` | KVM-PT/mmu.c:2298-2317 | goes to the next leaf, skips none, and `parents` is its chain up to the root |
| `ShadowMmu.Mmu.PagesFirst` | KVM-PT/mmu.c:2319-2341 | finds the first leaf with its chain |
| `ShadowMmu.Mmu.ClearParents` | KVM-PT/mmu.c:2343-2358 | clears upwards while counters reach zero, never a clear bit, and lowers the measure |
| `ShadowMmu.Mmu.UnlinkChildren` | KVM-PT/mmu.c:2629-2636 | empties the page's entries and takes it off its children's parent lists |
| `ShadowMmu.Mmu.ZapPte` | KVM-PT/mmu.c:2604-2627 | the new graph: one entry is empty, and a child no longer lists it |
| `ShadowMmu.Mmu.UnlinkParents` | KVM-PT/mmu.c:2638-2645 | terminates with no parents left |
| `ShadowMmu.Mmu.UnaccountShadowed` | KVM-PT/mmu.c:1124-1139 | the indirect and per-frame counts become those of the page being invalid, and the frame's count is never refused |
| `ShadowMmu.Mmu.Retire` | KVM-PT/mmu.c:2681-2703 | moves the page to the invalid list, or to the head of the active list while it is a root, and keeps all counters exact, also for a root zapped twice |
| `ShadowMmu.Mmu.PrepareZap` | KVM-PT/mmu.c:2671-2704 | the page and exactly the unsync pages under it end blank and invalid and leave the active list, the page going to its head while it is a root; all else is unchanged, and the returned count is what left the list |
| `ShadowMmu.Mmu.ZapUnsyncChildren` | KVM-PT/mmu.c:2647-2669 | terminates with no child bits left; the pages zapped are exactly the unsync ones that could be reached from the parent |
| `ShadowMmu.Mmu.Replay` | KVM-PT/mmu.c:2373-2384 | every turn over a vector with a leaf strictly lowers the measure; of its leaves those that fail are zapped, the others synced, and nothing else changes |
| `ShadowMmu.Mmu.VisitLeaf` | KVM-PT/mmu.c:2658-2666 | one leaf is zapped if it fails, else synced, and its chain of bits is cleared |
| `ShadowMmu.Mmu.SyncPage` | KVM-PT/mmu.c:2224-2268 | if syncing fails the page is invalid, off the list and blank; otherwise only its unsync flag changes |
| `ShadowMmu.Mmu.SyncLeaf` | KVM-PT/mmu.c:2263-2268 | the same, as the set of pages that go: the page itself or none |
| `ShadowMmu.Mmu.CommitZap` | KVM-PT/mmu.c:2706-2729 | frees exactly the zapped pages, all invalid and unreferenced |
| `ShadowMmu.Mmu.SyncChildren` | KVM-PT/mmu.c:2360-2393 | terminates, and no page reachable from the root is unsync; the pages that are gone are exactly the unsync ones reachable before that failed, every other page keeps books, place and entries, and unsync pages out of reach stay unsync |
| `ShadowMmu.Mmu.UnsyncPage` | KVM-PT/mmu.c:2790-2796 | the page is unsync and every path to it is marked |
| `ShadowMmu.Mmu.NeedWriteProtect` | KVM-PT/mmu.c:2798-2857 | wherever its level warning does not occur: refuses exactly for tracked frames, or shadowed ones that may not go unsync; otherwise the shadow pages of the frame, and no others, become unsync and marked |
| `ShadowMmu.Mmu.NeverWarns` | KVM-PT/mmu.c:2798-2815 | the level warning cannot occur unless a write-track count was refused at its 16-bit limit |
| `ShadowMmu.Mmu.LinkShadowPage` | KVM-PT/mmu.c:2559-2580 | the entry points to the child and is marked if the child is dirty |
| `ShadowMmu.Mmu.SetLeaf` | KVM-PT/mmu.c:2981-3017 | a last-level entry, small or large, in an absent slot keeps every rule, also with a bit left behind there |
| `ShadowMmu.Mmu.DropEntry` | KVM-PT/mmu.c:2604-2627 | the new graph without one entry keeps every rule, also with a bit left behind there |
| `ShadowMmu.Mmu.TakeRoot` | KVM-PT/mmu.c:3582-3585 | the root count goes up, every rule is kept |
| `ShadowMmu.Mmu.FreeRoot` | KVM-PT/mmu.c:3496-3510 | the last reference to an invalid root zaps it; in every other case only the count goes down |
| `ShadowMmu.Mmu.SyncPages` | KVM-PT/mmu.c:2271-2286 | no valid indirect page of the frame stays unsync; the pages zapped are exactly those of the frame that were unsync and failed, and no other page is touched |
| `ShadowMmu.Mmu.AddPage` | KVM-PT/mmu.c:2046-2064 | a blank page of the current generation at the head of the active list, all counters exact |
| `ShadowMmu.Mmu.GetNewPage` | KVM-PT/mmu.c:2464-2494 | the new page heads the list and is accounted; the old pages that go are exactly the unsync pages of its frame that fail, if it is an indirect page above level one, and then none of the frame stays unsync |
| `ShadowMmu.Mmu.ZapOldest` | KVM-PT/mmu.c:2731-2742 | zaps the tail of the active list with the unsync pages under it; the used count falls by what was zapped |
| `ShadowMmu.Mmu.ChangeMmuPages` | KVM-PT/mmu.c:2748-2767 | terminates, and misses the goal only if the oldest page is a root in use, which is then at the head; pages go oldest first, except unsync ones, and only while there are more than the goal; the others stay as they were |
| `ShadowMmu.Mmu.ZapObsoletePages` | KVM-PT/mmu.c:5768-5816 | terminates, and no valid page of an old generation is left; pages of the current generation stay unless they are unsync |
| `ShadowMmu.Mmu.BumpGeneration` | KVM-PT/mmu.c:5827-5830 | the list order and all counters survive a bump with stale pages about |
| `ShadowMmu.Mmu.InvalidateAll` | KVM-PT/mmu.c:5827-5845 | after the generation bump every page of the earlier generations is invalid |
| `ShadowMmu.Mmu.Run` | KVM-PT/mmu.c:2671-2704 | any sequence of operations, generation bumps and zaps among them, keeps the graph rules, the list order, exact used and indirect counts and no dead root; the write-track counts are exact until one is refused, and none is while pages at the start plus operations are at most 65535 |
| `ShadowMmu.Mmu.RunOne` | KVM-PT/page_track.c:65-78 | one operation adds at most one page, and has a count refused only for a new page of a frame whose count is at its limit |
| `RmapList.RmapHead.Add` | KVM-PT/mmu.c:1243-1275 | the pointer goes into the first free slot or a new descriptor, everything else keeps its place, and the count returned leaves an appended-to descriptor out |
| `RmapList.ReturnedCountExactly` | KVM-PT/mmu.c:1240-1274 | the returned count is the number of pointers if and only if the list is no chain, or only its last descriptor has room |
| `RmapList.FullChainReturnsZero` | KVM-PT/mmu.c:1260-1274 | one full descriptor: three pointers, count zero |
| `RmapList.GapReturnsFewer` | KVM-PT/mmu.c:1260-1274 | a gap left by a removal: three pointers, count two |
| `RmapList.RmapHead.RemoveEntry` | KVM-PT/mmu.c:1277-1298 | takes out exactly that slot and keeps descriptors compact and non-empty |
| `RmapList.RmapHead.Remove` | KVM-PT/mmu.c:1300-1334 | takes out one occurrence, or reports a bug exactly when the pointer is absent |
| `RmapList.RmapHead.GetFirst` | KVM-PT/mmu.c:1410-1430 | yields the first element, or null exactly for the empty list |
| `RmapList.RmapHead.GetNext` | KVM-PT/mmu.c:1437-1463 | yields the element right behind, or null exactly at the end |
| `RmapList.RmapHead.ForEach` | KVM-PT/mmu.c:1465-1467 | visits every element exactly once in order |
| `RmapList.RmapHead.ZapAll` | KVM-PT/mmu.c:1725-1739 | terminates with an empty list; reports a flush exactly if it was not empty |
| `FastFault.Fixed` | KVM-PT/mmu.c:3336-3437 | the entry a fault tries to install is writable only if the loaded one was or had both software bits |
| `FastFault.Granted` | KVM-PT/mmu.c:2882-2979 | `set_spte` grants write access only with both bits and a writable host mapping, and to a tracked frame only if the entry was writable already |
| `FastFault.GrantedExactly` | KVM-PT/mmu.c:2882-2979 | lockless write access is granted if and only if it is asked for, the host mapping is writable and no frame is tracked or the check is skipped; and the entry is writable at once if and only if it is also not put under access tracking |
| `FastFault.FaultGetsGranted` | KVM-PT/mmu.c:2911-2973 | whatever is stored, a later fault is given exactly the access that was asked for and may be had |
| `FastFault.FixedExactly` | KVM-PT/mmu.c:3375-3412 | which faults the lockless path can fix, as an if-and-only-if on the entry |
| `FastFault.TrackThenRestore` | KVM-PT/mmu.c:859-906 | marking for access tracking and restoring gives read and execute access back |
| `FastFault.NeedsFlushExactly` | KVM-PT/mmu.c:772-805 | when an update asks for a flush, as an if-and-only-if on the bits |
| `FastFault.StoreSeesLatest` | KVM-PT/mmu.c:740-805 | the flush is decided by what the entry was when it was exchanged, not when it was loaded |
| `FastFault.SpanNested` | KVM-PT/mmu.c:3219-3219 | an entry spans 512 of the level below |
| `FastFault.StoreKeeps` | KVM-PT/mmu.c:772-805 | a store that takes lockless write access away leaves a flush owed |
| `FastFault.ProtectKeeps` | KVM-PT/mmu.c:1508-1523 | protecting one entry keeps the invariant |
| `FastFault.SetKeeps` | KVM-PT/mmu.c:2928-2966 | giving up writable large mappings over a tracked frame, and skipping the check for entries already writable, keep the invariant |
| `FastFault.FaultKeeps` | KVM-PT/mmu.c:3285-3437 | a compare-and-swap by any faulting vCPU keeps the invariant |
| `FastFault.FlushKeeps` | KVM-PT/page_track.c:92-111 | the flush after protection clears what is owed |
| `FastFault.StepKeeps` | KVM-PT/mmu.h:108-144 | every step of every thread keeps the invariant |
| `FastFault.RunKeeps` | KVM-PT/mmu.h:108-144 | the invariant holds in every state of every run |
| `FastFault.WritableHasBothBits` | KVM-PT/mmu.h:108-144 | writable implies both software bits; a writable TLB entry implies both bits or an owed flush |
| `FastFault.TrackedIsReadOnly` | KVM-PT/mmu.c:1700-1712 | after the tracking step no entry of any level that maps the frame is writable, and no TLB entry made through one |
| `FastFault.OnlySetGrants` | KVM-PT/mmu.c:2882-2979 | lockless write access appears only by the store of an update that an earlier `set_spte` step built, with no tracked frame in the entry |
| `FastFault.FaultNeedsBothBits` | KVM-PT/mmu.c:3285-3437 | a fault makes an entry writable only if it had both bits |
| `FastFault.SetStores` | KVM-PT/mmu.c:2882-2979 | from every state with the lock free, setting an entry ends with what `set_spte` built in it and every other entry unchanged |
| `FastFault.LogStores` | KVM-PT/mmu.c:1508-1523 | dirty logging takes write access from a writable entry, keeps both bits and asks for a flush |
| `FastFault.LogThenFault` | KVM-PT/mmu.c:3336-3437 | after that the write fault of any vCPU makes the entry writable again, and as it was unless it allowed nothing but writes |
| `FastFault.WritableAgain` | KVM-PT/mmu.c:3336-3437 | a run in which an entry becomes writable, is write-protected and is made writable by a fault |
| `Lapic.FindHighest` | KVM-PT/lapic.c:353-366 | the highest set vector, or -1 exactly when there is none |
| `Lapic.CountVectors` | KVM-PT/lapic.c:368-380 | the number of set vectors, modulo 256 |
| `Lapic.OutranksPpr` | KVM-PT/lapic.c:655-690 | a vector's class exceeds the processor priority exactly when it exceeds the task priority and everything in service |
| `Lapic.ClassExactly` | KVM-PT/lapic.c:655-665 | one class is below another exactly if the upper four bits of the vectors are |
| `Lapic.Apic.SetIsr` | KVM-PT/lapic.c:459-485 | adds the vector with count and cache exact, given that it is above everything in service |
| `Lapic.Apic.ClearIsr` | KVM-PT/lapic.c:506-529 | removes the vector with count and cache exact; the count stays non-negative |
| `Lapic.Apic.FindHighestIsr` | KVM-PT/lapic.c:487-504 | exact whenever the caches are |
| `Lapic.Apic.FindHighestIrr` | KVM-PT/lapic.c:418-438 | exact whenever a request implies the hint |
| `Lapic.Apic.ClearIrr` | KVM-PT/lapic.c:440-457 | removes the request; the hint is set exactly when one is left |
| `Lapic.Apic.UpdatePpr` | KVM-PT/lapic.c:667-690 | the priority is that of section 10.8.3.1 of the Intel SDM Vol. 3A |
| `Lapic.Apic.HasInterruptForPpr` | KVM-PT/lapic.c:655-665 | the highest request if its class is above the priority, else none is |
| `Lapic.Apic.HasInterrupt` | KVM-PT/lapic.c:2267-2277 | offers the highest request exactly when it outranks task priority and everything in service, with the priority register brought up to date |
| `Lapic.Apic.GetInterrupt` | KVM-PT/lapic.c:2308-2344 | nothing is taken if and only if the APIC is disabled or no request outranks task priority and service; otherwise the highest request leaves the request register and enters service strictly above every vector there; the priority register is that of what is then in service |
| `Lapic.Apic.SetEoi` | KVM-PT/lapic.c:1157-1178 | ends exactly the highest vector in service and lowers the priority register to what remains |
| `Lapic.Apic.WriteTpr` | KVM-PT/lapic.c:706-710 | sets the task priority and the priority register that follows from it |
| `Lapic.Apic.AcceptIrq` | KVM-PT/lapic.c:1019-1059 | the request and trigger bits are set unless disabled or a deassert |
| `Lapic.Apic.Reset` | KVM-PT/lapic.c:2094-2161 | the request and in-service registers end empty and the caches agree |
| `Lapic.Apic.Restore` | KVM-PT/lapic.c:2377-2419 | the caches are exact if and only if fewer than 256 vectors are in service |
| `Lapic.RestoreFull` | KVM-PT/lapic.c:368-380 | 256 vectors restored: the count is zero and the caches are wrong |
| `Lapic.Apic.Run` | KVM-PT/lapic.c:459-529 | on every run the caches are exact and no request is overlooked |
| `IrrPending.StepKeeps` | KVM-PT/lapic.c:440-457 | each single store or word read keeps: a request without the hint has someone who will raise it |
| `IrrPending.RunKeeps` | KVM-PT/lapic.h:136-144 | the same on every run |
| `IrrPending.HintNotLost` | KVM-PT/lapic.h:136-144 | once all callers finish, a non-empty request register has the hint |
| `ApicMap.LdrParts` | KVM-PT/lapic.c:276-279 | an x2APIC logical id is its cluster and exactly one bit |
| `ApicMap.SlowDeliver` | KVM-PT/irq_comm.c:58-113 | selects exactly the present APICs that match the destination |
| `ApicMap.Recalculate` | KVM-PT/lapic.c:172-246 | the table is the one built by adding the APICs in order; what that table holds is stated by BuiltHolds and BuiltXapic |
| `ApicMap.BuiltHolds` | KVM-PT/lapic.c:172-246 | with x2APICs only, the table is the map from id to APIC and the mode is x2APIC exactly if one is present |
| `ApicMap.FastDeliver` | KVM-PT/lapic.c:849-971 | the lookup's answer for a fixed interrupt, or that it declines |
| `ApicMap.MatchesByBit` | KVM-PT/lapic.c:738-764 | an x2APIC matches a logical address exactly when cluster and bit agree |
| `ApicMap.PhysicalAgree` | KVM-PT/lapic.c:718-736 | physical lookup selects exactly the matching APICs |
| `ApicMap.LogicalAgree` | KVM-PT/lapic.c:133-163 | logical lookup selects exactly the matching APICs |
| `ApicMap.FastEqualsSlow` | KVM-PT/lapic.c:875-938 | an accepted lookup equals the scan if and only if the destination is not 0xFFFFFFFF or no APIC is present |
| `ApicMap.BroadcastDiffers` | KVM-PT/lapic.c:849-866 | on 0xFFFFFFFF an accepted lookup selects nobody and the scan everybody |
| `ApicMap.BroadcastLost` | KVM-PT/lapic.c:849-866 | a concrete case of it |
| `ApicMap.X2apicAccepts` | KVM-PT/lapic.c:849-905 | which destinations the lookup accepts in x2APIC mode |
| `ApicMap.AddXapic` | KVM-PT/lapic.c:196-236 | adding an xAPIC takes its free physical entries and the slot of its lowest logical bit |
| `ApicMap.BuiltXapic` | KVM-PT/lapic.c:172-246 | with xAPICs only, each physical entry has the id it stands at and each id an entry; each logical slot, flat or cluster, holds the last APIC that claims it; the mode is set exactly if one has a logical id |
| `ApicMap.XapicPhysical` | KVM-PT/lapic.c:718-736 | the physical entry is one of the APICs the scan finds, and the only one exactly if no two share the id |
| `ApicMap.XapicLogical` | KVM-PT/lapic.c:133-163 | the logical lookup finds exactly the APICs whose lowest bit the destination has and no later one shares |
| `ApicMap.MatchesAddressed` | KVM-PT/lapic.c:738-764 | the scan matches exactly the APICs of the destination's group with a common bit, and none for a cluster destination of more than eight bits |
| `ApicMap.XapicExactly` | KVM-PT/lapic.c:875-938 | when the lookup equals the scan in xAPIC mode, as an if-and-only-if on the ids and the destination |
| `ApicMap.XapicFastEqualsSlow` | KVM-PT/lapic.c:875-938 | with distinct ids and one logical bit each, they differ if and only if a cluster destination has bits above the eighth and addresses someone |
| `ApicMap.XapicAccepts` | KVM-PT/lapic.c:849-905 | which destinations the lookup accepts in xAPIC mode |
| `ApicMap.ClusterWraps` | KVM-PT/lapic.c:133-163 | a cluster destination of nine bits: the lookup selects one APIC, the scan none |
| `Mtrr.WholePages` | KVM-PT/mtrr.c:301-313 | a variable range is a non-empty span of whole pages |
| `Mtrr.NoOverflow` | KVM-PT/mtrr.c:301-313 | the end of an enabled range fits the physical width, so the 64-bit sum cannot wrap |
| `Mtrr.BytesJoined` | KVM-PT/mtrr.c:388-390 | the eight bytes of a fixed-range register read back as the value stored |
| `Mtrr.MaskReadsBack` | KVM-PT/mtrr.c:363-370 | the ones put above the physical width are gone when a mask is read |
| `Mtrr.JoinedByte` | KVM-PT/mtrr.c:421-423 | byte j of a fixed-range register is the type stored for its j-th piece |
| `Mtrr.VarDataExactly` | KVM-PT/mtrr.c:85-102 | a base is accepted exactly if it is a page address with a memory type, a mask exactly if it is a page mask with at most the enable bit |
| `Mtrr.RangeReads` | KVM-PT/mtrr.c:301-313 | whether a range is enabled, its type and its span, from the two registers as they read |
| `Mtrr.NaturalRange` | KVM-PT/mtrr.c:301-313 | a mask for a power of two and a base aligned to it give that many bytes from the base |
| `Mtrr.Registers.constructor` | KVM-PT/mtrr.c:444-447 | the initial registers satisfy everything the writes keep |
| `Mtrr.Registers.SetMsr` | KVM-PT/mtrr.c:381-442 | an invalid value changes nothing; a valid one reads back as written, every other register reads as before, and all types stay memory types |
| `Mtrr.Registers.SetVar` | KVM-PT/mtrr.c:349-379 | the list again holds exactly the enabled ranges, once each, by descending base, the others in their old order |
| `Mtrr.AddToList` | KVM-PT/mtrr.c:372-378 | sorted insertion |
| `MtrrLookup.InFixedRange` | KVM-PT/mtrr.c:268-299 | an address below 1MB lies in the fixed range its index selects, and so does its whole page |
| `MtrrLookup.Iter.constructor` | KVM-PT/mtrr.c:583-595 | the iterator is about to visit exactly what the specification lists |
| `MtrrLookup.Iter.FixedStart` | KVM-PT/mtrr.c:481-497 | starts in the fixed ranges exactly when they are enabled and the start is below 1MB |
| `MtrrLookup.Iter.VarBegin` | KVM-PT/mtrr.c:535-545 | starts over the whole list from the start of the span |
| `MtrrLookup.Iter.VarScan` | KVM-PT/mtrr.c:499-533 | stops at the next range that meets the span, updating coverage, or ends with the partial mark |
| `MtrrLookup.Iter.FixedNext` | KVM-PT/mtrr.c:547-565 | drops the current item: next fixed range, next segment, variable ranges, or the end |
| `MtrrLookup.Iter.Okay` | KVM-PT/mtrr.c:597-610 | says whether an item is left and yields its type |
| `MtrrLookup.Iter.Next` | KVM-PT/mtrr.c:612-618 | drops the current item |
| `MtrrLookup.GetGuestMemoryType` | KVM-PT/mtrr.c:624-697 | the combined type of everything that meets the page; its partial-coverage warning cannot fire; the four lemmas below say what it is |
| `MtrrLookup.TypeWhenDisabled` | KVM-PT/mtrr.c:120-136 | with bit 11 of the default-type register clear: UC, or WB for a guest without MTRRs |
| `MtrrLookup.TypeFromFixed` | KVM-PT/mtrr.c:268-299 | with bits 11 and 10 set, below 1MB: the byte that the address selects in the fixed-range register that covers it |
| `MtrrLookup.TypeFromDefault` | KVM-PT/mtrr.c:683-688 | with bit 11 set, where no fixed range applies and no enabled range meets the page: the low byte of the default-type register |
| `MtrrLookup.TypeFromRanges` | KVM-PT/mtrr.c:624-647 | where the enabled ranges that meet the page all hold one type in their base registers: that type |
| `MtrrLookup.PageNotPartial` | KVM-PT/mtrr.c:690-694 | one page is covered whole or not at all |
| `MtrrLookup.CombineExactly` | KVM-PT/mtrr.c:636-681 | the combined type of any overlapping ranges: decided by the first that does not combine with the first one, else their common type, or WT for a mix of WT and WB |
| `MtrrLookup.UcWinsExactly` | KVM-PT/mtrr.c:644-680 | when combined types give UC, as an if-and-only-if |
| `MtrrLookup.PageUcExactly` | KVM-PT/mtrr.c:624-697 | when a page is UC, as an if-and-only-if on its fixed range, the default, or the ranges that meet it by descending base |
| `MtrrLookup.UcLoses` | KVM-PT/mtrr.c:657-680 | a page under a UC and a WB range that is WB |
| `MtrrLookup.PageTypeOk` | KVM-PT/mtrr.c:624-697 | every page has one of the five memory types |
| `MtrrLookup.PageInSpan` | KVM-PT/mtrr.c:481-618 | every type seen on a page is seen on the span, also across the 1MB boundary |
| `MtrrLookup.PageCovered` | KVM-PT/mtrr.c:499-533 | without the partial mark every page of the span is covered |
| `MtrrLookup.AcceptedIsUniform` | KVM-PT/mtrr.c:699-729 | every page of an accepted span has the span's type |
| `MtrrLookup.CheckGfnRangeConsistency` | KVM-PT/mtrr.c:699-729 | the check's exact answer, and that acceptance means one type for all pages |
| `MtrrLookup.PartialExactly` | KVM-PT/mtrr.c:499-533 | the partial mark is left off if and only if one enabled range covers the span whole and none begins inside it |
| `MtrrLookup.VisitsExactly` | KVM-PT/mtrr.c:481-618 | the types visited and the partial mark, read off the registers, also across the 1MB boundary |
| `MtrrLookup.AcceptedExactly` | KVM-PT/mtrr.c:699-729 | which spans the check accepts, as an if-and-only-if on the registers |
| `MtrrLookup.RefusedUniformExactly` | KVM-PT/mtrr.c:719-728 | which spans with one visited type other than the default it refuses |
| `MtrrLookup.RefusesUniformSpan` | KVM-PT/mtrr.c:508-516 | a uniform span that the check refuses |
| `Pit.StepKeeps` | KVM-PT/i8254.c:203-282 | every step keeps: an acknowledged pending tick has a wakeup coming, and ticks and injections are accounted for |
| `Pit.RunKeeps` | KVM-PT/i8254.c:203-282 | the same in every state of every run |
| `Pit.QuietMeansWaiting` | KVM-PT/i8254.c:239-251 | when nothing is in flight, a pending tick is waiting for an acknowledgement; no tick is lost; when reinjecting, injections are exactly the acknowledgements that found `irq_ack` clear, and one more while an interrupt is unanswered |
| `RtcEoi.Ioapic.TrackOne` | KVM-PT/ioapic.c:110-137 | the mark follows what the vCPU owes, with the vector of the pin, and the count moves with it |
| `RtcEoi.Ioapic.RestoreAll` | KVM-PT/ioapic.c:148-159 | the marks are exactly the matching vCPUs that owe an end-of-interrupt, for the vector of the pin, and the count is exact |
| `RtcEoi.Ioapic.Eoi` | KVM-PT/ioapic.c:161-168 | clears the mark and the count stays non-negative |
| `RtcEoi.Ioapic.DoUpdateEoi` | KVM-PT/ioapic.c:432-442 | only the vector that was sent clears the mark |
| `RtcEoi.Ioapic.UpdateEois` | KVM-PT/ioapic.c:432-442 | a row of them clears exactly the marks made for that vector |
| `RtcEoi.Ioapic.Service` | KVM-PT/ioapic.c:336-383 | a tracked delivery finds nothing outstanding; the acceptors are marked with the vector sent; the count is exact afterwards if and only if nobody accepted or the mode marks |
| `RtcEoi.Ioapic.MarkAcceptors` | KVM-PT/ioapic.c:365-376 | the count is the number of acceptors, and they are marked with the vector in the modes that mark |
| `RtcEoi.CountedNotMarked` | KVM-PT/ioapic.c:365-375 | another delivery mode with one acceptor: counted, not marked |
| `RtcEoi.TickThenEois` | KVM-PT/ioapic.c:161-226 | after a delivery, the next one is no longer coalesced if and only if every acceptor has sent the end of that vector |
| `RtcEoi.Ioapic.DoSetIrq` | KVM-PT/ioapic.c:178-226 | an outstanding RTC interrupt coalesces; otherwise the line is raised and serviced, so the BUG_ON is unreachable |
| `RtcEoi.Ioapic.DoWriteEntry` | KVM-PT/ioapic.c:295-332 | reprogramming a pin services a raised level-triggered line and leaves the tracking alone |
| `RtcEoi.Ioapic.InjectAll` | KVM-PT/ioapic.c:228-237 | the lines given are up; ends with the marks rebuilt and the count exact |
| `RtcEoi.Ioapic.Do` | KVM-PT/ioapic.c:96-237 | one operation upsets an exact count only by delivering in a mode that marks nobody; loading a state and resetting leave the table and lines they say |
| `RtcEoi.Ioapic.Run` | KVM-PT/ioapic.c:96-237 | the count is never negative or below the marks, and exact while the pin stays in fixed or lowest-priority mode |
| `HvTsc.ScaleFits` | KVM-PT/hyperv.c:870-887 | neither the limit nor the accepted scale loses bits |
| `HvTsc.AcceptsExactly` | KVM-PT/hyperv.c:862-878 | accepts exactly a stable clock whose scale fits in 64 bits |
| `HvTsc.TimeIsUnwrapped` | KVM-PT/hyperv.c:884-893 | scale and offset give the untruncated count modulo 2^64 |
| `HvTsc.MonotoneExactly` | KVM-PT/hyperv.c:428-445 | for any page, the time does not go backwards between two readings if and only if the addition of the offset carries for both or neither |
| `HvTsc.BackwardsBeforeTimestamp` | KVM-PT/hyperv.c:862-894 | an accepted clock whose time goes back up to its timestamp |
| `HvTsc.BackwardsAfterTimestamp` | KVM-PT/hyperv.c:862-894 | an accepted clock whose time goes back after its timestamp |
| `HvTsc.WithinThreeTicks` | KVM-PT/hyperv.c:827-894 | the time read is within (-3, +1) ticks of the exact kvmclock value over 100 if and only if scaled delta plus system time fit in 64 bits, and always if the exact value does |
| `HvTsc.TscPage.Setup` | KVM-PT/hyperv.c:896-954 | when the guest ends with a usable page for this clock, and when with one for another, each as an if-and-only-if on the outcomes of the four accesses |
| `HvTsc.StaleAfterFailedWrite` | KVM-PT/hyperv.c:922-929 | a failed zeroing write leaves the guest on the old clock |
| `HvTsc.TscPage.GetTimeRefCounter` | KVM-PT/hyperv.c:428-445 | kvmclock without a page, the page formula with one |
| `HvVpSet.RankCounts` | KVM-PT/hyperv.c:1296-1298 | the running bank number is the count of valid banks before |
| `HvVpSet.Partition.PostCreate` | KVM-PT/hyperv.c:729-734 | a new vCPU matches, the mismatch count is unchanged and exact |
| `HvVpSet.Partition.SetVpIndex` | KVM-PT/hyperv.c:1047-1071 | the mismatch count equals the number of vCPUs whose index differs from their position |
| `HvVpSet.ExpandBanks` | KVM-PT/hyperv.c:1294-1298 | each valid bank holds the sparse word of its rank, every other bank is empty, and only supplied words are read |
| `HvVpSet.Partition.SparseSetToVcpuMask` | KVM-PT/hyperv.c:1286-1312 | with or without the shortcut, an existing vCPU is selected exactly when the set names its index |
| `Pusha.SlotsDisjoint` | KVM-PT/emulate.c:1839-1848 | the eight slots never overlap, whatever wraps |
| `Pusha.StackBits` | KVM-PT/emulate.c:564-580 | the stack pointer moves modulo 2^16 or 2^32 as the segment says and keeps its upper bits |
| `Pusha.LinearizeExactly` | KVM-PT/emulate.c:716-745 | an access passes if and only if the segment allows its kind and holds all its bytes, or the first one if it ends at 4GB |
| `Pusha.WritableIsReadable` | KVM-PT/emulate.c:690-755 | an address that passes the segment checks for a store passes them for a load |
| `Pusha.Ctxt.RegRead` | KVM-PT/emulate.c:271-278 | filling the cache changes no register |
| `Pusha.Ctxt.RegStore` | KVM-PT/emulate.c:280-291 | changes exactly that register |
| `Pusha.Ctxt.Finish` | KVM-PT/emulate.c:293-305 | write-back and invalidation change no register |
| `Pusha.Ctxt.RspIncrement` | KVM-PT/emulate.c:564-580 | moves only the bits under the stack mask |
| `Pusha.Ctxt.Push` | KVM-PT/emulate.c:1839-1848 | the stack pointer moves even on a fault; memory only without one |
| `Pusha.Ctxt.Pop` | KVM-PT/emulate.c:1857-1871 | the stack pointer moves only without a fault |
| `Pusha.Ctxt.Pusha` | KVM-PT/emulate.c:1989-2007 | succeeds exactly when all slots are reachable, and each then holds its register |
| `Pusha.Ctxt.Popa` | KVM-PT/emulate.c:2015-2034 | succeeds exactly when the seven loaded slots are reachable, and loads each register from its slot |
| `Pusha.PushaThenPopa` | KVM-PT/emulate.c:1989-2034 | if PUSHA succeeds so does POPA; the stack pointer comes back in full and every register on the operand width |
| `VmxPt.BodyKeeps` | KVM-PT/vmx_pt.c:299-537 | an ioctl keeps ranges checked, filters exclusive and tracing off on the host; a refused one changes nothing |
| `VmxPt.LoadKeeps` | KVM-PT/vmx_pt.c:800-824 | loading gives the host the configured word without tracing, and the guest the same with tracing as asked |
| `VmxPt.BodyChangesBit` | KVM-PT/vmx_pt.c:376-491 | exactly which ioctls change a control bit |
| `VmxPt.AddrRoundTrip` | KVM-PT/vmx_pt.c:302-428 | setting and enabling range n affects range n alone, and disabling it undoes the enabling |
| `VmxPt.RequestApplied` | KVM-PT/vmx_pt.c:634-642 | an entry that finds a request and no call halfway through one ends with tracing in the guest's value exactly as asked, whatever other threads do meanwhile |
| `VmxPt.RequestLost` | KVM-PT/vmx_pt.c:492-512 | from every state with a call halfway through, the entry can clear the flag before the wish is stored, and the wish stays unapplied |
| `VmxPt.StepKeeps` | KVM-PT/vmx_pt.c:622-676 | every single access keeps ranges checked, filters exclusive and tracing off on the host; the guest's value has tracing exactly when configured, up to the load that follows the flag; the lock is the vCPU's exactly in the guest while configured |
| `VmxPt.RunKeeps` | KVM-PT/vmx_pt.c:282-537 | the same in every state of every run |
| `VmxPt.FrozenInGuest` | KVM-PT/vmx_pt.c:644-675 | while the guest runs traced its value has tracing and the host's has not, and only its exit does anything |
| `VmxPt.SyncExactly` | KVM-PT/vmx_pt.c:296-535 | loaded and configured values come apart if and only if a call that read the flag before the enabling changes a control bit after the load |
| `VmxPt.RunSynced` | KVM-PT/vmx_pt.c:296-299 | a run keeps the two equal throughout if and only if it has no such call |
| `VmxPt.EarlyChangeIsLoaded` | KVM-PT/vmx_pt.c:844-849 | a bit changed between the flag and the load is loaded |
| `VmxPt.LateChangeDiffers` | KVM-PT/vmx_pt.c:296-299 | a run with one such call, where they differ |

## Left out

- ShadowMmu.Mmu.NeedWriteProtect: not stated where the source's own level warning fires, which takes a write-track count refused at its 16-bit limit first.
- RmapList.RmapHead.Remove: gives the contents as a multiset, since a removal fills the gap with the last pointer of the descriptor and so reorders it.
- FastFault.TrackedIsReadOnly: speaks of direct leaf entries, where lockless faults occur; the other reasons to disallow a large mapping are one arbitrary flag.
- Mtrr.Registers.SetVar: a change of the guest's physical address width after a range was written is not modelled.
- MtrrLookup.AcceptedExactly: for spans of at least one page; an empty span has no pages to agree on.
- Mtrr.Registers.SetMsr: registers are named, not numbered, and the PAT register and the zapping of pages after a write are not modelled.
- Linked lists, descriptor chains and the page store are sequences, sets and maps in class fields, so aliasing of nodes is not captured.
- The hash-hit path of `kvm_mmu_get_page`, memory slots, large-page counters and reserved pages.
- Write protection and remote TLB flushes inside the sync loop, and dropping the MMU lock in the middle of long loops.
- The internals of `sync_page`: a page becomes synced or is zapped, as an arbitrary choice.
- Wrap-around of the 64-bit generation number.
- Guest page-table walks, permission and reserved-bit tables, and the generation encoding of MMIO entries.
- APICv and posted interrupts, hrtimers, perf events and the vendor callbacks.
- Lowest-priority arbitration and mixed xAPIC/x2APIC delivery; the table rebuild covers all modes, the agreement with the scan is for machines whose APICs are all in one mode and one logical model.
- What the guest's local APICs accept for the RTC pin is an arbitrary set of vCPUs, not derived from `Lapic.dfy`.
- The level-triggered part of end-of-interrupt handling in the IOAPIC.
- Reset of the PIT by its mask notifier and switching reinjection on or off while the timer runs.
- Writes by the guest to its own reference TSC page.
- Page faults and device memory behind the emulated stack: memory that passes the segment checks is RAM.
- The other instructions of the emulator.
- The trace buffer of Intel PT, the unused toggle functions, and the hardware status registers.
- The fast dirty logging of `vmx_fdl.c`, coalesced MMIO, the PMU and CPUID tables.
