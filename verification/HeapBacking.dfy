/** Whole runs of the heap together with the page tables and the frames its
    pages stand on. */
module HeapBacking {
  import opened Memory
  import opened Paging
  import opened HeapPages
  import HeapLayouts
  import HeapMemory
  import HeapTheorems
  import Heaps
  import HeapRuns

  /** The pages of lo..hi-1 the heap takes for mapped are those with a frame. */
  ghost predicate SamePages(present: set<nat>, m: Mapping, lo: nat, hi: nat)
  {
    forall p | lo <= p < hi :: p in present <==> p in m && m[p].frame != 0
  }

  lemma SameAfterExpand(before: set<nat>, after: set<nat>, m: Mapping, r: Mapping, lo: nat, hi: nat, oldEnd: nat, newEnd: nat, isKernel: bool, isWriteable: bool)
    requires SamePages(before, m, lo, hi) && HeapMemory.PagesAdded(before, after, oldEnd, newEnd)
    requires Expanded(m, r, oldEnd / PAGE, newEnd / PAGE, isKernel, isWriteable)
    requires forall p | oldEnd / PAGE <= p < newEnd / PAGE :: p in m
    ensures SamePages(after, r, lo, hi)
  {
  }

  lemma SameAfterContract(before: set<nat>, after: set<nat>, m: Mapping, r: Mapping, lo: nat, hi: nat, oldEnd: nat, newEnd: nat)
    requires SamePages(before, m, lo, hi) && HeapMemory.PagesGivenBack(before, after, oldEnd, newEnd)
    requires Contracted(m, r, newEnd / PAGE + 1, oldEnd / PAGE)
    ensures SamePages(after, r, lo, hi)
  {
  }

  /** The objects of the heap, and those of the page tables and frames. */
  ghost function HeapObjects(heap: Heaps.Heap): (s: set<object>) { {heap, heap.index, heap.index.data} }

  ghost function PagerObjects(pager: Pager, dir: PageDirectory): (s: set<object>)
    reads pager
  {
    {pager, pager.frameMap, pager.frameMap.frames, dir} + pager.known
  }

  /** Heap, page tables and frames fit together. Pages behind the end of the heap
      need no table. */
  ghost predicate Joint(heap: Heaps.Heap, pager: Pager, dir: PageDirectory)
    reads heap, heap.index, heap.index.data
    reads pager, pager.frameMap, pager.frameMap.frames, pager.known, dir
  {
    && HeapObjects(heap) !! PagerObjects(pager, dir)
    && heap.Valid() && Ready(pager, dir) && SamePages(heap.present, PagesOf(pager, dir), heap.start / PAGE, heap.max / PAGE)
  }

  /** The frames in use that do not stand behind pages lo..hi-1. */
  ghost function Elsewhere(pager: Pager, dir: PageDirectory, lo: nat, hi: nat): (s: set<nat>)
    requires Ok(pager, dir)
    reads pager, pager.frameMap, pager.frameMap.frames, pager.known, dir
  {
    pager.frameMap.InUse() - FramesBehind(PagesOf(pager, dir), lo, hi)
  }

  /** A page that is present, with a frame that is in use and stands behind no
      other page. */
  ghost predicate OwnFrame(pager: Pager, dir: PageDirectory, p: nat)
    reads pager, pager.frameMap, pager.frameMap.frames, pager.known, dir
  {
    && Ok(pager, dir) && Framed(PagesOf(pager, dir), p)
    && PagesOf(pager, dir)[p].frame in pager.frameMap.InUse()
    && forall q | q in PagesOf(pager, dir) && q != p :: PagesOf(pager, dir)[q].frame != PagesOf(pager, dir)[p].frame
  }

  /** Why growth to newEnd stopped: a page before it has no table, or has no frame
      and there is none left. */
  ghost predicate Stuck(pager: Pager, dir: PageDirectory, g: Growth, from: nat, newEnd: nat)
    reads pager, pager.frameMap, pager.frameMap.frames, pager.known, dir
  {
    && Ok(pager, dir)
    && match g
       case Grown => false
       case NoTable => exists p :: from / PAGE <= p < newEnd / PAGE && p !in PagesOf(pager, dir)
       case NoFrame =>
         && pager.OutOfFrames()
         && exists p :: from / PAGE <= p < newEnd / PAGE && p in PagesOf(pager, dir) && PagesOf(pager, dir)[p].frame == 0
  }

  lemma EndWithinMax(heap: Heaps.Heap)
    requires heap.Valid()
    ensures heap.start % PAGE == 0 && heap.end % PAGE == 0 && heap.start < heap.end <= heap.max < ADDRESS_SPACE
    ensures forall p | heap.start / PAGE <= p < heap.end / PAGE :: p in heap.present
  {
  }

  lemma PagesDistinct(pager: Pager, dir: PageDirectory)
    requires Ok(pager, dir)
    ensures Distinct(PagesOf(pager, dir))
  {
    hide Ok, PagesOf;
    var m := PagesOf(pager, dir);
    forall p, q | p in m && q in m && m[p].frame != 0 && m[p].frame == m[q].frame ensures p == q {
      FramesDistinct(pager, dir, p, q);
    }
  }

  /** Every page of the heap has a frame of its own. */
  lemma EveryPageFramed(heap: Heaps.Heap, pager: Pager, dir: PageDirectory, p: nat)
    requires Joint(heap, pager, dir) && heap.start / PAGE <= p < heap.end / PAGE
    ensures OwnFrame(pager, dir, p)
  {
    hide Ok, PagesOf;
    EndWithinMax(heap);
    forall q | q in PagesOf(pager, dir) ensures q != p ==> PagesOf(pager, dir)[q].frame != PagesOf(pager, dir)[p].frame {
      FramesDistinct(pager, dir, p, q);
    }
    FramesDistinct(pager, dir, p, p);
  }

  function PageRange(lo: nat, hi: nat): (s: set<nat>)
    ensures forall p :: p in s <==> lo <= p < hi
    decreases hi - lo
  {
    if hi <= lo then {} else {lo} + PageRange(lo + 1, hi)
  }

  lemma SameAtBoot(m: Mapping, r: Mapping, mapped: set<nat>, from: nat, end: nat, max: nat, lo: nat)
    requires Expanded(m, r, from / PAGE, end / PAGE, false, false) && from / PAGE <= lo
    requires forall p | from / PAGE <= p < end / PAGE :: p in m
    requires forall p | from / PAGE <= p < max / PAGE && p in m :: m[p].frame == 0
    requires forall p :: p in mapped <==> from / PAGE <= p < end / PAGE
    ensures SamePages(mapped, r, lo, max / PAGE)
  {
  }

  /** The pages are present, open to the user and not writeable, each on a frame. */
  ghost predicate UserPages(m: Mapping, lo: nat, hi: nat)
  {
    forall p | lo <= p < hi :: p in m && m[p].present && !m[p].rw && m[p].user && m[p].frame != 0
  }

  lemma FreshAtBoot(m: Mapping, r: Mapping, lo: nat, hi: nat, max: nat)
    requires Expanded(m, r, lo, hi, false, false) && hi <= max
    requires forall p | lo <= p < hi :: p in m
    requires forall p | lo <= p < max && p in m :: m[p].frame == 0
    ensures UserPages(r, lo, hi)
  {
  }

  /** So what growth from nothing to `end` leaves is right for a new heap. */
  lemma PagesAtBoot(pager: Pager, dir: PageDirectory, m: Mapping, used: set<nat>, mapped: set<nat>, from: nat, end: nat, max: nat, lo: nat)
    requires GrownTo(pager, dir, m, used, from / PAGE, end / PAGE, false, false) && from / PAGE <= lo && end <= max
    requires forall p | from / PAGE <= p < max / PAGE && p in m :: m[p].frame == 0
    requires forall p :: p in mapped <==> from / PAGE <= p < end / PAGE
    ensures Ready(pager, dir) && SamePages(mapped, PagesOf(pager, dir), lo, max / PAGE)
    ensures UserPages(PagesOf(pager, dir), from / PAGE, end / PAGE)
  {
    hide Ok, Sane, PagesOf, Expanded, SamePages, UserPages, FramesGiven;
    FreshAtBoot(m, PagesOf(pager, dir), from / PAGE, end / PAGE, max / PAGE);
    SameAtBoot(m, PagesOf(pager, dir), mapped, from, end, max, lo);
  }

  lemma GrownReady(pager: Pager, dir: PageDirectory, m: Mapping, used: set<nat>, lo: nat, p: nat, isKernel: bool, isWriteable: bool)
    requires GrownTo(pager, dir, m, used, lo, p, isKernel, isWriteable)
    ensures Ready(pager, dir)
  {
    hide Ready, PagesOf, Expanded, FramesGiven;
  }

  lemma RangeBacked(from: nat, end: nat)
    ensures HeapMemory.Backed(PageRange(from / PAGE, end / PAGE), from + HeapLayouts.INDEX_BYTES, end)
  {
    hide PageRange;
  }

  lemma NoBlocksYet(from: nat, end: nat, max: nat)
    requires HeapRuns.Bootable(from, end, max)
    ensures HeapTheorems.Blocks(HeapLayouts.Created(from, end, max).segs) == map[]
  {
  }

  /** What is true where the loop of expand stopped. */
  lemma StuckAt(pager: Pager, dir: PageDirectory, m: Mapping, used: set<nat>, g: Growth, from: nat, newEnd: nat, stop: nat, isKernel: bool, isWriteable: bool)
    requires GrownTo(pager, dir, m, used, from / PAGE, stop, isKernel, isWriteable) && stop < newEnd / PAGE && g != Grown
    requires g == NoTable ==> stop !in m
    requires g == NoFrame ==> stop in m && m[stop].frame == 0 && pager.OutOfFrames()
    ensures Stuck(pager, dir, g, from, newEnd)
  {
    hide Ok, Sane, PagesOf, Given;
  }

  /** Growth touches no frame behind other pages. */
  lemma ElsewhereGrown(pager: Pager, dir: PageDirectory, m: Mapping, used: set<nat>, lo: nat, hi: nat, a: nat, b: nat, isKernel: bool, isWriteable: bool)
    requires GrownTo(pager, dir, m, used, a, b, isKernel, isWriteable) && lo <= a && b <= hi
    ensures Elsewhere(pager, dir, lo, hi) == used - FramesBehind(m, lo, hi)
  {
    hide Ok, Sane, PagesOf, Expanded, FramesBehind, FramesGiven;
    GrownBehind(m, PagesOf(pager, dir), lo, hi, a, b, isKernel, isWriteable);
  }

  /** What initialise_paging does for the heap: its first pages, which have tables
      by then, get frames, and the heap is made on them. */
  method CreateBacked(pager: Pager, dir: PageDirectory, from: nat, end: nat, max: nat, memory: Bytes) returns (heap: Heaps.Heap?, g: Growth)
    requires HeapRuns.Bootable(from, end, max) && |memory| == ADDRESS_SPACE && Ready(pager, dir)
    requires forall p | from / PAGE <= p < max / PAGE && p in PagesOf(pager, dir) :: PagesOf(pager, dir)[p].frame == 0
    modifies pager`placement, pager`known, dir, pager.frameMap.frames, pager.known
    ensures Ready(pager, dir) && (heap == null <==> g != Grown) && (g != Grown ==> Stuck(pager, dir, g, from, end))
    ensures Elsewhere(pager, dir, from / PAGE, max / PAGE) == old(Elsewhere(pager, dir, from / PAGE, max / PAGE))
    ensures heap != null ==>
              && fresh(heap) && Joint(heap, pager, dir) && heap.View() == HeapLayouts.Created(from, end, max)
              && HeapTheorems.Blocks(heap.segs) == map[]
    ensures heap != null ==> UserPages(PagesOf(pager, dir), from / PAGE, end / PAGE)
  {
    hide Ok, Sane, PagesOf, UserPages, SamePages, Stuck, Expanded, GrownTo, PageRange, FramesBehind, FramesGiven, HeapLayouts.Inv, HeapMemory.Tagged, HeapMemory.Backed;
    ghost var m, used := PagesOf(pager, dir), pager.frameMap.InUse();
    ghost var stop;
    g, stop := ExpandPages(pager, dir, from, 0, end - from, false, true);
    GrownReady(pager, dir, m, used, from / PAGE, stop, false, false);
    ElsewhereGrown(pager, dir, m, used, from / PAGE, max / PAGE, from / PAGE, stop, false, false);
    if g != Grown {
      StuckAt(pager, dir, m, used, g, from, end, stop, false, false);
      return null, g;
    }
    var mapped := PageRange(from / PAGE, end / PAGE);
    RangeBacked(from, end);
    heap := new Heaps.Heap(from, end, max, memory, mapped);
    PagesAtBoot(pager, dir, m, used, mapped, from, end, max, heap.start / PAGE);
    NoBlocksYet(from, end, max);
  }

  lemma ElsewhereShrunk(pager: Pager, dir: PageDirectory, m: Mapping, used: set<nat>, lo: nat, hi: nat, a: nat, b: nat)
    requires ShrunkTo(pager, dir, m, used, a, b) && Distinct(m) && lo <= a && b <= hi
    ensures Elsewhere(pager, dir, lo, hi) == used - FramesBehind(m, lo, hi)
  {
    hide Ok, Sane, PagesOf, Contracted, FramesBehind;
    ShrunkBehind(m, PagesOf(pager, dir), lo, hi, a, b);
  }

  lemma TablesBelow(present: set<nat>, m: Mapping, lo: nat, hi: nat, end: nat)
    requires SamePages(present, m, lo, hi) && end <= hi && forall p | lo <= p < end :: p in present
    ensures forall p | lo <= p < end :: p in m
  {
  }

  /** What expand or contract does to the frames when the end of the heap has
      moved. No frame behind other pages is touched, whether it succeeds or not. */
  method MovePages(pager: Pager, dir: PageDirectory, start: nat, max: nat, oldEnd: nat, newEnd: nat, shrink: bool, supervisor: bool, readonly: bool, ghost before: set<nat>, ghost after: set<nat>)
    returns (g: Growth)
    requires start % PAGE == 0 && oldEnd % PAGE == 0 && newEnd % PAGE == 0 && start < oldEnd <= max < ADDRESS_SPACE && start < newEnd <= max
    requires Ready(pager, dir) && SamePages(before, PagesOf(pager, dir), start / PAGE, max / PAGE)
    requires forall p | start / PAGE <= p < oldEnd / PAGE :: p in before
    requires shrink ==> newEnd <= oldEnd && HeapMemory.PagesGivenBack(before, after, oldEnd, newEnd)
    requires !shrink ==> oldEnd <= newEnd && HeapMemory.PagesAdded(before, after, oldEnd, newEnd)
    modifies pager`placement, pager`known, dir, pager.frameMap.frames, pager.known
    ensures Ready(pager, dir) && pager.known == old(pager.known)
    ensures Elsewhere(pager, dir, start / PAGE, max / PAGE) == old(Elsewhere(pager, dir, start / PAGE, max / PAGE))
    ensures if g == Grown then SamePages(after, PagesOf(pager, dir), start / PAGE, max / PAGE) else Stuck(pager, dir, g, oldEnd, newEnd)
    ensures FlagsKept(old(PagesOf(pager, dir)), PagesOf(pager, dir), start / PAGE, max / PAGE, supervisor, !readonly)
  {
    hide Ok, PagesOf, Sane, SamePages, Stuck, Expanded, Contracted, FramesBehind, FramesGiven, Distinct, FlagsKept, HeapMemory.PagesGivenBack, HeapMemory.PagesAdded;
    ghost var m, used, lo, hi := PagesOf(pager, dir), pager.frameMap.InUse(), start / PAGE, max / PAGE;
    if shrink {
      TablesBelow(before, m, lo, hi, oldEnd / PAGE);
      PagesDistinct(pager, dir);
      ContractPages(pager, dir, start, oldEnd - start, newEnd - start);
      ElsewhereShrunk(pager, dir, m, used, lo, hi, newEnd / PAGE + 1, oldEnd / PAGE);
      SameAfterContract(before, after, m, PagesOf(pager, dir), lo, hi, oldEnd, newEnd);
      FlagsAfterContract(m, PagesOf(pager, dir), newEnd / PAGE + 1, oldEnd / PAGE, lo, hi, supervisor, !readonly);
      g := Grown;
    } else {
      ghost var stop;
      g, stop := ExpandPages(pager, dir, start, oldEnd - start, newEnd - start, supervisor, readonly);
      ElsewhereGrown(pager, dir, m, used, lo, hi, oldEnd / PAGE, stop, supervisor, !readonly);
      FlagsAfterExpand(m, PagesOf(pager, dir), oldEnd / PAGE, stop, lo, hi, supervisor, !readonly);
      if g == Grown {
        SameAfterExpand(before, after, m, PagesOf(pager, dir), lo, hi, oldEnd, newEnd, supervisor, !readonly);
      } else {
        StuckAt(pager, dir, m, used, g, oldEnd, newEnd, stop, supervisor, !readonly);
      }
    }
  }

  /** How pages and frames stand after a call that found the end at `oldEnd`;
      `others` are the frames in use elsewhere. */
  ghost predicate Stands(heap: Heaps.Heap, pager: Pager, dir: PageDirectory, others: set<nat>, g: Growth, oldEnd: nat)
    reads heap, heap.index, heap.index.data
    reads pager, pager.frameMap, pager.frameMap.frames, pager.known, dir
  {
    && Ready(pager, dir) && Elsewhere(pager, dir, heap.start / PAGE, heap.max / PAGE) == others
    && if g == Grown then Joint(heap, pager, dir) else Stuck(pager, dir, g, oldEnd, heap.end)
  }

  /** Then, if nothing was stuck, every page of the heap has a frame of its own. */
  lemma AllFramed(heap: Heaps.Heap, pager: Pager, dir: PageDirectory, others: set<nat>, g: Growth, oldEnd: nat)
    requires Stands(heap, pager, dir, others, g, oldEnd)
    ensures g == Grown ==> Joint(heap, pager, dir) && forall p | heap.start / PAGE <= p < heap.end / PAGE :: OwnFrame(pager, dir, p)
    ensures g != Grown ==> Stuck(pager, dir, g, oldEnd, heap.end)
    ensures Ready(pager, dir) && Elsewhere(pager, dir, heap.start / PAGE, heap.max / PAGE) == others
  {
    hide Ok, Sane, Joint, Stuck, Elsewhere, OwnFrame;
    if g == Grown {
      forall p | heap.start / PAGE <= p < heap.end / PAGE ensures OwnFrame(pager, dir, p) {
        EveryPageFramed(heap, pager, dir, p);
      }
    }
  }

  /** Carries out one command, and what expand and contract do for it. */
  method DoBacked(heap: Heaps.Heap, pager: Pager, dir: PageDirectory, live: HeapRuns.Objects, c: HeapRuns.Command, supervisor: bool, readonly: bool)
    returns (r: HeapRuns.Objects, panicked: bool, g: Growth)
    requires Joint(heap, pager, dir) && HeapRuns.Agrees(heap.segs, heap.mem, live)
    modifies heap, heap.index, heap.index.data
    modifies pager`placement, pager`known, dir, pager.frameMap.frames, pager.known
    ensures heap.Valid() && HeapRuns.Agrees(heap.segs, heap.mem, r)
    ensures HeapRuns.Follows(HeapRuns.State(live, old(heap.View())), c, HeapRuns.State(r, heap.View()))
    ensures panicked <==> HeapRuns.Fails(HeapRuns.State(live, old(heap.View())), c)
    ensures pager.known == old(pager.known)
    ensures Stands(heap, pager, dir, old(Elsewhere(pager, dir, heap.start / PAGE, heap.max / PAGE)), g, old(heap.end))
    ensures FlagsKept(old(PagesOf(pager, dir)), PagesOf(pager, dir), heap.start / PAGE, heap.max / PAGE, supervisor, !readonly)
  {
    hide Ready, PagesOf, SamePages, Stuck, Elsewhere, FlagsKept, HeapRuns.Follows, HeapRuns.Fails, HeapRuns.Agrees, HeapMemory.PagesGivenBack, HeapMemory.PagesAdded, HeapMemory.Tagged, HeapLayouts.Inv;
    EndWithinMax(heap);
    ghost var before := heap.present;
    var oldEnd := heap.end;
    r, panicked := HeapRuns.DoCommand(heap, live, c);
    EndWithinMax(heap);
    g := MovePages(pager, dir, heap.start, heap.max, oldEnd, heap.end, c.GiveBack?, supervisor, readonly, before, heap.present);
  }

  lemma StandsAtFirst(heap: Heaps.Heap, pager: Pager, dir: PageDirectory)
    requires Joint(heap, pager, dir)
    ensures Ok(pager, dir)
    ensures Stands(heap, pager, dir, Elsewhere(pager, dir, heap.start / PAGE, heap.max / PAGE), Grown, heap.end)
  {
  }

  lemma StandsJoint(heap: Heaps.Heap, pager: Pager, dir: PageDirectory, others: set<nat>, oldEnd: nat)
    requires Stands(heap, pager, dir, others, Grown, oldEnd)
    ensures Joint(heap, pager, dir) && Ok(pager, dir) && Elsewhere(pager, dir, heap.start / PAGE, heap.max / PAGE) == others
  {
  }

  lemma StandsOk(heap: Heaps.Heap, pager: Pager, dir: PageDirectory, others: set<nat>, g: Growth, oldEnd: nat)
    requires Stands(heap, pager, dir, others, g, oldEnd)
    ensures Ok(pager, dir)
  {
    hide Ok;
  }

  lemma FlagsAtFirst(m: Mapping, lo: nat, hi: nat, isKernel: bool, isWriteable: bool)
    ensures FlagsKept(m, m, lo, hi, isKernel, isWriteable)
  {
  }

  lemma FlagsMean(m: Mapping, r: Mapping, lo: nat, hi: nat, isKernel: bool, isWriteable: bool)
    requires FlagsKept(m, r, lo, hi, isKernel, isWriteable)
    ensures r.Keys == m.Keys
    ensures forall p | p in r ::
              || r[p] == m[p]
              || (lo <= p < hi && (r[p].frame == 0 || (r[p].present && r[p].rw == isWriteable && r[p].user == !isKernel)))
  {
  }

  /** Any client's commands on a new heap, with the trace of RunScript: every page
      of the heap is present, on a frame that is in use and behind no other page,
      unless growth met a page without a table, or had taken the last frame. The
      frames in use that are not the heap's are the same throughout. */
  method RunBacked(heap: Heaps.Heap, pager: Pager, dir: PageDirectory, script: seq<HeapRuns.Command>, supervisor: bool, readonly: bool)
    returns (live: HeapRuns.Objects, panicked: bool, g: Growth, ghost trace: seq<HeapRuns.State>)
    requires heap.Valid() && Joint(heap, pager, dir) && HeapTheorems.Blocks(heap.segs) == map[]
    modifies heap, heap.index, heap.index.data
    modifies pager`placement, pager`known, dir, pager.frameMap.frames, pager.known
    ensures heap.Valid() && HeapRuns.Agrees(heap.segs, heap.mem, live)
    ensures HeapRuns.Traced(trace, script) && trace[0] == HeapRuns.State(map[], old(heap.View()))
    ensures forall k | 0 <= k < |trace| - 1 :: HeapRuns.Follows(trace[k], script[k], trace[k + 1])
    ensures trace[|trace| - 1] == HeapRuns.State(live, heap.View())
    ensures panicked ==> |trace| > 1 && HeapRuns.Fails(trace[|trace| - 2], script[|trace| - 2])
    ensures |trace| == |script| + 1 || panicked || g != Grown
    ensures Ready(pager, dir)
    ensures Elsewhere(pager, dir, heap.start / PAGE, heap.max / PAGE) == old(Elsewhere(pager, dir, heap.start / PAGE, heap.max / PAGE))
    ensures g != Grown ==> |trace| > 1 && Stuck(pager, dir, g, trace[|trace| - 2].layout.end, heap.end)
    ensures PagesOf(pager, dir).Keys == old(PagesOf(pager, dir)).Keys
    ensures forall p | p in PagesOf(pager, dir) ::
              var e := PagesOf(pager, dir)[p];
              || e == old(PagesOf(pager, dir))[p]
              || (heap.start / PAGE <= p < heap.max / PAGE && (e.frame == 0 || (e.present && e.rw == !readonly && e.user == !supervisor)))
    ensures g == Grown ==>
              && Joint(heap, pager, dir)
              && forall p | heap.start / PAGE <= p < heap.end / PAGE :: OwnFrame(pager, dir, p)
  {
    hide Ok, Sane, Joint, Stuck, Stands, Elsewhere, PagesOf, FlagsKept, HeapRuns.Agrees, OwnFrame, HeapRuns.Follows, HeapRuns.Fails, HeapMemory.Tagged, HeapLayouts.Inv;
    live, panicked, g := map[], false, Grown;
    StandsAtFirst(heap, pager, dir);
    ghost var others, oldEnd := Elsewhere(pager, dir, heap.start / PAGE, heap.max / PAGE), heap.end;
    ghost var m := PagesOf(pager, dir);
    FlagsAtFirst(m, heap.start / PAGE, heap.max / PAGE, supervisor, !readonly);
    trace := [HeapRuns.State(live, heap.View())];
    HeapRuns.NoObjects(heap.segs, heap.mem);
    var i := 0;
    while i < |script| && g == Grown && !panicked
      invariant i <= |script| && heap.Valid() && HeapRuns.Agrees(heap.segs, heap.mem, live)
      invariant pager.known == old(pager.known) && Stands(heap, pager, dir, others, g, oldEnd)
      invariant Ok(pager, dir) && FlagsKept(m, PagesOf(pager, dir), heap.start / PAGE, heap.max / PAGE, supervisor, !readonly)
      invariant |trace| == i + 1 && HeapRuns.Traced(trace, script) && trace[0] == HeapRuns.State(map[], old(heap.View()))
      invariant trace[i] == HeapRuns.State(live, heap.View())
      invariant if panicked then i > 0 && HeapRuns.Fails(trace[i - 1], script[i - 1]) else i > 0 ==> !HeapRuns.Fails(trace[i - 1], script[i - 1])
      invariant if i == 0 then g == Grown else oldEnd == trace[i - 1].layout.end
    {
      StandsJoint(heap, pager, dir, others, oldEnd);
      oldEnd := heap.end;
      ghost var before := PagesOf(pager, dir);
      live, panicked, g := DoBacked(heap, pager, dir, live, script[i], supervisor, readonly);
      StandsOk(heap, pager, dir, others, g, oldEnd);
      FlagsKeptOn(m, before, PagesOf(pager, dir), heap.start / PAGE, heap.max / PAGE, supervisor, !readonly);
      ghost var t := HeapRuns.State(live, heap.View());
      HeapRuns.TraceGrows(trace, script, t);
      trace := trace + [t];
      i := i + 1;
    }
    AllFramed(heap, pager, dir, others, g, oldEnd);
    FlagsMean(m, PagesOf(pager, dir), heap.start / PAGE, heap.max / PAGE, supervisor, !readonly);
  }
}
