/** kernel/heap.c run as its text has it. At every step of which the conditions
    hold, the text does to the segments what the heap of this model does, and
    leaves the index complete and in order; so a whole run of such steps does. */
module HeapTextRuns {
  import opened Options
  import opened Memory
  import opened Tilings
  import opened OrderedArrays
  import opened HeapLayouts
  import opened HeapTheorems
  import opened HeapMemory
  import opened HeapRuns
  import opened HeapAsWritten

  /** Same segments and bounds; the index may list equal holes in another order. */
  predicate SameHeap(l: Layout, k: Layout)
  {
    l.segs == k.segs && l.start == k.start && l.end == k.end && l.max == k.max
  }

  /** The hole h may get this size at its place in the index. */
  predicate KeepsPlace(index: seq<nat>, s: Segs, h: nat, size: nat)
  {
    forall i | 0 <= i < |index| && index[i] == h ::
      (i == 0 || SizeOf(s, index[i - 1]) <= size) && (i == |index| - 1 || size <= SizeOf(s, index[i + 1]))
  }

  // ---- alloc ----

  predicate FitsText(s: Segs, a: nat, n: nat, align: bool)
  {
    (if align then GapCharged(a) else 0) + n <= SizeOf(s, a)
  }

  function FirstFitText(s: Segs, index: seq<nat>, n: nat, align: bool, from: nat): (i: nat)
    requires from <= |index|
    ensures from <= i <= |index|
    ensures i < |index| ==> FitsText(s, index[i], n, align)
    decreases |index| - from
  {
    if from == |index| || FitsText(s, index[from], n, align) then from
    else FirstFitText(s, index, n, align, from + 1)
  }

  /** Lines 200-261. */
  function CarveText(l: Layout, i: nat, n: nat, align: bool): (r: (Layout, nat))
    requires i < |l.index| && OVERHEAD <= n && FitsText(l.segs, l.index[i], n, align) && l.index[i] in l.segs
  {
    var h := l.index[i];
    if align then
      (l.(segs := AlignedSegsAsWritten(l.segs, h, n), index := AlignedIndexAsWritten(l.index, l.segs, h, n)), BlockMade(h))
    else
      Carve(l, i, n, false)
  }

  function EndmostOf(index: seq<nat>): (h: nat)
    requires index != []
    ensures h in index && forall y | y in index :: y <= h
  {
    if |index| == 1 then index[0]
    else
      var h := EndmostOf(index[1..]);
      assert forall y | y in index :: y == index[0] || y in index[1..];
      if index[0] <= h then h else index[0]
  }

  /** Lines 159-195. */
  function GrowText(l: Layout, newEnd: nat): (r: Layout)
    requires l.end <= newEnd && forall y | y in l.index :: y in l.segs
  {
    if l.index == [] then
      var segs := l.segs[l.end := Seg(newEnd - l.end, true)];
      l.(segs := segs, index := [l.end], end := newEnd)
    else
      var h := EndmostOf(l.index);
      l.(segs := Resize(l.segs, h, l.segs[h].size + (newEnd - l.end)), end := newEnd)
  }

  /** A growth for which the conditions hold: the rounding is right, there is no
      hole or the endmost reaches the end, and the index keeps its order. */
  ghost predicate GrowMeets(l: Layout, n: nat)
    requires l.start <= l.end
  {
    && (ADDRESS_SPACE <= l.end - l.start + n || (l.end - l.start + n) % 2 == 1 || (l.end - l.start + n) % PAGE == 0)
    && (NewEnd(l, n) <= l.max ==> l.index == [] || HasTailHole(l))
    && (NewEnd(l, n) <= l.max && HasTailHole(l) ==> KeepsPlace(l.index, l.segs, TailHole(l), NewEnd(l, n) - TailHole(l)))
  }

  /** alloc for n bytes with the tags, as the text has it from line 147 on. */
  ghost function AllocText(l: Layout, n: nat, align: bool): (r: Option<(Layout, nat)>)
    requires OVERHEAD <= n < ADDRESS_SPACE && l.start <= l.end <= l.max && forall y | y in l.index :: y in l.segs
    decreases l.max - l.end
  {
    var i := FirstFitText(l.segs, l.index, n, align, 0);
    if i < |l.index| then
      assert l.index[i] in l.index;
      Some(CarveText(l, i, n, align))
    else
      var length := l.end - l.start;
      var sum := (length + n) % ADDRESS_SPACE;
      var newEnd := (l.start + RoundAsWritten(sum)) % ADDRESS_SPACE;
      if sum <= length || l.max < newEnd || newEnd <= l.end then None
      else AllocText(GrowText(l, newEnd), n, align)
  }

  /** What the text needs of one step of alloc. */
  ghost predicate PlaceMeets(l: Layout, n: nat, align: bool)
  {
    align ==>
      && (forall h | h in l.index :: h % PAGE <= 0xFE0)
      && var i := FirstFit(l.segs, l.index, n, align, 0);
         i < |l.index| ==>
           SplitIsExact(SizeOf(l.segs, l.index[i]), l.index[i], n) && KeepsPlace(l.index, l.segs, l.index[i], GapMade(l.index[i]))
  }

  /** ... and of all of them, with the growth in between. */
  ghost predicate AllocMeets(l: Layout, n: nat, align: bool)
    requires OVERHEAD <= n < ADDRESS_SPACE && l.start <= l.end <= l.max && forall y | y in l.index :: y in l.segs
    decreases l.max - l.end
  {
    && SumsExact(l, n) && PlaceMeets(l, n, align)
    && (!Fitting(l, n, align) ==>
          GrowMeets(l, n) && (NewEnd(l, n) <= l.max ==> AllocMeets(GrowText(l, NewEnd(l, n)), n, align)))
  }

  // ---- One placement ----

  lemma GapIsCharged(a: nat)
    requires a % PAGE <= 0xFE0
    ensures GapCharged(a) == AlignedGap(a) == GapMade(a) && OVERHEAD <= GapMade(a) && BlockMade(a) == a + GapMade(a)
  {
    GapsAgreeExactly(a);
  }

  lemma {:induction false} SameFirstFit(l: Layout, n: nat, align: bool, from: nat)
    requires from <= |l.index| && (align ==> forall h | h in l.index :: h % PAGE <= 0xFE0)
    ensures FirstFitText(l.segs, l.index, n, align, from) == FirstFit(l.segs, l.index, n, align, from)
    decreases |l.index| - from
  {
    hide AlignedGap;
    if from < |l.index| {
      assert l.index[from] in l.index;
      if align { GapIsCharged(l.index[from]); }
      SameFirstFit(l, n, align, from + 1);
    }
  }

  lemma InvSizes(l: Layout, h: nat)
    requires Inv(l) && h in l.segs
    ensures l.segs[h].size < ADDRESS_SPACE
  {
    hide Sorted, BySize, NoAdjacentHoles, ListsHolesBut, Disjoint, Chained;
  }

  /** The segments after an aligned placement, when both gaps are exact. */
  lemma AlignedSegsSame(l: Layout, i: nat, n: nat)
    requires Inv(l) && i < |l.index| && OVERHEAD <= n && Fits(l.segs, l.index[i], n, true)
    requires l.index[i] in l.segs && SplitIsExact(l.segs[l.index[i]].size, l.index[i], n)
    ensures AlignedSegsAsWritten(l.segs, l.index[i], n) == Carve(l, i, n, true).0.segs
    ensures BlockMade(l.index[i]) == Carve(l, i, n, true).1
  {
    hide Inserted, Removed, BySize, Tiling, NoAdjacentHoles, Sorted, ListsHolesBut, AlignedSegsAsWritten, GapCharged, GapMade, BlockMade, AlignedGap;
    var h := l.index[i];
    GapIsCharged(h);
    InvSizes(l, h);
    AlignedPieces(l.segs, h, n);
    var gap := GapMade(h);
    var s1 := Split(l.segs, h, gap, true, true);
    assert SetHole(s1, h + gap, false) == Split(l.segs, h, gap, true, false);
  }

  lemma OthersKeepSize(l: Layout, h: nat, n: nat)
    requires Inv(l) && h in l.segs && l.segs[h].hole && OVERHEAD <= n && Fits(l.segs, h, n, true) && h % PAGE <= 0xFE0
    requires SplitIsExact(l.segs[h].size, h, n)
    ensures n <= l.segs[h].size
    ensures forall y | y in l.index :: SizeOf(Resize(l.segs, h, GapMade(h)), y) == SizeOf(AlignedSegsAsWritten(l.segs, h, n), y)
  {
    hide BySize, NoAdjacentHoles, Sorted, AlignedGap, GapCharged, GapMade, BlockMade, Chained, AlignedSegsAsWritten;
    GapIsCharged(h);
    InvSizes(l, h);
    AlignedPieces(l.segs, h, n);
  }

  /** The index after an aligned placement as written is in order. */
  lemma AlignedIndexSorted(l: Layout, i: nat, n: nat)
    requires Inv(l) && i < |l.index| && OVERHEAD <= n && Fits(l.segs, l.index[i], n, true)
    requires l.index[i] in l.segs && l.segs[l.index[i]].hole && SplitIsExact(l.segs[l.index[i]].size, l.index[i], n)
    requires KeepsPlace(l.index, l.segs, l.index[i], GapMade(l.index[i]))
    ensures var h := l.index[i];
            Sorted(AlignedIndexAsWritten(l.index, l.segs, h, n), BySize(AlignedSegsAsWritten(l.segs, h, n)))
  {
    hide Inserted, BySize, NoAdjacentHoles, Sorted, GapCharged, AlignedGap, AlignedSegsAsWritten, GapMade, BlockMade;
    var h := l.index[i];
    GapIsCharged(h);
    InvSizes(l, h);
    AlignedPieces(l.segs, h, n);
    var t := AlignedSegsAsWritten(l.segs, h, n);
    ResizeInPlaceExactly(l.index, l.segs, i, GapMade(h));
    OthersKeepSize(l, h, n);
    SortedAgrees(l.index, Resize(l.segs, h, GapMade(h)), t);
    InsertBySizeSorted(l.index, BlockMade(h) + BlockSize(l.segs[h].size, n), t);
  }

  /** One placement as the text has it. */
  lemma PlaceSame(l: Layout, n: nat, align: bool)
    requires Inv(l) && OVERHEAD <= n && PlaceMeets(l, n, align) && Fitting(l, n, align)
    ensures var i := FirstFit(l.segs, l.index, n, align, 0);
            && FirstFitText(l.segs, l.index, n, align, 0) == i && l.index[i] in l.segs
            && var (t, b) := CarveText(l, i, n, align);
               var (r, c) := Carve(l, i, n, align);
               SameHeap(t, r) && b == c && Inv(t)
  {
    hide Carve, Tiling, NoAdjacentHoles, Sorted, BySize, AlignedGap, GapCharged, KeepsPlace, SplitIsExact, AlignedSegsAsWritten, AlignedIndexAsWritten;
    SameFirstFit(l, n, align, 0);
    var i := FirstFit(l.segs, l.index, n, align, 0);
    ListedHole(l, i);
    CarveInv(l, i, n, align);
    CarveBlocks(l, i, n, align);
    if align {
      var h := l.index[i];
      assert h in l.index;
      GapIsCharged(h);
      InvSizes(l, h);
      AlignedSegsSame(l, i, n);
      AlignedIndexSorted(l, i, n);
      AlignedSplitWorks(l.segs, l.start, l.end, l.index, h, n);
    }
  }

  // ---- Growth ----

  /** The hole with the highest address is the one at the end, if there is one. */
  lemma EndmostIsTailHole(l: Layout)
    requires Inv(l) && HasTailHole(l)
    ensures l.index != [] && EndmostOf(l.index) == TailHole(l) && l.segs[TailHole(l)].hole
  {
    hide Sorted, BySize, NoAdjacentHoles;
    EndmostIsTail(l, EndmostOf(l.index));
  }

  lemma NothingIndexed(l: Layout, e: nat)
    requires Inv(l) && l.index == [] && l.end <= e
    ensures Grow(l, e).index == [l.end] && Grow(l, e).segs == l.segs[l.end := Seg(e - l.end, true)]
  {
    hide Sorted, BySize, NoAdjacentHoles, Tiling;
  }

  lemma StretchedSegs(l: Layout, e: nat)
    requires Inv(l) && HasTailHole(l) && l.end <= e && l.index != [] && EndmostOf(l.index) == TailHole(l)
    requires forall y | y in l.index :: y in l.segs
    ensures GrowText(l, e).segs == Resize(l.segs, TailHole(l), e - TailHole(l)) == Grow(l, e).segs
    ensures GrowText(l, e).index == l.index
  {
    hide Sorted, BySize, NoAdjacentHoles, Tiling, ListsHolesBut, Inserted, TakeOut;
  }

  lemma SameIndexStretched(index: seq<nat>, s: Segs, h: nat, size: nat)
    requires h in s && s[h].hole && ListsHolesBut(index, s, None) && Sorted(index, BySize(s)) && KeepsPlace(index, s, h, size)
    ensures ListsHolesBut(index, Resize(s, h, size), None) && Sorted(index, BySize(Resize(s, h, size)))
  {
    hide Sorted, BySize;
    assert h in index;
    var i :| 0 <= i < |index| && index[i] == h;
    assert forall y | y in index :: y in s;
    ResizeInPlaceExactly(index, s, i, size);
  }

  lemma InPlaceAtEnd(l: Layout, e: nat)
    requires Inv(l) && HasTailHole(l) && l.end <= e && l.index != [] && EndmostOf(l.index) == TailHole(l) && l.segs[TailHole(l)].hole
    requires KeepsPlace(l.index, l.segs, TailHole(l), e - TailHole(l))
    requires forall y | y in l.index :: y in l.segs
    ensures var t := GrowText(l, e);
            t.segs == Grow(l, e).segs && ListsHolesBut(t.index, t.segs, None) && Sorted(t.index, BySize(t.segs))
  {
    hide Sorted, BySize, NoAdjacentHoles, Tiling, KeepsPlace, Grow, GrowText, ListsHolesBut;
    StretchedSegs(l, e);
    SameIndexStretched(l.index, l.segs, TailHole(l), e - TailHole(l));
  }

  /** One growth as the text has it. */
  lemma GrowSame(l: Layout, n: nat)
    requires Inv(l) && OVERHEAD <= n && GrowMeets(l, n) && NewEnd(l, n) <= l.max
    ensures forall y | y in l.index :: y in l.segs
    ensures var e := NewEnd(l, n);
            SameHeap(GrowText(l, e), Grow(l, e)) && Inv(GrowText(l, e))
  {
    hide Sorted, BySize, NoAdjacentHoles, Tiling, NewEnd, KeepsPlace, Inserted, TakeOut;
    var e := NewEnd(l, n);
    NewEndInRange(l, n);
    GrowInv(l, e);
    GrowRange(l, e);
    if l.index == [] {
      NothingIndexed(l, e);
    } else {
      EndmostIsTailHole(l);
      InPlaceAtEnd(l, e);
    }
  }

  /** What expand makes of the new length, as the text has it. */
  lemma EndSame(l: Layout, n: nat)
    requires Inv(l) && OVERHEAD <= n < ADDRESS_SPACE && SumsExact(l, n) && GrowMeets(l, n)
    ensures var length := l.end - l.start;
            var sum := (length + n) % ADDRESS_SPACE;
            var newEnd := (l.start + RoundAsWritten(sum)) % ADDRESS_SPACE;
            if NewEnd(l, n) <= l.max then length < sum && newEnd == NewEnd(l, n) && l.end < newEnd
            else sum <= length || l.max < newEnd
  {
    hide Sorted, BySize, NoAdjacentHoles, Tiling, ListsHolesBut, HasTailHole, KeepsPlace;
    SumWraps(l, n);
    NewEndInRange(l, n);
    RoundAsWrittenExactly((l.end - l.start + n) % ADDRESS_SPACE);
  }

  // ---- Two layouts of the same heap ----

  /** Which hole is taken decides the segments; where the index lists it does not. */
  lemma CarveSameSegs(g: Layout, i: nat, k: Layout, j: nat, n: nat, align: bool)
    requires SameHeap(g, k) && i < |g.index| && j < |k.index| && g.index[i] == k.index[j]
    requires OVERHEAD <= n && Fits(g.segs, g.index[i], n, align) && Fits(k.segs, k.index[j], n, align)
    ensures var (r, b) := Carve(g, i, n, align);
            var (t, c) := Carve(k, j, n, align);
            SameHeap(r, t) && b == c
  {
    hide Inserted, Removed, BySize, AlignedGap;
  }

  lemma SameHoles(g: Layout, k: Layout)
    requires Inv(g) && Inv(k) && SameHeap(g, k)
    ensures forall h :: h in g.index <==> h in k.index
    ensures HasTailHole(g) <==> HasTailHole(k)
    ensures HasTailHole(g) ==> TailHole(g) == TailHole(k)
  {
    hide Sorted, BySize, NoAdjacentHoles;
    if HasTailHole(g) {
      assert IsTailHole(k, TailHole(g));
      TailHolesAgree(k, TailHole(g), TailHole(k));
    }
    if HasTailHole(k) { assert IsTailHole(g, TailHole(k)); }
  }

  lemma GrowSameSegs(g: Layout, k: Layout, e: nat)
    requires Inv(g) && Inv(k) && SameHeap(g, k) && g.end <= e
    ensures SameHeap(Grow(g, e), Grow(k, e))
  {
    hide Sorted, BySize, NoAdjacentHoles, Tiling, Inserted, TakeOut, ListsHolesBut;
    SameHoles(g, k);
  }

  lemma FittingSame(g: Layout, k: Layout, n: nat, align: bool)
    requires Inv(g) && Inv(k) && SameHeap(g, k)
    ensures Fitting(g, n, align) <==> Fitting(k, n, align)
  {
    hide Sorted, NoAdjacentHoles, Tiling, Fits;
    BestFit(g, n, align);
    BestFit(k, n, align);
  }

  lemma SameNewEnd(g: Layout, k: Layout, n: nat)
    requires SameHeap(g, k) && g.start <= g.end
    ensures NewEnd(g, n) == NewEnd(k, n)
  {
  }

  lemma OnlyAtEnd(g: Layout, k: Layout, i: nat, j: nat, n: nat, align: bool)
    requires Inv(g) && Inv(k) && SameHeap(g, k) && i < |g.index| && j < |k.index|
    requires Fits(g.segs, g.index[i], n, align) && Fits(k.segs, k.index[j], n, align)
    requires forall h | h in g.segs && g.segs[h].hole && Fits(g.segs, h, n, align) :: Next(g.segs, h) == g.end
    ensures g.index[i] == k.index[j]
  {
    hide Sorted, BySize, NoAdjacentHoles, Fits;
    ListedHole(g, i);
    ListedHole(k, j);
    UniqueEnd(g.segs, g.start, g.end, g.index[i]);
    assert Next(g.segs, k.index[j]) == g.end;
  }

  /** Where only one hole may fit, both layouts yield the same outcome. */
  lemma {:induction false} SameOutcome(g: Layout, k: Layout, n: nat, align: bool)
    requires Inv(g) && Inv(k) && SameHeap(g, k) && OVERHEAD <= n
    requires forall h | h in g.segs && g.segs[h].hole && Fits(g.segs, h, n, align) :: Next(g.segs, h) == g.end
    ensures var r, t := Allocate(g, n, align), Allocate(k, n, align);
            (r.None? <==> t.None?) && (r.Some? ==> SameHeap(r.value.0, t.value.0) && r.value.1 == t.value.1)
    decreases g.max - g.end
  {
    hide Inv, Grow, Carve, NewEnd, Fits;
    FittingSame(g, k, n, align);
    if Fitting(g, n, align) {
      var i, j := FirstFit(g.segs, g.index, n, align, 0), FirstFit(k.segs, k.index, n, align, 0);
      OnlyAtEnd(g, k, i, j, n, align);
      CarveSameSegs(g, i, k, j, n, align);
    } else {
      NewEndInRange(g, n);
      InvRange(g);
      SameNewEnd(g, k, n);
      var e := NewEnd(g, n);
      if e <= g.max {
        GrowInv(g, e);
        GrowInv(k, e);
        GrowRange(g, e);
        GrowSameSegs(g, k, e);
        forall h | h in Grow(g, e).segs && Grow(g, e).segs[h].hole && Fits(Grow(g, e).segs, h, n, align)
          ensures Next(Grow(g, e).segs, h) == e
        {
          FitsOnlyAtEnd(g, e, n, align, h);
        }
        SameOutcome(Grow(g, e), Grow(k, e), n, align);
      }
    }
  }

  // ---- A whole alloc ----

  lemma NothingFitsText(l: Layout, n: nat, align: bool)
    requires Inv(l) && PlaceMeets(l, n, align) && !Fitting(l, n, align)
    ensures FirstFitText(l.segs, l.index, n, align, 0) == |l.index|
  {
    hide Inv, Fits, FitsText;
    SameFirstFit(l, n, align, 0);
  }

  /** As long as the conditions hold, alloc as the text has it yields the block, the
      segments and the end that alloc yields here, and keeps the invariant. */
  lemma {:induction false} AllocTextSame(l: Layout, n: nat, align: bool)
    requires Inv(l) && OVERHEAD <= n < ADDRESS_SPACE
    ensures l.start <= l.end <= l.max && forall y | y in l.index :: y in l.segs
    ensures AllocMeets(l, n, align) ==>
              var t, r := AllocText(l, n, align), Allocate(l, n, align);
              && (t.None? <==> r.None?)
              && (t.Some? ==> SameHeap(t.value.0, r.value.0) && t.value.1 == r.value.1 && Inv(t.value.0))
    decreases l.max - l.end
  {
    hide Grow, Carve, CarveText, GrowText, NewEnd, Fits, FitsText, Tiling, NoAdjacentHoles, Sorted, BySize, PlaceMeets, GrowMeets, SumsExact, RoundAsWritten;
    if AllocMeets(l, n, align) {
      var i := FirstFit(l.segs, l.index, n, align, 0);
      if Fitting(l, n, align) {
        PlaceSame(l, n, align);
      } else {
        NothingFitsText(l, n, align);
        EndSame(l, n);
        GrowsOnce(l, n, align);
        var e := NewEnd(l, n);
        if e <= l.max {
          NewEndInRange(l, n);
          GrowSame(l, n);
          GrowRange(l, e);
          GrowInv(l, e);
          AllocTextSame(GrowText(l, e), n, align);
          forall h | h in Grow(l, e).segs && Grow(l, e).segs[h].hole && Fits(Grow(l, e).segs, h, n, align)
            ensures Next(Grow(l, e).segs, h) == e
          {
            FitsOnlyAtEnd(l, e, n, align, h);
          }
          SameOutcome(Grow(l, e), GrowText(l, e), n, align);
        }
      }
    }
  }

  // ---- free ----

  /** What the index is after both merges as written: the hole in front, which took
      in the block, stays where it is. */
  ghost function MergedIndexText(l: Layout, a: nat): (index: seq<nat>)
    requires a in l.segs
  {
    var right := Next(l.segs, a);
    if right in l.segs && l.segs[right].hole then TakeOut(l.index, right) else l.index
  }

  /** The size and the end lines 319-332 leave, for a hole that reaches the end. */
  ghost function FreeText(l: Layout, a: nat): (r: Layout)
    requires Inv(l) && IsBlock(l, a)
  {
    CoalescedReady(l, a);
    var m, index, left := Coalesced(l, a), MergedIndexText(l, a), HasLeftHole(l.segs, a);
    if Next(m.segs, m.head) == l.end then
      var newEnd := l.start + ContractAsWritten(m.head - l.start);
      var segs := if m.head < newEnd then Resize(m.segs, m.head, newEnd - m.head) else m.segs - {m.head};
      l.(segs := segs, index := SettleIndexAsWritten(index, m.head, left, segs), end := newEnd)
    else
      l.(segs := m.segs, index := SettleIndexAsWritten(index, m.head, left, m.segs))
  }

  /** contract as written leaves the length contract leaves here, and something of
      the hole, exactly when the hole begins far enough below the minimum size for
      its tags, and the heap is no shorter than that. */
  lemma ContractTextExactly(offset: nat, length: nat)
    requires offset + OVERHEAD <= length && length % PAGE == 0
    ensures ContractAsWritten(offset) == ContractedLength(offset, length) != offset
            <==> offset + OVERHEAD <= HEAP_MIN_SIZE <= length
  {
  }

  /** What free needs: the probe behind the last segment does no harm, a hole that
      took in one on its right reaches the end, where its footer is written after
      all (RightMergeFooterExactly), contraction keeps to the minimum size, and a
      hole that took in the block keeps its place. */
  ghost predicate FreeMeets(l: Layout, a: nat, quiet: bool)
    requires Inv(l) && IsBlock(l, a)
  {
    && (Next(l.segs, a) == l.end ==> quiet)
    && var m := Coalesced(l, a);
       && (Next(l.segs, a) in l.segs && l.segs[Next(l.segs, a)].hole ==> Next(m.segs, m.head) == l.end)
       && (Next(m.segs, m.head) == l.end ==> l.start <= m.head && m.head - l.start + OVERHEAD <= HEAP_MIN_SIZE <= l.end - l.start)
       && (HasLeftHole(l.segs, a) ==>
             KeepsPlace(MergedIndexText(l, a), l.segs, m.head,
                        if Next(m.segs, m.head) == l.end then HEAP_MIN_SIZE - (m.head - l.start) else SizeOf(m.segs, m.head)))
  }

  /** What the two merges do to the segments: the head takes in the block, if that
      is not the head itself, and a hole behind it. */
  ghost predicate MergedSegs(s: Segs, m: Segs, head: nat, a: nat, right: nat)
  {
    var swallowed := right in s && s[right].hole;
    && head in m && m[head].hole && (a != head ==> a !in m) && (swallowed ==> right != head && right !in m)
    && (forall y | y in m && y != head :: y in s && m[y] == s[y])
    && (forall y | y in s && y != head && y != a && (swallowed ==> y != right) :: y in m)
  }

  lemma LeftSegs(l: Layout, a: nat)
    requires Inv(l) && IsBlock(l, a)
    ensures var m := MergeLeft(l, a);
            && m.head == (if HasLeftHole(l.segs, a) then LeftHole(l.segs, a) else a)
            && m.head in m.segs && m.segs[m.head].hole && (a != m.head ==> a !in m.segs)
            && Next(m.segs, m.head) == Next(l.segs, a) && m.head < Next(l.segs, a)
            && (forall y | y in m.segs && y != m.head :: y in l.segs && m.segs[y] == l.segs[y])
            && (forall y | y in l.segs && y != m.head && y != a :: y in m.segs)
  {
    hide BySize, Sorted, NoAdjacentHoles, TakeOut, ListsHolesBut;
    if HasLeftHole(l.segs, a) {
      var p := LeftHole(l.segs, a);
      assert Next(SetHole(l.segs, a, true), p) == a;
    }
  }

  lemma CoalescedSegs(l: Layout, a: nat)
    requires Inv(l) && IsBlock(l, a)
    ensures var m := Coalesced(l, a);
            && MergedSegs(l.segs, m.segs, m.head, a, Next(l.segs, a))
            && m.head == if HasLeftHole(l.segs, a) then LeftHole(l.segs, a) else a
  {
    hide BySize, Sorted, NoAdjacentHoles, TakeOut, ListsHolesBut, MergeLeft, Tiling, HasLeftHole;
    LeftSegs(l, a);
  }

  lemma MergedIndexMembers(index: seq<nat>, s: Segs, m: Segs, head: nat, a: nat, right: nat, left: bool)
    requires ListsHolesBut(index, s, None) && a in s && !s[a].hole && MergedSegs(s, m, head, a, right)
    requires if left then head in s && s[head].hole else head == a
    ensures var w := if right in s && s[right].hole then TakeOut(index, right) else index;
            && ListsHolesBut(w, m, if left then None else Some(head))
            && (Sorted(index, BySize(s)) ==> Sorted(w, BySize(s)))
            && (forall y | y in w && y != head :: y in s && SizeOf(s, y) == SizeOf(m, y))
            && (left ==> head in w)
  {
    hide BySize, Sorted, TakeOut;
    TakeOutMembers(index, right, BySize(s));
  }

  /** The index before it is settled: complete, but for a hole that was no hole before. */
  lemma MergedIndexOk(l: Layout, a: nat)
    requires Inv(l) && IsBlock(l, a)
    ensures var m, index, left := Coalesced(l, a), MergedIndexText(l, a), HasLeftHole(l.segs, a);
            && m.head in m.segs && m.segs[m.head].hole
            && ListsHolesBut(index, m.segs, if left then None else Some(m.head))
            && Sorted(index, BySize(l.segs))
            && (forall y | y in index && y != m.head :: y in l.segs && SizeOf(l.segs, y) == SizeOf(m.segs, y))
            && (left ==> m.head in l.segs && l.segs[m.head].hole && m.head in index)
  {
    hide BySize, Sorted, NoAdjacentHoles, TakeOut, Tiling, Coalesced, HasLeftHole, ListsHolesBut;
    CoalescedSegs(l, a);
    var m := Coalesced(l, a);
    MergedIndexMembers(l.index, l.segs, m.segs, m.head, a, Next(l.segs, a), HasLeftHole(l.segs, a));
  }

  /** The index once it is settled as written, with the head of its final size. */
  lemma SettledIndexOk(index: seq<nat>, s: Segs, m: Segs, head: nat, left: bool, size: nat)
    requires head in m && m[head].hole && ListsHolesBut(index, m, if left then None else Some(head)) && Sorted(index, BySize(s))
    requires forall y | y in index && y != head :: y in s && SizeOf(s, y) == SizeOf(m, y)
    requires left ==> head in s && head in index && KeepsPlace(index, s, head, size)
    ensures var t := Resize(m, head, size);
            var r := SettleIndexAsWritten(index, head, left, t);
            ListsHolesBut(r, t, None) && Sorted(r, BySize(t))
  {
    hide Sorted, BySize, Inserted;
    var t := Resize(m, head, size);
    if left {
      var i :| 0 <= i < |index| && index[i] == head;
      ResizeInPlaceExactly(index, s, i, size);
      SortedAgrees(index, Resize(s, head, size), t);
    } else {
      SortedAgrees(index, s, t);
      assert ListsHolesBut(index, t, Some(head));
      IndexCompleted(index, t, head);
    }
  }

  lemma KeptMinimum(offset: nat, length: nat)
    requires offset + OVERHEAD <= HEAP_MIN_SIZE <= length && offset + OVERHEAD <= length && length % PAGE == 0
    ensures ContractedLength(offset, length) == HEAP_MIN_SIZE
  {
  }

  /** As long as the conditions hold, free as the text has it leaves the segments
      and the end that free leaves here, and keeps the invariant. */
  lemma FreeTextSame(l: Layout, a: nat, quiet: bool)
    requires Inv(l) && IsBlock(l, a) && FreeMeets(l, a, quiet)
    ensures SameHeap(FreeText(l, a), Release(l, a)) && Inv(FreeText(l, a))
  {
    hide Sorted, BySize, NoAdjacentHoles, Tiling, Coalesced, ListsHolesBut, SettleIndexAsWritten, ContractAsWritten, ContractedLength, KeepsPlace, MergedIndexText, HasLeftHole, Inserted;
    CoalescedReady(l, a);
    ReleaseInv(l, a);
    MergedIndexOk(l, a);
    var m, index, left := Coalesced(l, a), MergedIndexText(l, a), HasLeftHole(l.segs, a);
    if Next(m.segs, m.head) == l.end {
      var size := HEAP_MIN_SIZE - (m.head - l.start);
      ContractTextExactly(m.head - l.start, l.end - l.start);
      KeptMinimum(m.head - l.start, l.end - l.start);
      SettledIndexOk(index, l.segs, m.segs, m.head, left, size);
    } else {
      assert Resize(m.segs, m.head, m.segs[m.head].size) == m.segs;
      SettledIndexOk(index, l.segs, m.segs, m.head, left, m.segs[m.head].size);
    }
  }

  // ---- Whole runs ----

  /** No two holes that fit have the same size, so that best fit leaves no choice. */
  ghost predicate BestIsUnique(l: Layout, n: nat, align: bool)
  {
    forall g, h | g in l.segs && h in l.segs && l.segs[g] == l.segs[h] && l.segs[g].hole && Fits(l.segs, g, n, align) && Fits(l.segs, h, n, align) :: g == h
  }

  lemma UniqueChoice(g: Layout, k: Layout, n: nat, align: bool)
    requires Inv(g) && Inv(k) && SameHeap(g, k) && BestIsUnique(g, n, align) && Fitting(g, n, align)
    ensures Fitting(k, n, align)
    ensures g.index[FirstFit(g.segs, g.index, n, align, 0)] == k.index[FirstFit(k.segs, k.index, n, align, 0)]
  {
    hide Sorted, BySize, NoAdjacentHoles, Tiling, Fits;
    FittingSame(g, k, n, align);
    BestFit(g, n, align);
    BestFit(k, n, align);
  }

  lemma NothingFits(g: Layout, n: nat, align: bool)
    requires Inv(g) && !Fitting(g, n, align)
    ensures forall h | h in g.segs && g.segs[h].hole && Fits(g.segs, h, n, align) :: Next(g.segs, h) == g.end
  {
    hide Sorted, NoAdjacentHoles, Tiling, Fits;
    BestFit(g, n, align);
  }

  /** alloc does the same to two layouts of the same heap. */
  lemma AllocateSame(g: Layout, k: Layout, n: nat, align: bool)
    requires Inv(g) && Inv(k) && SameHeap(g, k) && OVERHEAD <= n && BestIsUnique(g, n, align)
    ensures var r, t := Allocate(g, n, align), Allocate(k, n, align);
            (r.None? <==> t.None?) && (r.Some? ==> SameHeap(r.value.0, t.value.0) && r.value.1 == t.value.1)
  {
    hide Inv, Grow, Carve, NewEnd, Fits, BestIsUnique;
    if Fitting(g, n, align) {
      var i, j := FirstFit(g.segs, g.index, n, align, 0), FirstFit(k.segs, k.index, n, align, 0);
      UniqueChoice(g, k, n, align);
      CarveSameSegs(g, i, k, j, n, align);
    } else {
      NothingFits(g, n, align);
      SameOutcome(g, k, n, align);
    }
  }

  /** free does the same to two layouts of the same heap. */
  lemma ReleaseSame(g: Layout, k: Layout, a: nat)
    requires Inv(g) && Inv(k) && SameHeap(g, k) && IsBlock(g, a)
    ensures SameHeap(Release(g, a), Release(k, a))
  {
    hide Sorted, BySize, NoAdjacentHoles, Tiling, ListsHolesBut, Inserted, TakeOut, ContractedLength;
    CoalescedReady(g, a);
    CoalescedReady(k, a);
  }

  /** A call, and whether the bytes behind the heap could be read at the time and
      did not look like a hole's header. */
  datatype TextCall = TextCall(call: Call, quiet: bool)

  /** What the text needs of one call. */
  ghost predicate StepMeets(l: Layout, c: TextCall)
    requires Inv(l)
  {
    match c.call
    case CallAlloc(size, align) =>
      && size + OVERHEAD < ADDRESS_SPACE && (align ==> size + OVERHEAD < 0x8000_0000 && l.max - l.start < 0x8000_0000)
      && AllocMeets(l, size + OVERHEAD, align) && BestIsUnique(l, size + OVERHEAD, align)
    case CallFree(p) => p == 0 || (HEADER_SIZE <= p && IsBlock(l, p - HEADER_SIZE) && FreeMeets(l, p - HEADER_SIZE, c.quiet))
  }

  /** One call as the text has it. */
  ghost function StepText(l: Layout, c: TextCall): (r: Option<Layout>)
    requires Inv(l) && StepMeets(l, c)
  {
    hide AllocMeets, FreeMeets, BestIsUnique;
    match c.call
    case CallAlloc(size, align) =>
      var r := AllocText(l, NewSizeAsWritten(size), align);
      if r.Some? then Some(r.value.0) else None
    case CallFree(p) => if p == 0 then Some(l) else Some(FreeText(l, p - HEADER_SIZE))
  }

  lemma StepTextSame(l: Layout, r: Layout, c: TextCall)
    requires Inv(l) && Inv(r) && SameHeap(l, r) && StepMeets(l, c)
    ensures var t, k := StepText(l, c), Step(r, c.call);
            (t.None? <==> k.None?) && (t.Some? ==> SameHeap(t.value, k.value) && Inv(t.value) && Inv(k.value))
  {
    hide Inv, AllocText, Allocate, AllocMeets, FreeMeets, FreeText, Release, BestIsUnique;
    match c.call
    case CallAlloc(size, align) =>
      AllocTextSame(l, size + OVERHEAD, align);
      AllocateSame(l, r, size + OVERHEAD, align);
      if Step(r, c.call).Some? { StepInv(r, c.call); }
    case CallFree(p) =>
      if p != 0 {
        FreeTextSame(l, p - HEADER_SIZE, c.quiet);
        ReleaseSame(l, r, p - HEADER_SIZE);
        StepInv(r, c.call);
      }
  }

  /** The calls as the text has them; None as soon as one fails or its conditions do. */
  ghost function RunText(l: Layout, calls: seq<TextCall>): (r: Option<Layout>)
    requires Inv(l)
    decreases |calls|
  {
    if calls == [] then Some(l)
    else if !StepMeets(l, calls[0]) || StepText(l, calls[0]).None? then None
    else
      StepTextSame(l, l, calls[0]);
      RunText(StepText(l, calls[0]).value, calls[1..])
  }

  /** The conditions hold at every step of the run. */
  ghost predicate RunMeets(l: Layout, calls: seq<TextCall>)
    requires Inv(l)
    decreases |calls|
  {
    calls == [] ||
    (StepMeets(l, calls[0]) &&
     (StepText(l, calls[0]).Some? ==>
        (StepTextSame(l, l, calls[0]); RunMeets(StepText(l, calls[0]).value, calls[1..]))))
  }

  function Plain(calls: seq<TextCall>): (r: seq<Call>)
  {
    if calls == [] then [] else [calls[0].call] + Plain(calls[1..])
  }

  /** Along any run whose every step meets its conditions, the heap as the text has
      it and the heap of this model have the same segments and the same end; only
      the order of the index may differ. */
  lemma {:induction false} TextRunSame(l: Layout, r: Layout, calls: seq<TextCall>)
    requires Inv(l) && Inv(r) && SameHeap(l, r) && RunMeets(l, calls)
    ensures var t, k := RunText(l, calls), Run(r, Plain(calls));
            (t.None? <==> k.None?) && (t.Some? ==> SameHeap(t.value, k.value) && Inv(t.value))
    decreases |calls|
  {
    hide Inv, Step, StepText, StepMeets;
    if calls != [] {
      StepTextSame(l, r, calls[0]);
      assert Plain(calls)[0] == calls[0].call && Plain(calls)[1..] == Plain(calls[1..]);
      if StepText(l, calls[0]).Some? {
        TextRunSame(StepText(l, calls[0]).value, Step(r, calls[0].call).value, calls[1..]);
      }
    }
  }

  /** In particular from createHeap on. */
  lemma TextRunFromCreate(from: nat, end: nat, max: nat, calls: seq<TextCall>)
    requires Bootable(from, end, max)
    ensures Inv(Created(from, end, max))
    ensures RunMeets(Created(from, end, max), calls) ==>
              var t, k := RunText(Created(from, end, max), calls), CreatedRun(from, end, max, Plain(calls));
              (t.None? <==> k.None?) && (t.Some? ==> SameHeap(t.value, k.value) && Inv(t.value))
  {
    hide Inv, RunMeets, RunText, Run;
    CreatedInv(from, end, max);
    if RunMeets(Created(from, end, max), calls) {
      TextRunSame(Created(from, end, max), Created(from, end, max), calls);
    }
  }
}
