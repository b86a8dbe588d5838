/** kernel/heap.c read literally, at the places where its text does something
    else than the heap above. Each section gives the step as the text has it, an
    input on which it breaks the heap, and exactly when it does not. */
module HeapAsWritten {
  import opened Options
  import opened Memory
  import opened Tilings
  import opened OrderedArrays
  import opened HeapLayouts
  import opened HeapTheorems
  import opened HeapMemory

  // ---- Rounding in expand: the test masks with 1, not with the page bits ----

  function RoundAsWritten(n: nat): (r: nat)
  {
    if n % 2 == 1 then n - n % PAGE + PAGE else n
  }

  lemma RoundAsWrittenExactly(n: nat)
    ensures RoundAsWritten(n) == RoundUp(n) <==> n % 2 == 1 || n % PAGE == 0
  {
    assert n == n / PAGE * PAGE + n % PAGE;
  }

  /** The pages the loop of expand maps: one every 0x1000 bytes from the old length on. */
  function PagesTouched(first: nat, from: nat, upto: nat): (pages: set<nat>)
    decreases upto - from
  {
    if upto <= from then {} else {(first + from) / PAGE} + PagesTouched(first, from + PAGE, upto)
  }

  lemma {:induction false} PagesTouchedAre(first: nat, from: nat, upto: nat)
    requires from < upto
    ensures forall p :: p in PagesTouched(first, from, upto) <==>
              (first + from) / PAGE <= p <= (first + from) / PAGE + (upto - 1 - from) / PAGE
    decreases upto - from
  {
    assert (first + from + PAGE) / PAGE == (first + from) / PAGE + 1;
    if from + PAGE < upto {
      PagesTouchedAre(first, from + PAGE, upto);
      assert (upto - 1 - (from + PAGE)) / PAGE == (upto - 1 - from) / PAGE - 1;
    } else {
      assert PagesTouched(first, from + PAGE, upto) == {};
      assert (upto - 1 - from) / PAGE == 0;
    }
  }

  /** With lengths that are not whole pages, expand backs the bytes it adds
      exactly when the last of them is no earlier in its page than the old end was. */
  lemma ExpandBacksExactly(first: nat, from: nat, upto: nat)
    requires first % PAGE == 0 && from < upto
    ensures (forall x | first + from <= x < first + upto :: x / PAGE in PagesTouched(first, from, upto)) <==> from % PAGE <= (upto - 1) % PAGE
  {
    PagesTouchedAre(first, from, upto);
    var last := first + upto - 1;
    var f, t := from / PAGE, (upto - 1) / PAGE;
    assert from == f * PAGE + from % PAGE && upto - 1 == t * PAGE + (upto - 1) % PAGE;
    assert last / PAGE == first / PAGE + t && (first + from) / PAGE == first / PAGE + f;
    if from % PAGE <= (upto - 1) % PAGE {
      assert (upto - 1 - from) / PAGE == t - f;
      forall x | first + from <= x < first + upto ensures x / PAGE in PagesTouched(first, from, upto) {
        assert (first + from) / PAGE <= x / PAGE <= last / PAGE;
      }
    } else {
      assert (upto - 1 - from) / PAGE == t - f - 1;
      assert first + from <= last < first + upto && last / PAGE !in PagesTouched(first, from, upto);
      assert exists x :: first + from <= x < first + upto && x / PAGE !in PagesTouched(first, from, upto);
    }
  }

  /** A heap grown to 0x80F00 bytes and then by 0x200 more ends on a page nobody mapped. */
  lemma ExpandLeavesPageUnmapped()
    ensures RoundAsWritten(0x8_0F00) == 0x8_0F00 && RoundAsWritten(0x8_0F00 + 0x200) == 0x8_1100
    ensures var first := 0xC008_0000;
            (first + 0x8_10FF) / PAGE !in PagesTouched(first, 0x8_0000, 0x8_0F00) + PagesTouched(first, 0x8_0F00, 0x8_1100)
  {
    PagesTouchedAre(0xC008_0000, 0x8_0000, 0x8_0F00);
    PagesTouchedAre(0xC008_0000, 0x8_0F00, 0x8_1100);
  }

  // ---- Rounding in contract: the test and the mask are one bit ----

  function ContractAsWritten(n: nat): (r: nat)
  {
    var m := if n / 0x1000 % 2 == 1 then 0x1000 + 0x1000 else n;
    if m < HEAP_MIN_SIZE then HEAP_MIN_SIZE else m
  }

  /** contract keeps everything below the trailing hole exactly when bit 12 of
      the hole's offset is clear or the offset is below the minimum size. */
  lemma ContractAsWrittenKeepsExactly(n: nat)
    ensures n <= ContractAsWritten(n) <==> n / 0x1000 % 2 == 0 || n <= HEAP_MIN_SIZE
  {
  }

  /** With the rounding repaired, contract never lengthens the heap exactly when
      the heap was no shorter than the minimum. */
  lemma ContractGrowsSmallHeaps(offset: nat, length: nat)
    requires offset + OVERHEAD <= length && length % PAGE == 0
    ensures (if RoundUp(offset) < HEAP_MIN_SIZE then HEAP_MIN_SIZE else RoundUp(offset)) <= length <==> HEAP_MIN_SIZE <= length
  {
    assert RoundUp(offset) <= length;
  }

  /** ... and leaves nothing or room for the tags exactly when the hole does not
      start in the last 19 bytes before a page boundary, or so far below the
      minimum size that this leaves room. */
  lemma ResidueExactly(offset: nat)
    ensures var rounded := RoundUp(offset);
            var kept := if rounded < HEAP_MIN_SIZE then HEAP_MIN_SIZE else rounded;
            kept == offset || OVERHEAD <= kept - offset <==>
            offset % PAGE <= PAGE - OVERHEAD || offset + OVERHEAD <= HEAP_MIN_SIZE
  {
    assert offset == offset / PAGE * PAGE + offset % PAGE;
  }

  // ---- Growth: the endmost hole is assumed to reach the end ----

  ghost predicate Endmost(l: Layout, h: nat)
  {
    h in l.index && forall y | y in l.index :: y <= h
  }

  ghost function GrowSegsAsWritten(l: Layout, endmost: Option<nat>, newEnd: nat): (s: Segs)
    requires l.end <= newEnd && (endmost.Some? ==> endmost.value in l.segs)
  {
    match endmost
    case None => l.segs[l.end := Seg(newEnd - l.end, true)]
    case Some(h) => Resize(l.segs, h, l.segs[h].size + (newEnd - l.end))
  }

  lemma OverlapIsNoTiling(s: Segs, lo: nat, hi: nat, a: nat, b: nat)
    requires a in s && b in s && a < b < a + s[a].size
    ensures !Tiling(s, lo, hi)
  {
  }

  lemma NoTailBehind(l: Layout, h: nat)
    requires Inv(l) && Endmost(l, h) && h in l.segs && Next(l.segs, h) != l.end
    ensures !HasTailHole(l)
  {
    forall k: nat | IsTailHole(l, k) ensures k == h {
      UniqueEnd(l.segs, l.start, l.end, k);
    }
  }

  /** Growth keeps the tiling exactly when there is no hole at all or the
      endmost hole is the last segment; otherwise the hole overlaps a live block. */
  lemma GrowAsWrittenTilesExactly(l: Layout, endmost: Option<nat>, newEnd: nat)
    requires Inv(l) && l.end + OVERHEAD <= newEnd
    requires if l.index == [] then endmost == None else endmost.Some? && Endmost(l, endmost.value)
    ensures endmost.Some? ==> endmost.value in l.segs
    ensures Tiling(GrowSegsAsWritten(l, endmost, newEnd), l.start, newEnd) <==> l.index == [] || HasTailHole(l)
  {
    hide Sorted, NoAdjacentHoles, BySize, Disjoint;
    if l.index == [] {
      AppendTiles(l.segs, l.start, l.end, newEnd, true);
    } else {
      var h := endmost.value;
      assert h in l.segs;
      if Next(l.segs, h) == l.end {
        assert IsTailHole(l, h);
        ResizeLastTiles(l.segs, l.start, l.end, h, newEnd);
      } else {
        NoTailBehind(l, h);
        var b := Next(l.segs, h);
        assert b in l.segs;
        OverlapIsNoTiling(GrowSegsAsWritten(l, endmost, newEnd), l.start, newEnd, h, b);
      }
    }
  }

  // ---- Growth: a missing page table is taken from the heap that grows ----

  /** What a page table costs, with its tags; it begins a page. */
  const TABLE := PAGE + OVERHEAD

  /** The endmost hole, if it reaches the end that was saved before growth. */
  ghost predicate TouchesSaved(k: Layout, h: nat, saved: nat)
  {
    Endmost(k, h) && h in k.segs && Next(k.segs, h) == saved
  }

  /** Growth to newEnd that goes on from the saved end, after the heap became k. */
  ghost function GrowFromSaved(k: Layout, saved: nat, newEnd: nat): (s: Segs)
    requires saved <= newEnd
  {
    if exists h: nat :: TouchesSaved(k, h, saved) then
      var h: nat :| TouchesSaved(k, h, saved);
      k.segs[h := Seg(if h <= newEnd then newEnd - h else 0, true)]
    else k.segs[saved := Seg(newEnd - saved, true)]
  }

  lemma BeyondIsNoTiling(s: Segs, lo: nat, hi: nat, a: nat)
    requires a in s && hi <= a
    ensures !Tiling(s, lo, hi)
  {
  }

  /** When the saved end lies inside the heap and what follows is not just one
      segment, the growth laid from there on overlaps something. */
  lemma StaleEndIsNoTiling(k: Layout, saved: nat, newEnd: nat)
    requires Inv(k) && k.start < saved < k.end && saved < newEnd
    requires saved in k.segs ==> Next(k.segs, saved) != k.end
    ensures !Tiling(GrowFromSaved(k, saved, newEnd), k.start, newEnd)
  {
    hide Sorted, BySize, NoAdjacentHoles, ListsHolesBut, Disjoint;
    var g := GrowFromSaved(k, saved, newEnd);
    if exists h: nat :: TouchesSaved(k, h, saved) {
      var h: nat :| TouchesSaved(k, h, saved) && g == k.segs[h := Seg(if h <= newEnd then newEnd - h else 0, true)];
      OverlapIsNoTiling(g, k.start, newEnd, h, saved);
    } else if saved in k.segs {
      var b := Next(k.segs, saved);
      if b < newEnd {
        OverlapIsNoTiling(g, k.start, newEnd, saved, b);
      } else {
        BeyondIsNoTiling(g, k.start, newEnd, b);
      }
    } else {
      var a := OwnerFrom(k.segs, k.start, k.end, k.start, saved);
      OverlapIsNoTiling(g, k.start, newEnd, a, saved);
    }
  }

  /** A growth leaves all holes alone but the one at the end. */
  lemma OtherHolesSame(l: Layout, e: nat, h: nat)
    requires Inv(l) && l.end + OVERHEAD <= e <= l.max && e % PAGE == 0
    requires var g := Grow(l, e); h in g.segs && g.segs[h].hole && Next(g.segs, h) != e
    ensures h in l.segs && l.segs[h] == Grow(l, e).segs[h]
  {
    hide Sorted, BySize, NoAdjacentHoles, Disjoint, Chained, Inserted, TakeOut;
  }

  /** Once the request fits only after growth, it is carved from the hole at the end. */
  lemma FitsOnlyAtEnd(l: Layout, e: nat, n: nat, align: bool, h: nat)
    requires Inv(l) && !Fitting(l, n, align) && l.end + OVERHEAD <= e <= l.max && e % PAGE == 0
    requires var g := Grow(l, e); h in g.segs && g.segs[h].hole && Fits(g.segs, h, n, align)
    ensures Next(Grow(l, e).segs, h) == e
  {
    hide Grow, Sorted, BySize, NoAdjacentHoles, Tiling, AlignedGap;
    if Next(Grow(l, e).segs, h) != e {
      OtherHolesSame(l, e, h);
      assert h in l.index && Fits(l.segs, h, n, align);
      FitIsFound(l, h, n, align);
    }
  }

  /** b is the only segment that reaches `end`. */
  ghost predicate OnlyEnd(s: Segs, b: nat, end: nat)
  {
    b in s && Next(s, b) == end && forall a {:trigger Next(s, a)} | a in s && Next(s, a) == end :: a == b
  }

  lemma FrontEnd(g: Layout, i: nat, n: nat)
    requires Inv(g) && i < |g.index| && OVERHEAD <= n && Fits(g.segs, g.index[i], n, true)
    requires g.index[i] in g.segs && Next(g.segs, g.index[i]) == g.end
    ensures var (r, b) := CarveFront(g, i, n, true);
            b == g.index[i] + AlignedGap(g.index[i]) && OnlyEnd(r.segs, b, g.end)
  {
    hide Sorted, BySize, NoAdjacentHoles, ListsHolesBut, AlignedGap, Inserted, Removed, Disjoint, Chained;
    var h := g.index[i];
    UniqueEnd(g.segs, g.start, g.end, h);
    var (r, b) := CarveFront(g, i, n, true);
    assert SameBut(g.segs, r.segs, {h, b});
  }

  lemma BlockEnd(r: Layout, b: nat, n: nat, end: nat, a: nat)
    requires OnlyEnd(r.segs, b, end) && OVERHEAD <= n <= r.segs[b].size
    requires a in CarveBlock(r, b, n).segs && Next(CarveBlock(r, b, n).segs, a) == end
    ensures a == b || a == b + n
  {
    hide BySize, Inserted;
    assert SameBut(r.segs, CarveBlock(r, b, n).segs, {b, b + n});
  }

  /** The last segment after a placement at the end of the heap. */
  lemma CarvedEnd(g: Layout, i: nat, n: nat, a: nat)
    requires Inv(g) && i < |g.index| && OVERHEAD <= n && Fits(g.segs, g.index[i], n, true)
    requires g.index[i] in g.segs && Next(g.segs, g.index[i]) == g.end
    requires a in Carve(g, i, n, true).0.segs && Next(Carve(g, i, n, true).0.segs, a) == g.end
    ensures Carve(g, i, n, true).1 == g.index[i] + AlignedGap(g.index[i])
    ensures a == Carve(g, i, n, true).1 || a == Carve(g, i, n, true).1 + n
  {
    hide Inv, CarveFront, CarveBlock, AlignedGap, Fits, OnlyEnd;
    FrontEnd(g, i, n);
    var (r, b) := CarveFront(g, i, n, true);
    BlockEnd(r, b, n, g.end, a);
  }

  lemma TableBehindOldEnd(l: Layout, h: nat, n: nat)
    requires Inv(l) && !Fitting(l, n, true) && OVERHEAD <= n && (h < l.end ==> IsTailHole(l, h))
    ensures h + AlignedGap(h) != l.end && h + AlignedGap(h) + n != l.end
  {
    hide Sorted, BySize, NoAdjacentHoles, Disjoint, Chained, AlignedGap;
    if h + AlignedGap(h) + n == l.end {
      FitIsFound(l, h, n, true);
    }
  }

  /** After a placement at the end of a heap that was grown for it, what follows
      the old end is never one segment. */
  lemma NotOneSegment(l: Layout, g: Layout, i: nat, n: nat)
    requires Inv(l) && Inv(g) && !Fitting(l, n, true) && OVERHEAD <= n && l.end < g.end
    requires i < |g.index| && Fits(g.segs, g.index[i], n, true) && g.index[i] in g.segs && Next(g.segs, g.index[i]) == g.end
    requires g.index[i] < l.end ==> IsTailHole(l, g.index[i])
    ensures var k := Carve(g, i, n, true).0;
            l.end in k.segs ==> Next(k.segs, l.end) != g.end
  {
    hide Carve, Sorted, BySize, NoAdjacentHoles, ListsHolesBut, Tiling, AlignedGap;
    var k, h := Carve(g, i, n, true).0, g.index[i];
    if l.end in k.segs && Next(k.segs, l.end) == g.end {
      CarvedEnd(g, i, n, l.end);
      TableBehindOldEnd(l, h, n);
    }
  }

  lemma AppendedHole(l: Layout, e: nat)
    requires Inv(l) && l.end + OVERHEAD <= e && !HasTailHole(l)
    ensures l.end in Grow(l, e).segs && Next(Grow(l, e).segs, l.end) == e
  {
  }

  /** The hole at the end of a grown heap began before the old end only if it
      reached that. */
  lemma GrownFrom(l: Layout, e: nat, h: nat)
    requires Inv(l) && l.end + OVERHEAD <= e <= l.max && e % PAGE == 0
    requires h in Grow(l, e).segs && Next(Grow(l, e).segs, h) == e
    ensures h <= l.end && (h < l.end ==> IsTailHole(l, h))
    ensures HasTailHole(l) ==> IsTailHole(l, h)
  {
    hide Grow, Sorted, BySize, NoAdjacentHoles, ListsHolesBut, Disjoint, Chained;
    GrowInv(l, e);
    GrowRange(l, e);
    var t := GrownTail(l, e);
    UniqueEnd(Grow(l, e).segs, l.start, e, t);
    assert Next(Grow(l, e).segs, t) == e;
    if h < l.end && !HasTailHole(l) {
      AppendedHole(l, e);
    }
  }

  lemma NestedStep(l: Layout, n: nat)
    requires Inv(l) && OVERHEAD <= n && !Fitting(l, n, true)
    ensures NewEnd(l, n) <= l.max ==> Allocate(l, n, true) == Allocate(Grow(l, NewEnd(l, n)), n, true)
    ensures NewEnd(l, n) > l.max ==> Allocate(l, n, true) == None
  {
    hide Grow, Carve, NewEnd;
  }

  lemma GrownHasTail(l: Layout, e: nat)
    requires Inv(l) && l.end + OVERHEAD <= e <= l.max && e % PAGE == 0
    ensures HasTailHole(Grow(l, e)) && forall h :: IsTailHole(Grow(l, e), h) ==> h in Grow(l, e).segs && Next(Grow(l, e).segs, h) == e
  {
    hide Grow, Sorted, BySize, NoAdjacentHoles, ListsHolesBut, Tiling;
    GrowRange(l, e);
    var t := GrownTail(l, e);
  }

  /** Placement in g, the heap l or l1 grown to e. */
  lemma NestedAt(l: Layout, g: Layout, n: nat, l1: Layout, e: nat)
    requires Inv(l) && Inv(l1) && Inv(g) && OVERHEAD <= n && !Fitting(l, n, true) && !Fitting(l1, n, true) && Fitting(g, n, true)
    requires l1.end + OVERHEAD <= e <= l1.max && e % PAGE == 0 && g == Grow(l1, e) && g.end == e && l.end < e
    requires l1 == l || exists e1 :: l.end + OVERHEAD <= e1 <= l.max && e1 % PAGE == 0 && l1 == Grow(l, e1) && l1.end == e1
    ensures Allocate(g, n, true).Some?
    ensures var k := Allocate(g, n, true).value.0;
            k.end == e && (l.end in k.segs ==> Next(k.segs, l.end) != k.end)
  {
    hide Grow, Carve, AlignedGap, Sorted, BySize, NoAdjacentHoles, ListsHolesBut, Tiling;
    var i := FirstFit(g.segs, g.index, n, true, 0);
    ListedHole(g, i);
    var h := g.index[i];
    FitsOnlyAtEnd(l1, e, n, true, h);
    GrownFrom(l1, e, h);
    if l1 != l {
      var e1 :| l.end + OVERHEAD <= e1 <= l.max && e1 % PAGE == 0 && l1 == Grow(l, e1) && l1.end == e1;
      GrownHasTail(l, e1);
      GrownFrom(l, e1, h);
    }
    NotOneSegment(l, g, i, n);
    CarveBlocks(g, i, n, true);
  }

  /** The heap after the nested call, when that had to grow. */
  lemma NestedGrows(l: Layout, n: nat, k: Layout, b: nat)
    requires Inv(l) && OVERHEAD <= n && !Fitting(l, n, true) && Allocate(l, n, true) == Some((k, b))
    ensures Inv(k) && k.start == l.start && l.end < k.end && (l.end in k.segs ==> Next(k.segs, l.end) != k.end)
  {
    hide Grow, Carve, Fitting, NewEnd, AlignedGap, Sorted, BySize, NoAdjacentHoles, ListsHolesBut, Tiling;
    AllocateCorrect(l, n, true);
    AllocateFailsExactly(l, n, true);
    NewEndInRange(l, n);
    GrowthSuffices(l, n, true);
    var e1 := NewEnd(l, n);
    var l1 := Grow(l, e1);
    GrowRange(l, e1);
    NestedStep(l, n);
    if Fitting(l1, n, true) {
      NestedAt(l, l1, n, l, e1);
    } else {
      NewEndInRange(l1, n);
      var e2 := NewEnd(l1, n);
      GrowInv(l1, e2);
      GrowRange(l1, e2);
      NestedStep(l1, n);
      NestedAt(l, Grow(l1, e2), n, l1, e2);
    }
  }

  lemma TailIsHole(k: Layout, h: nat)
    requires Inv(k) && TouchesSaved(k, h, k.end)
    ensures k.segs[h].hole && h < k.end
  {
    hide Sorted, BySize, NoAdjacentHoles;
  }

  /** Growth from where the heap does end. */
  lemma FromTrueEnd(k: Layout, newEnd: nat)
    requires Inv(k) && k.end + OVERHEAD <= newEnd
    ensures Tiling(GrowFromSaved(k, k.end, newEnd), k.start, newEnd)
  {
    hide Tiling, Sorted, BySize, NoAdjacentHoles, ListsHolesBut;
    if exists h: nat :: TouchesSaved(k, h, k.end) {
      var h: nat :| TouchesSaved(k, h, k.end)
                    && GrowFromSaved(k, k.end, newEnd) == k.segs[h := Seg(if h <= newEnd then newEnd - h else 0, true)];
      TailIsHole(k, h);
      ResizeLastTiles(k.segs, k.start, k.end, h, newEnd);
    } else {
      AppendTiles(k.segs, k.start, k.end, newEnd, true);
    }
  }

  lemma OldEndInside(l: Layout)
    requires Inv(l)
    ensures l.start < l.end
  {
  }

  lemma FittingKeepsEnd(l: Layout)
    requires Inv(l) && Fitting(l, TABLE, true)
    ensures Allocate(l, TABLE, true).Some? && Allocate(l, TABLE, true).value.0.end == l.end
  {
    hide Carve, Sorted, BySize, NoAdjacentHoles, AlignedGap, Tiling, ListsHolesBut;
    CarveBlocks(l, FirstFit(l.segs, l.index, TABLE, true, 0), TABLE, true);
  }

  /** A table that growth takes from the very heap that grows: going on from the
      end that was saved before leaves a contiguous heap exactly when a hole had
      room for the table, so that the nested call did not grow the heap as well. */
  lemma NestedTableTilesExactly(l: Layout, k: Layout, b: nat, newEnd: nat)
    requires Inv(l) && Allocate(l, TABLE, true) == Some((k, b)) && l.end + OVERHEAD <= newEnd
    ensures Tiling(GrowFromSaved(k, l.end, newEnd), l.start, newEnd) <==> Fitting(l, TABLE, true)
  {
    hide Allocate, Inv, Fitting, Tiling, GrowFromSaved;
    AllocateCorrect(l, TABLE, true);
    if Fitting(l, TABLE, true) {
      FittingKeepsEnd(l);
      FromTrueEnd(k, newEnd);
    } else {
      OldEndInside(l);
      NestedGrows(l, TABLE, k, b);
      StaleEndIsNoTiling(k, l.end, newEnd);
    }
  }

  /** What lines 174-195 make of the saved end: the endmost hole grows by the whole
      growth, wherever it ends. */
  ghost function GrowSavedAsWritten(k: Layout, endmost: Option<nat>, saved: nat, newEnd: nat): (s: Segs)
    requires saved <= newEnd && (endmost.Some? ==> endmost.value in k.segs)
  {
    match endmost
    case None => k.segs[saved := Seg(newEnd - saved, true)]
    case Some(h) => Resize(k.segs, h, k.segs[h].size + (newEnd - saved))
  }

  lemma SavedIsEnd(k: Layout, endmost: Option<nat>, newEnd: nat)
    requires k.end <= newEnd && (endmost.Some? ==> endmost.value in k.segs)
    ensures GrowSavedAsWritten(k, endmost, k.end, newEnd) == GrowSegsAsWritten(k, endmost, newEnd)
  {
  }

  lemma NothingStretched(k: Layout, saved: nat, newEnd: nat)
    requires Inv(k) && k.index == [] && k.start < saved < k.end && saved < newEnd
    requires saved in k.segs ==> Next(k.segs, saved) != k.end
    ensures !Tiling(GrowSavedAsWritten(k, None, saved, newEnd), k.start, newEnd)
  {
    hide Tiling, Sorted, BySize, NoAdjacentHoles, ListsHolesBut;
    assert !exists h: nat :: TouchesSaved(k, h, saved);
    StaleEndIsNoTiling(k, saved, newEnd);
  }

  lemma PastEndIsNoTiling(s: Segs, lo: nat, hi: nat, a: nat)
    requires a in s && hi < a + s[a].size
    ensures !Tiling(s, lo, hi)
  {
  }

  lemma StretchedTooFar(k: Layout, h: nat, saved: nat, newEnd: nat)
    requires Inv(k) && h in k.segs && k.start < saved < k.end && saved < newEnd
    ensures !Tiling(GrowSavedAsWritten(k, Some(h), saved, newEnd), k.start, newEnd)
  {
    hide Sorted, BySize, NoAdjacentHoles, ListsHolesBut, Disjoint;
    var g := GrowSavedAsWritten(k, Some(h), saved, newEnd);
    if Next(k.segs, h) in k.segs {
      OverlapIsNoTiling(g, k.start, newEnd, h, Next(k.segs, h));
    } else {
      PastEndIsNoTiling(g, k.start, newEnd, h);
    }
  }

  /** That leaves a contiguous heap exactly when the table needed no growth and,
      as always, there is no hole or the endmost reaches the end. */
  lemma NestedTableAsWritten(l: Layout, k: Layout, b: nat, newEnd: nat, endmost: Option<nat>)
    requires Inv(l) && Allocate(l, TABLE, true) == Some((k, b)) && l.end + OVERHEAD <= newEnd
    requires if k.index == [] then endmost == None else endmost.Some? && Endmost(k, endmost.value)
    ensures endmost.Some? ==> endmost.value in k.segs
    ensures Tiling(GrowSavedAsWritten(k, endmost, l.end, newEnd), l.start, newEnd)
            <==> Fitting(l, TABLE, true) && (k.index == [] || HasTailHole(k))
  {
    hide Allocate, Sorted, BySize, NoAdjacentHoles, Fitting, Tiling, GrowSavedAsWritten, GrowSegsAsWritten, HasTailHole;
    AllocateCorrect(l, TABLE, true);
    if endmost.Some? { assert endmost.value in k.segs; }
    if Fitting(l, TABLE, true) {
      FittingKeepsEnd(l);
      SavedIsEnd(k, endmost, newEnd);
      GrowAsWrittenTilesExactly(k, endmost, newEnd);
    } else {
      NestedGrows(l, TABLE, k, b);
      match endmost
      case None => NothingStretched(k, l.end, newEnd);
      case Some(h) => StretchedTooFar(k, h, l.end, newEnd);
    }
  }

  /** Reading the end again after the table was made keeps the invariant. */
  lemma NestedTableRepaired(l: Layout, k: Layout, b: nat, n: nat)
    requires Inv(l) && Allocate(l, TABLE, true) == Some((k, b)) && OVERHEAD <= n && NewEnd(l, n) <= l.max
    ensures Inv(k) && k.max == l.max && (NewEnd(k, n) <= k.max ==> Inv(Grow(k, NewEnd(k, n))))
  {
    hide Grow, Carve, NewEnd, Sorted, BySize, NoAdjacentHoles, ListsHolesBut, Tiling;
    AllocateCorrect(l, TABLE, true);
    NewEndInRange(k, n);
    if NewEnd(k, n) <= k.max { GrowInv(k, NewEnd(k, n)); }
  }

  // ---- Right merge: the far footer is never rewritten ----

  function RightMergeMem(m: Bytes, head: nat, total: nat): (r: Bytes)
    requires head + HEADER_SIZE <= |m| && total < ADDRESS_SPACE
    ensures |r| == |m|
  {
    WriteWord(m, head + 8, total)
  }

  lemma RightMergeTags(m: Bytes, head: nat, size: nat, more: nat)
    requires OVERHEAD <= size && OVERHEAD <= more && head + size + more <= |m| <= ADDRESS_SPACE && 0 < head
    requires HeaderOk(m, head, Seg(size, true)) && FooterOk(m, head + size, Seg(more, true))
    ensures var r := RightMergeMem(m, head, size + more);
            && HeaderOk(r, head, Seg(size + more, true))
            && FooterAt(r, head + size + more - FOOTER_SIZE).header == head + size
  {
    var r := RightMergeMem(m, head, size + more);
    ReadWordSame(m, r, head);
    FooterSame(m, r, head + size + more - FOOTER_SIZE);
  }

  /** What the freed hole takes in on its right, and how long it then is. */
  ghost predicate Swallows(s: Segs, head: nat)
    requires head in s
  {
    Next(s, head) in s && s[Next(s, head)].hole
  }

  ghost function TotalOf(s: Segs, head: nat): (n: nat)
    requires head in s
  {
    if Swallows(s, head) then s[head].size + s[Next(s, head)].size else s[head].size
  }

  /** Memory after lines 297 to 332 as written: the size of the merged hole, and
      new tags if it reaches the end of the heap and `left` bytes of it stay. */
  ghost function FreedAsWritten(m: Bytes, s: Segs, hi: nat, head: nat, left: nat): (r: Bytes)
    requires head in s && head + HEADER_SIZE <= |m| <= ADDRESS_SPACE && TotalOf(s, head) < ADDRESS_SPACE
    requires OVERHEAD <= left < ADDRESS_SPACE && head + left <= |m| && head < ADDRESS_SPACE
    ensures |r| == |m|
  {
    var m1 := if Swallows(s, head) then RightMergeMem(m, head, TotalOf(s, head)) else m;
    if head + TotalOf(s, head) == hi then
      WriteFooter(WriteWord(m1, head + 8, left), head + left - FOOTER_SIZE, Footer(HEAP_MAGIC, head))
    else m1
  }

  lemma FooterNames(m: Bytes, s: Segs, a: nat)
    requires FullyTagged(m, s) && a in s
    ensures HeaderOk(m, a, s[a]) && FooterOk(m, a, s[a])
  {
  }

  lemma NotItsFooter(m: Bytes, a: nat, size: nat, other: nat)
    requires FOOTER_SIZE <= size && a + size <= |m| && FooterAt(m, a + size - FOOTER_SIZE).header == other != a
    ensures !FooterOk(m, a, Seg(size, true))
  {
  }

  /** Freeing a block leaves its hole with a footer that names it, unless it took
      in a hole on its right and does not reach the end of the heap: then, and
      only then, the footer names the header that was swallowed. A hole at the
      end keeps `left` bytes. */
  lemma RightMergeFooterExactly(m: Bytes, s: Segs, lo: nat, hi: nat, head: nat, left: nat)
    requires Tiling(s, lo, hi) && 0 < lo && hi < ADDRESS_SPACE && FullyTagged(m, s)
    requires head in s && s[head].hole && OVERHEAD <= left <= TotalOf(s, head)
    requires head + TotalOf(s, head) != hi ==> left == TotalOf(s, head)
    ensures head + TotalOf(s, head) <= hi
    ensures var r, seg := FreedAsWritten(m, s, hi, head, left), Seg(left, true);
            && HeaderOk(r, head, seg)
            && (FooterOk(r, head, seg) <==> !(Swallows(s, head) && head + TotalOf(s, head) != hi))
            && (!FooterOk(r, head, seg) ==> FooterAt(r, head + left - FOOTER_SIZE).header == Next(s, head))
  {
    hide HeaderOk, FooterOk, Disjoint, Chained, RightMergeMem, FooterAt, HeaderAt, WriteWord, WriteFooter, SameOutside;
    FooterNames(m, s, head);
    var right, total := Next(s, head), TotalOf(s, head);
    var m1 := m;
    if Swallows(s, head) {
      FooterNames(m, s, right);
      RightMergeTags(m, head, s[head].size, s[right].size);
      m1 := RightMergeMem(m, head, total);
    }
    if head + total == hi {
      ResizedTags(m1, head, total, left);
    } else if Swallows(s, head) {
      NotItsFooter(m1, head, left, right);
    }
  }

  // ---- Contraction to nothing: the vanished hole stays in the index ----

  /** The searches at the end of free look for the header behind the hole, which
      is no longer in the index or never was; so a hole merged to the left stays
      where it is and any other is inserted, whether it still exists or not. */
  function SettleIndexAsWritten(index: seq<nat>, head: nat, leftMerged: bool, s: Segs): (r: seq<nat>)
  {
    if leftMerged then index else Inserted(index, head, BySize(s))
  }

  lemma IndexAfterContractExactly(index: seq<nat>, s: Segs, head: nat, leftMerged: bool, left: nat)
    requires head in s && s[head].hole
    requires ListsHolesBut(index, s, if leftMerged then None else Some(head))
    ensures var t := if left > 0 then Resize(s, head, left) else s - {head};
            ListsHolesBut(SettleIndexAsWritten(index, head, leftMerged, t), t, None) <==> left > 0
  {
    hide Inserted, BySize;
    var t := if left > 0 then Resize(s, head, left) else s - {head};
    var r := SettleIndexAsWritten(index, head, leftMerged, t);
    if !leftMerged { InsertMembers(index, head, BySize(t)); }
    assert head in r;
  }

  // ---- The probe to the right reads beyond the end ----

  predicate ReadsAsHole(m: Bytes, a: nat)
  {
    a + HEADER_SIZE <= |m| && HeaderAt(m, a).magic == HEAP_MAGIC && HeaderAt(m, a).isHole != 0
  }

  /** free ends in a panic when it looks behind the block: the page there is not
      mapped, or it finds a hole's header that the index does not list. */
  ghost predicate ProbePanics(m: Bytes, present: set<nat>, index: seq<nat>, right: nat)
  {
    !OnPages(present, right, HEADER_SIZE) || (ReadsAsHole(m, right) && right !in index)
  }

  lemma FirstBytesOfPage(present: set<nat>, a: nat)
    requires a % PAGE == 0
    ensures OnPages(present, a, HEADER_SIZE) <==> a / PAGE in present
  {
    assert forall x | a <= x < a + HEADER_SIZE :: x / PAGE == a / PAGE;
    assert a <= a < a + HEADER_SIZE;
  }

  /** Without a test against the end, free panics exactly when the freed block is
      the last segment, and the page behind the heap is not mapped or the bytes
      there happen to look like a hole's header. */
  lemma ProbePanicsExactly(m: Bytes, present: set<nat>, l: Layout, a: nat)
    requires Inv(l) && FullyTagged(m, l.segs) && IsBlock(l, a) && Backed(present, l.start, l.end)
    ensures ProbePanics(m, present, l.index, Next(l.segs, a)) <==>
            Next(l.segs, a) == l.end && (l.end / PAGE !in present || ReadsAsHole(m, l.end))
  {
    hide FooterOk, Disjoint, Sorted, NoAdjacentHoles, BySize, OnPages, Backed;
    var right := Next(l.segs, a);
    if right in l.segs {
      assert HeaderOk(m, right, l.segs[right]);
      BackedBytes(present, l.start, l.end, right, HEADER_SIZE);
    } else {
      FirstBytesOfPage(present, l.end);
    }
  }

  /** They do look like one after a trailing hole was given back whole: its
      header is still there, on the one page contract leaves mapped. */
  lemma StaleHeaderStays(m: Bytes, l: Layout, merged: Merged)
    requires MergedOk(l, merged) && SettleReady(l, merged) && FullyTagged(m, merged.segs)
    requires Next(merged.segs, merged.head) == l.end && Settle(l, merged).end == merged.head
    ensures ReadsAsHole(m, Settle(l, merged).end) && Settle(l, merged).end !in Settle(l, merged).index
  {
    assert HeaderOk(m, merged.head, merged.segs[merged.head]);
  }

  // ---- Sizes change in place: the index may lose its order ----

  /** A hole that changes its size where it stands keeps the index sorted
      exactly when it still fits between its neighbours. */
  lemma ResizeInPlaceExactly(index: seq<nat>, s: Segs, i: nat, size: nat)
    requires i < |index| && index[i] in s && NoDuplicates(index) && Sorted(index, BySize(s))
    ensures Sorted(index, BySize(Resize(s, index[i], size))) <==>
            (i == 0 || SizeOf(s, index[i - 1]) <= size) && (i == |index| - 1 || size <= SizeOf(s, index[i + 1]))
  {
    var r := Resize(s, index[i], size);
    assert forall k | 0 <= k < |index| && k != i :: SizeOf(r, index[k]) == SizeOf(s, index[k]);
    if (i == 0 || SizeOf(s, index[i - 1]) <= size) && (i == |index| - 1 || size <= SizeOf(s, index[i + 1])) {
      forall j, k | 0 <= j < k < |index| ensures !BySize(r)(index[k], index[j]) {
        if j == i {
          assert k == i + 1 || !BySize(s)(index[k], index[i + 1]);
        } else if k == i {
          assert j == i - 1 || !BySize(s)(index[i - 1], index[j]);
        } else {
          assert !BySize(s)(index[k], index[j]);
        }
      }
    } else if i != 0 && SizeOf(s, index[i - 1]) > size {
      assert BySize(r)(index[i], index[i - 1]);
    } else {
      assert BySize(r)(index[i + 1], index[i]);
    }
  }

  // ---- The page-aligned split ----

  /** The gap find_smallest_hole charges for. */
  function GapCharged(a: nat): (gap: nat)
  {
    PAGE - (a + HEADER_SIZE) % PAGE
  }

  /** The size given to the hole in front, as a 32-bit value. */
  function GapMade(a: nat): (gap: Word)
  {
    (PAGE - a % PAGE - HEADER_SIZE) % ADDRESS_SPACE
  }

  /** The two agree exactly on holes whose low twelve bits are at most 0xFF3. */
  lemma GapsAgreeExactly(a: nat)
    ensures GapCharged(a) == GapMade(a) <==> a % PAGE <= 0xFF3
  {
    assert (a + HEADER_SIZE) % PAGE == if a % PAGE + HEADER_SIZE < PAGE then a % PAGE + HEADER_SIZE else a % PAGE + HEADER_SIZE - PAGE;
  }

  /** Where the block goes: so that its data begins the next page. */
  function BlockMade(a: nat): (b: nat)
  {
    a - a % PAGE + PAGE - HEADER_SIZE
  }

  /** What is left behind an aligned block of n bytes cut from a hole of `size` bytes. */
  function TailMade(size: nat, a: nat, n: nat): (tail: int)
  {
    size - (PAGE - a % PAGE - HEADER_SIZE) - n
  }

  /** The size of the block: slack too small for a hole is added before the gap is taken off. */
  function BlockSize(size: nat, n: nat): (block: nat)
    requires n <= size
  {
    if size - n < OVERHEAD then size else n
  }

  /** The segments as the headers describe them after the split. */
  function AlignedSegsAsWritten(s: Segs, h: nat, n: nat): (r: Segs)
    requires h in s && n <= s[h].size
  {
    var block := BlockSize(s[h].size, n);
    var b := BlockMade(h);
    var s2 := s[h := Seg(GapMade(h), true)][b := Seg(block, false)];
    var tail := TailMade(s[h].size, h, block);
    if tail == 0 then s2 else s2[b + block := Seg(tail % ADDRESS_SPACE, true)]
  }

  /** The chosen hole stays in the index where it was; the tail is inserted. */
  function AlignedIndexAsWritten(index: seq<nat>, s: Segs, h: nat, n: nat): (r: seq<nat>)
    requires h in s && n <= s[h].size
  {
    var block := BlockSize(s[h].size, n);
    if TailMade(s[h].size, h, block) == 0 then index
    else Inserted(index, BlockMade(h) + block, BySize(AlignedSegsAsWritten(s, h, n)))
  }

  /** Room for the tags of the hole in front, and for those of the hole behind if there is one. */
  predicate SplitIsExact(size: nat, h: nat, n: nat)
  {
    && h % PAGE <= 0xFE0
    && (TailMade(size, h, n) == 0 || OVERHEAD <= TailMade(size, h, n))
  }

  lemma TailIsRoom(size: nat, h: nat, n: nat)
    requires SplitIsExact(size, h, n) && TailMade(size, h, n) != 0
    ensures OVERHEAD <= TailMade(size, h, n)
  {
  }

  lemma AlignedPieces(s: Segs, h: nat, n: nat)
    requires h in s && s[h].size < ADDRESS_SPACE && OVERHEAD <= n
    requires GapCharged(h) + n <= s[h].size && SplitIsExact(s[h].size, h, n)
    ensures var gap, tail := GapMade(h), TailMade(s[h].size, h, n);
            && OVERHEAD <= gap && BlockMade(h) == h + gap && BlockSize(s[h].size, n) == n && tail == s[h].size - gap - n
            && AlignedSegsAsWritten(s, h, n) ==
               if tail == 0 then Split(s, h, gap, true, false) else Split(Split(s, h, gap, true, true), h + gap, n, false, true)
  {
    GapsAgreeExactly(h);
  }

  lemma AlignedSplitWorks(s: Segs, lo: nat, hi: nat, index: seq<nat>, h: nat, n: nat)
    requires Tiling(s, lo, hi) && h in s && s[h].hole && s[h].size < ADDRESS_SPACE && OVERHEAD <= n && ListsHolesBut(index, s, None)
    requires GapCharged(h) + n <= s[h].size && SplitIsExact(s[h].size, h, n)
    ensures Tiling(AlignedSegsAsWritten(s, h, n), lo, hi)
    ensures ListsHolesBut(AlignedIndexAsWritten(index, s, h, n), AlignedSegsAsWritten(s, h, n), None)
  {
    hide Inserted, BySize, Tiling, AlignedSegsAsWritten, GapMade, BlockMade, BlockSize, TailMade, SplitIsExact;
    AlignedPieces(s, h, n);
    var gap, tail, t := GapMade(h), TailMade(s[h].size, h, n), AlignedSegsAsWritten(s, h, n);
    if tail == 0 {
      SplitTiles(s, lo, hi, h, gap, true, false);
    } else {
      assert OVERHEAD <= tail by { TailIsRoom(s[h].size, h, n); }
      SplitTiles(s, lo, hi, h, gap, true, true);
      var s1 := Split(s, h, gap, true, true);
      SplitTiles(s1, lo, hi, h + gap, n, false, true);
      InsertMembers(index, h + gap + n, BySize(t));
    }
  }

  lemma AlignedSplitBreaks(s: Segs, lo: nat, hi: nat, index: seq<nat>, h: nat, n: nat)
    requires Tiling(s, lo, hi) && hi <= ADDRESS_SPACE && h in s && s[h].hole && OVERHEAD <= n && ListsHolesBut(index, s, None)
    requires GapCharged(h) + n <= s[h].size && !SplitIsExact(s[h].size, h, n)
    ensures !(Tiling(AlignedSegsAsWritten(s, h, n), lo, hi)
              && ListsHolesBut(AlignedIndexAsWritten(index, s, h, n), AlignedSegsAsWritten(s, h, n), None))
  {
    hide Inserted, BySize, Disjoint, Chained;
    var t := AlignedSegsAsWritten(s, h, n);
    var p := h % PAGE;
    if p == 0xFF4 {
      assert h in index && BlockMade(h) == h && !t[h].hole;
      if TailMade(s[h].size, h, BlockSize(s[h].size, n)) != 0 {
        InsertMembers(index, h + n, BySize(t));
      }
    } else if p > 0xFE0 {
      assert t[h].size == GapMade(h) && (t[h].size < OVERHEAD || hi < h + t[h].size);
    } else {
      GapsAgreeExactly(h);
      var tail := TailMade(s[h].size, h, n);
      assert BlockSize(s[h].size, n) == n && 0 < tail < OVERHEAD;
      assert t[BlockMade(h) + n] == Seg(tail, true);
    }
  }

  /** Once the fit test has passed, the aligned split keeps the segments
      contiguous and the index complete exactly when both gaps are exact. */
  lemma AlignedSplitExactly(l: Layout, h: nat, n: nat)
    requires Inv(l) && h in l.segs && l.segs[h].hole && OVERHEAD <= n
    requires GapCharged(h) + n <= l.segs[h].size
    ensures (&& Tiling(AlignedSegsAsWritten(l.segs, h, n), l.start, l.end)
             && ListsHolesBut(AlignedIndexAsWritten(l.index, l.segs, h, n), AlignedSegsAsWritten(l.segs, h, n), None))
            <==> SplitIsExact(l.segs[h].size, h, n)
  {
    if SplitIsExact(l.segs[h].size, h, n) {
      AlignedSplitWorks(l.segs, l.start, l.end, l.index, h, n);
    } else {
      AlignedSplitBreaks(l.segs, l.start, l.end, l.index, h, n);
    }
  }

  // ---- 32-bit arithmetic on the request ----

  /** The size with overhead, as alloc computes it. */
  function NewSizeAsWritten(size: Word): (n: Word)
  {
    (size + OVERHEAD) % ADDRESS_SPACE
  }

  /** The block asked for is at least the request exactly below 2^32 - 20; above,
      a request for nearly all of memory is granted by any small hole. */
  lemma NewSizeExactly(size: Word)
    ensures size <= NewSizeAsWritten(size) <==> size + OVERHEAD < ADDRESS_SPACE
  {
  }

  /** The signed comparison of an aligned request agrees with the intended one,
      on a hole below 2^31 bytes, exactly when the request is below 2^31 or within
      the last gap - size bytes below 2^32. So every request from 2^31 to
      2^32 - 4096 is wrongly granted by every hole. */
  lemma SignedFitExactly(size: Word, gap: nat, n: Word)
    requires size < 0x8000_0000
    ensures var signed := if n < 0x8000_0000 then n else n - ADDRESS_SPACE;
            && ((size - gap >= signed <==> gap + n <= size) <==> n < 0x8000_0000 || ADDRESS_SPACE - (gap - size) < n)
            && (gap <= PAGE && 0x8000_0000 <= n <= ADDRESS_SPACE - PAGE ==> size - gap >= signed && gap + n > size)
  {
  }

  /** The bound check of expand adds in 32 bits; it lets a length pass exactly
      when the true sum is within the maximum or wraps around to within it. */
  lemma BoundCheckExactly(start: Word, newSize: nat, max: Word)
    requires start + newSize < 2 * ADDRESS_SPACE
    ensures (start + newSize) % ADDRESS_SPACE <= max <==>
            start + newSize <= max || ADDRESS_SPACE <= start + newSize <= max + ADDRESS_SPACE
  {
  }
}
