/** What callers of alloc and free may rely on. */
module HeapTheorems {
  import opened Options
  import opened Memory
  import opened Tilings
  import opened OrderedArrays
  import opened HeapLayouts

  /** The blocks handed out and not yet freed, with their sizes. */
  ghost function Blocks(s: Segs): (m: map<nat, nat>)
  {
    map a | a in s && !s[a].hole :: s[a].size
  }

  // ---- The blocks, through each change of a tiling ----

  lemma BlocksOfHoles(s: Segs, a: nat)
    requires a in s && s[a].hole
    ensures a !in Blocks(s)
    ensures forall size: nat :: Blocks(Resize(s, a, size)) == Blocks(s)
    ensures Blocks(s - {a}) == Blocks(s)
    ensures forall k: nat | 0 < k <= s[a].size && a + k !in s :: Blocks(Split(s, a, k, true, true)) == Blocks(s)
    ensures Next(s, a) in s && s[Next(s, a)].hole ==> Blocks(Join(s, a)) == Blocks(s)
  {
  }

  lemma BlocksOfFreed(s: Segs, a: nat)
    requires a in s && !s[a].hole
    ensures Blocks(SetHole(s, a, true)) == Blocks(s) - {a}
  {
  }

  // ---- alloc ----

  lemma ListedHole(l: Layout, i: nat)
    requires Inv(l) && i < |l.index|
    ensures l.index[i] in l.index && l.index[i] in l.segs && l.segs[l.index[i]].hole
  {
    assert l.index[i] in l.index;
  }

  lemma SameBlocks(s: Segs, r: Segs, h: nat, b: nat)
    requires SameBut(s, r, {h, b}) && h in s && s[h].hole && b in r && r[b].hole
    requires (b in s ==> s[b].hole) && (h in r ==> r[h].hole)
    ensures Blocks(s) == Blocks(r)
  {
  }

  lemma CarveBlockBlocks(l: Layout, b: nat, n: nat)
    requires Tiling(l.segs, l.start, l.end) && b in l.segs && l.segs[b].hole
    requires OVERHEAD <= n <= l.segs[b].size
    ensures var r := CarveBlock(l, b, n);
            && b in r.segs && !r.segs[b].hole && n <= r.segs[b].size < n + OVERHEAD
            && b !in Blocks(l.segs)
            && Blocks(r.segs) == Blocks(l.segs)[b := r.segs[b].size]
            && r.start == l.start && r.end == l.end && r.max == l.max
  {
    hide Inserted, BySize, Disjoint, Chained;
    if OVERHEAD <= l.segs[b].size - n {
      SplitTiles(l.segs, l.start, l.end, b, n, false, true);
    }
  }

  lemma CarveBlocks(l: Layout, i: nat, n: nat, align: bool)
    requires Inv(l) && i < |l.index| && OVERHEAD <= n && Fits(l.segs, l.index[i], n, align)
    ensures var (r, b) := Carve(l, i, n, align);
            && b in r.segs && !r.segs[b].hole && n <= r.segs[b].size < n + OVERHEAD
            && b !in Blocks(l.segs)
            && Blocks(r.segs) == Blocks(l.segs)[b := r.segs[b].size]
            && (align ==> (b + HEADER_SIZE) % PAGE == 0)
            && r.start == l.start && r.end == l.end && r.max == l.max
  {
    hide CarveFront, CarveBlock, AlignedGap, Fits, NoAdjacentHoles, Sorted, BySize, ListsHolesBut, Tiling, NoHoleAround;
    var h := l.index[i];
    assert align ==> (h + Gap(h, align) + HEADER_SIZE) % PAGE == 0;
    CarveFrontReady(l, i, n, align);
    var (r, b) := CarveFront(l, i, n, align);
    assert h in l.index && l.segs[h].hole by { ListedHole(l, i); }
    assert Blocks(r.segs) == Blocks(l.segs) by { SameBlocks(l.segs, r.segs, h, b); }
    hide Blocks, SameBut;
    CarveBlockBlocks(r, b, n);
  }

  lemma GrowBlocks(l: Layout, newEnd: nat)
    requires Inv(l) && l.end + OVERHEAD <= newEnd
    ensures Blocks(Grow(l, newEnd).segs) == Blocks(l.segs)
  {
    if !HasTailHole(l) {
      AppendTiles(l.segs, l.start, l.end, newEnd, true);
    }
  }

  lemma NewEndInRange(l: Layout, n: nat)
    requires Inv(l) && OVERHEAD <= n
    ensures NewEnd(l, n) % PAGE == 0 && l.end + OVERHEAD <= NewEnd(l, n)
    ensures NewEnd(l, n) == l.end + RoundUp(n)
  {
    hide Tiling, NoAdjacentHoles, ListsHolesBut, Sorted;
  }

  lemma GrowRange(l: Layout, newEnd: nat)
    requires l.end <= newEnd
    ensures var r := Grow(l, newEnd); r.start == l.start && r.end == newEnd && r.max == l.max
  {
  }

  /** Every successful alloc keeps the invariant, adds exactly one block of at
      least the requested size where no block was, leaves every other block as it
      was, and never moves the end past the maximum. */
  lemma {:induction false} AllocateCorrect(l: Layout, n: nat, align: bool)
    requires Inv(l) && OVERHEAD <= n
    ensures Allocate(l, n, align).Some? ==>
              var (r, b) := Allocate(l, n, align).value;
              && Inv(r) && l.end <= r.end <= l.max
              && r.start == l.start && r.max == l.max
              && b in r.segs && !r.segs[b].hole && n <= r.segs[b].size < n + OVERHEAD
              && b !in Blocks(l.segs)
              && Blocks(r.segs) == Blocks(l.segs)[b := r.segs[b].size]
              && (align ==> (b + HEADER_SIZE) % PAGE == 0)
    decreases l.max - l.end
  {
    hide Carve, Grow, Blocks, FirstFit, Sorted, BySize, NoAdjacentHoles, Tiling, ListsHolesBut, RoundUp;
    var i := FirstFit(l.segs, l.index, n, align, 0);
    if i < |l.index| {
      CarveInv(l, i, n, align);
      CarveBlocks(l, i, n, align);
    } else {
      NewEndInRange(l, n);
      var e := NewEnd(l, n);
      if e <= l.max {
        GrowInv(l, e);
        GrowBlocks(l, e);
        GrowRange(l, e);
        AllocateCorrect(Grow(l, e), n, align);
      }
    }
  }

  /** The chosen hole is the smallest that fits, and none is chosen exactly when none fits. */
  lemma BestFit(l: Layout, n: nat, align: bool)
    requires Inv(l)
    ensures var i := FirstFit(l.segs, l.index, n, align, 0);
            && (i < |l.index| ==>
                  && l.index[i] in l.segs && l.segs[l.index[i]].hole && Fits(l.segs, l.index[i], n, align)
                  && forall h | h in l.segs && l.segs[h].hole && Fits(l.segs, h, n, align) :: l.segs[l.index[i]].size <= l.segs[h].size)
            && (i == |l.index| <==> forall h | h in l.segs && l.segs[h].hole :: !Fits(l.segs, h, n, align))
  {
    var i := FirstFit(l.segs, l.index, n, align, 0);
    forall h | h in l.segs && l.segs[h].hole && Fits(l.segs, h, n, align)
      ensures i < |l.index| && l.segs[l.index[i]].size <= l.segs[h].size
    {
      assert h in l.index;
      var k :| 0 <= k < |l.index| && l.index[k] == h;
      assert i <= k && (i < k ==> !BySize(l.segs)(l.index[k], l.index[i]));
      assert l.index[i] in l.index;
    }
    if i < |l.index| {
      assert l.index[i] in l.index;
    }
  }

  // ---- free ----

  lemma MergeBlocks(l: Layout, a: nat)
    requires Inv(l) && a in l.segs && !l.segs[a].hole
    ensures Blocks(Coalesced(l, a).segs) == Blocks(l.segs) - {a}
  {
    MergeLeftOk(l, a);
    hide Inserted, BySize, Sorted, TakeOut, NoAdjacentHoles, Blocks, ListsHolesBut, Tiling, NoHoleBefore;
    var s := SetHole(l.segs, a, true);
    BlocksOfFreed(l.segs, a);
    if HasLeftHole(l.segs, a) {
      var p := LeftHole(l.segs, a);
      assert Next(s, p) == a;
      BlocksOfHoles(s, p);
    }
    var m := MergeLeft(l, a);
    hide SetHole, Join, MergeLeft;
    BlocksOfHoles(m.segs, m.head);
  }

  /** free removes exactly the block it is given. */
  lemma ReleaseBlocks(l: Layout, a: nat)
    requires Inv(l) && a in l.segs && !l.segs[a].hole
    ensures var r := Release(l, a);
            && Blocks(r.segs) == Blocks(l.segs) - {a}
            && r.start == l.start && r.max == l.max && r.end <= l.end
            && (HEAP_MIN_SIZE <= l.end - l.start ==> HEAP_MIN_SIZE <= r.end - r.start)
  {
    hide Inserted, BySize, Sorted, TakeOut, NoAdjacentHoles, ContractedLength, Blocks, MergeLeft, MergeRight, ListsHolesBut;
    MergeLeftOk(l, a);
    MergeRightOk(l, MergeLeft(l, a));
    MergeBlocks(l, a);
    var m := Coalesced(l, a);
    hide Coalesced;
    BlocksOfHoles(m.segs, m.head);
  }

  /** The free space that takes in the block at a: from where to where. */
  ghost function FreeFrom(l: Layout, a: nat): (lo: nat)
  {
    if HasLeftHole(l.segs, a) then LeftHole(l.segs, a) else a
  }

  function FreeTo(l: Layout, a: nat): (hi: nat)
    requires a in l.segs
  {
    var right := Next(l.segs, a);
    if right in l.segs && l.segs[right].hole then Next(l.segs, right) else right
  }

  lemma CoalescedSpan(l: Layout, a: nat)
    requires Inv(l) && IsBlock(l, a)
    ensures var m := Coalesced(l, a);
            m.head == FreeFrom(l, a) && Next(m.segs, m.head) == FreeTo(l, a) && l.start <= m.head <= a
  {
    hide Sorted, ListsHolesBut, BySize, NoAdjacentHoles, TakeOut, MergedOk, NoHoleBefore;
    MergeLeftOk(l, a);
    if HasLeftHole(l.segs, a) {
      assert Next(SetHole(l.segs, a, true), LeftHole(l.segs, a)) == a;
    }
  }

  lemma FreeSpace(l: Layout, a: nat)
    requires Inv(l) && IsBlock(l, a)
    ensures l.start <= FreeFrom(l, a) && (l.end - l.start) % PAGE == 0 && l.start <= l.end
    ensures FreeTo(l, a) == l.end ==> FreeFrom(l, a) + OVERHEAD <= l.end
    ensures FreeTo(l, a) != l.end ==> Release(l, a).end == l.end
  {
    hide Sorted, ListsHolesBut, BySize, NoAdjacentHoles, Tiling, Coalesced, ContractedLength, FreeTo, FreeFrom, MergedOk, Inserted;
    CoalescedReady(l, a);
    CoalescedSpan(l, a);
  }

  lemma ReleaseEnd(l: Layout, a: nat, offset: nat, length: nat)
    requires Inv(l) && IsBlock(l, a) && FreeTo(l, a) == l.end
    requires l.start + offset == FreeFrom(l, a) && l.start + length == l.end && offset + OVERHEAD <= length && length % PAGE == 0
    ensures Release(l, a).end == l.start + ContractedLength(offset, length)
  {
    hide Sorted, ListsHolesBut, BySize, NoAdjacentHoles, Tiling, Coalesced, ContractedLength, FreeTo, FreeFrom, MergedOk, Inserted;
    CoalescedReady(l, a);
    CoalescedSpan(l, a);
  }

  /** When that free space reaches the end of the heap, no allowed end is lower
      than the one free leaves: allowed is a page boundary that is not below the
      minimum size and leaves nothing of the free space or room for its tags. */
  lemma ReleaseEndLeast(l: Layout, a: nat, e: nat)
    requires Inv(l) && IsBlock(l, a) && FreeTo(l, a) == l.end
    requires e % PAGE == 0 && l.start + HEAP_MIN_SIZE <= e <= l.end && (e == FreeFrom(l, a) || FreeFrom(l, a) + OVERHEAD <= e)
    ensures Release(l, a).end <= e
  {
    hide Sorted, ListsHolesBut, NoAdjacentHoles, Tiling, ContractedLength, FreeTo, FreeFrom, Release;
    FreeSpace(l, a);
    ReleaseEnd(l, a, FreeFrom(l, a) - l.start, l.end - l.start);
    ContractedLeast(FreeFrom(l, a) - l.start, l.end - l.start, e - l.start);
  }

  /** ... and that end is itself allowed, unless the heap was shorter than the
      minimum; then, or when the free space ends earlier, the end stays. */
  lemma ReleaseEndAllowed(l: Layout, a: nat)
    requires Inv(l) && IsBlock(l, a)
    ensures var e := Release(l, a).end;
            if FreeTo(l, a) == l.end && l.start + HEAP_MIN_SIZE <= l.end then
              && e % PAGE == 0 && l.start + HEAP_MIN_SIZE <= e <= l.end
              && (e == FreeFrom(l, a) || FreeFrom(l, a) + OVERHEAD <= e)
            else e == l.end
  {
    hide Sorted, ListsHolesBut, NoAdjacentHoles, Tiling, ContractedLength, FreeTo, FreeFrom, Release;
    FreeSpace(l, a);
    if FreeTo(l, a) == l.end {
      ReleaseEnd(l, a, FreeFrom(l, a) - l.start, l.end - l.start);
      ContractedLeast(FreeFrom(l, a) - l.start, l.end - l.start, 0);
    }
  }

  /** Blocks of one heap in another with the same blocks. */
  lemma SameBlocksIn(s: Segs, t: Segs, a: nat)
    requires Blocks(t) == Blocks(s) - {a}
    ensures forall b | b in s && !s[b].hole && b != a :: b in t && t[b] == s[b]
    ensures forall b | b in t && !t[b].hole :: b in s && s[b] == t[b] && b != a
  {
    assert forall b | b in s && !s[b].hole && b != a :: b in Blocks(s) - {a};
    assert forall b | b in t && !t[b].hole :: b in Blocks(t);
    assert forall b | b in Blocks(t) :: Blocks(t)[b] == Blocks(s)[b];
  }

  lemma NothingFreeBefore(l: Layout, a: nat, c: nat)
    requires Inv(l) && IsBlock(l, a) && c in l.segs && Next(l.segs, c) == FreeFrom(l, a)
    ensures !l.segs[c].hole && c != a
  {
    hide Sorted, ListsHolesBut, BySize, Disjoint, Chained;
    assert IsLeftHole(l.segs, a, c) ==> HasLeftHole(l.segs, a);
  }

  /** No block but a lies in the free space. */
  lemma NoBlockInFree(l: Layout, a: nat, b: nat)
    requires Inv(l) && IsBlock(l, a) && FreeTo(l, a) == l.end && IsBlock(l, b) && FreeFrom(l, a) < Next(l.segs, b)
    ensures b == a
  {
    hide Sorted, ListsHolesBut, BySize, NoAdjacentHoles, Chained;
  }

  lemma OwnerIsHole(l: Layout, a: nat, k: Layout, h: nat)
    requires Inv(l) && IsBlock(l, a) && FreeTo(l, a) == l.end && h in k.segs && FreeFrom(l, a) < Next(k.segs, h)
    requires !k.segs[h].hole ==> IsBlock(l, h) && l.segs[h] == k.segs[h] && h != a
    ensures k.segs[h].hole
  {
    hide Inv, FreeTo, FreeFrom;
    if !k.segs[h].hole { NoBlockInFree(l, a, h); }
  }

  /** Any heap with the blocks that are left reaches where the free space begins,
      and has room for a hole there if it goes on. */
  lemma EndBehindBlocks(l: Layout, a: nat, k: Layout)
    requires Inv(l) && IsBlock(l, a) && Inv(k) && k.start == l.start && Blocks(k.segs) == Blocks(l.segs) - {a}
    requires FreeTo(l, a) == l.end
    ensures k.end == FreeFrom(l, a) || FreeFrom(l, a) + OVERHEAD <= k.end
  {
    hide Sorted, ListsHolesBut, BySize, NoAdjacentHoles, Blocks;
    SameBlocksIn(l.segs, k.segs, a);
    var head := FreeFrom(l, a);
    if head != l.start {
      var c := Predecessor(l.segs, l.start, l.end, head);
      assert !l.segs[c].hole by { NothingFreeBefore(l, a, c); }
      assert c in k.segs && Next(k.segs, c) == head;
    }
    if head < k.end {
      var h := OwnerFrom(k.segs, k.start, k.end, k.start, head);
      OwnerIsHole(l, a, k, h);
      assert h == head;
    }
  }

  /** free leaves the shortest heap there is: any heap with the blocks that are
      left, neither shorter than the minimum nor longer than before, ends at the
      same address or later, if the free space reached the end. */
  lemma ReleaseIsShortest(l: Layout, a: nat, k: Layout)
    requires Inv(l) && IsBlock(l, a) && FreeTo(l, a) == l.end
    requires Inv(k) && k.start == l.start && Blocks(k.segs) == Blocks(l.segs) - {a}
    requires l.start + HEAP_MIN_SIZE <= k.end <= l.end
    ensures Release(l, a).end <= k.end
  {
    hide FreeFrom, FreeTo, Blocks, Release, Tiling, NoAdjacentHoles, ListsHolesBut, Sorted;
    EndBehindBlocks(l, a, k);
    ReleaseEndLeast(l, a, k.end);
  }

  // ---- Growth: how often, and when it fails ----

  lemma FitIsFound(l: Layout, h: nat, n: nat, align: bool)
    requires h in l.index && Fits(l.segs, h, n, align)
    ensures Fitting(l, n, align)
  {
    var k :| 0 <= k < |l.index| && l.index[k] == h;
  }

  /** After a growth the last hole reaches the new end and spans all that was added. */
  lemma GrownTail(l: Layout, newEnd: nat) returns (h: nat)
    requires Inv(l) && l.end + OVERHEAD <= newEnd <= l.max && newEnd % PAGE == 0
    ensures var r := Grow(l, newEnd);
            IsTailHole(r, h) && h <= l.end && r.segs[h].size == newEnd - h
    ensures HasTailHole(l) ==> IsTailHole(l, h)
  {
    hide Tiling, NoAdjacentHoles, Inserted, BySize, Sorted, TakeOut;
    GrowInv(l, newEnd);
    var r := Grow(l, newEnd);
    h := if HasTailHole(l) then TailHole(l) else l.end;
    assert Next(r.segs, h) == newEnd;
    assert HasTailHole(l) ==> Next(l.segs, h) == l.end && l.segs[h].hole;
  }

  /** From h it is r bytes, less than a page, to the first boundary. */
  lemma DistanceToBoundary(h: nat, r: nat, end: nat)
    requires r < PAGE && (h + r) % PAGE == 0 && h <= end && end % PAGE == 0
    ensures h + r <= end
  {
  }

  /** Two growths leave room for a hole in front of an aligned block. */
  lemma TwoGrowthsFit(h: nat, end: nat, n: nat)
    requires h <= end && end % PAGE == 0
    ensures AlignedGap(h) + n <= end + RoundUp(n) + RoundUp(n) - h || n == 0
  {
    hide AlignedGap, RoundUp;
    var gap := AlignedGap(h);
    if PAGE < gap {
      assert (h + (gap - PAGE + HEADER_SIZE)) % PAGE == 0;
      DistanceToBoundary(h, gap - PAGE + HEADER_SIZE, end);
    }
  }

  lemma TailHolesAgree(l: Layout, h: nat, k: nat)
    requires Inv(l) && IsTailHole(l, h) && IsTailHole(l, k)
    ensures h == k
  {
    UniqueEnd(l.segs, l.start, l.end, h);
    assert Next(l.segs, k) == Next(l.segs, h);
  }

  /** One growth is enough for an unaligned request, two for an aligned one. */
  lemma GrowthSuffices(l: Layout, n: nat, align: bool)
    requires Inv(l) && OVERHEAD <= n && NewEnd(l, n) <= l.max
    ensures var l1 := Grow(l, NewEnd(l, n));
            && Inv(l1) && l1.max == l.max && l1.start == l.start
            && (!align ==> Fitting(l1, n, align))
            && (NewEnd(l1, n) <= l.max ==> Fitting(Grow(l1, NewEnd(l1, n)), n, align))
  {
    hide Grow, Fitting, Inserted, BySize, Sorted, Tiling, NoAdjacentHoles, ListsHolesBut, AlignedGap, RoundUp, NewEnd;
    var e1 := NewEnd(l, n);
    NewEndInRange(l, n);
    GrowInv(l, e1);
    GrowRange(l, e1);
    var h1 := GrownTail(l, e1);
    var l1 := Grow(l, e1);
    if !align { FitIsFound(l1, h1, n, align); }
    var e2 := NewEnd(l1, n);
    NewEndInRange(l1, n);
    if e2 <= l.max {
      var h2 := GrownTail(l1, e2);
      assert IsTailHole(l1, h1) && IsTailHole(l1, h2);
      TailHolesAgree(l1, h1, h2);
      TwoGrowthsFit(h1, l.end, n);
      FitIsFound(Grow(l1, e2), h2, n, align);
    }
  }

  /** alloc fails exactly when no hole fits and a growth it needs would pass
      the maximum; an aligned request may need a second growth. */
  lemma AllocateFailsExactly(l: Layout, n: nat, align: bool)
    requires Inv(l) && OVERHEAD <= n
    ensures Allocate(l, n, align).None? <==>
              && !Fitting(l, n, align)
              && (|| NewEnd(l, n) > l.max
                  || (var l1 := Grow(l, NewEnd(l, n));
                      align && !Fitting(l1, n, align) && NewEnd(l1, n) > l.max))
  {
    hide Grow, Carve, NewEnd, Tiling, NoAdjacentHoles, ListsHolesBut, Sorted, BySize;
    if !Fitting(l, n, align) && NewEnd(l, n) <= l.max {
      GrowthSuffices(l, n, align);
      var l1 := Grow(l, NewEnd(l, n));
      assert Allocate(l, n, align) == Allocate(l1, n, align);
      if !Fitting(l1, n, align) && NewEnd(l1, n) <= l.max {
        GrowRange(l1, NewEnd(l1, n));
        assert Allocate(l1, n, align) == Allocate(Grow(l1, NewEnd(l1, n)), n, align);
      }
    }
  }

  /** The hole h has room for n bytes, behind the gap that alignment takes. */
  ghost predicate HasRoom(s: Segs, h: nat, n: nat, align: bool)
  {
    h in s && s[h].hole && (if align then AlignedGap(h) else 0) + n <= s[h].size
  }

  /** The block b begins the smallest hole with room, but for the gap. */
  ghost predicate InSmallest(s: Segs, b: nat, n: nat, align: bool)
  {
    exists h: nat :: HasRoom(s, h, n, align) && b == h + (if align then AlignedGap(h) else 0)
                && forall g: nat | HasRoom(s, g, n, align) :: s[h].size <= s[g].size
  }

  lemma RoomIsFitting(l: Layout, n: nat, align: bool)
    requires Inv(l)
    ensures Fitting(l, n, align) <==> exists h: nat :: HasRoom(l.segs, h, n, align)
    ensures Fitting(l, n, align) ==>
              var i := FirstFit(l.segs, l.index, n, align, 0);
              i < |l.index| && InSmallest(l.segs, l.index[i] + (if align then AlignedGap(l.index[i]) else 0), n, align)
  {
    hide Inv, AlignedGap;
    BestFit(l, n, align);
    forall h | h in l.segs && l.segs[h].hole ensures HasRoom(l.segs, h, n, align) <==> Fits(l.segs, h, n, align) {
    }
    var i := FirstFit(l.segs, l.index, n, align, 0);
    if i < |l.index| { assert HasRoom(l.segs, l.index[i], n, align); }
  }

  lemma CarvePlace(l: Layout, i: nat, n: nat, align: bool)
    requires Inv(l) && i < |l.index| && OVERHEAD <= n && Fits(l.segs, l.index[i], n, align)
    ensures Carve(l, i, n, align).1 == l.index[i] + (if align then AlignedGap(l.index[i]) else 0)
    ensures Carve(l, i, n, align).0.end == l.end
  {
    hide Inv, CarveFront, CarveBlock, AlignedGap, ReadyToCarve, SameBut, Fits;
    CarveFrontReady(l, i, n, align);
    CarveBlocks(l, i, n, align);
  }

  lemma AllocateHere(l: Layout, n: nat, align: bool)
    requires Inv(l) && OVERHEAD <= n && Fitting(l, n, align)
    ensures l.start <= l.end <= l.max
    ensures var r := Allocate(l, n, align);
            r.Some? && r.value.0.end == l.end && InSmallest(l.segs, r.value.1, n, align)
  {
    hide Carve, AlignedGap, InSmallest, HasRoom, Tiling, NoAdjacentHoles, ListsHolesBut, Sorted;
    RoomIsFitting(l, n, align);
    CarvePlace(l, FirstFit(l.segs, l.index, n, align, 0), n, align);
  }

  lemma GrowsOnce(l: Layout, n: nat, align: bool)
    requires Inv(l) && OVERHEAD <= n && !Fitting(l, n, align)
    ensures Allocate(l, n, align) == if NewEnd(l, n) <= l.max then Allocate(Grow(l, NewEnd(l, n)), n, align) else None
  {
    hide Grow, Carve, NewEnd;
  }

  lemma InvRange(l: Layout)
    requires Inv(l)
    ensures l.start < l.end <= l.max
  {
  }

  /** Where alloc puts its block: if a hole has room, at the front of the smallest
      that has, and the heap does not grow; else into a heap grown by the request
      rounded up to whole pages, or, if aligned, by twice that if once gave no room. */
  lemma AllocateWhere(l: Layout, n: nat, align: bool)
    requires Inv(l) && OVERHEAD <= n
    ensures (exists h: nat :: HasRoom(l.segs, h, n, align)) ==>
              var r := Allocate(l, n, align);
              r.Some? && r.value.0.end == l.end && InSmallest(l.segs, r.value.1, n, align)
    ensures !(exists h: nat :: HasRoom(l.segs, h, n, align)) && Allocate(l, n, align).Some? ==>
              var (r, b) := Allocate(l, n, align).value;
              var k := Grow(l, l.end + RoundUp(n));
              if exists h: nat :: HasRoom(k.segs, h, n, align) then r.end == l.end + RoundUp(n) && InSmallest(k.segs, b, n, align)
              else align && r.end == l.end + 2 * RoundUp(n) && InSmallest(Grow(k, k.end + RoundUp(n)).segs, b, n, align)
  {
    hide Inv, Carve, Grow, NewEnd, Fitting, FirstFit, AlignedGap, HasRoom, InSmallest, RoundUp;
    InvRange(l);
    RoomIsFitting(l, n, align);
    if Fitting(l, n, align) {
      AllocateHere(l, n, align);
    } else {
      AllocateFailsExactly(l, n, align);
      GrowsOnce(l, n, align);
      NewEndInRange(l, n);
      if NewEnd(l, n) <= l.max {
        GrowthSuffices(l, n, align);
        var k := Grow(l, NewEnd(l, n));
        GrowRange(l, NewEnd(l, n));
        RoomIsFitting(k, n, align);
        if Fitting(k, n, align) {
          AllocateHere(k, n, align);
        } else {
          GrowsOnce(k, n, align);
          NewEndInRange(k, n);
          if NewEnd(k, n) <= l.max {
            GrowRange(k, NewEnd(k, n));
            GrowInv(k, NewEnd(k, n));
            AllocateHere(Grow(k, NewEnd(k, n)), n, align);
          }
        }
      }
    }
  }

  /** alloc fails when no hole has room and one growth would pass the maximum, and
      does not when a hole has room or the growths it may need stay below. */
  lemma AllocateFailsWhen(l: Layout, n: nat, align: bool)
    requires Inv(l) && OVERHEAD <= n
    ensures (exists h: nat :: HasRoom(l.segs, h, n, align)) ==> Allocate(l, n, align).Some?
    ensures !(exists h: nat :: HasRoom(l.segs, h, n, align)) ==>
              && (l.end + RoundUp(n) > l.max ==> Allocate(l, n, align).None?)
              && (l.end + (if align then 2 else 1) * RoundUp(n) <= l.max ==> Allocate(l, n, align).Some?)
  {
    hide Inv, Carve, Grow, NewEnd, Fitting, FirstFit, AlignedGap, HasRoom, InSmallest, RoundUp, Allocate;
    InvRange(l);
    RoomIsFitting(l, n, align);
    AllocateFailsExactly(l, n, align);
    NewEndInRange(l, n);
    if NewEnd(l, n) <= l.max {
      GrowthSuffices(l, n, align);
      GrowRange(l, NewEnd(l, n));
      NewEndInRange(Grow(l, NewEnd(l, n)), n);
    }
  }

  // ---- free undoes alloc ----

  /** The segments and the end once a hole at the end of the heap, if b is one, is given back. */
  ghost function Trimmed(l: Layout, b: nat): (r: (Segs, nat))
    requires Inv(l) && b in l.segs
  {
    if Next(l.segs, b) != l.end then (l.segs, l.end) else
    var e := l.start + ContractedLength(b - l.start, l.end - l.start);
    (if e == b then l.segs - {b} else Resize(l.segs, b, e - b), e)
  }

  lemma SettleRestores(l: Layout, r: Layout, m: Merged)
    requires Inv(l) && r.start == l.start && r.end == l.end
    requires m.segs == l.segs && m.head in l.segs
    ensures (Settle(r, m).segs, Settle(r, m).end) == Trimmed(l, m.head)
  {
    hide ContractedLength, Inserted, BySize, Sorted, ListsHolesBut, NoAdjacentHoles, Disjoint, Chained, Resize;
  }

  /** Nothing in front of a hole's place is a hole. */
  lemma NoLeftHole(l: Layout, r: Segs, b: nat, n: nat)
    requires Inv(l) && b in l.segs && l.segs[b].hole && OVERHEAD <= n <= l.segs[b].size
    requires r == if l.segs[b].size - n < OVERHEAD then SetHole(l.segs, b, false) else Split(l.segs, b, n, false, true)
    ensures b in r && !HasLeftHole(r, b)
  {
    hide Sorted, ListsHolesBut, Disjoint, Chained;
    if HasLeftHole(r, b) {
      var p := LeftHole(r, b);
      var q := Next(l.segs, p);
      assert false;
    }
  }

  lemma CoalesceUndoesCarve(l: Layout, r: Layout, b: nat, n: nat)
    requires Inv(l) && b in l.segs && l.segs[b].hole && OVERHEAD <= n <= l.segs[b].size
    requires r.segs == if l.segs[b].size - n < OVERHEAD then SetHole(l.segs, b, false) else Split(l.segs, b, n, false, true)
    ensures b in r.segs && Coalesced(r, b).segs == l.segs && Coalesced(r, b).head == b
  {
    hide Inserted, BySize, Sorted, ListsHolesBut, TakeOut, Disjoint, Chained, HasLeftHole;
    NoLeftHole(l, r.segs, b, n);
    var s := SetHole(r.segs, b, true);
    assert MergeLeft(r, b).segs == s && MergeLeft(r, b).head == b;
    var after := Next(l.segs, b);
    assert after in l.segs ==> !l.segs[after].hole;
    if OVERHEAD <= l.segs[b].size - n {
      JoinUndoesSplit(l.segs, l.start, l.end, b, n, false);
      assert Next(s, b) == b + n;
    } else {
      assert s == l.segs;
    }
  }

  /** An unaligned alloc from a hole, freed at once, brings back the very same
      segments; only a hole at the end of the heap may then be given back. */
  lemma FreeUndoesAlloc(l: Layout, i: nat, n: nat, r: Layout, b: nat)
    requires Inv(l) && i < |l.index| && OVERHEAD <= n && Fits(l.segs, l.index[i], n, false)
    requires (r, b) == Carve(l, i, n, false)
    ensures b == l.index[i] && b in l.segs && Inv(r) && b in r.segs && !r.segs[b].hole
    ensures (Release(r, b).segs, Release(r, b).end) == Trimmed(l, b)
  {
    hide Inserted, BySize, Sorted, TakeOut, ContractedLength, MergeLeft, MergeRight, Removed;
    assert b in l.index;
    CarveInv(l, i, n, false);
    CarveBlocks(l, i, n, false);
    hide NoAdjacentHoles, Blocks, Settle, Trimmed;
    CoalesceUndoesCarve(l, r, b, n);
    hide Coalesced;
    SettleRestores(l, r, Coalesced(r, b));
  }

  /** An unaligned alloc freed at once brings back the very same segments, those
      of the heap it started from or, if no hole fitted, of the heap grown once;
      only a hole at the end of the heap may then be given back. */
  lemma FreeUndoesAllocate(l: Layout, n: nat)
    requires Inv(l) && OVERHEAD <= n && Allocate(l, n, false).Some?
    ensures var (r, b) := Allocate(l, n, false).value;
            var k := if Fitting(l, n, false) then l else Grow(l, NewEnd(l, n));
            && Inv(k) && b in k.segs && Inv(r) && IsBlock(r, b)
            && (Release(r, b).segs, Release(r, b).end) == Trimmed(k, b)
  {
    hide Carve, Grow, NewEnd, Release, Trimmed, Inv;
    InvRange(l);
    var (r, b) := Allocate(l, n, false).value;
    var k := l;
    if !Fitting(l, n, false) {
      GrowthSuffices(l, n, false);
      k := Grow(l, NewEnd(l, n));
      GrowRange(l, NewEnd(l, n));
      assert Allocate(l, n, false) == Allocate(k, n, false);
    }
    FreeUndoesAlloc(k, FirstFit(k.segs, k.index, n, false, 0), n, r, b);
  }

  // ---- The index never fills up on a short heap ----

  /** The holes from c on, in address order. */
  ghost function HolesFrom(s: Segs, lo: nat, hi: nat, c: nat): (holes: seq<nat>)
    requires Tiling(s, lo, hi) && (c == hi || c in s)
    decreases hi - c
  {
    if c !in s then [] else (if s[c].hole then [c] else []) + HolesFrom(s, lo, hi, Next(s, c))
  }

  lemma {:induction false} HolesFromMembers(s: Segs, lo: nat, hi: nat, c: nat)
    requires Tiling(s, lo, hi) && (c == hi || c in s)
    ensures forall a | a in s && s[a].hole && c <= a :: a in HolesFrom(s, lo, hi, c)
    decreases hi - c
  {
    if c in s {
      HolesFromMembers(s, lo, hi, Next(s, c));
      UniqueEnd(s, lo, hi, c);
    }
  }

  /** A hole and the block behind it take at least twice the overhead. */
  lemma {:induction false} HolesAreFew(s: Segs, lo: nat, hi: nat, c: nat)
    requires Tiling(s, lo, hi) && NoAdjacentHoles(s) && (c == hi || c in s)
    ensures c <= hi && 2 * OVERHEAD * |HolesFrom(s, lo, hi, c)| <= hi - c + OVERHEAD
    ensures c in s && !s[c].hole ==> 2 * OVERHEAD * |HolesFrom(s, lo, hi, c)| <= hi - c
    decreases hi - c
  {
    hide Disjoint;
    if c in s {
      HolesAreFew(s, lo, hi, Next(s, c));
    }
  }

  lemma {:induction false} FewerDistinct(s: seq<nat>, t: seq<nat>)
    requires NoDuplicates(s) && forall x | x in s :: x in t
    ensures |s| <= |t|
  {
    if s != [] {
      assert s[0] in s;
      var j :| 0 <= j < |t| && t[j] == s[0];
      var rest, u := s[1..], t[..j] + t[j + 1..];
      forall x | x in rest ensures x in u {
        var i :| 0 <= i < |rest| && rest[i] == x;
        assert s[i + 1] == x != s[0] && x in s;
        var k :| 0 <= k < |t| && t[k] == x;
        assert if k < j then u[k] == x else u[k - 1] == x;
      }
      FewerDistinct(rest, u);
    }
  }

  /** The index lists at most one hole for every 40 bytes. */
  lemma IndexBound(l: Layout)
    requires Inv(l)
    ensures 2 * OVERHEAD * |l.index| <= l.end - l.start + OVERHEAD
  {
    hide Sorted, BySize, Disjoint, Chained;
    HolesFromMembers(l.segs, l.start, l.end, l.start);
    HolesAreFew(l.segs, l.start, l.end, l.start);
    FewerDistinct(l.index, HolesFrom(l.segs, l.start, l.end, l.start));
  }

  /** So on a heap that cannot grow beyond some five megabytes the index always
      has room for the holes one call may add. */
  lemma RoomByLength(l: Layout)
    requires Inv(l) && l.max - l.start + OVERHEAD <= 2 * OVERHEAD * (INDEX_SLOTS - 4)
    ensures |l.index| + 2 <= INDEX_SLOTS - 2
  {
    hide Sorted, BySize, Tiling, ListsHolesBut, NoAdjacentHoles;
    IndexBound(l);
  }

  // ---- Facts the heap's methods use ----

  lemma BlocksKept(s: Segs, t: Segs)
    requires Blocks(s) == Blocks(t)
    ensures forall a | a in s && !s[a].hole :: a in t && t[a] == s[a]
  {
    assert forall a | a in s && !s[a].hole :: a in Blocks(s) && Blocks(s)[a] == s[a].size;
  }

  /** What expand sees of the new length. */
  lemma SumWraps(l: Layout, n: nat)
    requires Inv(l) && OVERHEAD <= n < ADDRESS_SPACE && SumsExact(l, n)
    ensures var length := l.end - l.start;
            var sum := (length + n) % ADDRESS_SPACE;
            if length + n < ADDRESS_SPACE then sum == length + n && l.start + RoundUp(sum) == NewEnd(l, n) < ADDRESS_SPACE
            else sum <= length && l.max < NewEnd(l, n)
  {
    hide Tiling, NoAdjacentHoles, ListsHolesBut, Sorted;
  }

  lemma AfterGrowth(l: Layout, n: nat)
    requires Inv(l) && OVERHEAD <= n < ADDRESS_SPACE && NewEnd(l, n) <= l.max
    ensures SumsExact(l, n) ==> SumsExact(Grow(l, NewEnd(l, n)), n)
    ensures var r := Grow(l, NewEnd(l, n));
            HasTailHole(r) && Blocks(r.segs) == Blocks(l.segs) && l.end < r.end && r.max == l.max && r.start == l.start
  {
    hide Grow;
    NewEndInRange(l, n);
    var h := GrownTail(l, NewEnd(l, n));
    GrowBlocks(l, NewEnd(l, n));
    GrowRange(l, NewEnd(l, n));
  }

  lemma SettleSame(l: Layout, k: Layout, m: Merged)
    requires SettleReady(l, m) && l.start == k.start && l.end == k.end && l.max == k.max
    ensures SettleReady(k, m) && Settle(k, m) == Settle(l, m)
  {
    hide ContractedLength, Inserted, BySize, Resize;
  }

  lemma InvMeansTiling(l: Layout)
    requires Inv(l)
    ensures Tiling(l.segs, l.start, l.end)
  {
  }

  lemma LeftBlocks(l: Layout, a: nat)
    requires Inv(l) && a in l.segs && !l.segs[a].hole
    ensures forall b | b in l.segs - {a} && !l.segs[b].hole :: b in MergeLeft(l, a).segs && MergeLeft(l, a).segs[b] == l.segs[b]
  {
    hide BySize, TakeOut, Sorted, NoAdjacentHoles, ListsHolesBut;
  }

  lemma RightBlocks(m: Merged)
    requires m.head in m.segs && m.segs[m.head].hole
    ensures forall b | b in m.segs && !m.segs[b].hole :: b in MergeRight(m).segs && MergeRight(m).segs[b] == m.segs[b]
  {
  }

  lemma CoalescedBlocks(l: Layout, a: nat)
    requires Inv(l) && IsBlock(l, a)
    ensures var s := Coalesced(l, a).segs;
            forall b | b in l.segs - {a} && !l.segs[b].hole :: b in s && s[b] == l.segs[b]
  {
    hide MergeLeft, MergeRight, BySize, Sorted, NoAdjacentHoles, ListsHolesBut, Tiling;
    LeftBlocks(l, a);
    MergeLeftOk(l, a);
    RightBlocks(MergeLeft(l, a));
  }
}
