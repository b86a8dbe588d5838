/** Heaps on which the text of kernel/heap.c goes wrong: layouts that a few calls
    reach from createHeap, one for each failing side of a condition in HeapAsWritten. */
module HeapExamples {
  import opened Options
  import opened Memory
  import opened Tilings
  import opened OrderedArrays
  import opened HeapLayouts
  import opened HeapTheorems
  import opened HeapMemory
  import opened HeapRuns
  import opened HeapAsWritten
  import opened HeapTextRuns

  // The bounds of the kernel's own heap.
  const FROM := 0xC000_0000
  const FIRST := 0xC008_0000
  const END := 0xC010_0000
  const MAX := 0xCFFF_F000
  const LENGTH := END - FIRST

  /** The calls lead from createHeap to the layout. */
  ghost predicate Reaches(calls: seq<Call>, l: Layout)
  {
    Bootable(FROM, END, MAX) && CreatedRun(FROM, END, MAX, calls) == Some(l)
  }

  lemma ReachedInv(calls: seq<Call>, l: Layout)
    requires Reaches(calls, l)
    ensures Inv(l) && l.start == FIRST && l.max == MAX
  {
    CreatedInv(FROM, END, MAX);
    RunInv(Created(FROM, END, MAX), calls);
  }

  lemma {:induction false} RunSnoc(l: Layout, calls: seq<Call>, c: Call)
    requires Inv(l) && Run(l, calls).Some?
    ensures Inv(Run(l, calls).value)
    ensures Run(l, calls + [c]) == Step(Run(l, calls).value, c)
    decreases |calls|
  {
    hide Inv, Step;
    if calls == [] {
      assert [c][1..] == [];
      if Step(l, c).Some? { StepInv(l, c); }
    } else {
      StepInv(l, calls[0]);
      RunSnoc(Step(l, calls[0]).value, calls[1..], c);
      assert (calls + [c])[1..] == calls[1..] + [c];
    }
  }

  lemma ReachesMore(calls: seq<Call>, k: Layout, c: Call, l: Layout)
    requires Reaches(calls, k) && Inv(k) && Step(k, c) == Some(l)
    ensures Reaches(calls + [c], l) && Inv(l)
  {
    hide Inv, Step, Run;
    CreatedInv(FROM, END, MAX);
    RunSnoc(Created(FROM, END, MAX), calls, c);
    StepInv(k, c);
  }

  // ---- Blocks of given sizes, one behind the other ----

  function Sum(sizes: seq<nat>): (n: nat)
  {
    if sizes == [] then 0 else Sum(sizes[..|sizes| - 1]) + sizes[|sizes| - 1]
  }

  function Allocs(sizes: seq<nat>): (calls: seq<Call>)
  {
    if sizes == [] then []
    else
      var n := sizes[|sizes| - 1];
      Allocs(sizes[..|sizes| - 1]) + [CallAlloc(if n < OVERHEAD then 0 else n - OVERHEAD, false)]
  }

  /** The blocks, and the one hole behind them. */
  function Laid(sizes: seq<nat>): (l: Layout)
    requires Sum(sizes) <= LENGTH
    ensures FIRST + Sum(sizes) in l.segs && l.segs[FIRST + Sum(sizes)] == Seg(LENGTH - Sum(sizes), true)
    ensures l.index == [FIRST + Sum(sizes)] && l.start == FIRST && l.end == END && l.max == MAX
  {
    if sizes == [] then Created(FROM, END, MAX)
    else
      var n := sizes[|sizes| - 1];
      var k := Laid(sizes[..|sizes| - 1]);
      k.(segs := Split(k.segs, k.index[0], n, false, true), index := [k.index[0] + n])
  }

  /** Taking n bytes from the only hole. */
  lemma AllocFromOnlyHole(l: Layout, h: nat, n: nat)
    requires Inv(l) && l.index == [h] && OVERHEAD <= n && h in l.segs && n <= l.segs[h].size
    ensures Allocate(l, n, false) == Some((
              if l.segs[h].size - n < OVERHEAD then l.(segs := SetHole(l.segs, h, false), index := [])
              else l.(segs := Split(l.segs, h, n, false, true), index := [h + n]), h))
  {
    hide Inv, Split, SetHole;
    assert Fits(l.segs, h, n, false);
    assert FirstFit(l.segs, l.index, n, false, 0) == 0;
    assert Removed([h], 0) == [];
    assert l.segs[h].size - n >= OVERHEAD ==> Inserted([], h + n, BySize(Split(l.segs, h, n, false, true))) == [h + n];
  }

  predicate Sizes(sizes: seq<nat>)
  {
    Sum(sizes) + OVERHEAD <= LENGTH && forall i | 0 <= i < |sizes| :: OVERHEAD <= sizes[i]
  }

  lemma AllocReached(calls: seq<Call>, k: Layout, h: nat, n: nat)
    requires Reaches(calls, k) && Inv(k) && k.index == [h] && OVERHEAD <= n && h in k.segs && n + OVERHEAD <= k.segs[h].size
    ensures var l := k.(segs := Split(k.segs, h, n, false, true), index := [h + n]);
            Reaches(calls + [CallAlloc(n - OVERHEAD, false)], l) && Inv(l)
  {
    hide Inv, Reaches, Allocate, Split, SetHole;
    InvRange(k);
    AllocFromOnlyHole(k, h, n);
    ReachesMore(calls, k, CallAlloc(n - OVERHEAD, false), k.(segs := Split(k.segs, h, n, false, true), index := [h + n]));
  }

  lemma LaidMore(sizes: seq<nat>)
    requires Sum(sizes) <= LENGTH
    ensures sizes == [] ==> Laid(sizes) == Created(FROM, END, MAX)
    ensures sizes != [] ==>
              var k, n := Laid(sizes[..|sizes| - 1]), sizes[|sizes| - 1];
              Laid(sizes) == k.(segs := Split(k.segs, k.index[0], n, false, true), index := [k.index[0] + n])
  {
  }

  lemma NoCalls()
    ensures Reaches([], Created(FROM, END, MAX))
  {
  }

  /** The heap they make is reached by allocating them in turn. */
  lemma {:induction false} LaidReached(sizes: seq<nat>)
    requires Sizes(sizes)
    ensures Reaches(Allocs(sizes), Laid(sizes)) && Inv(Laid(sizes))
  {
    hide Inv, Run, Laid, Reaches, Split;
    LaidMore(sizes);
    if sizes == [] {
      CreatedInv(FROM, END, MAX);
      NoCalls();
    } else {
      var front, n := sizes[..|sizes| - 1], sizes[|sizes| - 1];
      assert OVERHEAD <= n;
      LaidReached(front);
      var k := Laid(front);
      AllocReached(Allocs(front), k, k.index[0], n);
    }
  }

  /** Block i lies behind the blocks before it. */
  lemma {:induction false} LaidAt(sizes: seq<nat>, i: nat)
    requires Sizes(sizes) && i < |sizes|
    ensures var a := FIRST + Sum(sizes[..i]);
            Laid(sizes).segs.Keys >= {a} && Laid(sizes).segs[a] == Seg(sizes[i], false) && a + sizes[i] <= FIRST + Sum(sizes)
  {
    var front, n := sizes[..|sizes| - 1], sizes[|sizes| - 1];
    assert OVERHEAD <= n;
    if i < |sizes| - 1 {
      assert front[..i] == sizes[..i];
      LaidAt(front, i);
    }
  }

  // ---- Freeing one block ----

  /** A block between two others becomes a hole. */
  lemma FreeBetween(l: Layout, a: nat)
    requires Inv(l) && IsBlock(l, a) && forall p | p in l.index :: p in l.segs && Next(l.segs, p) != a
    requires Next(l.segs, a) in l.segs && !l.segs[Next(l.segs, a)].hole
    ensures var s := SetHole(l.segs, a, true);
            Release(l, a) == l.(segs := s, index := Inserted(l.index, a, BySize(s)))
  {
    hide Sorted, NoAdjacentHoles, BySize, Inserted, Disjoint, Chained;
    CoalescedReady(l, a);
    assert !HasLeftHole(l.segs, a);
  }

  /** A block in front of the only hole becomes one with it. */
  lemma FreeBeforeTail(l: Layout, b: nat, t: nat)
    requires Inv(l) && IsBlock(l, b) && l.index == [t] && t in l.segs && Next(l.segs, b) == t && Next(l.segs, t) == l.end
    ensures Coalesced(l, b) == Merged(b, Join(SetHole(l.segs, b, true), b), [])
    ensures Next(Coalesced(l, b).segs, b) == l.end
  {
    hide Sorted, NoAdjacentHoles, BySize, Disjoint, Chained;
    assert t in l.index && l.segs[t].hole;
    assert !HasLeftHole(l.segs, b);
    assert PositionOf([t], t) == 0 && Removed([t], 0) == [];
  }

  /** The index of two holes, the smaller first. */
  lemma IndexOfTwo(a: nat, t: nat, s: Segs)
    requires SizeOf(s, a) <= SizeOf(s, t)
    ensures Inserted([t], a, BySize(s)) == [a, t]
  {
  }

  lemma IndexOfThree(p: nat, a: nat, t: nat, s: Segs)
    requires SizeOf(s, p) < SizeOf(s, a) <= SizeOf(s, t)
    ensures Inserted([p, t], a, BySize(s)) == [p, a, t]
  {
    var lt := BySize(s);
    assert InsertPosition([p, t], a, lt, 1) == 1;
    assert InsertPosition([p, t], a, lt, 0) == 1;
  }

  // ---- Two blocks: what contraction does ----

  lemma TwoSums(n: nat)
    requires OVERHEAD <= n && n + 120 + OVERHEAD <= LENGTH
    ensures Sizes([n, 120]) && Sum([n, 120]) == n + 120 && Sum([n, 120][..0]) == 0 && Sum([n, 120][..1]) == n
  {
    var sizes, one := [n, 120], [n];
    assert one[..0] == [] && sizes[..0] == [] && sizes[..1] == one;
    assert Sum(one) == n && Sum(sizes) == n + 120;
  }

  /** A block of n bytes, one of 120 behind it, and the rest a hole. */
  lemma TwoBlocks(n: nat) returns (l: Layout, b: nat)
    requires OVERHEAD <= n && n + 120 + OVERHEAD <= LENGTH
    ensures Reaches(Allocs([n, 120]), l) && Inv(l) && l.end == END && b == FIRST + n
    ensures IsBlock(l, FIRST) && Next(l.segs, FIRST) == b && IsBlock(l, b)
    ensures Coalesced(l, b).head == b && Coalesced(l, b).index == [] && Next(Coalesced(l, b).segs, b) == END
  {
    hide Inv, Laid, Coalesced, Reaches, Sum, Sizes, Join;
    var sizes := [n, 120];
    TwoSums(n);
    l, b := Laid(sizes), FIRST + n;
    LaidReached(sizes);
    LaidAt(sizes, 0);
    LaidAt(sizes, 1);
    FreeBeforeTail(l, b, FIRST + n + 120);
  }

  /** The second block is freed, and contract as written makes the heap end in
      the middle of the first. */
  lemma ContractCutsLiveBlocks() returns (l: Layout, b: nat, m: Merged)
    ensures Reaches(Allocs([0x7_1000, 120]), l) && Inv(l) && IsBlock(l, FIRST) && IsBlock(l, b) && m == Coalesced(l, b)
    ensures Next(m.segs, m.head) == l.end && m.head == l.start + 0x7_1000 && FIRST in m.segs && !m.segs[FIRST].hole
    ensures l.start + ContractAsWritten(0x7_1000) < Next(m.segs, FIRST)
  {
    hide Coalesced, Reaches, Inv;
    l, b := TwoBlocks(0x7_1000);
    m := Coalesced(l, b);
    ReachedInv(Allocs([0x7_1000, 120]), l);
    CoalescedBlocks(l, b);
  }

  lemma GivenBackWhole(l: Layout, m: Merged)
    requires SettleReady(l, m) && l.start == FIRST && l.end == END && m.head == FIRST + 0x7_0000 && Next(m.segs, m.head) == l.end
    ensures Settle(l, m).end == m.head
  {
    hide Inserted, BySize, Resize;
    assert RoundUp(0x7_0000) == 0x7_0000;
  }

  /** The second block is freed and all behind it given back; the index as written
      then lists a hole that is gone. */
  lemma VanishedHoleIsListed() returns (l: Layout, b: nat, m: Merged)
    ensures Reaches(Allocs([0x7_0000, 120]), l) && Inv(l) && IsBlock(l, b) && m == Coalesced(l, b)
    ensures SettleReady(l, m) && Settle(l, m).end == m.head
    ensures !ListsHolesBut(SettleIndexAsWritten(m.index, m.head, false, m.segs - {m.head}), m.segs - {m.head}, None)
  {
    hide Coalesced, Reaches, Inv, Tiling, Sorted, BySize, Inserted, NoAdjacentHoles, Settle, SettleIndexAsWritten;
    l, b := TwoBlocks(0x7_0000);
    m := Coalesced(l, b);
    ReachedInv(Allocs([0x7_0000, 120]), l);
    CoalescedReady(l, b);
    IndexAfterContractExactly(m.index, m.segs, m.head, false, 0);
    GivenBackWhole(l, m);
  }

  /** The second block is freed, and less than its tags need is left of it. */
  lemma RestTooSmall() returns (l: Layout, b: nat, m: Merged)
    ensures Reaches(Allocs([0x7_0FF0, 120]), l) && IsBlock(l, b) && m == Coalesced(l, b)
    ensures Next(m.segs, m.head) == l.end && m.head == l.start + 0x7_0FF0
    ensures 0 < RoundUp(0x7_0FF0) - 0x7_0FF0 < OVERHEAD
  {
    hide Coalesced, Reaches, Inv;
    l, b := TwoBlocks(0x7_0FF0);
    m := Coalesced(l, b);
    ReachedInv(Allocs([0x7_0FF0, 120]), l);
  }

  // ---- Five blocks, two of them freed: sizes that change in place, and footers ----

  const FIVE: seq<nat> := [100, 300, 100, 200, 100]
  const P := FIRST
  const A := FIRST + 100
  const X := FIRST + 400
  const Q := FIRST + 500
  const Y := FIRST + 700
  const T := FIRST + 800

  lemma SumTo(k: nat)
    requires 0 < k <= 5
    ensures Sum(FIVE[..k]) == Sum(FIVE[..k - 1]) + FIVE[k - 1]
  {
    assert FIVE[..k][..k - 1] == FIVE[..k - 1];
  }

  lemma FiveSums()
    ensures Sizes(FIVE) && Sum(FIVE) == 800
    ensures Sum(FIVE[..0]) == 0 && Sum(FIVE[..1]) == 100 && Sum(FIVE[..2]) == 400 && Sum(FIVE[..3]) == 500 && Sum(FIVE[..4]) == 700
  {
    SumTo(1);
    SumTo(2);
    SumTo(3);
    SumTo(4);
    SumTo(5);
    assert FIVE[..5] == FIVE;
  }

  /** A hole of 100 bytes, blocks of 300 and 100, a hole of 200, a block of 100, the last hole. */
  ghost predicate FiveLaid(l: Layout)
  {
    && Inv(l) && l.start == FIRST && l.end == END && l.index == [P, Q, T]
    && {P, A, X, Q, Y, T} <= l.segs.Keys
    && l.segs[P] == Seg(100, true) && l.segs[A] == Seg(300, false) && l.segs[X] == Seg(100, false)
    && l.segs[Q] == Seg(200, true) && l.segs[Y] == Seg(100, false) && l.segs[T].hole && 1000 <= l.segs[T].size
  }

  function FiveCalls(): (calls: seq<Call>)
  {
    Allocs(FIVE) + [CallFree(P + HEADER_SIZE)] + [CallFree(Q + HEADER_SIZE)]
  }

  lemma FiveBlocks()
    ensures Sizes(FIVE) && Sum(FIVE) == 800
    ensures var s := Laid(FIVE).segs;
            && {P, A, X, Q, Y, T} <= s.Keys && s[T] == Seg(LENGTH - 800, true) && Laid(FIVE).index == [T]
            && s[P] == Seg(100, false) && s[A] == Seg(300, false) && s[X] == Seg(100, false)
            && s[Q] == Seg(200, false) && s[Y] == Seg(100, false)
  {
    hide Laid, Sum;
    FiveSums();
    LaidAt(FIVE, 0);
    LaidAt(FIVE, 1);
    LaidAt(FIVE, 2);
    LaidAt(FIVE, 3);
    LaidAt(FIVE, 4);
  }

  lemma FiveReached() returns (l: Layout)
    ensures Reaches(FiveCalls(), l) && FiveLaid(l)
  {
    hide Reaches, Sum, Inv, Laid, Release;
    FiveSums();
    var l0 := Laid(FIVE);
    LaidReached(FIVE);
    FiveBlocks();
    FreeBetween(l0, P);
    var s1 := SetHole(l0.segs, P, true);
    IndexOfTwo(P, T, s1);
    var l1 := Release(l0, P);
    ReachesMore(Allocs(FIVE), l0, CallFree(P + HEADER_SIZE), l1);
    FreeBetween(l1, Q);
    IndexOfThree(P, Q, T, SetHole(s1, Q, true));
    l := Release(l1, Q);
    ReachesMore(Allocs(FIVE) + [CallFree(P + HEADER_SIZE)], l1, CallFree(Q + HEADER_SIZE), l);
  }

  /** Freeing A joins it to the hole in front. */
  lemma FiveMerged(l: Layout)
    requires FiveLaid(l)
    ensures var m := Coalesced(l, A);
            && m.head == P && {P, Q} <= m.segs.Keys && m.segs[P] == Seg(400, true) && m.segs[Q] == Seg(200, true)
  {
    hide Sorted, NoAdjacentHoles, BySize, Removed, ListsHolesBut;
    assert IsLeftHole(l.segs, A, P);
    UniqueEnd(l.segs, l.start, l.end, P);
    assert LeftHole(l.segs, A) == P;
    assert Next(l.segs, A) == X;
  }

  lemma FirstIsLarger(t: Segs)
    requires {P, Q} <= t.Keys && t[P].size == 400 && t[Q].size == 200
    ensures !Sorted([P, Q, T], BySize(t)) && FirstFit(t, [P, Q, T], 150, false, 0) == 0 && Fits(t, Q, 150, false)
  {
    assert BySize(t)([P, Q, T][1], [P, Q, T][0]);
    assert Fits(t, [P, Q, T][0], 150, false);
  }

  /** Freeing block A lets the hole in front of it grow where it stands; the index
      loses its order, and a request for 150 bytes is given 400 instead of 200. */
  lemma DriftedIndexMissesBestFit() returns (l: Layout, m: Merged)
    ensures Reaches(FiveCalls(), l) && Inv(l) && IsBlock(l, A) && m == Coalesced(l, A)
    ensures |l.index| == 3 && m.head == l.index[0] && !Sorted(l.index, BySize(m.segs))
    ensures FirstFit(m.segs, l.index, 150, false, 0) == 0
    ensures SizeOf(m.segs, l.index[1]) < SizeOf(m.segs, l.index[0]) && Fits(m.segs, l.index[1], 150, false)
  {
    hide Reaches, Inv, Sorted, BySize, Coalesced, FirstFit, Fits;
    l := FiveReached();
    m := Coalesced(l, A);
    FiveMerged(l);
    FirstIsLarger(m.segs);
  }

  /** There is a memory with the tags of any heap. */
  lemma {:induction false} TaggedMemory(s: Segs, lo: nat, hi: nat, c: nat) returns (m: Bytes)
    requires Tiling(s, lo, hi) && 0 < lo && hi <= ADDRESS_SPACE && (c == hi || c in s)
    ensures |m| == ADDRESS_SPACE && forall a | a in s && c <= a :: HeaderOk(m, a, s[a]) && FooterOk(m, a, s[a])
    decreases hi - c
  {
    if c !in s {
      m := seq(ADDRESS_SPACE, _ => 0);
    } else {
      var m1 := TaggedMemory(s, lo, hi, Next(s, c));
      hide HeaderOk, FooterOk, SameOutside;
      m := WriteTags(m1, c, s[c].size, s[c].hole);
      forall a | a in s && c <= a ensures HeaderOk(m, a, s[a]) && FooterOk(m, a, s[a]) {
        if a != c { TagsElsewhere(m1, m, c, Next(s, c), a, s[a]); }
      }
    }
  }

  /** Freeing block X takes in hole Q, which does not reach the end: in any memory
      with the tags of this heap, the footer of the merged hole then names Q. */
  lemma RightMergeLosesFooter() returns (l: Layout)
    ensures Reaches(FiveCalls(), l) && Inv(l) && IsBlock(l, X)
    ensures var s := SetHole(l.segs, X, true);
            && Next(s, X) == Q && TotalOf(s, X) == 300 && (exists m: Bytes :: FullyTagged(m, s))
            && forall m: Bytes | FullyTagged(m, s) ::
                 && !FooterOk(FreedAsWritten(m, s, l.end, X, 300), X, Seg(300, true))
                 && FooterAt(FreedAsWritten(m, s, l.end, X, 300), X + 300 - FOOTER_SIZE).header == Q
  {
    hide Reaches, Sorted, BySize, NoAdjacentHoles, ListsHolesBut, FooterAt, FooterOk, HeaderOk, FreedAsWritten, Disjoint, Chained;
    l := FiveReached();
    var s := SetHole(l.segs, X, true);
    assert s[X] == Seg(100, true) && s[Q] == Seg(200, true) && Swallows(s, X);
    SetHoleTiles(l.segs, l.start, l.end, X, true);
    var tagged := TaggedMemory(s, l.start, l.end, l.start);
    assert FullyTagged(tagged, s);
    forall m: Bytes | FullyTagged(m, s)
      ensures !FooterOk(FreedAsWritten(m, s, l.end, X, 300), X, Seg(300, true))
      ensures FooterAt(FreedAsWritten(m, s, l.end, X, 300), X + 300 - FOOTER_SIZE).header == Q
    {
      RightMergeFooterExactly(m, s, l.start, l.end, X, 300);
    }
  }

  // ---- One hole in front, none at the end: growth ----

  /** A hole of 100 bytes, and a block that takes all the rest. */
  lemma HoleInFrontReached() returns (l: Layout)
    ensures Reaches(Allocs([100]) + [CallAlloc(LENGTH - 100 - OVERHEAD, false)] + [CallFree(FIRST + HEADER_SIZE)], l)
    ensures Inv(l) && l.index == [FIRST] && l.start == FIRST && l.end == END && FIRST in l.segs && Next(l.segs, FIRST) == FIRST + 100
  {
    hide Reaches, Inv, Release, Laid;
    var sizes := [100];
    assert sizes[..0] == [] && Sum(sizes) == 100;
    var l0 := Laid(sizes);
    LaidReached(sizes);
    LaidAt(sizes, 0);
    var h := FIRST + 100;
    AllocFromOnlyHole(l0, h, LENGTH - 100);
    var l1 := l0.(segs := SetHole(l0.segs, h, false), index := []);
    ReachesMore(Allocs(sizes), l0, CallAlloc(LENGTH - 100 - OVERHEAD, false), l1);
    FreeBetween(l1, FIRST);
    assert Inserted([], FIRST, BySize(SetHole(l1.segs, FIRST, true))) == [FIRST];
    l := Release(l1, FIRST);
    ReachesMore(Allocs(sizes) + [CallAlloc(LENGTH - 100 - OVERHEAD, false)], l1, CallFree(FIRST + HEADER_SIZE), l);
  }

  /** Growth as written stretches the hole over the block behind it. */
  lemma GrowthOverlapsBlock() returns (calls: seq<Call>, l: Layout)
    ensures Reaches(calls, l) && Inv(l) && Endmost(l, FIRST) && FIRST in l.segs && l.end == END
    ensures !Tiling(GrowSegsAsWritten(l, Some(FIRST), END + PAGE), l.start, END + PAGE)
  {
    hide Reaches, Inv, GrowSegsAsWritten;
    calls := Allocs([100]) + [CallAlloc(LENGTH - 100 - OVERHEAD, false)] + [CallFree(FIRST + HEADER_SIZE)];
    l := HoleInFrontReached();
    assert FIRST in l.index;
    NoTailBehind(l, FIRST);
    GrowAsWrittenTilesExactly(l, Some(FIRST), END + PAGE);
  }

  // ---- The new heap: an aligned split, and a block that takes it all ----

  /** An aligned block that leaves ten bytes behind it. */
  lemma AlignedSplitLeavesTenBytes() returns (l: Layout)
    ensures Reaches([], l) && Inv(l) && FIRST in l.segs
    ensures var n := LENGTH - 4084 - 10;
            && GapCharged(FIRST) + n <= l.segs[FIRST].size
            && !(&& Tiling(AlignedSegsAsWritten(l.segs, FIRST, n), l.start, l.end)
                 && ListsHolesBut(AlignedIndexAsWritten(l.index, l.segs, FIRST, n), AlignedSegsAsWritten(l.segs, FIRST, n), None))
  {
    hide Reaches, Inv, AlignedSegsAsWritten, AlignedIndexAsWritten, Tiling, ListsHolesBut;
    l := Created(FROM, END, MAX);
    NoCalls();
    ReachedInv([], l);
    AlignedSplitExactly(l, FIRST, LENGTH - 4084 - 10);
  }

  /** One block takes the whole new heap. Freeing it looks at the page behind the
      end, which nobody mapped. */
  lemma ProbeFaults(m: Bytes, present: set<nat>) returns (l: Layout)
    requires forall p :: p in present <==> FROM / PAGE <= p < END / PAGE
    ensures Reaches([CallAlloc(LENGTH - OVERHEAD, false)], l) && Inv(l) && IsBlock(l, FIRST)
    ensures Backed(present, l.start, l.end) && ProbePanics(m, present, l.index, Next(l.segs, FIRST))
  {
    hide Reaches, Inv;
    var l0 := Created(FROM, END, MAX);
    NoCalls();
    ReachedInv([], l0);
    AllocFromOnlyHole(l0, FIRST, LENGTH);
    l := l0.(segs := SetHole(l0.segs, FIRST, false), index := []);
    assert [] + [CallAlloc(LENGTH - OVERHEAD, false)] == [CallAlloc(LENGTH - OVERHEAD, false)];
    ReachesMore([], l0, CallAlloc(LENGTH - OVERHEAD, false), l);
    FirstBytesOfPage(present, END);
  }

  /** A request for almost all of memory: its size with overhead is ten bytes, so
      the hole fits and the block is smaller than a tag. */
  lemma WrappedRequestFits() returns (l: Layout)
    ensures Reaches([], l) && Inv(l) && l.index == [FIRST]
    ensures NewSizeAsWritten(0xFFFF_FFF6) == 10 < OVERHEAD && Fits(l.segs, FIRST, 10, false)
  {
    hide Reaches, Inv;
    l := Created(FROM, END, MAX);
    NoCalls();
    ReachedInv([], l);
  }

  lemma WholePages(n: nat)
    requires n % PAGE == 0
    ensures RoundUp(n) == n
  {
  }

  /** A request no hole fits: the end it asks for lies behind the maximum, but the
      sum expand compares has wrapped to 0, and the heap would end there. */
  lemma WrappedEndPasses() returns (l: Layout, n: nat)
    ensures Reaches([], l) && Inv(l) && OVERHEAD <= n < ADDRESS_SPACE && !Fitting(l, n, false)
    ensures l.max < NewEnd(l, n) && NewEnd(l, n) % ADDRESS_SPACE == 0 <= l.max
  {
    hide Reaches, Inv, RoundUp;
    l, n := Created(FROM, END, MAX), ADDRESS_SPACE - END;
    NoCalls();
    ReachedInv([], l);
    assert RoundUp(LENGTH + n) == LENGTH + n by { WholePages(LENGTH + n); }
  }

  /** An aligned request for half of memory is granted by the new heap's hole. */
  lemma SignedRequestFits() returns (l: Layout)
    ensures Reaches([], l) && Inv(l) && FIRST in l.segs
    ensures var n, size := 0x8000_0000, l.segs[FIRST].size;
            size - GapCharged(FIRST) >= n - ADDRESS_SPACE && GapCharged(FIRST) + n > size
  {
    hide Reaches, Inv;
    l := Created(FROM, END, MAX);
    NoCalls();
    ReachedInv([], l);
  }

  // ---- A page table taken from the heap that grows ----

  /** The address where the kernel's second page table for the heap begins. */
  const SECOND_TABLE := 0xC040_0000

  /** The new heap with one block that takes it all. */
  lemma FullHeap() returns (l: Layout)
    ensures Reaches([CallAlloc(LENGTH - OVERHEAD, false)], l) && Inv(l)
    ensures l.index == [] && l.start == FIRST && l.end == END && l.max == MAX && IsBlock(l, FIRST) && Next(l.segs, FIRST) == END
  {
    hide Reaches, Inv;
    var l0 := Created(FROM, END, MAX);
    NoCalls();
    ReachedInv([], l0);
    AllocFromOnlyHole(l0, FIRST, LENGTH);
    l := l0.(segs := SetHole(l0.segs, FIRST, false), index := []);
    assert [] + [CallAlloc(LENGTH - OVERHEAD, false)] == [CallAlloc(LENGTH - OVERHEAD, false)];
    ReachesMore([], l0, CallAlloc(LENGTH - OVERHEAD, false), l);
  }

  lemma NoHoleFits(l: Layout)
    requires l.index == [] && l.start == FIRST && l.end == END && l.max == MAX
    ensures forall n: nat, align | OVERHEAD <= n :: !Fitting(l, n, align)
    ensures NewEnd(l, TABLE) == END + 0x2000 && NewEnd(l, 0x40_0000 + OVERHEAD) == END + 0x40_1000
  {
    assert RoundUp(LENGTH + TABLE) == LENGTH + 0x2000;
    assert RoundUp(LENGTH + 0x40_0000 + OVERHEAD) == LENGTH + 0x40_1000;
  }

  lemma SecondGrowth(g: Layout)
    requires g.start == FIRST && g.end == END + 0x2000
    ensures NewEnd(g, TABLE) == END + 0x4000
  {
    assert RoundUp(LENGTH + 0x2000 + TABLE) == LENGTH + 0x4000;
  }

  /** The nested call succeeds, after at most two growths of two pages. */
  lemma TableMade(l: Layout) returns (k: Layout, b: nat)
    requires Inv(l) && l.index == [] && l.start == FIRST && l.end == END && l.max == MAX
    ensures Allocate(l, TABLE, true) == Some((k, b)) && END < k.end <= END + 0x4000
  {
    hide Inv, Carve, Grow, RoundUp;
    NoHoleFits(l);
    GrowthSuffices(l, TABLE, true);
    GrowRange(l, NewEnd(l, TABLE));
    var l1 := Grow(l, NewEnd(l, TABLE));
    NestedStep(l, TABLE);
    if Fitting(l1, TABLE, true) {
      FittingKeepsEnd(l1);
      k, b := Allocate(l, TABLE, true).value.0, Allocate(l, TABLE, true).value.1;
    } else {
      assert NewEnd(l1, TABLE) == END + 0x4000 by { SecondGrowth(l1); }
      NestedStep(l1, TABLE);
      GrowRange(l1, NewEnd(l1, TABLE));
      GrowInv(l1, NewEnd(l1, TABLE));
      FittingKeepsEnd(Grow(l1, NewEnd(l1, TABLE)));
      k, b := Allocate(l, TABLE, true).value.0, Allocate(l, TABLE, true).value.1;
    }
  }

  /** One block takes the whole heap. A request for 0x400000 bytes then needs pages
      that have no table; no hole has room for one, so making it grows the heap.
      Growth from the end saved before overlaps what is there. */
  lemma TableGrowsHeap() returns (l: Layout, k: Layout, b: nat)
    ensures Reaches([CallAlloc(LENGTH - OVERHEAD, false)], l) && Inv(l)
    ensures var n := 0x40_0000 + OVERHEAD;
            && !Fitting(l, n, false) && l.end <= SECOND_TABLE < NewEnd(l, n) <= l.max
            && Allocate(l, TABLE, true) == Some((k, b)) && l.end < k.end <= SECOND_TABLE
            && !Tiling(GrowFromSaved(k, l.end, NewEnd(l, n)), l.start, NewEnd(l, n))
  {
    hide Reaches, Inv, Carve, Grow, Tiling;
    l := FullHeap();
    NoHoleFits(l);
    k, b := TableMade(l);
    NestedTableTilesExactly(l, k, b, NewEnd(l, 0x40_0000 + OVERHEAD));
  }

  // ---- A run on which the text does what it should ----

  const USE_ONCE: seq<TextCall> := [TextCall(CallAlloc(80, false), false), TextCall(CallFree(FIRST + HEADER_SIZE), false)]

  lemma NewHeapMeets()
    ensures Inv(Created(FROM, END, MAX)) && StepMeets(Created(FROM, END, MAX), USE_ONCE[0])
    ensures StepText(Created(FROM, END, MAX), USE_ONCE[0]) == Some(Laid([100]))
  {
    hide Inv, Carve;
    var l := Created(FROM, END, MAX);
    CreatedInv(FROM, END, MAX);
    assert FitsText(l.segs, FIRST, 100, false) && FirstFitText(l.segs, l.index, 100, false, 0) == 0;
    assert Fits(l.segs, FIRST, 100, false) && FirstFit(l.segs, l.index, 100, false, 0) == 0;
    assert l.segs.Keys == {FIRST};
    assert [100][..0] == [] && Sum([100]) == 100;
    AllocFromOnlyHole(l, FIRST, 100);
    LaidMore([100]);
  }

  lemma NoHoleInFront(l: Layout)
    requires Inv(l) && l.index == [FIRST + 100]
    ensures !HasLeftHole(l.segs, FIRST)
  {
    hide Sorted, BySize, NoAdjacentHoles, Disjoint, Chained;
  }

  lemma OneBlockMeets()
    ensures Inv(Laid([100])) && StepMeets(Laid([100]), USE_ONCE[1])
  {
    hide Inv, Laid, Coalesced;
    assert [100][..0] == [] && Sum([100]) == 100;
    var l := Laid([100]);
    LaidReached([100]);
    LaidAt([100], 0);
    FreeBeforeTail(l, FIRST, FIRST + 100);
    NoHoleInFront(l);
  }

  lemma LastCallMeets(l: Layout)
    requires Inv(l) && StepMeets(l, USE_ONCE[1])
    ensures RunMeets(l, USE_ONCE[1..])
  {
    hide Inv, StepMeets, StepText;
    assert USE_ONCE[1..][0] == USE_ONCE[1] && USE_ONCE[1..][1..] == [];
    if StepText(l, USE_ONCE[1]).Some? { StepTextSame(l, l, USE_ONCE[1]); }
  }

  /** A block allocated on the new heap and freed again: every step meets its
      conditions, and contract gives back what lies above the minimum size. */
  lemma TextRunsWhereConditionsHold()
    ensures Inv(Created(FROM, END, MAX)) && RunMeets(Created(FROM, END, MAX), USE_ONCE)
  {
    hide Inv, StepMeets, StepText, Laid;
    NewHeapMeets();
    OneBlockMeets();
    LastCallMeets(Laid([100]));
  }
}
