/** What kernel/heap.c does to the layout of the heap: which segments there
    are, in which order the index lists the holes, and where the heap ends.
    The Heap class carries these steps out in memory. */
module HeapLayouts {
  import opened Options
  import opened Memory
  import opened Tilings
  import opened OrderedArrays

  const INDEX_SLOTS := 0x2_0000
  const INDEX_BYTES := 0x8_0000
  const HEAP_MIN_SIZE := 0x7_0000

  datatype Layout = Layout(segs: Segs, index: seq<nat>, start: nat, end: nat, max: nat)

  /** The next page boundary at or above n. */
  function RoundUp(n: nat): (r: nat)
    ensures r % PAGE == 0 && n <= r < n + PAGE
  {
    (n + PAGE - 1) / PAGE * PAGE
  }

  function SizeOf(s: Segs, a: nat): (size: nat)
  {
    if a in s then s[a].size else 0
  }

  /** header_t_less_than, on the sizes a set of segments has. */
  function BySize(s: Segs): (lt: LessThan)
  {
    (x: nat, y: nat) => SizeOf(s, x) < SizeOf(s, y)
  }

  /** The index lists every hole once, except possibly `but`, and nothing else. */
  ghost predicate ListsHolesBut(index: seq<nat>, s: Segs, but: Option<nat>)
  {
    NoDuplicates(index) && forall a :: a in index <==> a in s && s[a].hole && but != Some(a)
  }

  ghost predicate Inv(l: Layout)
  {
    && l.start % PAGE == 0 && l.end % PAGE == 0
    && INDEX_BYTES <= l.start < l.end <= l.max < ADDRESS_SPACE
    && Tiling(l.segs, l.start, l.end)
    && NoAdjacentHoles(l.segs)
    && ListsHolesBut(l.index, l.segs, None)
    && Sorted(l.index, BySize(l.segs))
  }

  /** The first position of a in the index, as the search loops of free find it. */
  function PositionOf(index: seq<nat>, a: nat): (i: nat)
    ensures i <= |index|
    ensures i < |index| ==> index[i] == a
    ensures forall k | 0 <= k < i :: index[k] != a
    ensures a in index ==> i < |index|
  {
    if index == [] || index[0] == a then 0 else 1 + PositionOf(index[1..], a)
  }

  function TakeOut(index: seq<nat>, a: nat): (r: seq<nat>)
  {
    var i := PositionOf(index, a);
    if i < |index| then Removed(index, i) else index
  }

  // ---- createHeap ----

  function Created(start: nat, end: nat, max: nat): (l: Layout)
    requires start + INDEX_BYTES <= end
  {
    var first := start + INDEX_BYTES;
    Layout(map[first := Seg(end - first, true)], [first], first, end, max)
  }

  // ---- find_smallest_hole ----

  /** Bytes to leave in front so that the data behind the block header starts a
      page: none, or enough to be a hole of their own. */
  function AlignedGap(a: nat): (gap: nat)
    ensures (a + gap + HEADER_SIZE) % PAGE == 0
    ensures gap == 0 || OVERHEAD <= gap < PAGE + OVERHEAD
  {
    var g := (PAGE - (a + HEADER_SIZE) % PAGE) % PAGE;
    if 0 < g < OVERHEAD then g + PAGE else g
  }

  /** No smaller gap would do. */
  lemma AlignedGapLeast(a: nat, gap: nat)
    requires (a + gap + HEADER_SIZE) % PAGE == 0 && (gap == 0 || OVERHEAD <= gap)
    ensures AlignedGap(a) <= gap
  {
  }

  function Gap(a: nat, align: bool): (gap: nat)
  {
    if align then AlignedGap(a) else 0
  }

  predicate Fits(s: Segs, a: nat, n: nat, align: bool)
  {
    Gap(a, align) + n <= SizeOf(s, a)
  }

  function FirstFit(s: Segs, index: seq<nat>, n: nat, align: bool, from: nat): (i: nat)
    requires from <= |index|
    ensures from <= i <= |index|
    ensures i < |index| ==> Fits(s, index[i], n, align)
    ensures forall k | from <= k < i :: !Fits(s, index[k], n, align)
    decreases |index| - from
  {
    if from == |index| || Fits(s, index[from], n, align) then from
    else FirstFit(s, index, n, align, from + 1)
  }

  predicate Fitting(l: Layout, n: nat, align: bool)
  {
    FirstFit(l.segs, l.index, n, align, 0) < |l.index|
  }

  // ---- alloc ----

  /** The hole at b, no longer in the index, becomes a block of n bytes, or of
      all it has when too little for a hole of its own would be left. */
  function CarveBlock(l: Layout, b: nat, n: nat): (r: Layout)
    requires b in l.segs && n <= l.segs[b].size
  {
    if l.segs[b].size - n < OVERHEAD then
      l.(segs := SetHole(l.segs, b, false))
    else
      var segs := Split(l.segs, b, n, false, true);
      l.(segs := segs, index := Inserted(l.index, b + n, BySize(segs)))
  }

  /** Hole i leaves the index; the part in front of an aligned block, if any,
      goes back in as a hole of its own. The rest begins at r.1. */
  function CarveFront(l: Layout, i: nat, n: nat, align: bool): (r: (Layout, nat))
    requires i < |l.index| && OVERHEAD <= n && Fits(l.segs, l.index[i], n, align)
    ensures r.1 in r.0.segs && n <= r.0.segs[r.1].size
  {
    var h := l.index[i];
    var gap := Gap(h, align);
    var index := Removed(l.index, i);
    if gap == 0 then
      (l.(index := index), h)
    else
      var segs := Split(l.segs, h, gap, true, true);
      (l.(segs := segs, index := Inserted(index, h, BySize(segs))), h + gap)
  }

  /** The part of alloc that runs once a hole is chosen: an optional hole in
      front, the block, an optional hole behind. */
  function Carve(l: Layout, i: nat, n: nat, align: bool): (r: (Layout, nat))
    requires i < |l.index| && OVERHEAD <= n && Fits(l.segs, l.index[i], n, align)
  {
    var (front, b) := CarveFront(l, i, n, align);
    (CarveBlock(front, b, n), b)
  }

  /** The hole, if any, that reaches the end of the heap. */
  ghost predicate IsTailHole(l: Layout, h: nat)
  {
    h in l.index && h in l.segs && Next(l.segs, h) == l.end
  }

  ghost predicate HasTailHole(l: Layout)
  {
    exists h :: IsTailHole(l, h)
  }

  ghost function TailHole(l: Layout): (h: nat)
    requires HasTailHole(l)
    ensures IsTailHole(l, h)
  {
    var h :| IsTailHole(l, h); h
  }

  function NewEnd(l: Layout, n: nat): (e: nat)
    requires l.start <= l.end
    ensures l.end + n <= e
  {
    l.start + RoundUp(l.end - l.start + n)
  }

  /** The sums that growth computes in 32 bits come out right: none wraps, or
      already that of the old length and the request does, which expand notices. */
  predicate SumsExact(l: Layout, n: nat)
  {
    l.max + n + PAGE <= ADDRESS_SPACE || (n < ADDRESS_SPACE <= l.end - l.start + n)
  }

  /** The heap after expand and the repair of its last hole. */
  ghost function Grow(l: Layout, newEnd: nat): (r: Layout)
    requires l.end <= newEnd
  {
    if HasTailHole(l) then
      var h := TailHole(l);
      var segs := Resize(l.segs, h, newEnd - h);
      l.(segs := segs, end := newEnd, index := Inserted(TakeOut(l.index, h), h, BySize(segs)))
    else
      var segs := l.segs[l.end := Seg(newEnd - l.end, true)];
      l.(segs := segs, end := newEnd, index := Inserted(l.index, l.end, BySize(segs)))
  }

  /** alloc for n bytes including header and footer; None is the failed bound
      check of expand, which ends the run. */
  ghost function Allocate(l: Layout, n: nat, align: bool): (r: Option<(Layout, nat)>)
    requires OVERHEAD <= n && l.start <= l.end <= l.max
    decreases l.max - l.end
  {
    var i := FirstFit(l.segs, l.index, n, align, 0);
    if i < |l.index| then Some(Carve(l, i, n, align))
    else if NewEnd(l, n) <= l.max then Allocate(Grow(l, NewEnd(l, n)), n, align)
    else None
  }

  // ---- free ----

  ghost predicate IsLeftHole(s: Segs, a: nat, p: nat)
  {
    p < a && p in s && s[p].hole && Next(s, p) == a
  }

  ghost predicate HasLeftHole(s: Segs, a: nat)
  {
    exists p :: IsLeftHole(s, a, p)
  }

  ghost function LeftHole(s: Segs, a: nat): (p: nat)
    requires HasLeftHole(s, a)
    ensures IsLeftHole(s, a, p)
  {
    var p :| IsLeftHole(s, a, p); p
  }

  datatype Merged = Merged(head: nat, segs: Segs, index: seq<nat>)

  /** Block a becomes a hole; a hole in front of it takes it in. */
  ghost function MergeLeft(l: Layout, a: nat): (m: Merged)
    requires a in l.segs
  {
    var segs := SetHole(l.segs, a, true);
    if HasLeftHole(l.segs, a) then
      var p := LeftHole(l.segs, a);
      Merged(p, Join(segs, p), TakeOut(l.index, p))
    else
      Merged(a, segs, l.index)
  }

  /** A hole behind the freed one is taken in. */
  function MergeRight(m: Merged): (r: Merged)
    requires m.head in m.segs
  {
    var right := Next(m.segs, m.head);
    if m.head < right && right in m.segs && m.segs[right].hole then
      Merged(m.head, Join(m.segs, m.head), TakeOut(m.index, right))
    else m
  }

  /** The length contract leaves when a trailing hole starts `offset` bytes into
      a heap of `length` bytes: a whole number of pages, never below the
      minimum, and never leaving a hole too small for its own tags. */
  function ContractedLength(offset: nat, length: nat): (n: nat)
    requires offset + OVERHEAD <= length && length % PAGE == 0
    ensures n % PAGE == 0 && offset <= n <= length
    ensures n == offset || offset + OVERHEAD <= n
    ensures 0 < n && (HEAP_MIN_SIZE <= length ==> HEAP_MIN_SIZE <= n)
  {
    var rounded := RoundUp(offset);
    var n0 := if rounded < HEAP_MIN_SIZE then HEAP_MIN_SIZE else rounded;
    var n1 := if 0 < n0 - offset < OVERHEAD then n0 + PAGE else n0;
    if length < n1 then length else n1
  }

  /** No length it may leave is shorter; a heap below the minimum keeps its own. */
  lemma ContractedLeast(offset: nat, length: nat, k: nat)
    requires offset + OVERHEAD <= length && length % PAGE == 0
    ensures length < HEAP_MIN_SIZE ==> ContractedLength(offset, length) == length
    ensures k % PAGE == 0 && HEAP_MIN_SIZE <= k <= length && (k == offset || offset + OVERHEAD <= k) ==> ContractedLength(offset, length) <= k
  {
  }

  predicate SettleReady(l: Layout, m: Merged)
  {
    && m.head in m.segs && l.start <= m.head && l.start <= l.end
    && (Next(m.segs, m.head) == l.end ==> m.head + OVERHEAD <= l.end && (l.end - l.start) % PAGE == 0)
  }

  /** A merged hole at the end of the heap shrinks or disappears; otherwise it
      is put in the index. */
  function Settle(l: Layout, m: Merged): (r: Layout)
    requires SettleReady(l, m)
  {
    if Next(m.segs, m.head) == l.end then
      var newEnd := l.start + ContractedLength(m.head - l.start, l.end - l.start);
      if newEnd == m.head then
        l.(segs := m.segs - {m.head}, index := m.index, end := newEnd)
      else
        var segs := Resize(m.segs, m.head, newEnd - m.head);
        l.(segs := segs, index := Inserted(m.index, m.head, BySize(segs)), end := newEnd)
    else
      l.(segs := m.segs, index := Inserted(m.index, m.head, BySize(m.segs)))
  }

  predicate IsBlock(l: Layout, a: nat)
  {
    a in l.segs && !l.segs[a].hole
  }

  ghost function Coalesced(l: Layout, a: nat): (m: Merged)
    requires a in l.segs
    ensures m.head in m.segs
  {
    MergeRight(MergeLeft(l, a))
  }

  // ======== The invariant, step by step ========

  lemma SortedAgrees(index: seq<nat>, s: Segs, t: Segs)
    requires Sorted(index, BySize(s))
    requires forall a | a in index :: SizeOf(s, a) == SizeOf(t, a)
    ensures Sorted(index, BySize(t))
  {
  }

  lemma TakeOutMembers(index: seq<nat>, a: nat, lt: LessThan)
    requires NoDuplicates(index)
    ensures forall y :: y in TakeOut(index, a) <==> y in index && y != a
    ensures NoDuplicates(TakeOut(index, a))
    ensures Sorted(index, lt) ==> Sorted(TakeOut(index, a), lt)
  {
    var i := PositionOf(index, a);
    if i < |index| {
      RemoveMembers(index, i);
    }
  }

  lemma CreatedInv(start: nat, end: nat, max: nat)
    requires start % PAGE == 0 && end % PAGE == 0
    requires start + INDEX_BYTES < end <= max < ADDRESS_SPACE
    ensures Inv(Created(start, end, max))
  {
  }

  lemma InsertBySizeSorted(index: seq<nat>, a: nat, s: Segs)
    requires Sorted(index, BySize(s))
    ensures Sorted(Inserted(index, a, BySize(s)), BySize(s))
  {
    assert StrictWeakOrder(BySize(s));
    InsertKeepsSorted(index, a, BySize(s));
  }

  /** Putting the one missing hole into the index completes it. */
  lemma IndexCompleted(index: seq<nat>, s: Segs, h: nat)
    requires h in s && s[h].hole && ListsHolesBut(index, s, Some(h)) && Sorted(index, BySize(s))
    ensures ListsHolesBut(Inserted(index, h, BySize(s)), s, None)
    ensures Sorted(Inserted(index, h, BySize(s)), BySize(s))
  {
    InsertMembers(index, h, BySize(s));
    InsertBySizeSorted(index, h, s);
  }

  /** No two holes touch, were b a block; nothing behind b is a hole. */
  ghost predicate NoHoleAround(s: Segs, b: nat)
    requires b in s
  {
    && (forall a {:trigger Next(s, a)} | a in s && a != b && s[a].hole && Next(s, a) in s && Next(s, a) != b :: !s[Next(s, a)].hole)
    && (Next(s, b) in s ==> !s[Next(s, b)].hole)
  }

  /** Frames the part of the invariant that does not speak of the contents. */
  ghost predicate Range(l: Layout)
  {
    && l.start % PAGE == 0 && l.end % PAGE == 0
    && INDEX_BYTES <= l.start < l.end <= l.max < ADDRESS_SPACE
  }

  // ---- alloc keeps the invariant ----

  lemma GapSplit(s: Segs, lo: nat, hi: nat, h: nat, gap: nat)
    requires Tiling(s, lo, hi) && NoAdjacentHoles(s) && h in s && s[h].hole
    requires OVERHEAD <= gap && gap + OVERHEAD <= s[h].size
    ensures var r := Split(s, h, gap, true, true);
            Tiling(r, lo, hi) && NoHoleAround(r, h + gap) && SameBut(s, r, {h, h + gap}) && h + gap !in s
  {
    hide Disjoint, Bounded;
    var r := Split(s, h, gap, true, true);
    SplitTiles(s, lo, hi, h, gap, true, true);
    assert SameBut(s, r, {h, h + gap});
    assert Next(r, h) == h + gap && Next(r, h + gap) == Next(s, h);
  }

  lemma GapIndex(index: seq<nat>, s: Segs, h: nat, gap: nat)
    requires h in s && s[h].hole && h + gap !in s && 0 < gap <= s[h].size
    requires ListsHolesBut(index, s, Some(h)) && Sorted(index, BySize(s))
    ensures var r := Split(s, h, gap, true, true);
            var i := Inserted(index, h, BySize(r));
            ListsHolesBut(i, r, Some(h + gap)) && Sorted(i, BySize(r))
  {
    var r := Split(s, h, gap, true, true);
    SortedAgrees(index, s, r);
    InsertMembers(index, h, BySize(r));
    InsertBySizeSorted(index, h, r);
  }

  /** The rest of the chosen hole, out of the index and ready to become a block. */
  ghost predicate ReadyToCarve(l: Layout, b: nat)
  {
    && Range(l) && Tiling(l.segs, l.start, l.end)
    && b in l.segs && l.segs[b].hole && NoHoleAround(l.segs, b)
    && ListsHolesBut(l.index, l.segs, Some(b)) && Sorted(l.index, BySize(l.segs))
  }

  lemma HoleAlone(s: Segs, lo: nat, hi: nat, h: nat)
    requires Tiling(s, lo, hi) && NoAdjacentHoles(s) && h in s && s[h].hole
    ensures NoHoleAround(s, h)
  {
    assert Next(s, h) == Next(s, h);
  }

  lemma CarveFrontReady(l: Layout, i: nat, n: nat, align: bool)
    requires Inv(l) && i < |l.index| && OVERHEAD <= n && Fits(l.segs, l.index[i], n, align)
    ensures var (r, b) := CarveFront(l, i, n, align);
            && ReadyToCarve(r, b)
            && r.start == l.start && r.end == l.end && r.max == l.max
            && SameBut(l.segs, r.segs, {l.index[i], b}) && b == l.index[i] + Gap(l.index[i], align)
            && (b in l.segs ==> l.segs[b].hole) && (l.index[i] in r.segs ==> r.segs[l.index[i]].hole)
  {
    hide Inserted, BySize, NoAdjacentHoles, NoHoleAround, AlignedGap, Sorted;
    var h := l.index[i];
    assert h in l.index;
    var gap := Gap(h, align);
    var index := Removed(l.index, i);
    RemoveMembers(l.index, i);
    RemoveKeepsSorted(l.index, i, BySize(l.segs));
    hide Removed;
    assert ListsHolesBut(index, l.segs, Some(h));
    hide ListsHolesBut;
    if gap == 0 {
      HoleAlone(l.segs, l.start, l.end, h);
    } else {
      GapSplit(l.segs, l.start, l.end, h, gap);
      GapIndex(index, l.segs, h, gap);
    }
  }

  lemma WholeBlock(s: Segs, lo: nat, hi: nat, index: seq<nat>, b: nat)
    requires Tiling(s, lo, hi) && b in s && s[b].hole && NoHoleAround(s, b)
    requires ListsHolesBut(index, s, Some(b)) && Sorted(index, BySize(s))
    ensures var r := SetHole(s, b, false);
            Tiling(r, lo, hi) && NoAdjacentHoles(r) && ListsHolesBut(index, r, None) && Sorted(index, BySize(r))
  {
    var r := SetHole(s, b, false);
    SetHoleTiles(s, lo, hi, b, false);
    assert SameBut(s, r, {b});
    SortedAgrees(index, s, r);
  }

  lemma TailSplit(s: Segs, lo: nat, hi: nat, b: nat, n: nat)
    requires Tiling(s, lo, hi) && b in s && s[b].hole && NoHoleAround(s, b)
    requires OVERHEAD <= n && n + OVERHEAD <= s[b].size
    ensures var r := Split(s, b, n, false, true);
            Tiling(r, lo, hi) && NoAdjacentHoles(r) && b + n !in s
  {
    hide Bounded;
    var r := Split(s, b, n, false, true);
    SplitTiles(s, lo, hi, b, n, false, true);
    UniqueEnd(s, lo, hi, b);
    assert SameBut(s, r, {b, b + n});
    assert Next(r, b) == b + n && Next(r, b + n) == Next(s, b);
    assert Chained(s, hi);
  }

  lemma TailIndex(index: seq<nat>, s: Segs, b: nat, n: nat)
    requires b in s && s[b].hole && b + n !in s && 0 < n <= s[b].size
    requires ListsHolesBut(index, s, Some(b)) && Sorted(index, BySize(s))
    ensures var r := Split(s, b, n, false, true);
            var i := Inserted(index, b + n, BySize(r));
            ListsHolesBut(i, r, None) && Sorted(i, BySize(r))
  {
    var r := Split(s, b, n, false, true);
    SortedAgrees(index, s, r);
    assert ListsHolesBut(index, r, Some(b + n));
    IndexCompleted(index, r, b + n);
  }

  lemma CarveBlockInv(l: Layout, b: nat, n: nat)
    requires ReadyToCarve(l, b) && OVERHEAD <= n <= l.segs[b].size
    ensures Inv(CarveBlock(l, b, n))
  {
    hide Inserted, BySize, Sorted, ListsHolesBut, NoHoleAround, NoAdjacentHoles;
    if l.segs[b].size - n < OVERHEAD {
      WholeBlock(l.segs, l.start, l.end, l.index, b);
    } else {
      TailSplit(l.segs, l.start, l.end, b, n);
      TailIndex(l.index, l.segs, b, n);
    }
  }

  lemma CarveInv(l: Layout, i: nat, n: nat, align: bool)
    requires Inv(l) && i < |l.index| && OVERHEAD <= n && Fits(l.segs, l.index[i], n, align)
    ensures Inv(Carve(l, i, n, align).0)
  {
    hide CarveFront, CarveBlock, Inv, ReadyToCarve, Fits;
    CarveFrontReady(l, i, n, align);
    var (r, b) := CarveFront(l, i, n, align);
    CarveBlockInv(r, b, n);
  }

  lemma StretchSegs(s: Segs, lo: nat, hi: nat, h: nat, newHi: nat)
    requires Tiling(s, lo, hi) && NoAdjacentHoles(s)
    requires h in s && Next(s, h) == hi && h + OVERHEAD <= newHi
    ensures var r := Resize(s, h, newHi - h); Tiling(r, lo, newHi) && NoAdjacentHoles(r)
  {
    var r := Resize(s, h, newHi - h);
    ResizeLastTiles(s, lo, hi, h, newHi);
    assert SameBut(s, r, {h}) && Next(r, h) == newHi;
    assert newHi !in r;
  }

  lemma StretchIndex(index: seq<nat>, s: Segs, h: nat, size: nat)
    requires h in s && s[h].hole && ListsHolesBut(index, s, None) && Sorted(index, BySize(s))
    ensures var r := Resize(s, h, size);
            var i := Inserted(TakeOut(index, h), h, BySize(r));
            ListsHolesBut(i, r, None) && Sorted(i, BySize(r))
  {
    var r := Resize(s, h, size);
    TakeOutMembers(index, h, BySize(s));
    SortedAgrees(TakeOut(index, h), s, r);
    IndexCompleted(TakeOut(index, h), r, h);
  }

  lemma AppendSegs(s: Segs, lo: nat, hi: nat, newHi: nat)
    requires Tiling(s, lo, hi) && NoAdjacentHoles(s) && hi + OVERHEAD <= newHi
    requires forall a {:trigger Next(s, a)} | a in s && s[a].hole :: Next(s, a) != hi
    ensures var r := s[hi := Seg(newHi - hi, true)]; hi !in s && Tiling(r, lo, newHi) && NoAdjacentHoles(r)
  {
    var r := s[hi := Seg(newHi - hi, true)];
    AppendTiles(s, lo, hi, newHi, true);
    assert SameBut(s, r, {hi}) && Next(r, hi) == newHi;
  }

  lemma AppendIndex(index: seq<nat>, s: Segs, h: nat, size: nat)
    requires h !in s && ListsHolesBut(index, s, None) && Sorted(index, BySize(s))
    ensures var r := s[h := Seg(size, true)];
            var i := Inserted(index, h, BySize(r));
            ListsHolesBut(i, r, None) && Sorted(i, BySize(r))
  {
    var r := s[h := Seg(size, true)];
    SortedAgrees(index, s, r);
    assert ListsHolesBut(index, r, Some(h));
    IndexCompleted(index, r, h);
  }

  lemma GrowInv(l: Layout, newEnd: nat)
    requires Inv(l) && l.end + OVERHEAD <= newEnd <= l.max && newEnd % PAGE == 0
    ensures Inv(Grow(l, newEnd))
  {
    hide Inserted, TakeOut, BySize, Disjoint, Bounded, Chained, NoAdjacentHoles, Sorted;
    if HasTailHole(l) {
      var h := TailHole(l);
      StretchSegs(l.segs, l.start, l.end, h, newEnd);
      StretchIndex(l.index, l.segs, h, newEnd - h);
      var r := Grow(l, newEnd);
      assert r.segs == Resize(l.segs, h, newEnd - h);
      assert r.index == Inserted(TakeOut(l.index, h), h, BySize(r.segs));
    } else {
      forall a | a in l.segs && l.segs[a].hole ensures Next(l.segs, a) != l.end {
        assert a in l.index && !IsTailHole(l, a);
      }
      AppendSegs(l.segs, l.start, l.end, newEnd);
      AppendIndex(l.index, l.segs, l.end, newEnd - l.end);
    }
  }

  // ---- free keeps the invariant ----

  /** What is left to do after the merges: `head` is the only hole the index misses. */
  ghost predicate MergedOk(l: Layout, m: Merged)
  {
    && m.head in m.segs && m.segs[m.head].hole
    && Tiling(m.segs, l.start, l.end)
    && ListsHolesBut(m.index, m.segs, Some(m.head))
    && Sorted(m.index, BySize(m.segs))
  }

  ghost predicate NoHoleBefore(s: Segs, h: nat)
  {
    forall a {:trigger Next(s, a)} | a in s && s[a].hole && Next(s, a) in s :: a == h || !s[Next(s, a)].hole
  }

  lemma JoinLeft(s: Segs, lo: nat, hi: nat, p: nat, a: nat)
    requires Tiling(s, lo, hi) && NoAdjacentHoles(s)
    requires p in s && a in s && s[p].hole && !s[a].hole && Next(s, p) == a
    ensures Next(SetHole(s, a, true), p) == a
    ensures var r := Join(SetHole(s, a, true), p);
            Tiling(r, lo, hi) && NoHoleBefore(r, p) && Next(r, p) == Next(s, a) && SameBut(s, r, {p, a}) && a !in r
  {
    var t := SetHole(s, a, true);
    SetHoleTiles(s, lo, hi, a, true);
    assert Next(t, p) == a && Next(t, a) == Next(s, a);
    JoinTiles(t, lo, hi, p);
    var r := Join(t, p);
    assert SameBut(s, r, {p, a}) && Next(r, p) == Next(s, a);
    UniqueEnd(s, lo, hi, p);
  }

  lemma FreeAlone(s: Segs, lo: nat, hi: nat, a: nat)
    requires Tiling(s, lo, hi) && NoAdjacentHoles(s) && a in s && !s[a].hole
    requires forall c {:trigger Next(s, c)} | c in s && s[c].hole :: Next(s, c) != a
    ensures var r := SetHole(s, a, true);
            Tiling(r, lo, hi) && NoHoleBefore(r, a) && Next(r, a) == Next(s, a) && SameBut(s, r, {a})
  {
    var r := SetHole(s, a, true);
    SetHoleTiles(s, lo, hi, a, true);
    assert SameBut(s, r, {a});
  }

  lemma MergeLeftOk(l: Layout, a: nat)
    requires Inv(l) && a in l.segs && !l.segs[a].hole
    ensures var m := MergeLeft(l, a); MergedOk(l, m) && NoHoleBefore(m.segs, m.head)
    ensures var m := MergeLeft(l, a); Next(m.segs, m.head) == Next(l.segs, a) && m.head <= a
  {
    if HasLeftHole(l.segs, a) {
      var p := LeftHole(l.segs, a);
      JoinLeft(l.segs, l.start, l.end, p, a);
      var r := Join(SetHole(l.segs, a, true), p);
      TakeOutMembers(l.index, p, BySize(l.segs));
      SortedAgrees(TakeOut(l.index, p), l.segs, r);
    } else {
      forall c | c in l.segs && l.segs[c].hole ensures Next(l.segs, c) != a {
        assert !IsLeftHole(l.segs, a, c);
      }
      FreeAlone(l.segs, l.start, l.end, a);
      SortedAgrees(l.index, l.segs, SetHole(l.segs, a, true));
    }
  }

  lemma MergeRightOk(l: Layout, m: Merged)
    requires MergedOk(l, m) && NoHoleBefore(m.segs, m.head)
    ensures var r := MergeRight(m); MergedOk(l, r) && NoAdjacentHoles(r.segs)
  {
    var r := MergeRight(m);
    var right := Next(m.segs, m.head);
    if right in m.segs && m.segs[right].hole {
      JoinTiles(m.segs, l.start, l.end, m.head);
      assert SameBut(m.segs, r.segs, {m.head, right});
      assert Next(r.segs, m.head) == Next(m.segs, right);
      UniqueEnd(m.segs, l.start, l.end, m.head);
      TakeOutMembers(m.index, right, BySize(m.segs));
      SortedAgrees(r.index, m.segs, r.segs);
    }
  }

  lemma DropIndex(index: seq<nat>, s: Segs, h: nat)
    requires h in s && ListsHolesBut(index, s, Some(h)) && Sorted(index, BySize(s))
    ensures ListsHolesBut(index, s - {h}, None) && Sorted(index, BySize(s - {h}))
  {
    SortedAgrees(index, s, s - {h});
  }

  lemma ShrinkIndex(index: seq<nat>, s: Segs, h: nat, size: nat)
    requires h in s && s[h].hole && ListsHolesBut(index, s, Some(h)) && Sorted(index, BySize(s))
    ensures var r := Resize(s, h, size);
            var i := Inserted(index, h, BySize(r));
            ListsHolesBut(i, r, None) && Sorted(i, BySize(r))
  {
    var r := Resize(s, h, size);
    SortedAgrees(index, s, r);
    IndexCompleted(index, r, h);
  }

  lemma DropSegs(s: Segs, lo: nat, hi: nat, h: nat)
    requires Tiling(s, lo, hi) && NoAdjacentHoles(s) && h in s && h != lo && Next(s, h) == hi
    ensures Tiling(s - {h}, lo, h) && NoAdjacentHoles(s - {h})
  {
    DropLastTiles(s, lo, hi, h);
    assert SameBut(s, s - {h}, {h});
  }

  lemma SettleInv(l: Layout, m: Merged)
    requires Range(l) && MergedOk(l, m) && SettleReady(l, m) && NoAdjacentHoles(m.segs)
    ensures Inv(Settle(l, m))
  {
    hide Inserted, BySize, NoAdjacentHoles, Sorted, ContractedLength, ListsHolesBut, Disjoint, Chained;
    var head := m.head;
    if Next(m.segs, head) != l.end {
      IndexCompleted(m.index, m.segs, head);
    } else {
      var newEnd := l.start + ContractedLength(head - l.start, l.end - l.start);
      if newEnd == head {
        DropSegs(m.segs, l.start, l.end, head);
        DropIndex(m.index, m.segs, head);
      } else {
        StretchSegs(m.segs, l.start, l.end, head, newEnd);
        ShrinkIndex(m.index, m.segs, head, newEnd - head);
      }
    }
  }

  /** After both merges the freed hole is the only one the index misses. */
  lemma CoalescedReady(l: Layout, a: nat)
    requires Inv(l) && IsBlock(l, a)
    ensures MergedOk(l, Coalesced(l, a)) && SettleReady(l, Coalesced(l, a)) && NoAdjacentHoles(Coalesced(l, a).segs)
  {
    hide MergeLeft, MergeRight, Sorted, ListsHolesBut, BySize, NoAdjacentHoles, Disjoint, Chained;
    MergeLeftOk(l, a);
    MergeRightOk(l, MergeLeft(l, a));
  }

  /** free for the block at a. */
  ghost function Release(l: Layout, a: nat): (r: Layout)
    requires Inv(l) && IsBlock(l, a)
  {
    CoalescedReady(l, a);
    Settle(l, Coalesced(l, a))
  }

  /** free keeps the invariant. */
  lemma ReleaseInv(l: Layout, a: nat)
    requires Inv(l) && a in l.segs && !l.segs[a].hole
    ensures Inv(Release(l, a))
  {
    hide MergedOk, NoAdjacentHoles, Tiling, Sorted, ListsHolesBut, Coalesced, Settle, SettleReady;
    CoalescedReady(l, a);
    SettleInv(l, Coalesced(l, a));
  }
}
