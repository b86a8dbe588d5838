/** Whole runs: any sequence of calls, from createHeap on. */
module HeapRuns {
  import opened Options
  import opened Memory
  import opened Tilings
  import opened HeapLayouts
  import opened HeapTheorems
  import opened HeapMemory
  import opened Heaps

  datatype Call = CallAlloc(size: nat, align: bool) | CallFree(p: nat)

  /** One call; None when alloc may not grow the heap, which ends the run, or
      when free is handed something alloc did not give out. */
  ghost function Step(l: Layout, call: Call): (r: Option<Layout>)
    requires Inv(l)
  {
    match call
    case CallAlloc(size, align) =>
      var r := Allocate(l, size + OVERHEAD, align);
      if r.Some? then Some(r.value.0) else None
    case CallFree(p) =>
      if p == 0 then Some(l)
      else if HEADER_SIZE <= p && IsBlock(l, p - HEADER_SIZE) then Some(Release(l, p - HEADER_SIZE))
      else None
  }

  lemma StepInv(l: Layout, call: Call)
    requires Inv(l) && Step(l, call).Some?
    ensures var r := Step(l, call).value; Inv(r) && r.start == l.start && r.max == l.max
  {
    hide Inv, Release, Allocate, Blocks;
    match call
    case CallAlloc(size, align) =>
      AllocateCorrect(l, size + OVERHEAD, align);
    case CallFree(p) =>
      if p != 0 {
        ReleaseInv(l, p - HEADER_SIZE);
        ReleaseBlocks(l, p - HEADER_SIZE);
      }
  }

  ghost function Run(l: Layout, calls: seq<Call>): (r: Option<Layout>)
    requires Inv(l)
    decreases |calls|
  {
    if calls == [] then Some(l)
    else
      var next := Step(l, calls[0]);
      if next.None? then None
      else
        StepInv(l, calls[0]);
        Run(next.value, calls[1..])
  }

  lemma {:induction false} RunInv(l: Layout, calls: seq<Call>)
    requires Inv(l) && Run(l, calls).Some?
    ensures var r := Run(l, calls).value; Inv(r) && r.start == l.start && r.max == l.max
    decreases |calls|
  {
    hide Inv, Step;
    if calls != [] {
      StepInv(l, calls[0]);
      RunInv(Step(l, calls[0]).value, calls[1..]);
    }
  }

  predicate Bootable(from: nat, end: nat, max: nat)
  {
    from % PAGE == 0 && end % PAGE == 0 && from + INDEX_BYTES < end <= max < ADDRESS_SPACE
  }

  /** createHeap and then the calls. */
  ghost function CreatedRun(from: nat, end: nat, max: nat, calls: seq<Call>): (r: Option<Layout>)
    requires Bootable(from, end, max)
  {
    CreatedInv(from, end, max);
    Run(Created(from, end, max), calls)
  }

  ghost predicate InSegment(l: Layout, a: nat, x: nat)
  {
    a in l.segs && a <= x < Next(l.segs, a)
  }

  /** x is a byte the owner of the block at b may use. */
  ghost predicate InUserRange(l: Layout, b: nat, x: nat)
  {
    b in l.segs && b + HEADER_SIZE <= x < Next(l.segs, b) - FOOTER_SIZE
  }

  /** After any run from createHeap the heap is one contiguous chain of segments
      from its start to its end, no two neighbouring holes, with every hole
      listed once, smallest first. */
  lemma EveryRunTiles(from: nat, end: nat, max: nat, calls: seq<Call>, l: Layout)
    requires Bootable(from, end, max) && CreatedRun(from, end, max, calls) == Some(l)
    ensures Inv(l) && l.start == from + INDEX_BYTES && l.end <= max
    ensures var w := Walk(l.segs, l.start, l.end, l.start);
            && (forall a :: a in w <==> a in l.segs)
            && (forall i | 0 <= i < |w| - 1 :: Next(l.segs, w[i]) == w[i + 1])
            && w != [] && w[0] == l.start && Next(l.segs, w[|w| - 1]) == l.end
  {
    CreatedInv(from, end, max);
    RunInv(Created(from, end, max), calls);
    WalkIsExact(l.segs, l.start, l.end);
  }

  /** After any run, a byte of a block's user range lies inside the heap, in no
      other segment, and so under nobody else's tags. */
  lemma EveryRunSeparates(from: nat, end: nat, max: nat, calls: seq<Call>, l: Layout)
    requires Bootable(from, end, max) && CreatedRun(from, end, max, calls) == Some(l)
    ensures forall b, x: nat :: InUserRange(l, b, x) ==> l.start <= x < l.end
    ensures forall b, c, x :: InUserRange(l, b, x) && InSegment(l, c, x) ==> b == c
  {
    CreatedInv(from, end, max);
    RunInv(Created(from, end, max), calls);
    forall b, x: nat | InUserRange(l, b, x)
      ensures l.start <= x < l.end
      ensures forall c :: InSegment(l, c, x) ==> b == c
    {
      EveryByteOwnedOnce(l.segs, l.start, l.end, x);
    }
  }

  // ---- Clients see independent objects ----

  /** Pointers come from Request; `block` is a pointer less the header. */
  datatype Command =
    | Request(size: Word, align: bool)
    | GiveBack(block: nat)
    | Store(block: nat, offset: nat, value: Byte)

  /** The objects a client believes it has, by block. */
  type Objects = map<nat, Bytes>

  /** Memory holds exactly the bytes of the object at block b. */
  ghost predicate ObjectOk(s: Segs, m: Bytes, b: nat, bytes: Bytes)
  {
    && b in s && !s[b].hole && |bytes| + OVERHEAD == s[b].size && b + s[b].size <= |m|
    && forall x | b + HEADER_SIZE <= x < b + HEADER_SIZE + |bytes| :: m[x] == bytes[x - b - HEADER_SIZE]
  }

  /** The objects are the blocks, each with its own bytes. */
  ghost predicate Agrees(s: Segs, m: Bytes, live: Objects)
  {
    live.Keys == Blocks(s).Keys && forall b | b in live :: ObjectOk(s, m, b, live[b])
  }

  /** A stored byte lands in the one object it was meant for. */
  function Updated(live: Objects, b: nat, offset: nat, value: Byte): (r: Objects)
    requires b in live && offset < |live[b]|
  {
    live[b := live[b][..offset] + [value] + live[b][offset + 1..]]
  }

  /** An object whose block and bytes are untouched is still there. */
  lemma ObjectKept(s: Segs, m: Bytes, t: Segs, r: Bytes, b: nat, bytes: Bytes)
    requires ObjectOk(s, m, b, bytes) && b in t && t[b] == s[b] && |m| == |r|
    requires forall x | b + HEADER_SIZE <= x < b + s[b].size - FOOTER_SIZE :: r[x] == m[x]
    ensures ObjectOk(t, r, b, bytes)
  {
  }

  lemma ObjectsKept(s: Segs, m: Bytes, t: Segs, r: Bytes, live: Objects)
    requires forall b | b in live :: ObjectOk(s, m, b, live[b]) && b in t && t[b] == s[b]
    requires UserBytesKept(m, r, s)
    ensures forall b | b in live :: ObjectOk(t, r, b, live[b])
  {
    forall b | b in live ensures ObjectOk(t, r, b, live[b]) {
      ObjectKept(s, m, t, r, b, live[b]);
    }
  }

  lemma NewObject(t: Segs, r: Bytes, b: nat)
    requires b in t && !t[b].hole && OVERHEAD <= t[b].size && b + t[b].size <= |r|
    ensures ObjectOk(t, r, b, r[b + HEADER_SIZE..b + t[b].size - FOOTER_SIZE])
  {
  }

  lemma SameBlock(s: Segs, t: Segs, but: nat)
    requires Blocks(t) - {but} == Blocks(s) - {but}
    ensures forall a | a in Blocks(s) && a != but :: a in t && a in s && t[a] == s[a]
  {
    assert forall a | a in Blocks(s) && a != but :: a in Blocks(t) - {but} && (Blocks(t) - {but})[a] == (Blocks(s) - {but})[a];
  }

  lemma AgreesAfterAlloc(s: Segs, m: Bytes, t: Segs, r: Bytes, live: Objects, b: nat)
    requires Agrees(s, m, live) && UserBytesKept(m, r, s)
    requires b in t && !t[b].hole && OVERHEAD <= t[b].size && b + t[b].size <= |r|
    requires b !in Blocks(s) && Blocks(t) == Blocks(s)[b := t[b].size]
    ensures b !in live && Agrees(t, r, live[b := r[b + HEADER_SIZE..b + t[b].size - FOOTER_SIZE]])
  {
    hide ObjectOk, UserBytesKept;
    SameBlock(s, t, b);
    ObjectsKept(s, m, t, r, live);
    assert ObjectOk(t, r, b, r[b + HEADER_SIZE..b + t[b].size - FOOTER_SIZE]) by { NewObject(t, r, b); }
  }

  lemma AgreesAfterFree(s: Segs, m: Bytes, t: Segs, r: Bytes, live: Objects, a: nat)
    requires Agrees(s, m, live) && UserBytesKept(m, r, s - {a})
    requires a in live && Blocks(t) == Blocks(s) - {a}
    ensures Agrees(t, r, live - {a})
  {
    SameBlock(s, t, a);
    hide UserBytesKept, Blocks;
    ObjectsKept(s - {a}, m, t, r, live - {a});
  }

  lemma AgreesIfBlocksKept(s: Segs, m: Bytes, t: Segs, r: Bytes, live: Objects)
    requires Agrees(s, m, live) && UserBytesKept(m, r, s) && Blocks(t) == Blocks(s)
    ensures Agrees(t, r, live)
  {
    hide ObjectOk, UserBytesKept;
    assert forall a | a in live :: a in Blocks(s) && a in Blocks(t) && Blocks(t)[a] == t[a].size && t[a] == s[a];
    ObjectsKept(s, m, t, r, live);
  }

  lemma Apart(s: Segs, lo: nat, hi: nat, a: nat, b: nat)
    requires Tiling(s, lo, hi) && a in s && b in s
    ensures a < b ==> a + s[a].size <= b
    ensures b < a ==> b + s[b].size <= a
    ensures OVERHEAD <= s[a].size && OVERHEAD <= s[b].size
  {
  }

  lemma StoreObjects(s: Segs, lo: nat, hi: nat, m: Bytes, r: Bytes, live: Objects, a: nat, offset: nat, value: Byte)
    requires Tiling(s, lo, hi) && Agrees(s, m, live) && a in live && offset < |live[a]|
    requires a in s && |live[a]| + OVERHEAD == s[a].size && a + s[a].size <= |m|
    requires r == m[a + HEADER_SIZE + offset := value]
    ensures Agrees(s, r, Updated(live, a, offset, value))
  {
    hide Tiling, Blocks;
    assert ObjectOk(s, r, a, Updated(live, a, offset, value)[a]) by { assert ObjectOk(s, m, a, live[a]); }
    forall b | b in live && b != a ensures ObjectOk(s, r, b, live[b]) {
      assert ObjectOk(s, m, b, live[b]);
      Apart(s, lo, hi, a, b);
      ObjectKept(s, m, s, r, b, live[b]);
    }
  }

  lemma TagsAroundByte(m: Bytes, r: Bytes, x: nat, b: nat, seg: Seg)
    requires SameOutside(m, r, x, x + 1) && OVERHEAD <= seg.size
    requires x < b || b + seg.size <= x || b + HEADER_SIZE <= x < b + seg.size - FOOTER_SIZE
    requires HeaderOk(m, b, seg) && FooterOk(m, b, seg)
    ensures HeaderOk(r, b, seg) && FooterOk(r, b, seg)
  {
    HeaderSame(m, r, b);
    FooterSame(m, r, b + seg.size - FOOTER_SIZE);
  }

  /** Writing one byte of one object changes no other object and no tag. */
  lemma StoreAgrees(s: Segs, lo: nat, hi: nat, m: Bytes, live: Objects, a: nat, offset: nat, value: Byte)
    requires Tiling(s, lo, hi) && Agrees(s, m, live) && FullyTagged(m, s)
    requires a in live && offset < |live[a]|
    ensures a + HEADER_SIZE + offset < |m| && Agrees(s, m[a + HEADER_SIZE + offset := value], Updated(live, a, offset, value))
    ensures FullyTagged(m[a + HEADER_SIZE + offset := value], s)
  {
    hide HeaderOk, FooterOk, Blocks, Tiling;
    assert ObjectOk(s, m, a, live[a]);
    var r := m[a + HEADER_SIZE + offset := value];
    StoreObjects(s, lo, hi, m, r, live, a, offset, value);
    hide Agrees;
    forall b | b in s ensures HeaderOk(r, b, s[b]) && FooterOk(r, b, s[b]) {
      Apart(s, lo, hi, a, b);
      TagsAroundByte(m, r, a + HEADER_SIZE + offset, b, s[b]);
    }
  }

  // ---- What a client's commands do, exactly ----

  /** The client's objects and the layout of the heap that holds them. */
  datatype State = State(live: Objects, layout: Layout)

  /** A request may be made: its 32-bit arithmetic is exact and the index has room. */
  predicate MayRequest(l: Layout, size: Word, align: bool)
  {
    && |l.index| + 2 <= INDEX_SLOTS - 2
    && size + OVERHEAD < ADDRESS_SPACE && SumsExact(l, size + OVERHEAD)
    && (align ==> size + OVERHEAD < 0x8000_0000 && l.max - l.start < 0x8000_0000)
  }

  predicate MayGiveBack(l: Layout, live: Objects, b: nat)
  {
    b in live && IsBlock(l, b) && |l.index| < INDEX_SLOTS - 2
  }

  ghost predicate Requested(s: State, size: Word, align: bool, t: State)
    requires Inv(s.layout)
  {
    if !MayRequest(s.layout, size, align) then t == s
    else
      match Allocate(s.layout, size + OVERHEAD, align)
      case None => t.live == s.live && Inv(t.layout)
      case Some((l, b)) =>
        && t.layout == l && b !in s.live && b in t.live && t.live == s.live[b := t.live[b]]
        && b in l.segs && |t.live[b]| == l.segs[b].size - OVERHEAD && size <= |t.live[b]|
        && (align ==> (b + HEADER_SIZE) % PAGE == 0)
  }

  ghost predicate GivenBack(s: State, b: nat, t: State)
    requires Inv(s.layout)
  {
    t == if MayGiveBack(s.layout, s.live, b) then State(s.live - {b}, Release(s.layout, b)) else s
  }

  /** t follows s by the command. A request is served exactly when Allocate
      succeeds, and then makes one new object; a release takes away the object
      named; a store changes one byte of it. Commands no client may issue do nothing. */
  ghost predicate Follows(s: State, c: Command, t: State)
  {
    && Inv(s.layout)
    && match c
       case Request(size, align) => Requested(s, size, align, t)
       case GiveBack(b) => GivenBack(s, b, t)
       case Store(b, offset, value) =>
         t == if b in s.live && offset < |s.live[b]| then s.(live := Updated(s.live, b, offset, value)) else s
  }

  /** The request that ends a run: the heap may not grow as far as it would have to. */
  ghost predicate Fails(s: State, c: Command)
  {
    && Inv(s.layout) && c.Request? && MayRequest(s.layout, c.size, c.align)
    && Allocate(s.layout, c.size + OVERHEAD, c.align).None?
  }

  /** One more object, of at least the size asked for, on a page boundary if so
      wanted; all others are as they were. */
  ghost predicate OneMoreObject(s: State, size: nat, align: bool, t: State)
  {
    exists b: nat :: b !in s.live && b in t.live && t.live.Keys == s.live.Keys + {b}
                     && size <= |t.live[b]| < size + OVERHEAD && (align ==> (b + HEADER_SIZE) % PAGE == 0)
                     && forall c | c in s.live :: t.live[c] == s.live[c]
  }

  /** A request is served when a hole has room, and the end then stays; or when
      the heap may grow by the request rounded up to pages, twice if aligned. It is
      not when no hole has room and it may not grow even once. */
  lemma RequestMeans(s: State, size: Word, align: bool, t: State)
    requires Follows(s, Request(size, align), t)
    requires |s.layout.index| + 4 <= INDEX_SLOTS && s.layout.max + size + OVERHEAD + PAGE <= ADDRESS_SPACE
    requires align ==> size + OVERHEAD < 0x8000_0000 && s.layout.max - s.layout.start < 0x8000_0000
    ensures var l, n := s.layout, size + OVERHEAD;
            var more := RoundUp(n);
            && ((exists h: nat :: HasRoom(l.segs, h, n, align)) ==> OneMoreObject(s, size, align, t) && t.layout.end == l.end)
            && (!(exists h: nat :: HasRoom(l.segs, h, n, align)) ==>
                  && (l.end + more > l.max ==> t.live == s.live)
                  && (l.end + more <= l.max && !align ==> OneMoreObject(s, size, align, t) && t.layout.end == l.end + more)
                  && (l.end + 2 * more <= l.max && align ==>
                        OneMoreObject(s, size, align, t) && t.layout.end in {l.end + more, l.end + 2 * more}))
  {
    hide Inv, Grow, Carve, RoundUp, HasRoom, Allocate, AlignedGap;
    var l, n := s.layout, size + OVERHEAD;
    InvRange(l);
    AllocateCorrect(l, n, align);
    AllocateWhere(l, n, align);
    AllocateFailsWhen(l, n, align);
    var r := Allocate(l, n, align);
    if r.Some? {
      var b := r.value.1;
      assert b !in s.live && b in t.live && t.live.Keys == s.live.Keys + {b};
      assert OneMoreObject(s, size, align, t);
    }
  }

  /** A release takes away the object, and its block, and no other; if the free
      space then reaches the end, the heap gets as short as the blocks allow. */
  lemma ReleaseMeans(s: State, b: nat, t: State)
    requires Follows(s, GiveBack(b), t) && b in s.live && IsBlock(s.layout, b) && |s.layout.index| + 3 <= INDEX_SLOTS
    ensures t.live.Keys == s.live.Keys - {b} && forall c | c in t.live :: t.live[c] == s.live[c]
    ensures Inv(t.layout) && Blocks(t.layout.segs) == Blocks(s.layout.segs) - {b} && t.layout.end <= s.layout.end
    ensures FreeTo(s.layout, b) != s.layout.end ==> t.layout.end == s.layout.end
    ensures FreeTo(s.layout, b) == s.layout.end ==>
              forall k: Layout | && Inv(k) && k.start == s.layout.start && Blocks(k.segs) == Blocks(t.layout.segs)
                                 && k.start + HEAP_MIN_SIZE <= k.end <= s.layout.end :: t.layout.end <= k.end
  {
    hide Inv, Blocks, Release, FreeTo, FreeFrom;
    var l := s.layout;
    ReleaseInv(l, b);
    ReleaseBlocks(l, b);
    ReleaseEndAllowed(l, b);
    if FreeTo(l, b) == l.end {
      forall k: Layout | && Inv(k) && k.start == l.start && Blocks(k.segs) == Blocks(t.layout.segs)
                         && k.start + HEAP_MIN_SIZE <= k.end <= l.end
        ensures t.layout.end <= k.end
      {
        ReleaseIsShortest(l, b, k);
      }
    }
  }

  /** A store changes one byte of one object. */
  lemma StoreMeans(s: State, b: nat, offset: nat, value: Byte, t: State)
    requires Follows(s, Store(b, offset, value), t) && b in s.live && offset < |s.live[b]|
    ensures t.layout == s.layout && t.live.Keys == s.live.Keys && |t.live[b]| == |s.live[b]|
    ensures t.live[b][offset] == value && forall x | 0 <= x < |s.live[b]| && x != offset :: t.live[b][x] == s.live[b][x]
    ensures forall c | c in s.live && c != b :: t.live[c] == s.live[c]
  {
    hide Inv;
  }

  /** A run of commands, state by state. */
  ghost predicate Traced(trace: seq<State>, script: seq<Command>)
  {
    && 0 < |trace| <= |script| + 1
    && (forall k | 0 <= k < |trace| - 1 :: Follows(trace[k], script[k], trace[k + 1]))
    && (forall k | 0 <= k < |trace| - 2 :: !Fails(trace[k], script[k]))
  }

  lemma TraceGrows(trace: seq<State>, script: seq<Command>, t: State)
    requires Traced(trace, script) && |trace| <= |script|
    requires |trace| > 1 ==> !Fails(trace[|trace| - 2], script[|trace| - 2])
    requires Follows(trace[|trace| - 1], script[|trace| - 1], t)
    ensures Traced(trace + [t], script)
  {
    hide Follows, Fails;
    var longer := trace + [t];
    forall k | 0 <= k < |longer| - 1 ensures Follows(longer[k], script[k], longer[k + 1]) {
      assert longer[k] == trace[k];
    }
    forall k | 0 <= k < |longer| - 2 ensures !Fails(longer[k], script[k]) {
      assert longer[k] == trace[k];
    }
  }

  lemma NoObjects(s: Segs, m: Bytes)
    requires Blocks(s) == map[]
    ensures Agrees(s, m, map[])
  {
    var none: Objects := map[];
    assert none.Keys == Blocks(s).Keys;
  }

  lemma InvBounds(l: Layout, b: nat)
    requires Inv(l) && b in l.segs
    ensures OVERHEAD <= l.segs[b].size && b + l.segs[b].size < ADDRESS_SPACE
  {
  }

  lemma TaggedSize(heap: Heap, a: nat)
    requires heap.Valid() && a in heap.segs && a + HEADER_SIZE <= |heap.mem|
    ensures HeaderAt(heap.mem, a).size == heap.segs[a].size
  {
    hide Inv;
    TaggedHeader(heap.mem, heap.segs, heap.start, a);
  }

  /** A new object appears, exactly when Allocate succeeds; all others keep their bytes. */
  method DoRequest(heap: Heap, live: Objects, size: Word, align: bool) returns (r: Objects, panicked: bool)
    requires heap.Valid() && Agrees(heap.segs, heap.mem, live)
    modifies heap, heap.index, heap.index.data
    ensures heap.Valid() && Agrees(heap.segs, heap.mem, r)
    ensures Requested(State(live, old(heap.View())), size, align, State(r, heap.View()))
    ensures panicked <==> Fails(State(live, old(heap.View())), Request(size, align))
    ensures PagesAdded(old(heap.present), heap.present, old(heap.end), heap.end) && old(heap.end) <= heap.end
  {
    hide Inv, Tagged, Allocate, UserBytesKept, Blocks, Tiling, Agrees, HasTailHole, PagesAdded;
    r, panicked := live, false;
    NoPagesAdded(heap.present, heap.end);
    if heap.index.size + 2 > INDEX_SLOTS - 2 || size + OVERHEAD >= ADDRESS_SPACE
       || (heap.max + size + OVERHEAD + PAGE > ADDRESS_SPACE && heap.end - heap.start + size + OVERHEAD < ADDRESS_SPACE)
       || (align && (size + OVERHEAD >= 0x8000_0000 || heap.max - heap.start >= 0x8000_0000)) {
      return;
    }
    ghost var l, m := heap.View(), heap.mem;
    AllocateCorrect(l, size + OVERHEAD, align);
    var p := heap.Alloc(size, align);
    if p.None? {
      AgreesIfBlocksKept(l.segs, m, heap.segs, heap.mem, live);
      return live, true;
    }
    var b := p.value - HEADER_SIZE;
    InvBounds(heap.View(), b);
    AgreesAfterAlloc(l.segs, m, heap.segs, heap.mem, live, b);
    var header := HeaderAt(heap.mem, b);
    TaggedSize(heap, b);
    r := live[b := heap.mem[b + HEADER_SIZE..b + header.size - FOOTER_SIZE]];
    assert b !in live && b in r && size <= |r[b]| && r == live[b := r[b]];
  }

  lemma ObjectInside(l: Layout, m: Bytes, live: Objects, b: nat)
    requires Inv(l) && Agrees(l.segs, m, live) && b in live
    ensures IsBlock(l, b) && l.start <= b && b + HEADER_SIZE + |live[b]| < l.end
  {
  }

  /** The object disappears; all others keep their bytes. */
  method DoGiveBack(heap: Heap, live: Objects, b: nat) returns (r: Objects)
    requires heap.Valid() && Agrees(heap.segs, heap.mem, live)
    modifies heap, heap.index, heap.index.data
    ensures heap.Valid() && Agrees(heap.segs, heap.mem, r)
    ensures GivenBack(State(live, old(heap.View())), b, State(r, heap.View()))
    ensures r == if b in live && old(heap.index.size) < INDEX_SLOTS - 2 then live - {b} else live
    ensures PagesGivenBack(old(heap.present), heap.present, old(heap.end), heap.end) && heap.end <= old(heap.end)
  {
    hide Inv, Tagged, Release, UserBytesKept, Blocks, Tiling, Agrees, PagesGivenBack;
    r := live;
    NoPagesGivenBack(heap.present, heap.end);
    if b !in live || heap.index.size >= INDEX_SLOTS - 2 {
      return;
    }
    ghost var l, m := heap.View(), heap.mem;
    ObjectInside(l, m, live, b);
    ReleaseBlocks(l, b);
    var ok := heap.Free(b + HEADER_SIZE);
    AgreesAfterFree(l.segs, m, heap.segs, heap.mem, live, b);
    r := live - {b};
  }

  /** One byte of one object changes. */
  method DoStore(heap: Heap, live: Objects, b: nat, offset: nat, value: Byte) returns (r: Objects)
    requires heap.Valid() && Agrees(heap.segs, heap.mem, live)
    modifies heap`mem
    ensures heap.Valid() && Agrees(heap.segs, heap.mem, r)
    ensures r == if b in live && offset < |live[b]| then Updated(live, b, offset, value) else live
    ensures heap.View() == old(heap.View()) && heap.present == old(heap.present)
  {
    hide Inv, HeaderOk, FooterOk, Agrees, Blocks, Tagged, FullyTagged, Tiling;
    r := live;
    if b !in live || offset >= |live[b]| {
      return;
    }
    ghost var l := heap.View();
    ObjectInside(l, heap.mem, live, b);
    InvMeansTiling(l);
    BlockMeansTagged(heap.mem, heap.segs, heap.start, b);
    StoreAgrees(heap.segs, heap.start, heap.end, heap.mem, live, b, offset, value);
    BackedBytes(heap.present, heap.start, heap.end, b + HEADER_SIZE + offset, 1);
    heap.StoreByte(b + HEADER_SIZE + offset, value);
    AllTagged(heap.mem, heap.segs, heap.start);
    r := Updated(live, b, offset, value);
  }

  /** One command. */
  method DoCommand(heap: Heap, live: Objects, c: Command) returns (r: Objects, panicked: bool)
    requires heap.Valid() && Agrees(heap.segs, heap.mem, live)
    modifies heap, heap.index, heap.index.data
    ensures heap.Valid() && Agrees(heap.segs, heap.mem, r)
    ensures Follows(State(live, old(heap.View())), c, State(r, heap.View()))
    ensures panicked <==> Fails(State(live, old(heap.View())), c)
    ensures c.GiveBack? ==> PagesGivenBack(old(heap.present), heap.present, old(heap.end), heap.end) && heap.end <= old(heap.end)
    ensures !c.GiveBack? ==> PagesAdded(old(heap.present), heap.present, old(heap.end), heap.end) && old(heap.end) <= heap.end
  {
    hide Inv, Tagged, Agrees, Requested, GivenBack, PagesAdded, PagesGivenBack;
    NoPagesAdded(heap.present, heap.end);
    panicked := false;
    match c {
      case Request(size, align) => r, panicked := DoRequest(heap, live, size, align);
      case GiveBack(b) => r := DoGiveBack(heap, live, b);
      case Store(b, offset, value) => r := DoStore(heap, live, b, offset, value);
    }
  }

  /** Runs a client's commands on a new heap. The trace tells the objects and the
      layout after each command, each state following exactly from the one
      before; the last is what memory holds. The run stops early exactly at a
      request that fails. */
  method RunScript(heap: Heap, script: seq<Command>) returns (live: Objects, panicked: bool, ghost trace: seq<State>)
    requires heap.Valid() && Blocks(heap.segs) == map[]
    modifies heap, heap.index, heap.index.data
    ensures heap.Valid() && Agrees(heap.segs, heap.mem, live)
    ensures Traced(trace, script) && trace[0] == State(map[], old(heap.View()))
    ensures forall k | 0 <= k < |trace| - 1 :: Follows(trace[k], script[k], trace[k + 1])
    ensures trace[|trace| - 1] == State(live, heap.View())
    ensures !panicked ==> |trace| == |script| + 1 && forall k | 0 <= k < |script| :: !Fails(trace[k], script[k])
    ensures panicked ==> |trace| > 1 && Fails(trace[|trace| - 2], script[|trace| - 2])
  {
    hide Inv, Tagged, Follows, Fails, Agrees;
    live, panicked := map[], false;
    trace := [State(live, heap.View())];
    assert Agrees(heap.segs, heap.mem, live) by { NoObjects(heap.segs, heap.mem); }
    for i := 0 to |script|
      invariant heap.Valid() && Agrees(heap.segs, heap.mem, live) && !panicked
      invariant |trace| == i + 1 && Traced(trace, script)
      invariant trace[0] == State(map[], old(heap.View())) && trace[i] == State(live, heap.View())
      invariant forall k | 0 <= k < i :: !Fails(trace[k], script[k])
    {
      live, panicked := DoCommand(heap, live, script[i]);
      ghost var t := State(live, heap.View());
      TraceGrows(trace, script, t);
      trace := trace + [t];
      if panicked { return; }
    }
  }
}
