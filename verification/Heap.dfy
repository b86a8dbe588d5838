/** The kernel heap of kernel/heap.c: a boundary-tag allocator over raw memory,
    with an index of its holes ordered by size. Every access it makes is to a
    page that is mapped. */
module Heaps {
  import opened Options
  import opened Memory
  import opened Tilings
  import opened OrderedArrays
  import opened HeapLayouts
  import opened HeapTheorems
  import opened HeapMemory

  function HeaderSize(m: Bytes, a: nat): (size: nat)
  {
    if a + HEADER_SIZE <= |m| then HeaderAt(m, a).size else 0
  }

  /** header_t_less_than */
  function ByHeader(m: Bytes): (lt: LessThan)
  {
    (x: nat, y: nat) => HeaderSize(m, x) < HeaderSize(m, y)
  }

  /** A 32-bit value read as a signed one. */
  function AsInt32(x: Word): (v: int)
  {
    if x < 0x8000_0000 then x else x - ADDRESS_SPACE
  }

  lemma InsertByHeader(m: Bytes, s: Segs, index: seq<nat>, x: nat)
    requires x in s && HeaderOk(m, x, s[x])
    requires forall y | y in index :: y in s && HeaderOk(m, y, s[y])
    ensures Inserted(index, x, ByHeader(m)) == Inserted(index, x, BySize(s))
  {
    InsertAgrees(index, x, ByHeader(m), BySize(s));
  }

  /** Rounds up when the low twelve bits are not zero. */
  method ToPageBoundary(n: nat) returns (r: nat)
    ensures r == RoundUp(n)
  {
    r := n;
    if r % PAGE != 0 {
      r := r - r % PAGE;
      r := r + PAGE;
    }
  }

  class Heap {
    var mem: Bytes
    var present: set<nat>
    const index: OrderedArray
    const start: nat
    const max: nat
    var end: nat
    ghost var segs: Segs

    ghost function View(): (l: Layout)
      requires index.Valid()
      reads this, index, index.data
    {
      Layout(segs, index.Contents(), start, end, max)
    }

    /** What holds at every step, also halfway through an operation. */
    ghost predicate Base()
      reads this, index, index.data
    {
      && |mem| == ADDRESS_SPACE
      && start % PAGE == 0 && end % PAGE == 0
      && INDEX_BYTES <= start < end <= max < ADDRESS_SPACE
      && index.Valid() && index.data.Length == INDEX_SLOTS
      && index.size <= INDEX_SLOTS - 2 && index.data[INDEX_SLOTS - 2] == 0
      && Backed(present, start, end)
    }

    ghost predicate Valid()
      reads this, index, index.data
    {
      Base() && Inv(View()) && Tagged(mem, segs, start)
    }

    // ---- Memory accesses: only to mapped pages. ----

    method LoadHeader(a: nat) returns (h: Header)
      requires a + HEADER_SIZE <= |mem| && OnPages(present, a, HEADER_SIZE)
      ensures h == HeaderAt(mem, a)
    {
      h := HeaderAt(mem, a);
    }

    method LoadFooter(a: nat) returns (f: Footer)
      requires a + FOOTER_SIZE <= |mem| && OnPages(present, a, FOOTER_SIZE)
      ensures f == FooterAt(mem, a)
    {
      f := FooterAt(mem, a);
    }

    method StoreHeader(a: nat, h: Header)
      requires a + HEADER_SIZE <= |mem| && OnPages(present, a, HEADER_SIZE)
      modifies this`mem
      ensures mem == WriteHeader(old(mem), a, h) && |mem| == |old(mem)|
    {
      mem := WriteHeader(mem, a, h);
    }

    method StoreFooter(a: nat, f: Footer)
      requires a + FOOTER_SIZE <= |mem| && OnPages(present, a, FOOTER_SIZE)
      modifies this`mem
      ensures mem == WriteFooter(old(mem), a, f) && |mem| == |old(mem)|
    {
      mem := WriteFooter(mem, a, f);
    }

    method StoreWord(a: nat, v: Word)
      requires a + 4 <= |mem| && OnPages(present, a, 4)
      modifies this`mem
      ensures mem == WriteWord(old(mem), a, v) && |mem| == |old(mem)|
    {
      mem := WriteWord(mem, a, v);
    }

    method StoreByte(a: nat, v: Byte)
      requires a < |mem| && OnPages(present, a, 1)
      modifies this`mem
      ensures mem == old(mem)[a := v]
    {
      assert a / PAGE in present;
      mem := mem[a := v];
    }

    // ---- createHeap ----

    /** The index is laid out at `from`; the first hole begins behind it. The
        caller has mapped the pages up to `endAddress`. */
    constructor (from: nat, endAddress: nat, max: nat, memory: Bytes, mapped: set<nat>)
      requires from % PAGE == 0 && endAddress % PAGE == 0
      requires from + INDEX_BYTES < endAddress <= max < ADDRESS_SPACE
      requires |memory| == ADDRESS_SPACE && Backed(mapped, from + INDEX_BYTES, endAddress)
      ensures Valid() && fresh(index) && fresh(index.data)
      ensures View() == Created(from, endAddress, max)
      ensures SameOutside(memory, mem, start, start + HEADER_SIZE) && present == mapped
    {
      hide Tiling, NoAdjacentHoles, ListsHolesBut, Sorted, BySize;
      var holes := new OrderedArray(INDEX_SLOTS);
      index := holes;
      var first := from + INDEX_BYTES;
      start := first;
      end := endAddress;
      this.max := max;
      present := mapped;
      segs := map[first := Seg(endAddress - first, true)];
      mem := WriteHeader(memory, first, Header(HEAP_MAGIC, 1, endAddress - first));
      new;
      BackedBytes(present, start, end, start, HEADER_SIZE);
      index.Insert(start, ByHeader(mem));
      CreatedInv(from, endAddress, max);
      assert View() == Created(from, endAddress, max);
    }

    // ---- expand and contract ----

    /** Grows to newSize bytes, rounded up to a page, unless that is no growth or
        passes the maximum. The sum with the start is one of 32 bits. */
    method Expand(newSize: Word) returns (ok: bool)
      requires Base()
      requires end - start < newSize ==> start + RoundUp(newSize) < ADDRESS_SPACE
      modifies this`present, this`end
      ensures ok <==> old(end) - start < newSize && start + RoundUp(newSize) <= max
      ensures ok ==> end == start + RoundUp(newSize)
      ensures ok ==> PagesAdded(old(present), present, old(end), end)
      ensures !ok ==> end == old(end) && present == old(present)
    {
      if newSize <= end - start {
        return false;
      }
      var rounded := ToPageBoundary(newSize);
      if (start + rounded) % ADDRESS_SPACE > max {
        return false;
      }
      var oldSize := end - start;
      var i := oldSize;
      while i < rounded
        invariant oldSize <= i <= rounded && i % PAGE == 0
        invariant forall p :: p in present <==> p in old(present) || old(end) / PAGE <= p < (start + i) / PAGE
      {
        present := present + {(start + i) / PAGE};
        i := i + PAGE;
      }
      end := start + rounded;
      return true;
    }

    /** Unmaps the pages from the end down to, but not including, the one at newLength. */
    method UnmapPages(newLength: nat)
      requires start % PAGE == 0 && end % PAGE == 0 && newLength % PAGE == 0 && start + newLength <= end
      modifies this`present
      ensures forall p :: p in present <==> p in old(present) && !((start + newLength) / PAGE < p < end / PAGE)
    {
      var oldSize := end - start;
      ghost var last := end / PAGE;
      assert last * PAGE == end;
      var i: int := oldSize - PAGE;
      while newLength < i
        invariant i % PAGE == 0 && i < oldSize
        invariant newLength <= i || i == oldSize - PAGE
        invariant forall p :: p in present <==> p in old(present) && !((start + i) / PAGE < p < last)
      {
        assert (start + i - PAGE) / PAGE == (start + i) / PAGE - 1;
        present := present - {(start + i) / PAGE};
        i := i - PAGE;
      }
    }

    /** Whole pages, not below the minimum, and never a rest without room for its tags. */
    method LengthToKeep(newSize: nat, length: nat) returns (newLength: nat)
      requires newSize + OVERHEAD <= length && length % PAGE == 0
      ensures newLength == ContractedLength(newSize, length)
    {
      newLength := ToPageBoundary(newSize);
      if newLength < HEAP_MIN_SIZE {
        newLength := HEAP_MIN_SIZE;
      }
      if 0 < newLength - newSize < OVERHEAD {
        newLength := newLength + PAGE;
      }
      if length < newLength {
        newLength := length;
      }
    }

    /** Shrinks to the length ContractedLength gives, unmapping the pages above
        the first one past the new end. */
    method Contract(newSize: nat) returns (newLength: nat)
      requires Base() && newSize + OVERHEAD <= end - start
      modifies this`present, this`end
      ensures newLength == ContractedLength(newSize, old(end) - start) && end == start + newLength
      ensures Base()
      ensures PagesGivenBack(old(present), present, old(end), end)
    {
      hide ContractedLength, RoundUp, Backed, PagesGivenBack;
      newLength := LengthToKeep(newSize, end - start);
      UnmapPages(newLength);
      KeptPages(old(present), present, end, start + newLength);
      StillBacked(old(present), present, start, end, start + newLength);
      end := start + newLength;
    }

    // ---- find_smallest_hole ----

    /** The header of hole k of the index can be read and tells its size. */
    lemma HoleHeader(k: nat)
      requires Valid() && k < index.size
      ensures var a := index.Contents()[k];
              && a in segs && segs[a].hole && HeaderOk(mem, a, segs[a])
              && OnPages(present, a, HEADER_SIZE) && segs[a].size <= end - start
    {
      var a := index.Contents()[k];
      assert a in index.Contents();
      BackedBytes(present, start, end, a, HEADER_SIZE);
    }

    lemma HeaderTells(a: nat)
      requires |mem| == ADDRESS_SPACE && a in segs && HeaderOk(mem, a, segs[a])
      ensures HeaderAt(mem, a).size == segs[a].size
    {
    }

    method FindSmallestHole(n: Word, align: bool) returns (i: int)
      requires Valid()
      requires align ==> n < 0x8000_0000 && max - start < 0x8000_0000
      ensures i == if Fitting(View(), n, align) then FirstFit(segs, index.Contents(), n, align, 0) else -1
    {
      hide AlignedGap, Inv, Tagged, HeaderAt;
      var k := 0;
      while k < index.size
        invariant k <= index.size
        invariant FirstFit(segs, index.Contents(), n, align, 0) == FirstFit(segs, index.Contents(), n, align, k)
      {
        var a := index.Lookup(k);
        HoleHeader(k);
        var header := LoadHeader(a);
        assert header.size == segs[a].size by { HeaderTells(a); }
        if align {
          var offset := AlignedGap(a);
          if AsInt32(header.size) - offset >= AsInt32(n) {
            break;
          }
        } else if header.size >= n {
          break;
        }
        k := k + 1;
      }
      i := if k == index.size then -1 else k;
    }

    // ---- The index ----

    /** The search and removal that free does; also how a hole leaves its place
        in the index before its size changes. */
    method DropFromIndex(a: nat)
      requires index.Valid() && index.data.Length == INDEX_SLOTS && index.size <= INDEX_SLOTS - 2
      modifies index, index.data
      ensures index.Valid() && index.Contents() == TakeOut(old(index.Contents()), a)
      ensures index.size <= old(index.size)
      ensures index.data[INDEX_SLOTS - 2] == old(index.data[INDEX_SLOTS - 2])
      ensures a in old(index.Contents()) ==> index.size == old(index.size) - 1
    {
      var i := index.Find(a);
      assert i == PositionOf(index.Contents(), a);
      if i < index.size {
        index.Remove(i);
      }
    }

    /** Puts hole x, whose header is written, where its size belongs. */
    method PutInIndex(x: nat)
      requires index.Valid() && index.data.Length == INDEX_SLOTS && index.size < INDEX_SLOTS - 2
      requires x in segs && HeaderOk(mem, x, segs[x])
      requires forall y | y in index.Contents() :: y in segs && HeaderOk(mem, y, segs[y])
      modifies index, index.data
      ensures index.Valid() && index.Contents() == Inserted(old(index.Contents()), x, BySize(segs))
      ensures index.size == old(index.size) + 1
      ensures index.data[INDEX_SLOTS - 2] == old(index.data[INDEX_SLOTS - 2])
    {
      InsertByHeader(mem, segs, index.Contents(), x);
      index.Insert(x, ByHeader(mem));
    }

    // ---- alloc ----

    /** Writes header and footer of a segment. */
    method StoreTags(a: nat, size: nat, hole: bool)
      requires |mem| == ADDRESS_SPACE && OVERHEAD <= size && 0 < a && a + size <= ADDRESS_SPACE
      requires OnPages(present, a, size)
      modifies this`mem
      ensures mem == WriteTags(old(mem), a, size, hole)
    {
      StoreHeader(a, Header(HEAP_MAGIC, if hole then 1 else 0, size));
      StoreFooter(a + size - FOOTER_SIZE, Footer(HEAP_MAGIC, a));
    }

    /** The hole in front of an aligned block: hole h, taken out of the index,
        is cut after `gap` bytes and its first part goes back in. */
    method SplitFront(h: nat, gap: nat)
      requires Base() && index.size < INDEX_SLOTS - 2
      requires Tiling(segs, start, end) && FullyTagged(mem, segs - {h})
      requires h in segs && segs[h].hole && OVERHEAD <= gap && gap + OVERHEAD <= segs[h].size
      requires ListsHolesBut(index.Contents(), segs, Some(h))
      modifies this`mem, this`segs, index, index.data
      ensures Base() && index.size == old(index.size) + 1
      ensures segs == Split(old(segs), h, gap, true, true)
      ensures index.Contents() == Inserted(old(index.Contents()), h, BySize(segs))
      ensures FullyTagged(mem, segs - {h + gap}) && UserBytesKept(old(mem), mem, old(segs))
    {
      hide Inserted, BySize, HeaderOk, FooterOk, UserBytesKept, WriteTags, SameOutside;
      assert OnPages(present, h, gap) by { BackedBytes(present, start, end, h, gap); }
      StoreTags(h, gap, true);
      FrontTagged(old(mem), segs, start, end, h, gap);
      SplitTiles(segs, start, end, h, gap, true, true);
      segs := Split(segs, h, gap, true, true);
      ghost var tagged := segs - {h + gap};
      assert forall y | y in index.Contents() || y == h :: y in tagged && tagged[y] == segs[y];
      PutInIndex(h);
    }

    /** Writes the block at b and, if enough is left of its `room` bytes, the hole behind it. */
    method StoreBlock(b: nat, room: nat, n: nat) returns (size: nat)
      requires |mem| == ADDRESS_SPACE && OnPages(present, b, room)
      requires 0 < b && OVERHEAD <= n <= room && b + room <= end < ADDRESS_SPACE
      modifies this`mem
      ensures size == if room - n < OVERHEAD then room else n
      ensures mem == BlockMem(old(mem), b, room, n)
    {
      hide HeaderOk, FooterOk, WriteHeader, WriteFooter;
      size := n;
      if room - n < OVERHEAD {
        size := room;
      }
      StoreTags(b, size, false);
      if room - size > 0 {
        var hole := b + size;
        StoreHeader(hole, Header(HEAP_MAGIC, 1, room - size));
        var footer := hole + (room - size) - FOOTER_SIZE;
        if footer < end {
          StoreFooter(footer, Footer(HEAP_MAGIC, hole));
        }
      }
    }

    /** Makes the hole at b, taken out of the index, a block. */
    method PlaceBlock(b: nat, room: nat, n: nat)
      requires Base() && index.size < INDEX_SLOTS - 2
      requires Tiling(segs, start, end) && FullyTagged(mem, segs - {b})
      requires b in segs && segs[b] == Seg(room, true) && OVERHEAD <= n <= room
      requires ListsHolesBut(index.Contents(), segs, Some(b))
      modifies this`mem, this`segs, index, index.data
      ensures Base() && index.size <= old(index.size) + 1
      ensures View() == CarveBlock(old(View()), b, n)
      ensures FullyTagged(mem, segs) && UserBytesKept(old(mem), mem, old(segs))
    {
      hide Inserted, BySize, HeaderOk, FooterOk, UserBytesKept, BlockMem, SameOutside;
      assert OnPages(present, b, room) by { BackedBytes(present, start, end, b, room); }
      BlockTagged(mem, segs, start, end, b, n);
      var size := StoreBlock(b, room, n);
      segs := BlockSegs(segs, b, n);
      if size < room {
        assert forall y | y in index.Contents() :: y in segs && y != b;
        PutInIndex(b + size);
      }
    }

    /** Takes hole k out of the index and splits off the hole in front of an aligned block. */
    method TakeHole(k: nat, n: Word, align: bool) returns (b: nat, room: nat)
      requires Valid() && k < index.size <= INDEX_SLOTS - 2
      requires OVERHEAD <= n && Fits(segs, index.Contents()[k], n, align)
      modifies this`mem, this`segs, index, index.data
      ensures Base() && index.size <= old(index.size)
      ensures (View(), b) == CarveFront(old(View()), k, n, align)
      ensures room == segs[b].size
      ensures FullyTagged(mem, segs - {b}) && UserBytesKept(old(mem), mem, old(segs))
    {
      hide NoAdjacentHoles, Sorted, Inserted, BySize, AlignedGap, HeaderAt, FullyTagged;
      var h := index.Lookup(k);
      HoleHeader(k);
      var header := LoadHeader(h);
      room := header.size;
      assert room == segs[h].size by { HeaderTells(h); }
      OthersTagged(mem, segs, start, h);
      var gap := if align then AlignedGap(h) else 0;
      RemoveMembers(index.Contents(), k);
      index.Remove(k);
      hide Removed;
      if gap != 0 {
        SplitFront(h, gap);
      }
      b, room := h + gap, room - gap;
    }

    /** alloc once hole k of the index is chosen. */
    method Place(k: nat, n: Word, align: bool) returns (b: nat)
      requires Valid() && k < index.size && index.size <= INDEX_SLOTS - 3
      requires OVERHEAD <= n && Fits(segs, index.Contents()[k], n, align)
      modifies this`mem, this`segs, index, index.data
      ensures Valid()
      ensures (View(), b) == Carve(old(View()), k, n, align)
      ensures UserBytesKept(old(mem), mem, old(segs))
      ensures index.size <= old(index.size) + 1
    {
      hide Inv, Tagged, UserBytesKept, FullyTagged, CarveBlock, CarveFront, Fits, NoHoleAround, Sorted, BySize, ListsHolesBut, Tiling;
      ghost var l := View();
      CarveFrontReady(l, k, n, align);
      CarveInv(l, k, n, align);
      assert l.index[k] in l.segs && l.segs[l.index[k]].hole by { ListedHole(l, k); }
      var room;
      b, room := TakeHole(k, n, align);
      ghost var m1, s1 := mem, segs;
      PlaceBlock(b, room, n);
      UserBytesKeptTwice(old(mem), m1, mem, l.segs, s1);
      assert Tagged(mem, segs, start) by { AllTagged(mem, segs, start); }
    }

    // ---- alloc when no hole fits ----

    /** The hole with the highest address; -1 when there is none. */
    method FindEndmost() returns (idx: int, value: nat)
      requires index.Valid()
      requires forall y | y in index.Contents() :: 0 < y
      ensures -1 <= idx < index.size && (idx == -1 <==> index.size == 0)
      ensures 0 <= idx ==> index.Contents()[idx] == value
      ensures forall y | y in index.Contents() :: y <= value
    {
      idx, value := -1, 0;
      var k := 0;
      while k < index.size
        invariant k <= index.size && -1 <= idx < k && (idx == -1 <==> k == 0)
        invariant 0 <= idx ==> index.data[idx] == value
        invariant idx == -1 ==> value == 0
        invariant forall j | 0 <= j < k :: index.data[j] <= value
      {
        var tmp := index.Lookup(k);
        assert index.data[k] in index.Contents();
        if tmp > value {
          value := tmp;
          idx := k;
        }
        k := k + 1;
      }
    }

    /** The space from oldEnd to the new end becomes a hole of its own. */
    method AppendHole(oldEnd: nat)
      requires Base() && index.size < INDEX_SLOTS - 2
      requires Tiling(segs, start, oldEnd) && FullyTagged(mem, segs)
      requires start <= oldEnd && oldEnd + OVERHEAD <= end
      requires ListsHolesBut(index.Contents(), segs, None)
      modifies this`mem, this`segs, index, index.data
      ensures Base() && index.size == old(index.size) + 1
      ensures segs == old(segs)[oldEnd := Seg(end - oldEnd, true)]
      ensures index.Contents() == Inserted(old(index.Contents()), oldEnd, BySize(segs))
      ensures FullyTagged(mem, segs) && UserBytesKept(old(mem), mem, old(segs))
    {
      hide Inserted, BySize, HeaderOk, FooterOk, WriteTags, SameOutside, UserBytesKept;
      ghost var s := segs;
      assert OnPages(present, oldEnd, end - oldEnd) by { BackedBytes(present, start, end, oldEnd, end - oldEnd); }
      StoreTags(oldEnd, end - oldEnd, true);
      segs := segs[oldEnd := Seg(end - oldEnd, true)];
      assert s - {oldEnd} == s && segs - {oldEnd} == s;
      Retag(old(mem), mem, s, segs, oldEnd, oldEnd, end);
      PutInIndex(oldEnd);
    }

    /** The endmost hole, which reached oldEnd, reaches the new end. */
    method StretchHole(hole: nat, size: nat, oldEnd: nat)
      requires Base() && Tiling(segs, start, oldEnd) && OVERHEAD <= end - hole
      requires hole in segs && segs[hole] == Seg(size, true) && Next(segs, hole) == oldEnd <= end
      requires HeaderOk(mem, hole, segs[hole]) && FullyTagged(mem, segs - {hole})
      requires ListsHolesBut(index.Contents(), segs, None)
      modifies this`mem, this`segs, index, index.data
      ensures Base() && index.size == old(index.size)
      ensures segs == Resize(old(segs), hole, end - hole)
      ensures index.Contents() == Inserted(TakeOut(old(index.Contents()), hole), hole, BySize(segs))
      ensures FullyTagged(mem, segs) && UserBytesKept(old(mem), mem, old(segs))
    {
      hide Inserted, BySize, HeaderOk, FooterOk, SameOutside, UserBytesKept, TakeOut, WriteWord, WriteFooter;
      ghost var s := segs;
      assert hole in index.Contents();
      TakeOutMembers(index.Contents(), hole, BySize(segs));
      DropFromIndex(hole);
      var newSize := size + (end - oldEnd);
      assert OnPages(present, hole, newSize) by { BackedBytes(present, start, end, hole, newSize); }
      ResizedTags(mem, hole, size, newSize);
      StoreWord(hole + 8, newSize);
      StoreFooter(hole + newSize - FOOTER_SIZE, Footer(HEAP_MAGIC, hole));
      segs := Resize(segs, hole, newSize);
      UniqueEnd(s, start, oldEnd, hole);
      Retag(old(mem), mem, s, segs, hole, hole, end);
      assert UserBytesKept(old(mem), mem, s) by { HoleHasNoUser(old(mem), mem, s, segs, hole); }
      PutInIndex(hole);
    }

    /** Whether the endmost hole reaches oldEnd, and that hole. */
    method FindTail(oldEnd: nat) returns (touches: bool, hole: nat, size: nat)
      requires Base() && Inv(View().(end := oldEnd)) && Tagged(mem, segs, start) && oldEnd <= end
      ensures touches <==> HasTailHole(View().(end := oldEnd))
      ensures touches ==> TailHole(View().(end := oldEnd)) == hole && segs[hole] == Seg(size, true)
    {
      hide NoAdjacentHoles, Sorted, BySize, FullyTagged, FooterOk;
      assert forall y | y in index.Contents() :: y in segs && 0 < y;
      var idx, value := FindEndmost();
      EndmostIsTail(View().(end := oldEnd), value);
      touches, hole, size := false, value, 0;
      if idx != -1 {
        BackedBytes(present, start, end, hole, HEADER_SIZE);
        TaggedHeader(mem, segs, start, hole);
        var header := LoadHeader(hole);
        size := header.size;
        touches := hole + size == oldEnd;
      }
    }

    /** Gives the space from oldEnd to the new end to the endmost hole, if that
        reached oldEnd, and to a new hole otherwise. */
    method UseNewSpace(oldEnd: nat)
      requires Base() && Inv(View().(end := oldEnd)) && Tagged(mem, segs, start) && oldEnd + OVERHEAD <= end
      requires HasTailHole(View().(end := oldEnd)) || index.size < INDEX_SLOTS - 2
      modifies this`mem, this`segs, index, index.data
      ensures Base() && View() == Grow(old(View().(end := oldEnd)), end)
      ensures FullyTagged(mem, segs) && UserBytesKept(old(mem), mem, old(segs))
      ensures index.size <= old(index.size) + if old(HasTailHole(View().(end := oldEnd))) then 0 else 1
    {
      hide NoAdjacentHoles, Sorted, BySize, UserBytesKept, HeaderAt, FullyTagged, TakeOut, Inserted, FooterOk, HeaderOk, OnPages, Backed;
      ghost var l := View().(end := oldEnd);
      var touches, hole, size := FindTail(oldEnd);
      if touches {
        OthersTagged(mem, segs, start, hole);
        TaggedHeader(mem, segs, start, hole);
        StretchHole(hole, size, oldEnd);
      } else {
        if Untouched(segs, start) { UntouchedTail(l); }
        AppendHole(oldEnd);
      }
    }

    /** Grows by at least n bytes, unless that would pass the maximum. */
    method Extend(n: Word) returns (ok: bool)
      requires Valid() && OVERHEAD <= n
      requires HasTailHole(View()) || index.size < INDEX_SLOTS - 2
      requires SumsExact(View(), n)
      modifies this`mem, this`present, this`end, this`segs, index, index.data
      ensures Valid() && UserBytesKept(old(mem), mem, old(segs))
      ensures ok <==> NewEnd(old(View()), n) <= max
      ensures ok ==> View() == Grow(old(View()), NewEnd(old(View()), n))
      ensures !ok ==> View() == old(View())
      ensures PagesAdded(old(present), present, old(end), end)
      ensures index.size <= old(index.size) + if old(HasTailHole(View())) then 0 else 1
    {
      hide RoundUp, Tagged, Grow, FullyTagged, HasTailHole, Sorted, NoAdjacentHoles, ListsHolesBut, Tiling;
      ghost var l := View();
      var oldLength, oldEnd := end - start, end;
      NewEndInRange(l, n);
      SumWraps(l, n);
      ok := Expand((oldLength + n) % ADDRESS_SPACE);
      if !ok {
        return;
      }
      GrowInv(l, end);
      GrowRange(l, end);
      assert View().(end := oldEnd) == l;
      UseNewSpace(oldEnd);
      AllTagged(mem, segs, start);
    }

    /** Room in the index for what alloc may add: a hole behind or in front of
        the block, and one for new space no hole takes in. */
    ghost predicate RoomToAlloc()
      requires index.Valid()
      reads this, index, index.data
    {
      index.size + (if HasTailHole(View()) then 1 else 2) <= INDEX_SLOTS - 2
    }

    /** Hands out at least `size` bytes, the first of them on a page boundary if
        `align`; None when the heap may not grow as far as it would have to. */
    method Alloc(size: Word, align: bool) returns (p: Option<nat>)
      requires Valid() && RoomToAlloc()
      requires size + OVERHEAD < ADDRESS_SPACE && SumsExact(View(), size + OVERHEAD)
      requires align ==> size + OVERHEAD < 0x8000_0000 && max - start < 0x8000_0000
      modifies this`mem, this`present, this`end, this`segs, index, index.data
      ensures Valid() && UserBytesKept(old(mem), mem, old(segs))
      ensures match Allocate(old(View()), size + OVERHEAD, align)
              case None => p == None && Blocks(segs) == Blocks(old(segs))
              case Some((l, b)) => p == Some(b + HEADER_SIZE) && View() == l
      ensures PagesAdded(old(present), present, old(end), end) && old(end) <= end
      decreases max - end
    {
      hide Inv, Tagged, Grow, Carve, UserBytesKept, NewEnd, Blocks, OnPages, Backed, PagesAdded;
      NoPagesAdded(present, end);
      var n := size + OVERHEAD;
      ghost var l := View();
      assert l.start <= l.end <= l.max;
      var i := FindSmallestHole(n, align);
      if i == -1 {
        var ok := Extend(n);
        if !ok {
          return None;
        }
        ghost var m1, s1, present1, end1 := mem, segs, present, end;
        AfterGrowth(l, n);
        p := Alloc(size, align);
        PagesAddedTwice(old(present), present1, present, l.end, end1, end);
        BlocksKept(l.segs, s1);
        UserBytesKeptTwice(old(mem), m1, mem, l.segs, s1);
        return;
      }
      var b := Place(i, n, align);
      return Some(b + HEADER_SIZE);
    }

    // ---- free ----

    /** The footer in front of segment a: before the first segment lies the end
        of the index array, whose last slots are never used. */
    method FooterBefore(a: nat) returns (f: Footer)
      requires Base() && Tiling(segs, start, end) && FullyTagged(mem, segs) && a in segs
      ensures a == start ==> f.magic == 0
      ensures a != start ==> f.magic == HEAP_MAGIC && f.header in segs && Next(segs, f.header) == a
    {
      hide OnPages, Backed;
      if a == start {
        f := Footer(index.data[INDEX_SLOTS - 2] % ADDRESS_SPACE, index.data[INDEX_SLOTS - 1] % ADDRESS_SPACE);
      } else {
        ghost var p := Predecessor(segs, start, end, a);
        BackedBytes(present, start, end, a - FOOTER_SIZE, FOOTER_SIZE);
        f := LoadFooter(a - FOOTER_SIZE);
        assert FooterOk(mem, p, segs[p]);
      }
    }

    method LoadTagged(a: nat) returns (h: Header)
      requires Base() && Tiling(segs, start, end) && a in segs && HeaderOk(mem, a, segs[a])
      ensures h.magic == HEAP_MAGIC && h.size == segs[a].size && (h.isHole == 1 <==> segs[a].hole)
    {
      BackedBytes(present, start, end, a, HEADER_SIZE);
      h := LoadHeader(a);
    }

    method MarkHole(a: nat, size: nat)
      requires Base() && Tiling(segs, start, end) && FullyTagged(mem, segs) && a in segs && segs[a] == Seg(size, false)
      modifies this`mem, this`segs
      ensures Base() && Tiling(segs, start, end) && FullyTagged(mem, segs)
      ensures segs == SetHole(old(segs), a, true)
      ensures UserBytesKept(old(mem), mem, old(segs) - {a})
    {
      hide HeaderOk, FooterOk, UserBytesKept, SameOutside;
      ghost var s := segs;
      assert HeaderOk(mem, a, Seg(size, false)) && FooterOk(mem, a, Seg(size, false));
      assert OnPages(present, a + 4, 1) by { BackedBytes(present, start, end, a + 4, 1); }
      FreedTags(mem, a, size);
      StoreByte(a + 4, 1);
      SetHoleTiles(s, start, end, a, true);
      segs := SetHole(segs, a, true);
      UniqueEnd(s, start, end, a);
      Retag(old(mem), mem, s, segs, a, a, a + size);
      assert segs - {a} == s - {a};
    }

    /** Hole p takes in the hole behind it. */
    method JoinAt(p: nat, size: nat, more: nat)
      requires Base() && Tiling(segs, start, end) && FullyTagged(mem, segs)
      requires p in segs && segs[p] == Seg(size, true) && Next(segs, p) in segs && segs[Next(segs, p)] == Seg(more, true)
      modifies this`mem, this`segs
      ensures Base() && FullyTagged(mem, segs) && segs == Join(old(segs), p)
      ensures UserBytesKept(old(mem), mem, old(segs))
    {
      hide HeaderOk, FooterOk, UserBytesKept, SameOutside, WriteWord, Backed, Chained;
      ghost var s, q := segs, Next(segs, p);
      assert HeaderOk(mem, p, Seg(size, true)) && FooterOk(mem, p + size, Seg(more, true));
      assert OnPages(present, p, size + more) by { BackedBytes(present, start, end, p, size + more); }
      JoinedTags(mem, p, size, more, true);
      StoreWord(p + size + more - 4, p);
      StoreWord(p + 8, size + more);
      segs := Join(segs, p);
      JoinRetagged(old(mem), mem, s, start, end, p);
    }

    lemma LeftIs(s: Segs, p: nat, a: nat)
      requires Tiling(s, start, end) && p in s && a in s && Next(s, p) == a
      ensures HasLeftHole(s, a) <==> s[p].hole
      ensures HasLeftHole(s, a) ==> LeftHole(s, a) == p
    {
      UniqueEnd(s, start, end, p);
      assert s[p].hole ==> IsLeftHole(s, a, p);
    }

    /** The block becomes a hole, and a hole in front of it takes it in. */
    method UnifyLeft(a: nat, size: nat) returns (head: nat, total: nat)
      requires Valid() && FullyTagged(mem, segs) && a in segs && segs[a] == Seg(size, false)
      modifies this`mem, this`segs, index, index.data
      ensures Base() && index.size <= old(index.size)
      ensures Merged(head, segs, index.Contents()) == MergeLeft(old(View()), a)
      ensures head in segs && total == segs[head].size
      ensures FullyTagged(mem, segs) && UserBytesKept(old(mem), mem, old(segs) - {a})
    {
      hide NoAdjacentHoles, Sorted, BySize, ListsHolesBut, TakeOut, UserBytesKept, Backed, OnPages, FooterOk, HeaderOk;
      ghost var s, m0 := segs, mem;
      MarkHole(a, size);
      ghost var m1, s1 := mem, segs;
      head, total := a, size;
      var footer := FooterBefore(a);
      if footer.magic == HEAP_MAGIC {
        var p := footer.header;
        var header := LoadTagged(p);
        assert Next(s, p) == Next(s1, p);
        LeftIs(s, p, a);
        if header.isHole == 1 {
          DropFromIndex(p);
          JoinAt(p, header.size, size);
          head, total := p, header.size + size;
          UserBytesKeptTwice(m0, m1, mem, s - {a}, s1);
        }
      }
    }

    /** A hole behind the freed one is taken in. */
    method UnifyRight(head: nat, size: nat) returns (total: nat)
      requires Base() && Tiling(segs, start, end) && FullyTagged(mem, segs)
      requires head in segs && segs[head] == Seg(size, true)
      requires ListsHolesBut(index.Contents(), segs, Some(head))
      modifies this`mem, this`segs, index, index.data
      ensures Base() && index.size <= old(index.size)
      ensures Merged(head, segs, index.Contents()) == MergeRight(Merged(head, old(segs), old(index.Contents())))
      ensures head in segs && total == segs[head].size
      ensures FullyTagged(mem, segs) && UserBytesKept(old(mem), mem, old(segs))
    {
      hide BySize, TakeOut, Backed, OnPages, FooterOk, HeaderOk;
      total := size;
      var right := head + size;
      assert right == Next(segs, head);
      if right < end {
        var header := LoadTagged(right);
        if header.magic == HEAP_MAGIC && header.isHole == 1 {
          DropFromIndex(right);
          JoinAt(head, size, header.size);
          total := size + header.size;
        }
      }
    }

    /** The last hole ends at the new end. */
    method ShrinkHole(head: nat, size: nat, left: nat)
      requires Base() && FullyTagged(mem, segs) && Tiling(segs, start, head + size)
      requires head in segs && segs[head] == Seg(size, true) && OVERHEAD <= left <= size && head + left == end
      modifies this`mem, this`segs
      ensures Base() && FullyTagged(mem, segs) && segs == Resize(old(segs), head, left)
      ensures UserBytesKept(old(mem), mem, old(segs))
    {
      hide OnPages, Backed, FooterOk, HeaderOk, UserBytesKept, SameOutside, WriteWord, WriteFooter;
      ghost var s := segs;
      assert HeaderOk(mem, head, Seg(size, true));
      assert OnPages(present, head, left) by { BackedBytes(present, start, end, head, left); }
      assert OnPages(present, head + 8, 4) && OnPages(present, head + left - FOOTER_SIZE, FOOTER_SIZE) by {
        BackedBytes(present, start, end, head + 8, 4);
        BackedBytes(present, start, end, head + left - FOOTER_SIZE, FOOTER_SIZE);
      }
      ResizedTags(mem, head, size, left);
      StoreWord(head + 8, left);
      StoreFooter(head + left - FOOTER_SIZE, Footer(HEAP_MAGIC, head));
      segs := Resize(segs, head, left);
      UniqueEnd(s, start, head + size, head);
      assert Next(s, head) == head + size;
      Retag(old(mem), mem, s, segs, head, head, head + left);
      assert UserBytesKept(old(mem), mem, s) by { HoleHasNoUser(old(mem), mem, s, segs, head); }
    }

    /** A hole at the end of the heap gives back its pages; what is left of the
        hole goes into the index. */
    method Finish(head: nat, size: nat)
      requires Base() && Tiling(segs, start, end) && FullyTagged(mem, segs)
      requires head in segs && segs[head] == Seg(size, true) && index.size < INDEX_SLOTS - 2
      requires ListsHolesBut(index.Contents(), segs, Some(head))
      requires SettleReady(View(), Merged(head, segs, index.Contents()))
      modifies this`mem, this`present, this`end, this`segs, index, index.data
      ensures Base() && index.size <= old(index.size) + 1
      ensures View() == Settle(old(View()), old(Merged(head, segs, index.Contents())))
      ensures FullyTagged(mem, segs) && UserBytesKept(old(mem), mem, old(segs))
      ensures PagesGivenBack(old(present), present, old(end), end)
    {
      hide BySize, Inserted, OnPages, Backed, FooterOk, HeaderOk, UserBytesKept, ContractedLength, PagesGivenBack, Disjoint, Chained;
      SameKept(mem, segs);
      NoPagesGivenBack(present, end);
      if head + size == end {
        var oldLength := end - start;
        var newLength := Contract(head - start);
        var left := size - (oldLength - newLength);
        if left > 0 {
          ShrinkHole(head, size, left);
        } else {
          segs := segs - {head};
          return;
        }
      }
      PutInIndex(head);
    }

    /** The block becomes a hole together with the holes on both sides. */
    method Unify(a: nat, size: nat) returns (head: nat, total: nat)
      requires Valid() && FullyTagged(mem, segs) && IsBlock(View(), a) && segs[a].size == size
      modifies this`mem, this`segs, index, index.data
      ensures Base() && index.size <= old(index.size)
      ensures Merged(head, segs, index.Contents()) == Coalesced(old(View()), a)
      ensures head in segs && total == segs[head].size
      ensures FullyTagged(mem, segs) && UserBytesKept(old(mem), mem, old(segs) - {a})
    {
      hide Sorted, BySize, UserBytesKept, Backed, FullyTagged, MergeLeft, MergeRight, ListsHolesBut, NoAdjacentHoles, Tiling;
      ghost var l, m0 := View(), mem;
      MergeLeftOk(l, a);
      head, total := UnifyLeft(a, size);
      ghost var m1, s1 := mem, segs;
      total := UnifyRight(head, total);
      LeftBlocks(l, a);
      UserBytesKeptTwice(m0, m1, mem, l.segs - {a}, s1);
    }

    /** The assertions: header and footer have their magic number. */
    method CheckTags(a: nat) returns (ok: bool)
      requires |mem| == ADDRESS_SPACE && (GoodTags(mem, present, a) || BadTags(mem, present, a))
      ensures ok <==> GoodTags(mem, present, a)
    {
      var header := LoadHeader(a);
      if header.magic != HEAP_MAGIC {
        return false;
      }
      var footer := LoadFooter((a + header.size - FOOTER_SIZE) % ADDRESS_SPACE);
      ok := footer.magic == HEAP_MAGIC;
    }

    lemma BlockHasGoodTags(a: nat)
      requires Valid() && IsBlock(View(), a)
      ensures GoodTags(mem, present, a)
    {
      hide Sorted, BySize, NoAdjacentHoles, ListsHolesBut, Disjoint, Chained, OnPages, Backed, HeaderAt, FooterAt;
      BlockMeansTagged(mem, segs, start, a);
      assert HeaderOk(mem, a, segs[a]) && FooterOk(mem, a, segs[a]);
      var f := a + segs[a].size - FOOTER_SIZE;
      BackedBytes(present, start, end, a, HEADER_SIZE);
      BackedBytes(present, start, end, f, FOOTER_SIZE);
    }

    method FreeBlock(a: nat)
      requires Valid() && index.size < INDEX_SLOTS - 2 && IsBlock(View(), a)
      modifies this`mem, this`present, this`end, this`segs, index, index.data
      ensures Valid() && View() == Release(old(View()), a)
      ensures FullyTagged(mem, segs) && UserBytesKept(old(mem), mem, old(segs) - {a})
      ensures PagesGivenBack(old(present), present, old(end), end)
    {
      hide Inv, Sorted, BySize, UserBytesKept, Backed, FooterOk, HeaderOk, Coalesced, Settle, Tagged, FullyTagged, ListsHolesBut, Tiling, PagesGivenBack;
      ghost var l, m0 := View(), mem;
      BlockMeansTagged(mem, segs, start, a);
      CoalescedReady(l, a);
      ReleaseInv(l, a);
      assert HeaderOk(mem, a, segs[a]) by { TaggedHeader(mem, segs, start, a); }
      InvMeansTiling(l);
      var header := LoadTagged(a);
      var head, size := Unify(a, header.size);
      ghost var m1, s1 := mem, segs;
      SettleSame(l, View(), Coalesced(l, a));
      Finish(head, size);
      AllTagged(mem, segs, start);
      CoalescedBlocks(l, a);
      UserBytesKeptTwice(m0, m1, mem, l.segs - {a}, s1);
    }

    /** Gives back block p; a null pointer is ignored. A pointer behind which the
        tags are wrong fails one of the two assertions, and nothing changes. */
    method Free(p: nat) returns (ok: bool)
      requires Valid() && index.size < INDEX_SLOTS - 2
      requires p == 0 || (HEADER_SIZE <= p && (IsBlock(View(), p - HEADER_SIZE) || BadTags(mem, present, p - HEADER_SIZE)))
      modifies this`mem, this`present, this`end, this`segs, index, index.data
      ensures Valid()
      ensures ok <==> p == 0 || old(IsBlock(View(), p - HEADER_SIZE))
      ensures p == 0 || !ok ==> View() == old(View()) && mem == old(mem) && present == old(present)
      ensures p != 0 && ok ==> View() == Release(old(View()), p - HEADER_SIZE)
      ensures p != 0 && ok ==> FullyTagged(mem, segs) && UserBytesKept(old(mem), mem, old(segs) - {p - HEADER_SIZE})
      ensures p != 0 && ok ==> PagesGivenBack(old(present), present, old(end), end)
    {
      hide Inv, Tagged, Backed, UserBytesKept, FullyTagged, GoodTags, BadTags, PagesGivenBack;
      if p == 0 {
        return true;
      }
      if IsBlock(View(), p - HEADER_SIZE) { BlockHasGoodTags(p - HEADER_SIZE); }
      GoodOrBad(mem, present, p - HEADER_SIZE);
      ok := CheckTags(p - HEADER_SIZE);
      if ok {
        FreeBlock(p - HEADER_SIZE);
      }
    }
  }
}
