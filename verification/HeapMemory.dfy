/** The tags in memory say what the layout says, and writing the tags of one
    segment disturbs nothing outside it. */
module HeapMemory {
  import opened Memory
  import opened Tilings
  import opened HeapLayouts

  ghost predicate HeaderOk(m: Bytes, a: nat, seg: Seg)
  {
    && a + HEADER_SIZE <= |m|
    && var h := HeaderAt(m, a);
       h.magic == HEAP_MAGIC && h.isHole == (if seg.hole then 1 else 0) && h.size == seg.size
  }

  ghost predicate FooterOk(m: Bytes, a: nat, seg: Seg)
  {
    && FOOTER_SIZE <= seg.size && a + seg.size <= |m|
    && var f := FooterAt(m, a + seg.size - FOOTER_SIZE);
       f.magic == HEAP_MAGIC && f.header == a
  }

  /** createHeap leaves the first hole without a footer; nothing reads it then. */
  ghost predicate Untouched(s: Segs, first: nat)
  {
    first in s && s.Keys == {first} && s[first].hole
  }

  /** Every segment has its header and its footer. */
  ghost predicate FullyTagged(m: Bytes, s: Segs)
  {
    |m| == ADDRESS_SPACE && forall a | a in s :: HeaderOk(m, a, s[a]) && FooterOk(m, a, s[a])
  }

  ghost predicate Tagged(m: Bytes, s: Segs, first: nat)
  {
    || FullyTagged(m, s)
    || (|m| == ADDRESS_SPACE && Untouched(s, first) && HeaderOk(m, first, s[first]))
  }

  /** What that means for the bytes: every segment begins with the magic number,
      the hole flag and its size, and every block ends with the magic number and
      its address, as does every hole unless it is the first and only segment. */
  lemma TaggedBytes(m: Bytes, s: Segs, first: nat, a: nat)
    requires Tagged(m, s, first) && a in s && OVERHEAD <= s[a].size && a + s[a].size <= |m|
    ensures m[a..a + 4] == [0xAB, 0x90, 0x38, 0x12] && m[a + 4] == if s[a].hole then 1 else 0
    ensures WordIs(s[a].size, m[a + 8], m[a + 9], m[a + 10], m[a + 11])
    ensures var f := a + s[a].size - FOOTER_SIZE;
            !s[a].hole || s.Keys != {first} ==>
              m[f..f + 4] == [0xAB, 0x90, 0x38, 0x12] && WordIs(a, m[f + 4], m[f + 5], m[f + 6], m[f + 7])
  {
    hide HeaderAt, FooterAt, WordIs;
    HeaderBytes(m, a);
    var f := a + s[a].size - FOOTER_SIZE;
    if !s[a].hole || s.Keys != {first} {
      assert a in s.Keys;
      FooterBytes(m, f);
    }
  }

  /** Header and footer of the segment at a. */
  function WriteTags(m: Bytes, a: nat, size: nat, hole: bool): (r: Bytes)
    requires OVERHEAD <= size && a + size <= |m| <= ADDRESS_SPACE && 0 < a
    ensures SameOutside(m, r, a, a + size)
    ensures HeaderOk(r, a, Seg(size, hole)) && FooterOk(r, a, Seg(size, hole))
  {
    var m1 := WriteHeader(m, a, Header(HEAP_MAGIC, if hole then 1 else 0, size));
    var m2 := WriteFooter(m1, a + size - FOOTER_SIZE, Footer(HEAP_MAGIC, a));
    HeaderSame(m1, m2, a);
    m2
  }

  /** The user bytes of every block of s are the same in both memories. */
  ghost predicate UserBytesKept(m: Bytes, r: Bytes, s: Segs)
  {
    |m| == |r| && forall a, x | a in s && !s[a].hole && a + HEADER_SIZE <= x < a + s[a].size - FOOTER_SIZE && x < |m| :: r[x] == m[x]
  }

  /** A change within x..y-1 leaves the tags of a segment elsewhere alone. */
  lemma TagsElsewhere(m: Bytes, r: Bytes, x: nat, y: nat, a: nat, seg: Seg)
    requires SameOutside(m, r, x, y) && OVERHEAD <= seg.size
    requires a + seg.size <= x || y <= a
    ensures HeaderOk(m, a, seg) ==> HeaderOk(r, a, seg)
    ensures FooterOk(m, a, seg) ==> FooterOk(r, a, seg)
  {
    if HeaderOk(m, a, seg) { HeaderSame(m, r, a); }
    if FooterOk(m, a, seg) { FooterSame(m, r, a + seg.size - FOOTER_SIZE); }
  }

  /** A change inside one segment leaves all other segments and their users alone. */
  lemma ChangeInside(m: Bytes, r: Bytes, s: Segs, lo: nat, hi: nat, h: nat)
    requires Tiling(s, lo, hi) && h in s && SameOutside(m, r, h, h + s[h].size)
    ensures forall a | a in s && a != h :: HeaderOk(m, a, s[a]) ==> HeaderOk(r, a, s[a])
    ensures forall a | a in s && a != h :: FooterOk(m, a, s[a]) ==> FooterOk(r, a, s[a])
    ensures s[h].hole ==> UserBytesKept(m, r, s)
    ensures UserBytesKept(m, r, s - {h})
  {
    forall a | a in s && a != h
      ensures (HeaderOk(m, a, s[a]) ==> HeaderOk(r, a, s[a])) && (FooterOk(m, a, s[a]) ==> FooterOk(r, a, s[a]))
    {
      TagsElsewhere(m, r, h, h + s[h].size, a, s[a]);
    }
  }

  lemma OthersTagged(m: Bytes, s: Segs, first: nat, h: nat)
    requires Tagged(m, s, first) && h in s
    ensures FullyTagged(m, s - {h})
  {
    assert Untouched(s, first) ==> forall a | a in s :: a in s.Keys && a == h;
  }

  // ---- alloc ----

  /** The block at b and the hole behind it, if there is one. */
  function BlockMem(m: Bytes, b: nat, room: nat, n: nat): (r: Bytes)
    requires 0 < b && b + room <= |m| <= ADDRESS_SPACE && OVERHEAD <= n <= room
    ensures SameOutside(m, r, b, b + room)
  {
    if room - n < OVERHEAD then WriteTags(m, b, room, false)
    else WriteTags(WriteTags(m, b, n, false), b + n, room - n, true)
  }

  function BlockSegs(s: Segs, b: nat, n: nat): (r: Segs)
    requires b in s && n <= s[b].size
  {
    if s[b].size - n < OVERHEAD then SetHole(s, b, false) else Split(s, b, n, false, true)
  }

  lemma BlockTags(m: Bytes, b: nat, room: nat, n: nat)
    requires 0 < b && b + room <= |m| <= ADDRESS_SPACE && OVERHEAD <= n <= room
    ensures var r := BlockMem(m, b, room, n);
            var block := Seg(if room - n < OVERHEAD then room else n, false);
            && HeaderOk(r, b, block) && FooterOk(r, b, block)
            && (OVERHEAD <= room - n ==> HeaderOk(r, b + n, Seg(room - n, true)) && FooterOk(r, b + n, Seg(room - n, true)))
  {
    hide HeaderOk, FooterOk, WriteTags;
    if OVERHEAD <= room - n {
      var m1 := WriteTags(m, b, n, false);
      TagsElsewhere(m1, BlockMem(m, b, room, n), b + n, b + room, b, Seg(n, false));
    }
  }

  /** Making the hole at b a block leaves every tag right and every user byte alone. */
  lemma BlockTagged(m: Bytes, s: Segs, lo: nat, hi: nat, b: nat, n: nat)
    requires Tiling(s, lo, hi) && 0 < lo && hi < |m| && FullyTagged(m, s - {b})
    requires b in s && s[b].hole && OVERHEAD <= n <= s[b].size
    ensures FullyTagged(BlockMem(m, b, s[b].size, n), BlockSegs(s, b, n))
    ensures UserBytesKept(m, BlockMem(m, b, s[b].size, n), s)
  {
    hide HeaderOk, FooterOk, UserBytesKept, BlockMem;
    var r := BlockMem(m, b, s[b].size, n);
    BlockTags(m, b, s[b].size, n);
    ChangeInside(m, r, s, lo, hi, b);
    assert forall a | a in s && a != b :: a in s - {b} && (s - {b})[a] == s[a];
    hide SameOutside, Tiling;
  }

  /** Tagging the hole in front of an aligned block. */
  lemma FrontTagged(m: Bytes, s: Segs, lo: nat, hi: nat, h: nat, gap: nat)
    requires Tiling(s, lo, hi) && 0 < lo && hi < |m| && FullyTagged(m, s - {h})
    requires h in s && s[h].hole && OVERHEAD <= gap && gap + OVERHEAD <= s[h].size
    ensures var r := WriteTags(m, h, gap, true);
            && FullyTagged(r, Split(s, h, gap, true, true) - {h + gap})
            && UserBytesKept(m, r, s)
  {
    hide HeaderOk, FooterOk, UserBytesKept, WriteTags;
    var r := WriteTags(m, h, gap, true);
    ChangeInside(m, r, s, lo, hi, h);
    assert forall a | a in s && a != h :: a in s - {h} && (s - {h})[a] == s[a];
    hide SameOutside, Tiling;
  }

  lemma UserBytesKeptTwice(m: Bytes, m1: Bytes, r: Bytes, s: Segs, t: Segs)
    requires UserBytesKept(m, m1, s) && UserBytesKept(m1, r, t)
    requires forall a | a in s && !s[a].hole :: a in t && t[a] == s[a]
    ensures UserBytesKept(m, r, s)
  {
  }

  // ---- growth and free ----

  /** Only segment h changes, within x..y-1, where no other segment lies. */
  lemma Retag(m: Bytes, r: Bytes, s: Segs, t: Segs, h: nat, x: nat, y: nat)
    requires SameOutside(m, r, x, y) && FullyTagged(m, s - {h})
    requires forall a | a in t && a != h :: a in s && t[a] == s[a] && OVERHEAD <= s[a].size && (a + s[a].size <= x || y <= a)
    requires h in t ==> HeaderOk(r, h, t[h]) && FooterOk(r, h, t[h])
    ensures FullyTagged(r, t)
    ensures UserBytesKept(m, r, t - {h})
  {
    hide HeaderOk, FooterOk;
    forall a | a in t && a != h ensures HeaderOk(r, a, t[a]) && FooterOk(r, a, t[a]) {
      assert a in s - {h} && (s - {h})[a] == t[a];
      TagsElsewhere(m, r, x, y, a, t[a]);
    }
  }

  /** is_hole = 1 */
  lemma FreedTags(m: Bytes, a: nat, size: nat)
    requires OVERHEAD <= size && HeaderOk(m, a, Seg(size, false)) && FooterOk(m, a, Seg(size, false))
    ensures var r := m[a + 4 := 1];
            SameOutside(m, r, a, a + size) && HeaderOk(r, a, Seg(size, true)) && FooterOk(r, a, Seg(size, true))
  {
    var r := m[a + 4 := 1];
    ReadWordSame(m, r, a);
    ReadWordSame(m, r, a + 8);
    FooterSame(m, r, a + size - FOOTER_SIZE);
  }

  /** Two words that do not overlap can be written in either order. */
  lemma WordsCommute(m: Bytes, a: nat, v: Word, b: nat, w: Word)
    requires a + 4 <= |m| && b + 4 <= |m| && (a + 4 <= b || b + 4 <= a)
    ensures WriteWord(WriteWord(m, a, v), b, w) == WriteWord(WriteWord(m, b, w), a, v)
  {
    hide ReadWord;
  }

  /** Hole p takes in the segment behind it: its size grows, and the footer at
      the far end is pointed to p, in either order. */
  lemma JoinedTags(m: Bytes, p: nat, size: nat, more: nat, hole: bool)
    requires OVERHEAD <= size && OVERHEAD <= more && 0 < p && p + size + more < |m| == ADDRESS_SPACE
    requires HeaderOk(m, p, Seg(size, true)) && FooterOk(m, p + size, Seg(more, hole))
    ensures var r := WriteWord(WriteWord(m, p + size + more - 4, p), p + 8, size + more);
            && r == WriteWord(WriteWord(m, p + 8, size + more), p + size + more - 4, p)
            && SameOutside(m, r, p, p + size + more)
            && HeaderOk(r, p, Seg(size + more, true)) && FooterOk(r, p, Seg(size + more, true))
  {
    hide WriteWord;
    var e := p + size + more;
    var m1 := WriteWord(m, e - 4, p);
    WordsCommute(m, e - 4, p, p + 8, size + more);
    var r := WriteWord(m1, p + 8, size + more);
    ReadWordSame(m, m1, p);
    ReadWordSame(m1, r, p);
    ReadWordSame(m, m1, e - 8);
    ReadWordSame(m1, r, e - 8);
    ReadWordSame(m1, r, e - 4);
  }

  lemma JoinElsewhere(s: Segs, lo: nat, hi: nat, p: nat)
    requires Tiling(s, lo, hi) && p in s && Next(s, p) in s
    ensures forall a | a in Join(s, p) && a != p ::
              a in s && Join(s, p)[a] == s[a] && OVERHEAD <= s[a].size && (a + s[a].size <= p || Next(s, Next(s, p)) <= a)
  {
    UniqueEnd(s, lo, hi, p);
    UniqueEnd(s, lo, hi, Next(s, p));
  }

  /** With the tags of two joined holes written, every segment is tagged again. */
  lemma JoinRetagged(m: Bytes, r: Bytes, s: Segs, lo: nat, hi: nat, p: nat)
    requires Tiling(s, lo, hi) && FullyTagged(m, s)
    requires p in s && s[p].hole && Next(s, p) in s && s[Next(s, p)].hole
    requires SameOutside(m, r, p, Next(s, Next(s, p)))
    requires var seg := Seg(s[p].size + s[Next(s, p)].size, true); HeaderOk(r, p, seg) && FooterOk(r, p, seg)
    ensures FullyTagged(r, Join(s, p)) && UserBytesKept(m, r, s)
  {
    hide HeaderOk, FooterOk, SameOutside;
    JoinElsewhere(s, lo, hi, p);
    hide Tiling, Disjoint, Chained;
    var t := Join(s, p);
    Retag(m, r, s, t, p, p, Next(s, Next(s, p)));
    assert forall a | a in s && !s[a].hole :: a in t - {p} && (t - {p})[a] == s[a];
  }

  /** size changed in the header, footer written anew at the new end. */
  lemma ResizedTags(m: Bytes, h: nat, size: nat, newSize: nat)
    requires OVERHEAD <= newSize && 0 < h && h + newSize < |m| == ADDRESS_SPACE
    requires HeaderOk(m, h, Seg(size, true))
    ensures var r := WriteFooter(WriteWord(m, h + 8, newSize), h + newSize - FOOTER_SIZE, Footer(HEAP_MAGIC, h));
            && SameOutside(m, r, h, h + newSize)
            && HeaderOk(r, h, Seg(newSize, true)) && FooterOk(r, h, Seg(newSize, true))
  {
    var m1 := WriteWord(m, h + 8, newSize);
    var r := WriteFooter(m1, h + newSize - FOOTER_SIZE, Footer(HEAP_MAGIC, h));
    ReadWordSame(m, m1, h);
    HeaderSame(m1, r, h);
  }

  // ---- Small facts about tags ----

  lemma AllTagged(m: Bytes, s: Segs, first: nat)
    requires FullyTagged(m, s)
    ensures Tagged(m, s, first)
  {
  }

  lemma TaggedHeader(m: Bytes, s: Segs, first: nat, a: nat)
    requires Tagged(m, s, first) && a in s
    ensures HeaderOk(m, a, s[a])
  {
    assert Untouched(s, first) ==> a in s.Keys;
  }

  lemma BlockMeansTagged(m: Bytes, s: Segs, first: nat, a: nat)
    requires Tagged(m, s, first) && a in s && !s[a].hole
    ensures FullyTagged(m, s)
  {
    assert Untouched(s, first) ==> a in s.Keys;
  }

  lemma HoleHasNoUser(m: Bytes, r: Bytes, s: Segs, t: Segs, h: nat)
    requires h in s && s[h].hole && UserBytesKept(m, r, t - {h})
    requires forall a | a in s && a != h :: a in t && t[a] == s[a]
    ensures UserBytesKept(m, r, s)
  {
    assert forall a | a in s && !s[a].hole :: a in t - {h} && (t - {h})[a] == s[a];
  }

  lemma SameKept(m: Bytes, s: Segs)
    ensures UserBytesKept(m, m, s)
  {
  }

  lemma EndmostIsTail(l: Layout, value: nat)
    requires Inv(l) && forall y | y in l.index :: y <= value
    requires l.index != [] ==> value in l.index
    ensures HasTailHole(l) <==> l.index != [] && Next(l.segs, value) == l.end
    ensures HasTailHole(l) ==> TailHole(l) == value
  {
    if HasTailHole(l) {
      var h := TailHole(l);
      assert Next(l.segs, h) == l.end && h <= value && value in l.segs;
    }
    if l.index != [] && Next(l.segs, value) == l.end {
      assert IsTailHole(l, value);
    }
  }

  lemma UntouchedTail(l: Layout)
    requires Inv(l) && Untouched(l.segs, l.start)
    ensures IsTailHole(l, l.start)
  {
    var next := Next(l.segs, l.start);
    assert next in l.segs ==> next in l.segs.Keys;
  }

  // ---- Mapped pages ----

  /** Every byte of a..a+n-1 lies on a mapped page. */
  ghost predicate OnPages(present: set<nat>, a: nat, n: nat)
  {
    forall x | a <= x < a + n :: x / PAGE in present
  }

  /** Every page of lo..hi-1 is mapped. */
  ghost predicate Backed(present: set<nat>, lo: nat, hi: nat)
  {
    forall p | lo / PAGE <= p < hi / PAGE :: p in present
  }

  lemma BackedBytes(present: set<nat>, lo: nat, hi: nat, a: nat, n: nat)
    requires Backed(present, lo, hi) && hi % PAGE == 0 && lo <= a && a + n <= hi
    ensures OnPages(present, a, n)
  {
    forall x | a <= x < a + n ensures x / PAGE in present {
      assert lo / PAGE <= x / PAGE < hi / PAGE;
    }
  }

  /** Just the pages from the old end to the new one were mapped. */
  ghost predicate PagesAdded(before: set<nat>, after: set<nat>, oldEnd: nat, newEnd: nat)
  {
    forall p :: p in after <==> p in before || oldEnd / PAGE <= p < newEnd / PAGE
  }

  /** Just the pages above the first one past the new end were unmapped. */
  ghost predicate PagesGivenBack(before: set<nat>, after: set<nat>, oldEnd: nat, newEnd: nat)
  {
    forall p :: p in after <==> p in before && !(newEnd / PAGE < p < oldEnd / PAGE)
  }

  /** The pages given back all lie behind the new end. */
  lemma StillBacked(before: set<nat>, after: set<nat>, lo: nat, hi: nat, newHi: nat)
    requires Backed(before, lo, hi) && newHi <= hi
    requires PagesGivenBack(before, after, hi, newHi)
    ensures Backed(after, lo, newHi)
  {
    assert newHi / PAGE <= hi / PAGE;
  }

  lemma NoPagesAdded(present: set<nat>, end: nat)
    ensures PagesAdded(present, present, end, end)
  {
  }

  lemma NoPagesGivenBack(present: set<nat>, end: nat)
    ensures PagesGivenBack(present, present, end, end)
  {
  }

  lemma KeptPages(before: set<nat>, after: set<nat>, oldEnd: nat, newEnd: nat)
    requires forall p :: p in after <==> p in before && !(newEnd / PAGE < p < oldEnd / PAGE)
    ensures PagesGivenBack(before, after, oldEnd, newEnd)
  {
  }

  lemma PagesAddedTwice(before: set<nat>, present1: set<nat>, after: set<nat>, oldEnd: nat, end1: nat, newEnd: nat)
    requires PagesAdded(before, present1, oldEnd, end1) && PagesAdded(present1, after, end1, newEnd) && oldEnd <= end1 <= newEnd
    ensures PagesAdded(before, after, oldEnd, newEnd)
  {
  }

  /** A header at a and the footer it points to have the magic number. */
  ghost predicate GoodTags(m: Bytes, present: set<nat>, a: nat)
  {
    && a + HEADER_SIZE <= |m| && OnPages(present, a, HEADER_SIZE)
    && var h := HeaderAt(m, a);
       var f := (a + h.size - FOOTER_SIZE) % ADDRESS_SPACE;
       h.magic == HEAP_MAGIC && f + FOOTER_SIZE <= |m| && OnPages(present, f, FOOTER_SIZE) && FooterAt(m, f).magic == HEAP_MAGIC
  }

  /** A header at a, or the footer it points to, has not the magic number. */
  ghost predicate BadTags(m: Bytes, present: set<nat>, a: nat)
  {
    && a + HEADER_SIZE <= |m| && OnPages(present, a, HEADER_SIZE)
    && var h := HeaderAt(m, a);
       var f := (a + h.size - FOOTER_SIZE) % ADDRESS_SPACE;
       || h.magic != HEAP_MAGIC
       || (f + FOOTER_SIZE <= |m| && OnPages(present, f, FOOTER_SIZE) && FooterAt(m, f).magic != HEAP_MAGIC)
  }

  /** Where both tags can be read, they are bad exactly when the four bytes at the
      header or the four at the footer are not the magic number. */
  lemma BadTagsMean(m: Bytes, present: set<nat>, a: nat, f: nat)
    requires a + HEADER_SIZE <= |m| && f == (a + HeaderAt(m, a).size - 8) % 0x1_0000_0000 && f + FOOTER_SIZE <= |m|
    requires OnPages(present, a, HEADER_SIZE) && OnPages(present, f, FOOTER_SIZE)
    ensures BadTags(m, present, a) <==> !(m[a..a + 4] == [0xAB, 0x90, 0x38, 0x12] && m[f..f + 4] == [0xAB, 0x90, 0x38, 0x12])
    ensures GoodTags(m, present, a) <==> !BadTags(m, present, a)
  {
    hide HeaderAt, FooterAt, OnPages, WordIs;
    HeaderBytes(m, a);
    FooterBytes(m, f);
  }

  lemma GoodOrBad(m: Bytes, present: set<nat>, a: nat)
    ensures !(GoodTags(m, present, a) && BadTags(m, present, a))
  {
  }
}
