/** The pages of the heap and the frames behind them: the loops of expand and
    contract in kernel/heap.c over the page tables and the frame bitmap of
    hal/x86/memory/paging.c. */
module HeapPages {
  import opened Memory
  import opened Frames
  import opened Paging

  const PAGES := ENTRIES * ENTRIES

  /** The entries of all pages that have a table. */
  type Mapping = map<nat, PageEntry>

  /** No two slots of a directory share a table, and all tables are whole. */
  ghost predicate Whole(tables: seq<PageTable?>, entries: map<PageTable, seq<PageEntry>>)
  {
    && |tables| == ENTRIES
    && (forall k | 0 <= k < ENTRIES && tables[k] != null :: tables[k] in entries && |entries[tables[k]]| == ENTRIES)
    && (forall j, k | 0 <= j < k < ENTRIES && tables[j] != null :: tables[j] != tables[k])
  }

  ghost function MappingOf(tables: seq<PageTable?>, entries: map<PageTable, seq<PageEntry>>): (m: Mapping)
    requires Whole(tables, entries)
  {
    map p: nat | 0 <= p < PAGES && tables[p / ENTRIES] != null :: entries[tables[p / ENTRIES]][p % ENTRIES]
  }

  ghost predicate Ok(pager: Pager, dir: PageDirectory)
    reads pager, pager.frameMap, pager.frameMap.frames, pager.known, dir
  {
    pager.Valid() && pager.DirectoryOk(dir) && Whole(dir.tables, pager.Books().entries)
  }

  ghost function PagesOf(pager: Pager, dir: PageDirectory): (m: Mapping)
    requires Ok(pager, dir)
    reads pager, pager.frameMap, pager.frameMap.frames, pager.known, dir
  {
    MappingOf(dir.tables, pager.Books().entries)
  }

  /** These are the entries that get_page finds. */
  lemma PagesAreEntries(pager: Pager, dir: PageDirectory, p: nat)
    requires Ok(pager, dir) && p in PagesOf(pager, dir)
    ensures p < PAGES && dir.tables[p / ENTRIES] != null && PagesOf(pager, dir)[p] == pager.Entry(dir, p)
  {
    hide UsedSet, Accounted;
  }

  /** Changing one slot of one table changes the entry of one page. */
  lemma OneEntry(tables: seq<PageTable?>, entries: map<PageTable, seq<PageEntry>>, p: nat, e: PageEntry)
    requires Whole(tables, entries) && p < PAGES && tables[p / ENTRIES] != null
    ensures var t := tables[p / ENTRIES];
            var changed := entries[t := entries[t][p % ENTRIES := e]];
            Whole(tables, changed) && p in MappingOf(tables, entries)
            && MappingOf(tables, changed) == MappingOf(tables, entries)[p := e]
  {
    var t := tables[p / ENTRIES];
    var changed := entries[t := entries[t][p % ENTRIES := e]];
    var m, r := MappingOf(tables, entries), MappingOf(tables, changed);
    forall q | q in m && q != p ensures r[q] == m[q] {
      assert p / ENTRIES * ENTRIES + p % ENTRIES == p && q / ENTRIES * ENTRIES + q % ENTRIES == q;
    }
    assert r.Keys == m.Keys;
  }

  /** A page with a frame is present. */
  ghost predicate Sane(m: Mapping)
  {
    forall p | p in m && m[p].frame != 0 :: m[p].present
  }

  /** A page that may be used: it is present and has a frame. */
  ghost predicate Framed(m: Mapping, p: nat)
  {
    p in m && m[p].present && m[p].frame != 0
  }

  /** What both loops rely on: frame 0 is taken, so that no page is given a
      number that means none, and get_page has tables to look in. */
  ghost predicate Ready(pager: Pager, dir: PageDirectory)
    reads pager, pager.frameMap, pager.frameMap.frames, pager.known, dir
  {
    && Ok(pager, dir) && 0 in pager.frameMap.InUse()
    && pager.usedFrames != pager.frameMap.nframes
    && PAGE <= pager.placement && pager.placement + 2 * PAGE < ADDRESS_SPACE
    && Sane(PagesOf(pager, dir))
  }

  /** A frame behind a page of the directory is in use and behind no other page. */
  lemma FramesDistinct(pager: Pager, dir: PageDirectory, p: nat, q: nat)
    requires Ok(pager, dir)
    requires p in PagesOf(pager, dir) && q in PagesOf(pager, dir) && PagesOf(pager, dir)[p].frame != 0
    ensures PagesOf(pager, dir)[p].frame in pager.frameMap.InUse()
    ensures PagesOf(pager, dir)[p].frame == PagesOf(pager, dir)[q].frame ==> p == q
  {
    hide UsedSet;
    assert p / ENTRIES * ENTRIES + p % ENTRIES == p && q / ENTRIES * ENTRIES + q % ENTRIES == q;
  }

  /** The entry a page has after alloc_frame took `frame` for it. */
  function Given(e: PageEntry, isKernel: bool, isWriteable: bool, frame: nat): (r: PageEntry)
  {
    if e.frame != 0 then e else e.(present := true, rw := isWriteable, user := !isKernel, frame := frame)
  }

  lemma PageHasTable(tables: seq<PageTable?>, entries: map<PageTable, seq<PageEntry>>, p: nat)
    requires Whole(tables, entries) && p in MappingOf(tables, entries)
    ensures p < PAGES && tables[p / ENTRIES] != null && MappingOf(tables, entries)[p] == entries[tables[p / ENTRIES]][p % ENTRIES]
  {
  }

  lemma HeldInUse(pager: Pager, dir: PageDirectory, p: nat)
    requires Ok(pager, dir) && p in PagesOf(pager, dir) && PagesOf(pager, dir)[p].frame != 0
    ensures PagesOf(pager, dir)[p].frame in pager.frameMap.InUse()
  {
    FramesDistinct(pager, dir, p, p);
  }

  /** alloc_frame(get_page(address, 1, ...), ...), for a page that has a table. */
  method BackPage(pager: Pager, dir: PageDirectory, address: Word, isKernel: bool, isWriteable: bool) returns (ok: bool)
    requires Ready(pager, dir) && address / PAGE in PagesOf(pager, dir)
    modifies pager`placement, pager`known, dir, pager.frameMap.frames, pager.known
    ensures Ready(pager, dir) && pager.known == old(pager.known)
    ensures ok <==> old(PagesOf(pager, dir))[address / PAGE].frame != 0 || !old(pager.OutOfFrames())
    ensures !ok ==> PagesOf(pager, dir) == old(PagesOf(pager, dir)) && pager.frameMap.InUse() == old(pager.frameMap.InUse())
    ensures ok ==>
              var p, m := address / PAGE, old(PagesOf(pager, dir));
              var f := if m[p].frame != 0 then m[p].frame else LowestFree(old(pager.frameMap.InUse()), 0, pager.frameMap.Limit());
              && f != 0 && (m[p].frame != 0 <==> f in old(pager.frameMap.InUse())) && PagesOf(pager, dir) == m[p := Given(m[p], isKernel, isWriteable, f)]
              && pager.frameMap.InUse() == old(pager.frameMap.InUse()) + {f}
    ensures ok ==>
              var p, m := address / PAGE, old(PagesOf(pager, dir));
              && PagesOf(pager, dir).Keys == m.Keys && p in PagesOf(pager, dir)
              && var e := PagesOf(pager, dir)[p];
                 if m[p].frame != 0 then e == m[p] else e.present && e.rw == isWriteable && e.user == !isKernel && e.frame != 0
  {
    hide UsedSet, LowestFree, Accounted, MappingOf, Whole;
    ghost var p, entries := address / PAGE, pager.Books().entries;
    PageHasTable(dir.tables, entries, p);
    if PagesOf(pager, dir)[p].frame != 0 { HeldInUse(pager, dir, p); }
    var table, slot := pager.GetPage(address, true, dir);
    ok := pager.ServeOne(TakeFrame(table, slot, isKernel, isWriteable));
    OneEntry(dir.tables, entries, p, pager.Books().entries[table][slot]);
    if old(PagesOf(pager, dir))[p].frame != 0 { HeldInUse(pager, dir, p); }
  }

  /** free_frame(get_page(address, 0, ...)), for a page that has a table. */
  method UnbackPage(pager: Pager, dir: PageDirectory, address: Word)
    requires Ready(pager, dir) && address / PAGE in PagesOf(pager, dir)
    modifies pager`placement, pager`known, dir, pager.frameMap.frames, pager.known
    ensures Ready(pager, dir) && pager.known == old(pager.known)
    ensures var p, m := address / PAGE, old(PagesOf(pager, dir));
            PagesOf(pager, dir) == m[p := m[p].(frame := 0)]
    ensures var f := old(PagesOf(pager, dir))[address / PAGE].frame;
            pager.frameMap.InUse() == if f == 0 then old(pager.frameMap.InUse()) else old(pager.frameMap.InUse()) - {f}
  {
    hide UsedSet, LowestFree, Accounted, MappingOf, Whole;
    ghost var p, entries := address / PAGE, pager.Books().entries;
    PageHasTable(dir.tables, entries, p);
    var table, slot := pager.GetPage(address, false, dir);
    var ok := pager.ServeOne(GiveFrame(table, slot));
    OneEntry(dir.tables, entries, p, pager.Books().entries[table][slot]);
  }

  /** After the loop of expand: the pages lo..hi-1 have frames, all others are as
      before, and a page that had a frame keeps it. */
  ghost predicate Expanded(m: Mapping, r: Mapping, lo: nat, hi: nat, isKernel: bool, isWriteable: bool)
  {
    && r.Keys == m.Keys
    && forall p | p in m ::
         if lo <= p < hi then r[p].frame != 0 && r[p] == Given(m[p], isKernel, isWriteable, r[p].frame) else r[p] == m[p]
  }

  /** Field by field: pages lo..hi-1 that had no frame are present, and writeable and
      open to the user as asked; every other page keeps its whole entry. */
  lemma ExpandedMeans(m: Mapping, r: Mapping, lo: nat, hi: nat, isKernel: bool, isWriteable: bool)
    requires Expanded(m, r, lo, hi, isKernel, isWriteable)
    ensures r.Keys == m.Keys
    ensures forall p | p in m && lo <= p < hi && m[p].frame == 0 ::
              r[p].present && r[p].rw == isWriteable && r[p].user == !isKernel && r[p].frame != 0
    ensures forall p | p in m && !(lo <= p < hi && m[p].frame == 0) :: r[p] == m[p]
  {
  }

  /** After the loop of contract: the pages lo..hi-1 have lost their frames, all
      others are as before. */
  ghost predicate Contracted(m: Mapping, r: Mapping, lo: nat, hi: nat)
  {
    && r.Keys == m.Keys
    && forall p | p in m :: r[p] == if lo <= p < hi then m[p].(frame := 0) else m[p]
  }

  lemma OneMoreBacked(m: Mapping, r: Mapping, r': Mapping, lo: nat, p: nat, isKernel: bool, isWriteable: bool)
    requires Expanded(m, r, lo, p, isKernel, isWriteable) && lo <= p && p in r && p in r' && r'[p].frame != 0
    requires r' == r[p := Given(r[p], isKernel, isWriteable, r'[p].frame)]
    ensures Expanded(m, r', lo, p + 1, isKernel, isWriteable)
  {
  }

  /** The frames behind the pages lo..hi-1. */
  ghost function FramesBehind(m: Mapping, lo: nat, hi: nat): (s: set<nat>)
    decreases hi - lo
  {
    if hi <= lo then {}
    else FramesBehind(m, lo, hi - 1) + if hi - 1 in m && m[hi - 1].frame != 0 then {m[hi - 1].frame} else {}
  }

  lemma OneMoreFreed(m: Mapping, r: Mapping, r': Mapping, p: nat, hi: nat)
    requires Contracted(m, r, p + 1, hi) && p in r && p < hi && r' == r[p := r[p].(frame := 0)]
    ensures Contracted(m, r', p, hi)
  {
  }

  /** Those that pages without one were given. */
  ghost function FramesGiven(m: Mapping, r: Mapping, lo: nat, hi: nat): (s: set<nat>)
    decreases hi - lo
  {
    if hi <= lo then {}
    else FramesGiven(m, r, lo, hi - 1) + if hi - 1 in m && m[hi - 1].frame == 0 && hi - 1 in r then {r[hi - 1].frame} else {}
  }

  lemma {:induction false} FramesBehindHas(m: Mapping, lo: nat, hi: nat)
    ensures forall f :: f in FramesBehind(m, lo, hi) <==> exists p :: lo <= p < hi && p in m && m[p].frame == f && f != 0
    decreases hi - lo
  {
    if lo < hi {
      FramesBehindHas(m, lo, hi - 1);
      forall f ensures f in FramesBehind(m, lo, hi) <==> exists p :: lo <= p < hi && p in m && m[p].frame == f && f != 0 {
        if f in FramesBehind(m, lo, hi) && f !in FramesBehind(m, lo, hi - 1) { assert m[hi - 1].frame == f; }
      }
    }
  }

  lemma {:induction false} FramesGivenSame(m: Mapping, r: Mapping, r': Mapping, lo: nat, hi: nat)
    requires r.Keys == r'.Keys && forall p | p in r && lo <= p < hi :: r'[p] == r[p]
    ensures FramesGiven(m, r, lo, hi) == FramesGiven(m, r', lo, hi)
    decreases hi - lo
  {
    if lo < hi { FramesGivenSame(m, r, r', lo, hi - 1); }
  }

  /** How the loop of expand ends: all pages have frames, or it stopped at a page
      for which no frame was left, or at one without a table. */
  datatype Growth = Grown | NoFrame | NoTable

  /** Pages lo..p-1 have been given frames, and just those came into use. */
  ghost predicate GrownTo(pager: Pager, dir: PageDirectory, m: Mapping, used: set<nat>, lo: nat, p: nat, isKernel: bool, isWriteable: bool)
    reads pager, pager.frameMap, pager.frameMap.frames, pager.known, dir
  {
    && Ready(pager, dir) && lo <= p && (forall q | lo <= q < p :: q in m)
    && Expanded(m, PagesOf(pager, dir), lo, p, isKernel, isWriteable)
    && pager.frameMap.InUse() == used + FramesGiven(m, PagesOf(pager, dir), lo, p)
    && FramesGiven(m, PagesOf(pager, dir), lo, p) !! used
  }

  lemma SameKeys(m: Mapping, r: Mapping, lo: nat, p: nat, isKernel: bool, isWriteable: bool)
    requires Expanded(m, r, lo, p, isKernel, isWriteable)
    ensures r.Keys == m.Keys && (p in m ==> p in r && r[p] == m[p])
  {
  }

  lemma OneMoreGiven(m: Mapping, r: Mapping, r': Mapping, lo: nat, p: nat, used: set<nat>, used1: set<nat>, used2: set<nat>)
    requires lo <= p && p in m && p in r && r.Keys == m.Keys && r[p] == m[p] && p in r' && r' == r[p := r'[p]]
    requires used1 == used + FramesGiven(m, r, lo, p) && FramesGiven(m, r, lo, p) !! used && used2 == used1 + {r'[p].frame}
    requires m[p].frame != 0 <==> r'[p].frame in used1
    ensures used2 == used + FramesGiven(m, r', lo, p + 1) && FramesGiven(m, r', lo, p + 1) !! used
  {
    FramesGivenSame(m, r, r', lo, p);
  }

  lemma PageGrown(pager: Pager, dir: PageDirectory, m: Mapping, before: Mapping, used: set<nat>, used1: set<nat>, lo: nat, p: nat, isKernel: bool, isWriteable: bool)
    requires Ready(pager, dir) && lo <= p && (forall q | lo <= q < p :: q in m)
    requires Expanded(m, before, lo, p, isKernel, isWriteable) && p in m && p in before && before[p] == m[p]
    requires var r := PagesOf(pager, dir);
             && p in r && r[p].frame != 0 && r == before[p := Given(m[p], isKernel, isWriteable, r[p].frame)]
             && (m[p].frame != 0 <==> r[p].frame in used1) && pager.frameMap.InUse() == used1 + {r[p].frame}
    requires used1 == used + FramesGiven(m, before, lo, p) && FramesGiven(m, before, lo, p) !! used
    ensures GrownTo(pager, dir, m, used, lo, p + 1, isKernel, isWriteable)
  {
    hide MappingOf, Ok, Sane, PagesOf, FramesGiven, UsedSet, LowestFree, Expanded;
    SameKeys(m, before, lo, p, isKernel, isWriteable);
    OneMoreBacked(m, before, PagesOf(pager, dir), lo, p, isKernel, isWriteable);
    OneMoreGiven(m, before, PagesOf(pager, dir), lo, p, used, used1, pager.frameMap.InUse());
  }

  lemma TableOrNot(pager: Pager, dir: PageDirectory, p: nat)
    requires Ok(pager, dir) && p < PAGES
    ensures |dir.tables| == ENTRIES && (p in PagesOf(pager, dir) <==> dir.tables[p / ENTRIES] != null)
  {
    hide UsedSet, Accounted;
  }

  /** One turn of the loop of expand. */
  method GrowPage(pager: Pager, dir: PageDirectory, address: Word, isKernel: bool, isWriteable: bool, ghost m: Mapping, ghost used: set<nat>, ghost lo: nat) returns (g: Growth)
    requires address % PAGE == 0 && lo <= address / PAGE && GrownTo(pager, dir, m, used, lo, address / PAGE, isKernel, isWriteable)
    modifies pager`placement, pager`known, dir, pager.frameMap.frames, pager.known
    ensures pager.known == old(pager.known)
    ensures g == Grown ==> GrownTo(pager, dir, m, used, lo, address / PAGE + 1, isKernel, isWriteable)
    ensures g != Grown ==> GrownTo(pager, dir, m, used, lo, address / PAGE, isKernel, isWriteable)
    ensures g == NoTable <==> address / PAGE !in m
    ensures g == NoFrame ==> address / PAGE in m && m[address / PAGE].frame == 0 && pager.OutOfFrames()
  {
    hide MappingOf, Ok, Sane, PagesOf, FramesGiven, UsedSet, LowestFree, Expanded;
    ghost var p, before, used1 := address / PAGE, PagesOf(pager, dir), pager.frameMap.InUse();
    TableOrNot(pager, dir, p);
    SameKeys(m, before, lo, p, isKernel, isWriteable);
    if dir.tables[address / PAGE / ENTRIES] == null {
      return NoTable;
    }
    var ok := BackPage(pager, dir, address, isKernel, isWriteable);
    if !ok {
      return NoFrame;
    }
    PageGrown(pager, dir, m, before, used, used1, lo, p, isKernel, isWriteable);
    return Grown;
  }

  lemma NothingGrown(pager: Pager, dir: PageDirectory, lo: nat, isKernel: bool, isWriteable: bool)
    requires Ready(pager, dir)
    ensures GrownTo(pager, dir, PagesOf(pager, dir), pager.frameMap.InUse(), lo, lo, isKernel, isWriteable)
  {
    hide Ok, Sane, PagesOf, UsedSet;
  }

  lemma GrownMeans(pager: Pager, dir: PageDirectory, m: Mapping, used: set<nat>, lo: nat, p: nat, isKernel: bool, isWriteable: bool)
    requires GrownTo(pager, dir, m, used, lo, p, isKernel, isWriteable)
    ensures Ok(pager, dir)
    ensures var r := PagesOf(pager, dir);
            && r.Keys == m.Keys
            && (forall q | q in m && lo <= q < p && m[q].frame == 0 ::
                  r[q].present && r[q].rw == isWriteable && r[q].user == !isKernel && r[q].frame != 0)
            && (forall q | q in m && !(lo <= q < p && m[q].frame == 0) :: r[q] == m[q])
  {
    hide Ok, Sane, PagesOf, UsedSet, Expanded, FramesGiven;
    ExpandedMeans(m, PagesOf(pager, dir), lo, p, isKernel, isWriteable);
  }

  /** The loop of expand: pages from the old end on get frames, up to page `stop`. */
  method ExpandPages(pager: Pager, dir: PageDirectory, start: nat, oldSize: nat, newSize: nat, supervisor: bool, readonly: bool) returns (g: Growth, ghost stop: nat)
    requires start % PAGE == 0 && oldSize % PAGE == 0 && newSize % PAGE == 0 && oldSize <= newSize && start + newSize <= ADDRESS_SPACE
    requires Ready(pager, dir)
    modifies pager`placement, pager`known, dir, pager.frameMap.frames, pager.known
    ensures pager.known == old(pager.known) && stop <= (start + newSize) / PAGE
    ensures GrownTo(pager, dir, old(PagesOf(pager, dir)), old(pager.frameMap.InUse()), (start + oldSize) / PAGE, stop, supervisor, !readonly)
    ensures g == Grown <==> stop == (start + newSize) / PAGE
    ensures PagesOf(pager, dir).Keys == old(PagesOf(pager, dir)).Keys
    ensures forall p | p in old(PagesOf(pager, dir)) && (start + oldSize) / PAGE <= p < stop && old(PagesOf(pager, dir))[p].frame == 0 ::
              var e := PagesOf(pager, dir)[p]; e.present && e.rw == !readonly && e.user == !supervisor && e.frame != 0
    ensures forall p | p in old(PagesOf(pager, dir)) && !((start + oldSize) / PAGE <= p < stop && old(PagesOf(pager, dir))[p].frame == 0) ::
              PagesOf(pager, dir)[p] == old(PagesOf(pager, dir))[p]
    ensures g == NoTable ==> stop !in old(PagesOf(pager, dir))
    ensures g == NoFrame ==> stop in old(PagesOf(pager, dir)) && old(PagesOf(pager, dir))[stop].frame == 0 && pager.OutOfFrames()
  {
    hide GrownTo, Ok, Sane, PagesOf, UsedSet, LowestFree;
    ghost var m, used, lo := PagesOf(pager, dir), pager.frameMap.InUse(), (start + oldSize) / PAGE;
    var i := oldSize;
    NothingGrown(pager, dir, lo, supervisor, !readonly);
    while i < newSize
      invariant oldSize <= i <= newSize && i % PAGE == 0 && pager.known == old(pager.known)
      invariant GrownTo(pager, dir, m, used, lo, (start + i) / PAGE, supervisor, !readonly)
    {
      assert (start + i + PAGE) / PAGE == (start + i) / PAGE + 1;
      g := GrowPage(pager, dir, start + i, supervisor, !readonly, m, used, lo);
      if g != Grown {
        stop := (start + i) / PAGE;
        GrownMeans(pager, dir, m, used, lo, stop, supervisor, !readonly);
        return;
      }
      i := i + PAGE;
    }
    g, stop := Grown, (start + newSize) / PAGE;
    GrownMeans(pager, dir, m, used, lo, stop, supervisor, !readonly);
  }

  /** Pages p..hi-1 have lost their frames, and just those came free. */
  ghost predicate ShrunkTo(pager: Pager, dir: PageDirectory, m: Mapping, used: set<nat>, p: nat, hi: nat)
    reads pager, pager.frameMap, pager.frameMap.frames, pager.known, dir
  {
    && Ready(pager, dir) && Contracted(m, PagesOf(pager, dir), p, hi)
    && pager.frameMap.InUse() == used - FramesBehind(m, p, hi)
  }

  lemma {:induction false} FramesBehindFront(m: Mapping, lo: nat, hi: nat)
    requires lo < hi
    ensures FramesBehind(m, lo, hi) == FramesBehind(m, lo + 1, hi) + if lo in m && m[lo].frame != 0 then {m[lo].frame} else {}
    decreases hi - lo
  {
    if lo + 1 < hi { FramesBehindFront(m, lo, hi - 1); }
  }

  lemma EntryKept(m: Mapping, r: Mapping, p: nat, hi: nat)
    requires Contracted(m, r, p + 1, hi) && p in m
    ensures p in r && r[p] == m[p]
  {
  }

  /** One turn of the loop of contract. */
  method ShrinkPage(pager: Pager, dir: PageDirectory, address: Word, ghost m: Mapping, ghost used: set<nat>, ghost hi: nat)
    requires address / PAGE < hi && address / PAGE in m && ShrunkTo(pager, dir, m, used, address / PAGE + 1, hi)
    modifies pager`placement, pager`known, dir, pager.frameMap.frames, pager.known
    ensures pager.known == old(pager.known) && ShrunkTo(pager, dir, m, used, address / PAGE, hi)
  {
    hide UsedSet, LowestFree, MappingOf, Ok, Sane, PagesOf, Contracted, FramesBehind;
    ghost var p, before := address / PAGE, PagesOf(pager, dir);
    EntryKept(m, before, p, hi);
    FramesBehindFront(m, p, hi);
    UnbackPage(pager, dir, address);
    OneMoreFreed(m, before, PagesOf(pager, dir), p, hi);
  }

  lemma NothingShrunk(pager: Pager, dir: PageDirectory, hi: nat)
    requires Ready(pager, dir)
    ensures ShrunkTo(pager, dir, PagesOf(pager, dir), pager.frameMap.InUse(), hi, hi)
    ensures ShrunkTo(pager, dir, PagesOf(pager, dir), pager.frameMap.InUse(), hi + 1, hi)
  {
    hide UsedSet, Ok, Sane, PagesOf;
  }

  lemma ShrunkMeans(pager: Pager, dir: PageDirectory, m: Mapping, used: set<nat>, p: nat, hi: nat)
    requires ShrunkTo(pager, dir, m, used, p, hi)
    ensures Ok(pager, dir)
    ensures var r := PagesOf(pager, dir);
            && r.Keys == m.Keys
            && forall q | q in m ::
                 if p <= q < hi then r[q].frame == 0 && r[q].present == m[q].present && r[q].rw == m[q].rw && r[q].user == m[q].user
                 else r[q] == m[q]
  {
    hide Ok, Sane, PagesOf, UsedSet, FramesBehind;
  }

  /** The loop of contract: pages from the last down to the one above the new
      end lose their frames. */
  method ContractPages(pager: Pager, dir: PageDirectory, start: nat, oldSize: nat, newSize: nat)
    requires start % PAGE == 0 && oldSize % PAGE == 0 && newSize % PAGE == 0 && newSize <= oldSize && start + oldSize <= ADDRESS_SPACE
    requires Ready(pager, dir)
    requires forall p | (start + newSize) / PAGE < p < (start + oldSize) / PAGE :: p in PagesOf(pager, dir)
    modifies pager`placement, pager`known, dir, pager.frameMap.frames, pager.known
    ensures pager.known == old(pager.known)
    ensures ShrunkTo(pager, dir, old(PagesOf(pager, dir)), old(pager.frameMap.InUse()), (start + newSize) / PAGE + 1, (start + oldSize) / PAGE)
    ensures PagesOf(pager, dir).Keys == old(PagesOf(pager, dir)).Keys
    ensures forall p | p in old(PagesOf(pager, dir)) ::
              var e, e0 := PagesOf(pager, dir)[p], old(PagesOf(pager, dir))[p];
              if (start + newSize) / PAGE < p < (start + oldSize) / PAGE then
                e.frame == 0 && e.present == e0.present && e.rw == e0.rw && e.user == e0.user
              else e == e0
  {
    hide UsedSet, Ok, Sane, PagesOf, ShrunkTo;
    ghost var m, used, hi := PagesOf(pager, dir), pager.frameMap.InUse(), (start + oldSize) / PAGE;
    var i: int := oldSize - PAGE;
    NothingShrunk(pager, dir, hi);
    assert (start + i) / PAGE + 1 == hi;
    while newSize < i
      invariant i % PAGE == 0 && i < oldSize && (newSize <= i || i == oldSize - PAGE)
      invariant pager.known == old(pager.known) && ShrunkTo(pager, dir, m, used, (start + i) / PAGE + 1, hi)
      invariant newSize > i ==> ShrunkTo(pager, dir, m, used, hi + 1, hi)
    {
      assert (start + i - PAGE) / PAGE == (start + i) / PAGE - 1;
      ShrinkPage(pager, dir, start + i, m, used, hi);
      i := i - PAGE;
    }
    ShrunkMeans(pager, dir, m, used, (start + newSize) / PAGE + 1, hi);
  }

  // ---- The flags of a range of pages ----

  /** Pages of lo..hi-1 without a frame aside, each has its old entry or is present
      with the flags asked for; pages elsewhere have their old entries. */
  ghost predicate FlagsKept(m: Mapping, r: Mapping, lo: nat, hi: nat, isKernel: bool, isWriteable: bool)
  {
    && r.Keys == m.Keys
    && forall p | p in m ::
         || r[p] == m[p]
         || (lo <= p < hi && (r[p].frame == 0 || (r[p].present && r[p].rw == isWriteable && r[p].user == !isKernel)))
  }

  lemma FlagsAfterExpand(m: Mapping, r: Mapping, a: nat, b: nat, lo: nat, hi: nat, isKernel: bool, isWriteable: bool)
    requires Expanded(m, r, a, b, isKernel, isWriteable) && lo <= a && b <= hi
    ensures FlagsKept(m, r, lo, hi, isKernel, isWriteable)
  {
  }

  lemma FlagsAfterContract(m: Mapping, r: Mapping, a: nat, b: nat, lo: nat, hi: nat, isKernel: bool, isWriteable: bool)
    requires Contracted(m, r, a, b) && lo <= a && b <= hi
    ensures FlagsKept(m, r, lo, hi, isKernel, isWriteable)
  {
  }

  lemma FlagsKeptOn(m: Mapping, r: Mapping, r': Mapping, lo: nat, hi: nat, isKernel: bool, isWriteable: bool)
    requires FlagsKept(m, r, lo, hi, isKernel, isWriteable) && FlagsKept(r, r', lo, hi, isKernel, isWriteable)
    ensures FlagsKept(m, r', lo, hi, isKernel, isWriteable)
  {
  }

  // ---- The frames of a range of pages, and all others ----

  lemma ExpandedBut(m: Mapping, r: Mapping, a: nat, b: nat, isKernel: bool, isWriteable: bool)
    requires Expanded(m, r, a, b, isKernel, isWriteable) && a < b
    ensures var r1 := if b - 1 in m then r[b - 1 := m[b - 1]] else r;
            Expanded(m, r1, a, b - 1, isKernel, isWriteable) && r1.Keys == r.Keys
  {
  }

  lemma {:induction false} FramesBehindSame(m: Mapping, r: Mapping, lo: nat, hi: nat)
    requires m.Keys == r.Keys && forall p | p in m && lo <= p < hi :: r[p].frame == m[p].frame
    ensures FramesBehind(m, lo, hi) == FramesBehind(r, lo, hi)
    decreases hi - lo
  {
    if lo < hi { FramesBehindSame(m, r, lo, hi - 1); }
  }

  /** Pages of lo..hi-1 were given frames: these now stand behind the range. */
  lemma {:induction false} GrownBehind(m: Mapping, r: Mapping, lo: nat, hi: nat, a: nat, b: nat, isKernel: bool, isWriteable: bool)
    requires Expanded(m, r, a, b, isKernel, isWriteable) && lo <= a && b <= hi && a <= b
    ensures FramesBehind(r, lo, hi) == FramesBehind(m, lo, hi) + FramesGiven(m, r, a, b)
    decreases hi - lo
  {
    if lo < hi {
      if b < hi {
        GrownBehind(m, r, lo, hi - 1, a, b, isKernel, isWriteable);
      } else if a < b {
        ExpandedBut(m, r, a, b, isKernel, isWriteable);
        var r1 := if b - 1 in m then r[b - 1 := m[b - 1]] else r;
        GrownBehind(m, r1, lo, hi - 1, a, b - 1, isKernel, isWriteable);
        FramesGivenSame(m, r, r1, a, b - 1);
        FramesBehindSame(r, r1, lo, hi - 1);
      } else {
        FramesBehindSame(m, r, lo, hi);
      }
    }
  }

  /** No frame stands behind two pages. */
  ghost predicate Distinct(m: Mapping)
  {
    forall p, q | p in m && q in m && m[p].frame != 0 && m[p].frame == m[q].frame :: p == q
  }

  /** Pages of lo..hi-1 lost their frames: these no longer stand behind the range. */
  lemma ShrunkBehind(m: Mapping, r: Mapping, lo: nat, hi: nat, a: nat, b: nat)
    requires Contracted(m, r, a, b) && Distinct(m) && lo <= a && b <= hi
    ensures FramesBehind(r, lo, hi) == FramesBehind(m, lo, hi) - FramesBehind(m, a, b)
    ensures FramesBehind(m, a, b) <= FramesBehind(m, lo, hi)
  {
    FramesBehindHas(m, lo, hi);
    FramesBehindHas(r, lo, hi);
    FramesBehindHas(m, a, b);
    forall f ensures f in FramesBehind(r, lo, hi) <==> f in FramesBehind(m, lo, hi) - FramesBehind(m, a, b) {
      if f in FramesBehind(r, lo, hi) {
        var p :| lo <= p < hi && p in r && r[p].frame == f && f != 0;
        assert m[p].frame == f && !(a <= p < b);
      }
      if f in FramesBehind(m, lo, hi) && f !in FramesBehind(m, a, b) {
        var p :| lo <= p < hi && p in m && m[p].frame == f && f != 0;
        assert p in r && r[p].frame == f;
      }
    }
  }
}
