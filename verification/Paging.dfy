/** Page tables of hal/x86/memory/paging.c: two-level lookup, handing frames to
    pages, the identity map made at boot, and cloning a directory; with the
    placement allocator of hal/x86/memory/kheap.c that serves them. */
module Paging {
  import opened Memory
  import opened Frames

  const ENTRIES := 1024
  const BOOT_MEMORY := 0x100_0000

  datatype PageEntry = PageEntry(present: bool, rw: bool, user: bool, accessed: bool, dirty: bool, frame: nat)

  const NO_PAGE := PageEntry(false, false, false, false, false, 0)

  class PageTable {
    var pages: seq<PageEntry>

    /** A table in zeroed memory. */
    constructor ()
      ensures pages == seq(ENTRIES, _ => NO_PAGE)
    {
      pages := seq(ENTRIES, _ => NO_PAGE);
    }
  }

  class PageDirectory {
    var tables: seq<PageTable?>
    var tablesPhysical: seq<nat>
    var physicalAddr: nat

    /** A directory in zeroed memory. */
    constructor ()
      ensures tables == seq(ENTRIES, _ => null) && tablesPhysical == seq(ENTRIES, _ => 0)
    {
      tables := seq(ENTRIES, _ => null);
      tablesPhysical := seq(ENTRIES, _ => 0);
      physicalAddr := 0;
    }
  }

  // ---- The placement allocator ----

  /** Where a request is placed: an aligned one starts the next page even when
      the placement address is already on a boundary. */
  function PlacedAt(placement: nat, align: bool): (a: nat)
    ensures placement <= a <= placement + PAGE
    ensures align && PAGE <= placement ==> a % PAGE == 0 && placement < a
    ensures !align ==> a == placement
  {
    if align && PAGE <= placement then placement - placement % PAGE + PAGE else placement
  }

  datatype Request = Request(size: nat, align: bool)

  /** The ranges handed out for a list of requests. */
  function Placements(placement: nat, requests: seq<Request>): (ranges: seq<(nat, nat)>)
    ensures |ranges| == |requests|
    decreases |requests|
  {
    if requests == [] then []
    else
      var a := PlacedAt(placement, requests[0].align);
      [(a, requests[0].size)] + Placements(a + requests[0].size, requests[1..])
  }

  /** No two placed ranges overlap, and none lies below the starting address. */
  lemma {:induction false} PlacementsDisjoint(placement: nat, requests: seq<Request>)
    ensures var r := Placements(placement, requests);
            && (forall i | 0 <= i < |r| :: placement <= r[i].0 && r[i].1 == requests[i].size)
            && (forall i, j | 0 <= i < j < |r| :: r[i].0 + r[i].1 <= r[j].0)
            && (PAGE <= placement ==> forall i | 0 <= i < |r| && requests[i].align :: r[i].0 % PAGE == 0)
    decreases |requests|
  {
    if requests != [] {
      var a := PlacedAt(placement, requests[0].align);
      PlacementsDisjoint(a + requests[0].size, requests[1..]);
    }
  }

  /** Each range goes on where the one before ended: right there if it need not be
      aligned, else at the next boundary above. */
  lemma PlacementsFollow(placement: nat, requests: seq<Request>, i: nat)
    requires i < |requests| && PAGE <= placement
    ensures var r := Placements(placement, requests);
            var from := if i == 0 then placement else r[i - 1].0 + r[i - 1].1;
            && PAGE <= from && r[i].1 == requests[i].size
            && (if requests[i].align then from < r[i].0 <= from + PAGE && r[i].0 % PAGE == 0 else r[i].0 == from)
    decreases i
  {
    if i > 0 {
      PlacementsFollow(PlacedAt(placement, requests[0].align) + requests[0].size, requests[1..], i - 1);
    }
  }

  // ---- kmalloc_int's physical address, once the heap exists ----

  /** What line 24 computes: `&` binds last. */
  function PhysAsWritten(frame: nat, addr: Word): (phys: nat)
    requires frame < 0x10_0000
  {
    (frame * PAGE + addr) % ADDRESS_SPACE % PAGE
  }

  /** It is the physical address of addr exactly when the page lies in frame 0. */
  lemma PhysAsWrittenExactly(frame: nat, addr: Word)
    requires frame < 0x10_0000
    ensures PhysAsWritten(frame, addr) == frame * PAGE + addr % PAGE <==> frame == 0
  {
    assert (frame * PAGE + addr) % ADDRESS_SPACE % PAGE == (frame * PAGE + addr) % PAGE == addr % PAGE;
  }

  // ---- The sequence of frames successive allocations take ----

  /** The frames in use after n allocations. */
  ghost function UsedAfter(used: set<nat>, limit: nat, n: nat): (s: set<nat>)
  {
    if n == 0 then used
    else
      var s := UsedAfter(used, limit, n - 1);
      s + {LowestFree(s, 0, limit)}
  }

  /** The frame allocation n takes. */
  ghost function NthFrame(used: set<nat>, limit: nat, n: nat): (f: nat)
  {
    LowestFree(UsedAfter(used, limit, n), 0, limit)
  }

  lemma {:induction false} UsedAfterIdentity(used: set<nat>, limit: nat, n: nat)
    requires n <= limit && forall f | 0 <= f < n :: f !in used
    ensures forall f :: f in UsedAfter(used, limit, n) <==> f in used || 0 <= f < n
    ensures n < limit && n !in used ==> NthFrame(used, limit, n) == n
  {
    if n > 0 {
      UsedAfterIdentity(used, limit, n - 1);
    }
    if n < limit && n !in used {
      LowestFreeIs(UsedAfter(used, limit, n), limit, n);
    }
  }

  lemma {:induction false} UsedAfterGrows(used: set<nat>, limit: nat, n: nat)
    ensures used <= UsedAfter(used, limit, n)
  {
    if n > 0 { UsedAfterGrows(used, limit, n - 1); }
  }

  /** Allocations that all succeed take frames 0, 1, ..., n-1 exactly when none
      of these was in use before. */
  lemma IdentityExactly(used: set<nat>, limit: nat, n: nat)
    requires forall k | 0 <= k < n :: NthFrame(used, limit, k) < limit
    ensures (forall k | 0 <= k < n :: NthFrame(used, limit, k) == k) <==> forall f | 0 <= f < n :: f !in used
  {
    if forall f | 0 <= f < n :: f !in used {
      if limit < n {
        UsedAfterIdentity(used, limit, limit);
        var f := NthFrame(used, limit, limit);
        assert false;
      }
      forall k | 0 <= k < n ensures NthFrame(used, limit, k) == k {
        UsedAfterIdentity(used, limit, k);
      }
    } else {
      var f :| 0 <= f < n && f in used;
      UsedAfterGrows(used, limit, f);
      assert NthFrame(used, limit, f) != f;
    }
  }

  // ---- free_frame as written ----

  /** Passing the frame number where an address is expected clears the bit of
      frame/4096 instead: the frame a page held stays in use. */
  lemma FreeAsWrittenNeverFrees(used: set<nat>, frame: nat)
    requires frame in used
    ensures used - {frame / FRAME_SIZE} == used - {frame} <==> frame == 0
  {
    if frame != 0 {
      assert frame in used - {frame / FRAME_SIZE};
    }
  }

  /** For a frame in the first 16 megabytes it clears the bit of frame 0, which
      the next allocation then hands out a second time. */
  lemma FreeAsWrittenGivesAwayFrameZero(used: set<nat>, frame: nat, limit: nat)
    requires 0 < frame < FRAME_SIZE && frame in used && 0 in used && 0 < limit
    ensures LowestFree(used - {frame / FRAME_SIZE}, 0, limit) == 0
    ensures frame in used - {frame / FRAME_SIZE}
  {
    assert frame / FRAME_SIZE == 0;
  }

  // ---- Who holds which frame ----

  /** Every table of the set is whole; a frame some page holds is in use, and no
      two pages hold the same one. A frame number of 0 means that the page holds none. */
  ghost predicate Accounted(known: set<PageTable>, used: set<nat>)
    reads known
  {
    && (forall t | t in known :: |t.pages| == ENTRIES)
    && (forall t, i | t in known && 0 <= i < ENTRIES && t.pages[i].frame != 0 :: t.pages[i].frame in used)
    && (forall t, u, i, j | t in known && u in known && 0 <= i < ENTRIES && 0 <= j < ENTRIES
                            && t.pages[i].frame != 0 && t.pages[i].frame == u.pages[j].frame :: t == u && i == j)
  }

  /** The same, of the entries themselves. */
  ghost predicate EntriesAccounted(entries: map<PageTable, seq<PageEntry>>, used: set<nat>)
  {
    && (forall t | t in entries :: |entries[t]| == ENTRIES)
    && (forall t, i | t in entries && 0 <= i < ENTRIES && entries[t][i].frame != 0 :: entries[t][i].frame in used)
    && (forall t, u, i, j | t in entries && u in entries && 0 <= i < ENTRIES && 0 <= j < ENTRIES
                            && entries[t][i].frame != 0 && entries[t][i].frame == entries[u][j].frame :: t == u && i == j)
  }

  ghost function EntriesOf(known: set<PageTable>): (entries: map<PageTable, seq<PageEntry>>)
    reads known
  {
    map t | t in known :: t.pages
  }

  lemma AccountedEntries(known: set<PageTable>, used: set<nat>)
    ensures Accounted(known, used) <==> EntriesAccounted(EntriesOf(known), used)
  {
    var e := EntriesOf(known);
    if EntriesAccounted(e, used) {
      assert forall t | t in known :: t in e && e[t] == t.pages;
    }
  }

  /** Flags do not matter. */
  lemma SameFramesAccounted(entries: map<PageTable, seq<PageEntry>>, used: set<nat>, t: PageTable, pages: seq<PageEntry>)
    requires EntriesAccounted(entries, used) && t in entries
    requires |pages| == ENTRIES && forall i | 0 <= i < ENTRIES :: pages[i].frame == entries[t][i].frame
    ensures EntriesAccounted(entries[t := pages], used)
  {
  }

  lemma BlankTableAccounted(known: set<PageTable>, t: PageTable, used: set<nat>)
    requires Accounted(known, used) && t !in known && t.pages == seq(ENTRIES, _ => NO_PAGE)
    ensures Accounted(known + {t}, used)
  {
  }

  /** Table t agrees with a map of the first n pages. */
  ghost predicate TableMapped(pages: seq<PageEntry>, t: nat, used: set<nat>, limit: nat, n: nat)
  {
    |pages| == ENTRIES && forall i | 0 <= i < ENTRIES ::
      if t * ENTRIES + i < n then
        pages[i].present && !pages[i].rw && pages[i].user && pages[i].frame == NthFrame(used, limit, t * ENTRIES + i) < limit
      else pages[i].frame == 0
  }

  lemma BlankTableMapped(t: nat, used: set<nat>, limit: nat, n: nat)
    ensures n <= t * ENTRIES ==> TableMapped(seq(ENTRIES, _ => NO_PAGE), t, used, limit, n)
  {
  }

  lemma OtherTableMapped(pages: seq<PageEntry>, t: nat, used: set<nat>, limit: nat, n: nat)
    requires TableMapped(pages, t, used, limit, n) && t != n / ENTRIES
    ensures TableMapped(pages, t, used, limit, n + 1)
  {
  }

  lemma NextIsBlank(pages: seq<PageEntry>, t: nat, slot: nat, used: set<nat>, limit: nat, n: nat)
    requires TableMapped(pages, t, used, limit, n) && t == n / ENTRIES && slot == n % ENTRIES
    ensures pages[slot].frame == 0
  {
  }

  lemma NextMapped(before: seq<PageEntry>, after: seq<PageEntry>, t: nat, slot: nat, used: set<nat>, limit: nat, n: nat)
    requires TableMapped(before, t, used, limit, n) && t == n / ENTRIES && slot == n % ENTRIES
    requires NthFrame(used, limit, n) < limit
    requires after == before[slot := before[slot].(present := true, rw := false, user := true, frame := NthFrame(used, limit, n))]
    ensures TableMapped(after, t, used, limit, n + 1)
  {
  }

  /** The tables that n pages from 0 on fall into. */
  function Rows(n: nat): (r: nat)
  {
    (n + ENTRIES - 1) / ENTRIES
  }

  lemma RowsBound(n: nat)
    ensures 2 * PAGE * Rows(n) <= 8 * n + 2 * PAGE
    ensures Rows(n + 1) == Rows(n) + if n % ENTRIES == 0 then 1 else 0
  {
  }

  // ---- Where new tables are ----

  /** At most a table for slot k was made. It was placed behind all that was
      placed before, and the directory knows where; the flags in the low bits say
      that it is present, writeable and open to the user. */
  ghost predicate TableMade(tables: seq<PageTable?>, phys: seq<nat>, placement: nat, tables': seq<PageTable?>, phys': seq<nat>, placement': nat, k: nat)
  {
    || (tables' == tables && phys' == phys && placement' == placement)
    || (&& k < |tables| == |phys| == |tables'| && tables[k] == null && tables'[k] != null && tables' == tables[k := tables'[k]]
        && phys' == phys[k := PlacedAt(placement, true) + 7] && placement' == PlacedAt(placement, true) + PAGE)
  }

  /** The tables made since are whole pages of lo..hi-1, no two of them overlap, and
      the directory has their addresses, with the three low bits set; what it has
      for all other slots is as before, and none was emptied. */
  ghost predicate TablesPlaced(tables0: seq<PageTable?>, phys0: seq<nat>, tables: seq<PageTable?>, phys: seq<nat>, lo: nat, hi: nat)
  {
    && |tables0| == |phys0| == |tables| == |phys| == ENTRIES
    && (forall k | 0 <= k < ENTRIES && tables[k] == null :: tables0[k] == null)
    && (forall k | 0 <= k < ENTRIES && tables[k] == tables0[k] :: phys[k] == phys0[k])
    && (forall k | 0 <= k < ENTRIES && tables[k] != tables0[k] :: phys[k] % PAGE == 7 && lo + 7 <= phys[k] && phys[k] + PAGE <= hi + 7)
    && (forall j, k | 0 <= j < ENTRIES && 0 <= k < ENTRIES && j != k && tables[j] != tables0[j] && tables[k] != tables0[k] ::
          phys[j] + PAGE <= phys[k] || phys[k] + PAGE <= phys[j])
  }

  lemma OneMorePlaced(tables0: seq<PageTable?>, phys0: seq<nat>, tables: seq<PageTable?>, phys: seq<nat>, lo: nat, hi: nat, tables': seq<PageTable?>, phys': seq<nat>, hi': nat, k: nat)
    requires TablesPlaced(tables0, phys0, tables, phys, lo, hi) && PAGE <= lo <= hi
    requires TableMade(tables, phys, hi, tables', phys', hi', k)
    ensures TablesPlaced(tables0, phys0, tables', phys', lo, hi')
  {
  }

  // ---- What cloning makes ----

  /** What cloning makes of one page: nothing from nothing; otherwise a frame
      not in use before, with the same contents and the same rw, accessed and
      dirty bits. The copy is always present and always open to the user. */
  ghost predicate CopyOf(from: PageEntry, copy: PageEntry, used: set<nat>, ram: map<nat, Bytes>)
  {
    if from.frame == 0 then copy == NO_PAGE
    else
      && copy.frame != 0 && copy.frame !in used
      && from.frame in ram && copy.frame in ram && ram[copy.frame] == ram[from.frame]
      && copy.rw == from.rw && copy.accessed == from.accessed && copy.dirty == from.dirty
      && copy.present && copy.user
  }

  /** The frame of every page that holds one has contents. */
  ghost predicate FramesFilled(pages: seq<PageEntry>, ram: map<nat, Bytes>)
  {
    forall i | 0 <= i < |pages| && pages[i].frame != 0 :: pages[i].frame in ram
  }

  /** The contents of the frames in `used` are the same. */
  ghost predicate KeptIn(before: map<nat, Bytes>, after: map<nat, Bytes>, used: set<nat>)
  {
    forall f | f in before && f in used :: f in after && after[f] == before[f]
  }

  /** The frames of the first n pages are in use. */
  ghost predicate CopiesIn(copy: seq<PageEntry>, n: nat, used: set<nat>)
  {
    n <= |copy| && forall i | 0 <= i < n && copy[i].frame != 0 :: copy[i].frame in used
  }

  /** The first n pages are copies. */
  ghost predicate TableCopied(src: seq<PageEntry>, copy: seq<PageEntry>, n: nat, used: set<nat>, ram: map<nat, Bytes>)
  {
    n <= |src| && n <= |copy| && forall i | 0 <= i < n :: CopyOf(src[i], copy[i], used, ram)
  }

  /** How many of the first n pages hold a frame, and which frames these are. */
  ghost function Held(pages: seq<PageEntry>, n: nat): (c: nat)
    requires n <= |pages|
  {
    if n == 0 then 0 else Held(pages, n - 1) + if pages[n - 1].frame != 0 then 1 else 0
  }

  ghost function FramesOf(pages: seq<PageEntry>, n: nat): (s: set<nat>)
    requires n <= |pages|
  {
    if n == 0 then {} else FramesOf(pages, n - 1) + if pages[n - 1].frame != 0 then {pages[n - 1].frame} else {}
  }

  lemma {:induction false} FramesOfSame(p: seq<PageEntry>, q: seq<PageEntry>, n: nat)
    requires n <= |p| && n <= |q| && forall i | 0 <= i < n :: p[i] == q[i]
    ensures FramesOf(p, n) == FramesOf(q, n)
  {
    if n > 0 { FramesOfSame(p, q, n - 1); }
  }

  lemma {:induction false} HeldMonotone(pages: seq<PageEntry>, m: nat, n: nat)
    requires m <= n <= |pages|
    ensures Held(pages, m) <= Held(pages, n)
  {
    if m < n { HeldMonotone(pages, m, n - 1); }
  }

  /** A slot of a cloned directory, given the same slot of the kernel's and of
      the original: empty if it was, the kernel's own table if it was that, and
      otherwise a table unknown before. */
  ghost predicate SlotCloned(kernel: PageTable?, src: PageTable?, copy: PageTable?, srcPhys: nat, copyPhys: nat, known: set<PageTable>)
  {
    if src == null then copy == null
    else if kernel == src then copy == src && copyPhys == srcPhys
    else copy != null && copy !in known
  }

  /** A table made for the clone is a copy of the one in the same slot. */
  ghost predicate SlotCopied(src: PageTable?, copy: PageTable?, known: set<PageTable>, used: set<nat>, ram: map<nat, Bytes>)
    reads src, copy
  {
    copy != null && copy !in known ==> src != null && TableCopied(src.pages, copy.pages, ENTRIES, used, ram)
  }

  lemma PageFilled(pages: seq<PageEntry>, i: nat, ram0: map<nat, Bytes>, ram: map<nat, Bytes>, used: set<nat>)
    requires i < |pages| == ENTRIES && pages[i].frame != 0
    requires FramesFilled(pages, ram0) && CopiesIn(pages, ENTRIES, used) && KeptIn(ram0, ram, used)
    ensures pages[i].frame in ram
  {
  }

  lemma HeldNext(pages: seq<PageEntry>, i: nat)
    requires i < |pages|
    ensures Held(pages, i + 1) == Held(pages, i) + if pages[i].frame != 0 then 1 else 0
    ensures Held(pages, i + 1) <= Held(pages, |pages|)
  {
    HeldMonotone(pages, i + 1, |pages|);
  }

  lemma FramesNext(before: seq<PageEntry>, after: seq<PageEntry>, i: nat)
    requires i < |before| && |after| == |before| && after == before[i := after[i]]
    ensures FramesOf(after, i + 1) == FramesOf(before, i) + if after[i].frame != 0 then {after[i].frame} else {}
  {
    FramesOfSame(before, after, i);
  }

  lemma CopyBegun(src: seq<PageEntry>, copy: seq<PageEntry>, used: set<nat>, ram: map<nat, Bytes>)
    ensures TableCopied(src, copy, 0, used, ram) && CopiesIn(copy, 0, used) && KeptIn(ram, ram, used)
    ensures Held(src, 0) == 0 && FramesOf(copy, 0) == {}
  {
  }

  /** How many frames cloning a slot takes. */
  ghost function SlotCost(kernel: PageTable?, src: PageTable?): (c: nat)
    reads src
  {
    if src == null || kernel == src || |src.pages| < ENTRIES then 0 else Held(src.pages, ENTRIES)
  }

  /** How many frames cloning the first n slots takes. */
  ghost function CostTo(kernel: seq<PageTable?>, src: seq<PageTable?>, n: nat): (c: nat)
    requires n <= |kernel| && n <= |src|
    reads src
  {
    if n == 0 then 0 else CostTo(kernel, src, n - 1) + SlotCost(kernel[n - 1], src[n - 1])
  }

  lemma {:induction false} CostMonotone(kernel: seq<PageTable?>, src: seq<PageTable?>, m: nat, n: nat)
    requires m <= n && n <= |kernel| && n <= |src|
    ensures CostTo(kernel, src, m) <= CostTo(kernel, src, n)
  {
    if m < n { CostMonotone(kernel, src, m, n - 1); }
  }

  ghost function SlotFrames(t: PageTable?, known: set<PageTable>): (s: set<nat>)
    reads t
  {
    if t == null || t in known || |t.pages| < ENTRIES then {} else FramesOf(t.pages, ENTRIES)
  }

  /** The frames behind the tables made for the first n slots. */
  ghost function NewFrames(tables: seq<PageTable?>, n: nat, known: set<PageTable>): (s: set<nat>)
    requires n <= |tables|
    reads tables
  {
    if n == 0 then {}
    else NewFrames(tables, n - 1, known) + SlotFrames(tables[n - 1], known)
  }

  lemma {:induction false} NewFramesSame(tables: seq<PageTable?>, after: seq<PageTable?>, n: nat, known: set<PageTable>)
    requires n <= |tables| && n <= |after| && forall k | 0 <= k < n :: tables[k] == after[k]
    ensures NewFrames(tables, n, known) == NewFrames(after, n, known)
  {
    if n > 0 { NewFramesSame(tables, after, n - 1, known); }
  }

  lemma StillFilled(pages: seq<PageEntry>, ram0: map<nat, Bytes>, ram: map<nat, Bytes>, used: set<nat>)
    requires FramesFilled(pages, ram0) && CopiesIn(pages, ENTRIES, used) && |pages| == ENTRIES && KeptIn(ram0, ram, used)
    ensures FramesFilled(pages, ram)
  {
  }

  /** Copies made earlier stay copies while frames in use keep their contents. */
  lemma CopiedStays(src: seq<PageEntry>, copy: seq<PageEntry>, used0: set<nat>, used1: set<nat>, ram1: map<nat, Bytes>, ram: map<nat, Bytes>)
    requires TableCopied(src, copy, ENTRIES, used0, ram1) && KeptIn(ram1, ram, used1)
    requires CopiesIn(src, ENTRIES, used1) && CopiesIn(copy, ENTRIES, used1)
    ensures TableCopied(src, copy, ENTRIES, used0, ram)
  {
  }

  lemma CopiedWeakened(src: seq<PageEntry>, copy: seq<PageEntry>, used0: set<nat>, used1: set<nat>, ram: map<nat, Bytes>)
    requires TableCopied(src, copy, ENTRIES, used1, ram) && used0 <= used1
    ensures TableCopied(src, copy, ENTRIES, used0, ram)
  {
  }

  lemma OneMoreCopied(src: seq<PageEntry>, before: seq<PageEntry>, after: seq<PageEntry>, i: nat, used0: set<nat>, used1: set<nat>, ram0: map<nat, Bytes>, ram1: map<nat, Bytes>, ram2: map<nat, Bytes>)
    requires i < |src| && i < |before| == |after| && used0 <= used1
    requires TableCopied(src, before, i, used0, ram1) && CopiesIn(before, i, used1) && CopiesIn(src, |src|, used1)
    requires src[i].frame != 0 && after == before[i := after[i]] && CopyOf(src[i], after[i], used1, ram2)
    requires src[i].frame in ram1 && ram2 == ram1[after[i].frame := ram1[src[i].frame]]
    requires KeptIn(ram0, ram1, used0)
    ensures TableCopied(src, after, i + 1, used0, ram2) && CopiesIn(after, i + 1, used1 + {after[i].frame})
    ensures KeptIn(ram0, ram2, used0)
  {
  }

  lemma NothingToCopy(src: seq<PageEntry>, copy: seq<PageEntry>, i: nat, used: set<nat>, ram: map<nat, Bytes>)
    requires i < |src| && i < |copy| && src[i].frame == 0 && copy[i] == NO_PAGE
    requires TableCopied(src, copy, i, used, ram)
    ensures TableCopied(src, copy, i + 1, used, ram)
  {
  }

  /** Behind a table on a page of its own, the next one leaves a page out. */
  lemma BehindTable(placement: nat)
    requires PAGE <= placement
    ensures PlacedAt(PlacedAt(placement, true) + PAGE, true) == PlacedAt(placement, true) + 2 * PAGE
  {
  }

  /** How many of the first n slots get a copied table. */
  ghost function Copies(kernel: seq<PageTable?>, src: seq<PageTable?>, n: nat): (c: nat)
    requires n <= |kernel| && n <= |src|
  {
    if n == 0 then 0 else Copies(kernel, src, n - 1) + if src[n - 1] != null && src[n - 1] != kernel[n - 1] then 1 else 0
  }

  lemma {:induction false} CopiesMonotone(kernel: seq<PageTable?>, src: seq<PageTable?>, m: nat, n: nat)
    requires m <= n <= |kernel| && n <= |src|
    ensures Copies(kernel, src, m) <= Copies(kernel, src, n)
    ensures m < n && src[m] != null && src[m] != kernel[m] ==> Copies(kernel, src, m) < Copies(kernel, src, n)
  {
    if m < n { CopiesMonotone(kernel, src, m, n - 1); }
  }

  /** What a clone has for the addresses of its first n tables: the copied ones lie
      two pages apart from `first` on, and slots left empty have none. */
  ghost predicate Addressed(kernel: seq<PageTable?>, src: seq<PageTable?>, phys: seq<nat>, n: nat, first: nat)
  {
    && n <= |kernel| == |src| == |phys| == ENTRIES
    && (forall k | 0 <= k < n && src[k] == null :: phys[k] == 0)
    && (forall k | 0 <= k < n && src[k] != null && src[k] != kernel[k] :: phys[k] == first + 2 * PAGE * Copies(kernel, src, k) + 7)
    && (forall k | n <= k < ENTRIES :: phys[k] == 0)
  }

  /** The first n tables are there, and the next would go on behind. */
  ghost predicate CopiesPlaced(kernel: seq<PageTable?>, src: seq<PageTable?>, phys: seq<nat>, n: nat, first: nat, placement: nat)
  {
    && Addressed(kernel, src, phys, n, first) && PAGE <= placement
    && PlacedAt(placement, true) == first + 2 * PAGE * Copies(kernel, src, n)
  }

  lemma CopiesNext(kernel: seq<PageTable?>, src: seq<PageTable?>, n: nat)
    requires n < |kernel| && n < |src|
    ensures Copies(kernel, src, n + 1) == Copies(kernel, src, n) + if src[n] != null && src[n] != kernel[n] then 1 else 0
  {
  }

  /** Slot n got a copy, which was placed last. */
  lemma CopyPlaced(kernel: seq<PageTable?>, src: seq<PageTable?>, phys: seq<nat>, n: nat, first: nat, placement: nat, phys': seq<nat>, placement': nat)
    requires CopiesPlaced(kernel, src, phys, n, first, placement) && n < ENTRIES && src[n] != null && src[n] != kernel[n]
    requires phys' == phys[n := PlacedAt(placement, true) + 7] && placement' == PlacedAt(placement, true) + PAGE
    ensures CopiesPlaced(kernel, src, phys', n + 1, first, placement')
  {
    hide PlacedAt, Copies;
    BehindTable(placement);
    CopiesNext(kernel, src, n);
  }

  /** Slot n got none. */
  lemma NoCopyPlaced(kernel: seq<PageTable?>, src: seq<PageTable?>, phys: seq<nat>, n: nat, first: nat, placement: nat, phys': seq<nat>)
    requires CopiesPlaced(kernel, src, phys, n, first, placement) && n < ENTRIES && (src[n] == null || src[n] == kernel[n])
    requires |phys'| == ENTRIES && phys' == phys[n := phys'[n]] && (src[n] == null ==> phys' == phys)
    ensures CopiesPlaced(kernel, src, phys', n + 1, first, placement)
  {
    hide PlacedAt, Copies;
    CopiesNext(kernel, src, n);
  }

  lemma AddressIs(kernel: seq<PageTable?>, src: seq<PageTable?>, phys: seq<nat>, first: nat)
    requires Addressed(kernel, src, phys, ENTRIES, first)
    ensures |src| == |kernel| == |phys| == ENTRIES && forall k | 0 <= k < ENTRIES && src[k] == null :: phys[k] == 0
    ensures forall k | 0 <= k < ENTRIES && src[k] != null && src[k] != kernel[k] :: phys[k] == first + 2 * PAGE * Copies(kernel, src, k) + 7
  {
    hide Copies;
  }

  /** So copied tables are whole pages, between the old placement and the new, and
      do not overlap; their addresses have the three low bits set. */
  lemma AddressesApart(kernel: seq<PageTable?>, src: seq<PageTable?>, phys: seq<nat>, first: nat, placement: nat)
    requires CopiesPlaced(kernel, src, phys, ENTRIES, first, placement) && first % PAGE == 0
    ensures |src| == |kernel| == |phys| == ENTRIES && forall k | 0 <= k < ENTRIES && src[k] == null :: phys[k] == 0
    ensures forall k | 0 <= k < ENTRIES && src[k] != null && src[k] != kernel[k] ::
              phys[k] % PAGE == 7 && first + 7 <= phys[k] && phys[k] + PAGE <= placement + 7
    ensures forall j, k | 0 <= j < k < ENTRIES && src[j] != null && src[j] != kernel[j] && src[k] != null && src[k] != kernel[k] ::
              phys[j] + PAGE <= phys[k]
  {
    hide Copies, PlacedAt, Addressed;
    AddressIs(kernel, src, phys, first);
    forall k | 0 <= k < ENTRIES && src[k] != null && src[k] != kernel[k]
      ensures phys[k] % PAGE == 7 && first + 7 <= phys[k] && phys[k] + PAGE <= placement + 7
    {
      CopiesMonotone(kernel, src, k, ENTRIES);
    }
    forall j, k | 0 <= j < k < ENTRIES && src[j] != null && src[j] != kernel[j] && src[k] != null && src[k] != kernel[k]
      ensures phys[j] + PAGE <= phys[k]
    {
      CopiesMonotone(kernel, src, j, k);
    }
  }

  /** What a virtual page shows: the frame behind it and its contents. */
  datatype Seen = Unmapped | Shows(frame: nat, contents: Bytes)

  /** A call of alloc_frame or free_frame on one page of a table. */
  datatype FrameCall = TakeFrame(table: PageTable, slot: nat, isKernel: bool, isWriteable: bool) | GiveFrame(table: PageTable, slot: nat)

  /** What one call does to the frames in use and the entries of all tables.
      Allocation takes the lowest free frame, for a page that has none. */
  datatype Ledger = Ledger(used: set<nat>, entries: map<PageTable, seq<PageEntry>>)

  /** A page without a frame asks for one when there is none. */
  ghost predicate Panics(b: Ledger, c: FrameCall, limit: nat, none: bool)
  {
    && c.TakeFrame? && !none && LowestFree(b.used, 0, limit) == limit
    && c.table in b.entries && c.slot < |b.entries[c.table]| && b.entries[c.table][c.slot].frame == 0
  }

  ghost function Booked(b: Ledger, c: FrameCall, limit: nat, none: bool): (r: Ledger)
  {
    if c.table !in b.entries || |b.entries[c.table]| <= c.slot then b
    else
      var pages := b.entries[c.table];
      match c
      case TakeFrame(t, slot, isKernel, isWriteable) =>
        var f := LowestFree(b.used, 0, limit);
        if none || pages[slot].frame != 0 || f == limit then b
        else Ledger(b.used + {f}, b.entries[t := pages[slot :=
          pages[slot].(present := true, rw := isWriteable, user := !isKernel, frame := f)]])
      case GiveFrame(t, slot) =>
        if pages[slot].frame == 0 then b
        else Ledger(b.used - {pages[slot].frame}, b.entries[t := pages[slot := pages[slot].(frame := 0)]])
  }

  /** One call, field by field. A page without a frame gets the lowest free one and
      the flags of the call; a page that has one stays as it is, and so does every
      other; a page that gives its frame up only loses its number; and a call
      panics exactly when it needs a frame and every one is in use. */
  lemma BookedMeans(b: Ledger, c: FrameCall, limit: nat, none: bool)
    requires c.table in b.entries && c.slot < |b.entries[c.table]|
    ensures var e, r := b.entries[c.table][c.slot], Booked(b, c, limit, none);
            && r.entries.Keys == b.entries.Keys && |r.entries[c.table]| == |b.entries[c.table]|
            && (forall t | t in b.entries && t != c.table :: r.entries[t] == b.entries[t])
            && (forall i | 0 <= i < |b.entries[c.table]| && i != c.slot :: r.entries[c.table][i] == b.entries[c.table][i])
            && (Panics(b, c, limit, none) <==> c.TakeFrame? && !none && e.frame == 0 && forall f: nat | f < limit :: f in b.used)
            && var e' := r.entries[c.table][c.slot];
               && e'.accessed == e.accessed && e'.dirty == e.dirty
               && (c.TakeFrame? && (none || e.frame != 0 || Panics(b, c, limit, none)) ==> e' == e && r.used == b.used)
               && (c.TakeFrame? && !none && e.frame == 0 && !Panics(b, c, limit, none) ==>
                     && e'.present && e'.rw == c.isWriteable && e'.user == !c.isKernel
                     && e'.frame < limit && e'.frame !in b.used && (forall f: nat | f < e'.frame :: f in b.used)
                     && r.used == b.used + {e'.frame})
               && (c.GiveFrame? ==>
                     && e'.frame == 0 && e'.present == e.present && e'.rw == e.rw && e'.user == e.user
                     && r.used == (if e.frame == 0 then b.used else b.used - {e.frame}))
  {
    if forall f: nat | f < limit :: f in b.used { LowestFreeIs(b.used, limit, limit); }
  }

  /** What a list of calls does. */
  ghost function After(b: Ledger, calls: seq<FrameCall>, limit: nat, none: bool): (r: Ledger)
  {
    if calls == [] then b
    else Booked(After(b, calls[..|calls| - 1], limit, none), calls[|calls| - 1], limit, none)
  }

  lemma NoCalls(b: Ledger, limit: nat, none: bool)
    ensures After(b, [], limit, none) == b
  {
  }

  lemma OneMoreCall(b: Ledger, calls: seq<FrameCall>, k: nat, limit: nat, none: bool)
    requires k < |calls|
    ensures After(b, calls[..k + 1], limit, none) == Booked(After(b, calls[..k], limit, none), calls[k], limit, none)
  {
    assert calls[..k + 1][..k] == calls[..k];
  }

  datatype Outcome = Backed | AlreadyBacked | NoMemory | Panicked

  /** Memory management state: the frame map, the placement allocator, the
      contents of physical memory by frame, and the page tables made so far. */
  class Pager {
    const frameMap: FrameMap
    var usedFrames: nat
    var placement: nat
    var ram: map<nat, Bytes>
    ghost var known: set<PageTable>

    ghost predicate Valid()
      reads this, frameMap.frames, known
    {
      frameMap.Valid() && Accounted(known, frameMap.InUse())
    }

    /** The boot state, when nothing has told how much memory there is: a zeroed
        bitmap for 16 megabytes, no frame counted as used and no tables yet. */
    constructor (placement: nat)
      ensures Valid() && frameMap.InUse() == {} && known == {} && this.placement == placement && usedFrames == 0
      ensures frameMap.nframes == BOOT_MEMORY / PAGE && frameMap.Limit() == 4096 && fresh(frameMap.frames) && fresh(frameMap)
    {
      frameMap := new FrameMap(BOOT_MEMORY / PAGE);
      usedFrames := 0;
      this.placement := placement;
      ram := map[];
      known := {};
    }

    /** kmalloc_int before the heap exists; the physical address is the address itself. */
    method Kmalloc(size: nat, align: bool) returns (addr: nat)
      requires placement + PAGE + size < ADDRESS_SPACE
      modifies this`placement
      ensures addr == PlacedAt(old(placement), align) && placement == addr + size
    {
      if align && placement >= PAGE {
        placement := placement - placement % PAGE;
        placement := placement + PAGE;
      }
      addr := placement;
      placement := placement + size;
    }

    /** No frame is free. */
    ghost predicate OutOfFrames()
      reads frameMap, frameMap.frames
    {
      frameMap.Valid() && LowestFree(frameMap.InUse(), 0, frameMap.Limit()) == frameMap.Limit()
    }

    /** How many frames are free. */
    ghost function FreeFrames(): (n: nat)
      reads frameMap, frameMap.frames
    {
      FreeCount(frameMap.InUse(), frameMap.Limit())
    }

    lemma NoneFree()
      requires frameMap.Valid()
      ensures FreeFrames() == 0 <==> OutOfFrames()
    {
      FreeCountZero(frameMap.InUse(), frameMap.Limit());
    }

    /** Gives page `slot` of a table the lowest free frame, unless it has one. */
    method AllocFrame(table: PageTable, slot: nat, isKernel: bool, isWriteable: bool) returns (r: Outcome)
      requires Valid() && table in known && slot < ENTRIES
      modifies frameMap.frames, table
      ensures Valid()
      ensures var entry := old(table.pages[slot]);
              var f := LowestFree(old(frameMap.InUse()), 0, frameMap.Limit());
              r == if usedFrames == frameMap.nframes then NoMemory else if entry.frame != 0 then AlreadyBacked
                   else if f == frameMap.Limit() then Panicked else Backed
      ensures r != Backed ==> frameMap.InUse() == old(frameMap.InUse()) && table.pages == old(table.pages)
      ensures r == Backed ==>
                var f := LowestFree(old(frameMap.InUse()), 0, frameMap.Limit());
                && frameMap.InUse() == old(frameMap.InUse()) + {f}
                && table.pages == old(table.pages)[slot := old(table.pages[slot]).(present := true, rw := isWriteable, user := !isKernel, frame := f)]
    {
      hide UsedSet, LowestFree;
      if usedFrames == frameMap.nframes {
        return NoMemory;
      }
      if table.pages[slot].frame != 0 {
        return AlreadyBacked;
      }
      var idx := frameMap.FirstFrame();
      if idx == NO_FRAME {
        return Panicked;
      }
      frameMap.SetFrame(idx * FRAME_SIZE);
      table.pages := table.pages[slot := table.pages[slot].(present := true, rw := isWriteable, user := !isKernel, frame := idx)];
      return Backed;
    }

    /** Takes the frame of page `slot` back. */
    method FreeFrame(table: PageTable, slot: nat)
      requires Valid() && table in known && slot < ENTRIES
      modifies frameMap.frames, table
      ensures Valid()
      ensures frameMap.InUse() == old(frameMap.InUse()) - (if old(table.pages[slot]).frame == 0 then {} else {old(table.pages[slot]).frame})
      ensures table.pages == old(table.pages)[slot := old(table.pages[slot]).(frame := 0)]
    {
      var frame := table.pages[slot].frame;
      if frame == 0 {
        return;
      }
      frameMap.ClearFrame(frame * FRAME_SIZE);
      table.pages := table.pages[slot := table.pages[slot].(frame := 0)];
    }

    /** The directory is whole, its tables are known and no two slots share one. */
    ghost predicate DirectoryOk(dir: PageDirectory)
      reads this, dir
    {
      && |dir.tables| == ENTRIES && |dir.tablesPhysical| == ENTRIES
      && (forall k | 0 <= k < ENTRIES && dir.tables[k] != null :: dir.tables[k] in known)
      && (forall j, k | 0 <= j < k < ENTRIES && dir.tables[j] != null :: dir.tables[j] != dir.tables[k])
    }

    /** Finds the entry of an address, making its table if that is wanted. */
    method GetPage(address: Word, make: bool, dir: PageDirectory) returns (table: PageTable?, slot: nat)
      requires Valid() && DirectoryOk(dir) && PAGE <= placement && placement + 2 * PAGE < ADDRESS_SPACE
      modifies this`placement, this`known, dir
      ensures Valid() && DirectoryOk(dir) && dir.physicalAddr == old(dir.physicalAddr)
      ensures var k := address / PAGE / ENTRIES;
              && slot == address / PAGE % ENTRIES
              && table == dir.tables[k]
              && (old(dir.tables[k]) != null || !make ==>
                    dir.tables == old(dir.tables) && dir.tablesPhysical == old(dir.tablesPhysical)
                    && placement == old(placement) && known == old(known))
              && (old(dir.tables[k]) == null && make ==>
                    && table != null && fresh(table) && table.pages == seq(ENTRIES, _ => NO_PAGE)
                    && known == old(known) + {table}
                    && dir.tables == old(dir.tables)[k := table]
                    && dir.tablesPhysical == old(dir.tablesPhysical)[k := PlacedAt(old(placement), true) + 7]
                    && placement == PlacedAt(old(placement), true) + PAGE)
    {
      hide Accounted, UsedSet;
      var page := address / PAGE;
      var tableIdx := page / ENTRIES;
      table, slot := dir.tables[tableIdx], page % ENTRIES;
      if table == null && make {
        var t := new PageTable();
        var tmp := Kmalloc(PAGE, true);
        BlankTableAccounted(known, t, frameMap.InUse());
        known := known + {t};
        dir.tables := dir.tables[tableIdx := t];
        dir.tablesPhysical := dir.tablesPhysical[tableIdx := tmp + 7];
        table := t;
      }
    }

    /** The entry of page number p, if its table exists. */
    ghost function Entry(dir: PageDirectory, p: nat): (e: PageEntry)
      requires DirectoryOk(dir) && Valid() && p < ENTRIES * ENTRIES && dir.tables[p / ENTRIES] != null
      reads this, frameMap.frames, known, dir
    {
      dir.tables[p / ENTRIES].pages[p % ENTRIES]
    }

    /** The first n pages map, in order, to the frames n allocations take from
        `used`; no page behind them holds a frame. */
    ghost predicate MappedTo(dir: PageDirectory, used: set<nat>, n: nat)
      requires DirectoryOk(dir) && Valid()
      reads this, frameMap.frames, known, dir
    {
      && (forall t | 0 <= t < ENTRIES && t * ENTRIES < n :: dir.tables[t] != null)
      && (forall t | 0 <= t < ENTRIES && dir.tables[t] != null :: TableMapped(dir.tables[t].pages, t, used, frameMap.Limit(), n))
    }

    lemma WholeTables()
      requires Valid()
      ensures forall t | t in known :: |t.pages| == ENTRIES
    {
    }

    /** The entry for page n, in a table made for it if need be. */
    method EntryFor(dir: PageDirectory, ghost used: set<nat>, i: Word, ghost n: nat) returns (table: PageTable, slot: nat)
      requires Valid() && DirectoryOk(dir) && MappedTo(dir, used, n) && i == n * PAGE
      requires PAGE <= placement && placement + 2 * PAGE < ADDRESS_SPACE
      modifies this`placement, this`known, dir
      ensures Valid() && DirectoryOk(dir) && MappedTo(dir, used, n) && frameMap.InUse() == old(frameMap.InUse())
      ensures n / ENTRIES < ENTRIES && slot == n % ENTRIES && dir.tables[n / ENTRIES] == table && table in known
      ensures old(placement) <= placement <= old(placement) + (if n % ENTRIES == 0 then 2 * PAGE else 0)
      ensures TableMade(old(dir.tables), old(dir.tablesPhysical), old(placement), dir.tables, dir.tablesPhysical, placement, n / ENTRIES)
      ensures forall t | t in known :: t in old(known) || fresh(t)
    {
      hide Accounted, UsedSet, NthFrame;
      var entry;
      assert i / PAGE == n && n / ENTRIES < ENTRIES;
      assert dir.tables[n / ENTRIES] == null ==> n % ENTRIES == 0 && n / ENTRIES * ENTRIES == n;
      label before:
      entry, slot := GetPage(i, true, dir);
      table := entry;
      BlankTableMapped(n / ENTRIES, used, frameMap.Limit(), n);
      forall t | 0 <= t < ENTRIES && dir.tables[t] != null && (t != n / ENTRIES || old@before(dir.tables[n / ENTRIES]) != null)
        ensures dir.tables[t].pages == old@before(dir.tables[t].pages)
      {
      }
    }

    /** One turn of the identity-map loop. */
    method MapNext(dir: PageDirectory, ghost used: set<nat>, i: Word, ghost n: nat, ghost tables0: seq<PageTable?>, ghost phys0: seq<nat>, ghost lo: nat) returns (r: Outcome)
      requires Valid() && DirectoryOk(dir) && MappedTo(dir, used, n) && i == n * PAGE
      requires frameMap.InUse() == UsedAfter(used, frameMap.Limit(), n)
      requires PAGE <= placement && placement + 2 * PAGE < ADDRESS_SPACE && usedFrames != frameMap.nframes
      requires PAGE <= lo <= placement && TablesPlaced(tables0, phys0, dir.tables, dir.tablesPhysical, lo, placement)
      modifies this`placement, this`known, dir, frameMap.frames, known
      ensures Valid() && DirectoryOk(dir) && r in {Backed, Panicked}
      ensures old(placement) <= placement <= old(placement) + (if n % ENTRIES == 0 then 2 * PAGE else 0)
      ensures TablesPlaced(tables0, phys0, dir.tables, dir.tablesPhysical, lo, placement)
      ensures r == Panicked ==> OutOfFrames() && frameMap.InUse() == old(frameMap.InUse())
      ensures r == Backed ==> MappedTo(dir, used, n + 1) && frameMap.InUse() == UsedAfter(used, frameMap.Limit(), n + 1)
      ensures forall t | t in known :: t in old(known) || fresh(t)
    {
      hide Accounted, UsedSet, LowestFree, TableMapped, TableMade, TablesPlaced;
      ghost var tables, phys, hi := dir.tables, dir.tablesPhysical, placement;
      var table, slot := EntryFor(dir, used, i, n);
      OneMorePlaced(tables0, phys0, tables, phys, lo, hi, dir.tables, dir.tablesPhysical, placement, n / ENTRIES);
      ghost var k, before := n / ENTRIES, table.pages;
      NextIsBlank(before, k, slot, used, frameMap.Limit(), n);
      WholeTables();
      label before:
      r := AllocFrame(table, slot, false, false);
      if r == Backed {
        forall t | 0 <= t < ENTRIES && dir.tables[t] != null
          ensures TableMapped(dir.tables[t].pages, t, used, frameMap.Limit(), n + 1)
        {
          if t == k {
            NextMapped(before, table.pages, k, slot, used, frameMap.Limit(), n);
          } else {
            assert dir.tables[t] != table && dir.tables[t].pages == old@before(dir.tables[t].pages);
            OtherTableMapped(dir.tables[t].pages, t, used, frameMap.Limit(), n);
          }
        }
      }
    }

    /** The loop has taken n frames, each of them when it was the lowest free one,
        and has not reached its bound. */
    ghost predicate Stopped(n: nat, first: nat, used: set<nat>)
      reads this, frameMap, frameMap.frames
    {
      && n * PAGE < placement + PAGE && placement <= first + 2 * PAGE * Rows(n + 1)
      && frameMap.InUse() == UsedAfter(used, frameMap.Limit(), n)
      && forall k | 0 <= k < n :: NthFrame(used, frameMap.Limit(), k) < frameMap.Limit()
    }

    lemma NothingPlaced(dir: PageDirectory)
      requires DirectoryOk(dir)
      ensures TablesPlaced(dir.tables, dir.tablesPhysical, dir.tables, dir.tablesPhysical, placement, placement)
    {
    }

    lemma MappedInLimit(dir: PageDirectory, used: set<nat>, n: nat)
      requires Valid() && DirectoryOk(dir) && MappedTo(dir, used, n) && n <= ENTRIES * ENTRIES
      ensures forall k | 0 <= k < n :: NthFrame(used, frameMap.Limit(), k) < frameMap.Limit()
    {
      hide Accounted, NthFrame;
      WholeTables();
      forall p | 0 <= p < n ensures NthFrame(used, frameMap.Limit(), p) < frameMap.Limit() {
        assert p / ENTRIES * ENTRIES + p % ENTRIES == p && dir.tables[p / ENTRIES] != null;
        var pages := dir.tables[p / ENTRIES].pages;
        assert TableMapped(pages, p / ENTRIES, used, frameMap.Limit(), n);
        assert pages[p % ENTRIES].frame == NthFrame(used, frameMap.Limit(), p);
      }
    }

    /** The loop that maps everything from address 0 to a page past the placement
        address, which the loop itself moves on whenever it needs a new table.
        It ends, and every page below the final bound maps to the frame its turn
        gave it; by IdentityExactly that is the frame of its own number when no
        low frame was taken. False when the loop itself took the last frame before
        it reached its bound. */
    method IdentityMap(dir: PageDirectory) returns (ok: bool)
      requires Valid() && DirectoryOk(dir) && MappedTo(dir, frameMap.InUse(), 0)
      requires PAGE <= placement && placement <= 0xFF00_0000 && usedFrames != frameMap.nframes
      modifies this`placement, this`known, dir, frameMap.frames, known
      ensures Valid() && DirectoryOk(dir)
      ensures TablesPlaced(old(dir.tables), old(dir.tablesPhysical), dir.tables, dir.tablesPhysical, old(placement), placement)
      ensures !ok ==> OutOfFrames() && exists n: nat :: Stopped(n, old(placement), old(frameMap.InUse()))
      ensures ok ==> exists n: nat :: placement + PAGE <= n * PAGE < placement + 2 * PAGE && n <= ENTRIES * ENTRIES
                                      && MappedTo(dir, old(frameMap.InUse()), n)
                                      && frameMap.InUse() == UsedAfter(old(frameMap.InUse()), frameMap.Limit(), n)
    {
      hide MappedTo, Accounted, DirectoryOk, TablesPlaced;
      ghost var used, first, tables0 := frameMap.InUse(), placement, known;
      NothingPlaced(dir);
      var i := 0;
      ghost var n := 0;
      while i < placement + PAGE
        invariant Valid() && DirectoryOk(dir) && usedFrames != frameMap.nframes
        invariant i == n * PAGE && i < placement + 2 * PAGE
        invariant first <= placement <= first + 2 * PAGE * Rows(n)
        invariant TablesPlaced(old(dir.tables), old(dir.tablesPhysical), dir.tables, dir.tablesPhysical, first, placement)
        invariant MappedTo(dir, used, n)
        invariant frameMap.InUse() == UsedAfter(used, frameMap.Limit(), n)
        invariant forall t | t in known :: t in tables0 || fresh(t)
        decreases first + 5 * PAGE - n * (PAGE - 8)
      {
        RowsBound(n);
        MappedInLimit(dir, used, n);
        var r := MapNext(dir, used, i, n, old(dir.tables), old(dir.tablesPhysical), first);
        if r == Panicked {
          assert Stopped(n, first, used);
          return false;
        }
        i := i + PAGE;
        n := n + 1;
      }
      RowsBound(n);
      return true;
    }

    /** Once the loop has mapped n pages: every page maps to the frame of its own
        number exactly when none of the first n frames was taken before. */
    lemma MappedIdentity(dir: PageDirectory, used: set<nat>, n: nat)
      requires Valid() && DirectoryOk(dir) && MappedTo(dir, used, n) && n <= ENTRIES * ENTRIES
      ensures forall p | 0 <= p < n :: dir.tables[p / ENTRIES] != null
      ensures (forall p | 0 <= p < n :: Entry(dir, p).frame == p) <==> forall f | 0 <= f < n :: f !in used
    {
      hide Accounted;
      WholeTables();
      forall p | 0 <= p < n
        ensures p / ENTRIES < ENTRIES && dir.tables[p / ENTRIES] != null
        ensures Entry(dir, p).frame == NthFrame(used, frameMap.Limit(), p) < frameMap.Limit()
      {
        assert p / ENTRIES * ENTRIES + p % ENTRIES == p;
      }
      IdentityExactly(used, frameMap.Limit(), n);
    }

    /** Allocations from an empty map that all succeed are no more than there are
        frames, and as many exactly when none is left. */
    lemma AllTaken(n: nat)
      requires frameMap.Valid() && frameMap.InUse() == UsedAfter({}, frameMap.Limit(), n)
      requires forall k | 0 <= k < n :: NthFrame({}, frameMap.Limit(), k) < frameMap.Limit()
      ensures n <= frameMap.Limit() && (OutOfFrames() <==> n == frameMap.Limit())
    {
      hide UsedSet;
      var limit := frameMap.Limit();
      if limit < n {
        UsedAfterIdentity({}, limit, limit);
        var f := NthFrame({}, limit, limit);
        assert false;
      }
      UsedAfterIdentity({}, limit, n);
      if n == limit { LowestFreeIs(frameMap.InUse(), limit, limit); }
    }

    lemma MappedPresent(dir: PageDirectory, used: set<nat>, n: nat, p: nat)
      requires Valid() && DirectoryOk(dir) && MappedTo(dir, used, n) && p < n <= ENTRIES * ENTRIES
      ensures dir.tables[p / ENTRIES] != null && Entry(dir, p).present && !Entry(dir, p).rw && Entry(dir, p).user
    {
      hide Accounted;
      WholeTables();
      assert p / ENTRIES * ENTRIES + p % ENTRIES == p;
    }

    /** With no frame taken before, every address up to a page past the final
        placement address maps to itself. This succeeds exactly when there are
        frames for all of that, so whenever memory reaches far enough behind the
        placement address for the tables to be made. */
    method IdentityMapAtBoot(dir: PageDirectory) returns (ok: bool)
      requires Valid() && DirectoryOk(dir) && MappedTo(dir, {}, 0) && frameMap.InUse() == {}
      requires PAGE <= placement && placement <= 0xFF00_0000 && usedFrames != frameMap.nframes
      modifies this`placement, this`known, dir, frameMap.frames, known
      ensures Valid() && DirectoryOk(dir)
      ensures ok <==> placement + PAGE <= frameMap.Limit() * PAGE
      ensures old(placement) + 2 * PAGE * Rows(frameMap.Limit() + 1) + PAGE <= frameMap.Limit() * PAGE ==> ok
      ensures !ok ==> OutOfFrames()
      ensures TablesPlaced(old(dir.tables), old(dir.tablesPhysical), dir.tables, dir.tablesPhysical, old(placement), placement)
      ensures ok ==> forall a: nat | a < placement + PAGE ::
                a / PAGE < ENTRIES * ENTRIES && dir.tables[a / PAGE / ENTRIES] != null
                && (var e := Entry(dir, a / PAGE); e.present && !e.rw && e.user && e.frame * PAGE + a % PAGE == a)
    {
      hide Accounted, UsedSet, MappedTo, Rows, TablesPlaced;
      ghost var first := placement;
      ok := IdentityMap(dir);
      if ok {
        ghost var n: nat :| placement + PAGE <= n * PAGE && n <= ENTRIES * ENTRIES && MappedTo(dir, {}, n)
                            && frameMap.InUse() == UsedAfter({}, frameMap.Limit(), n);
        MappedIdentity(dir, {}, n);
        MappedInLimit(dir, {}, n);
        AllTaken(n);
        forall a: nat | a < placement + PAGE
          ensures a / PAGE < ENTRIES * ENTRIES && dir.tables[a / PAGE / ENTRIES] != null
                  && (var e := Entry(dir, a / PAGE); e.present && !e.rw && e.user && e.frame * PAGE + a % PAGE == a)
        {
          assert a / PAGE < n;
          MappedPresent(dir, {}, n, a / PAGE);
        }
      } else {
        ghost var n: nat :| Stopped(n, first, {});
        AllTaken(n);
      }
    }

    // ---- Cloning ----

    /** Sets the flags of a page that another page has. */
    method AddFlags(t: PageTable, i: nat, from: PageEntry)
      requires Valid() && t in known && i < ENTRIES
      modifies t
      ensures Valid() && |t.pages| == |old(t.pages)| == ENTRIES
      ensures var e := old(t.pages)[i];
              t.pages == old(t.pages)[i := PageEntry(e.present || from.present, e.rw || from.rw, e.user || from.user,
                                                     e.accessed || from.accessed, e.dirty || from.dirty, e.frame)]
    {
      hide UsedSet, Accounted, EntriesAccounted;
      WholeTables();
      ghost var entries := EntriesOf(known);
      AccountedEntries(known, frameMap.InUse());
      var entry := t.pages[i];
      t.pages := t.pages[i := entry.(
          present := entry.present || from.present,
          rw := entry.rw || from.rw,
          user := entry.user || from.user,
          accessed := entry.accessed || from.accessed,
          dirty := entry.dirty || from.dirty)];
      SameFramesAccounted(entries, frameMap.InUse(), t, t.pages);
      assert EntriesOf(known) == entries[t := t.pages];
      AccountedEntries(known, frameMap.InUse());
    }

    /** Gives page i of t a frame of its own with the contents and flags of page
        i of src; false when the frames run out. */
    method ClonePage(src: PageTable, t: PageTable, i: nat) returns (ok: bool)
      requires Valid() && src in known && t in known && src != t && i < ENTRIES && 0 in frameMap.InUse()
      requires usedFrames != frameMap.nframes
      requires t.pages[i] == NO_PAGE && src.pages[i].frame != 0 && src.pages[i].frame in ram
      modifies this`ram, frameMap.frames, t
      ensures Valid() && |t.pages| == ENTRIES
      ensures ok <==> old(FreeFrames()) > 0
      ensures ok ==> FreeFrames() == old(FreeFrames()) - 1
      ensures !ok ==> OutOfFrames() && frameMap.InUse() == old(frameMap.InUse())
      ensures ok ==>
                && CopyOf(src.pages[i], t.pages[i], old(frameMap.InUse()), ram)
                && t.pages == old(t.pages)[i := t.pages[i]]
                && frameMap.InUse() == old(frameMap.InUse()) + {t.pages[i].frame}
                && ram == old(ram)[t.pages[i].frame := old(ram)[src.pages[i].frame]]
    {
      hide UsedSet, LowestFree, FreeCount, Accounted;
      NoneFree();
      WholeTables();
      ghost var used := frameMap.InUse();
      var r := AllocFrame(t, i, false, false);
      if r == Panicked {
        return false;
      }
      FreeCountTaken(used, frameMap.Limit(), t.pages[i].frame);
      AddFlags(t, i, src.pages[i]);
      ram := ram[t.pages[i].frame := ram[src.pages[i].frame]];
      return true;
    }

    /** The first i pages of src are copied to t, whose frames are all that came
        into use; the other pages of t are blank. */
    ghost predicate Copying(src: PageTable, t: PageTable, i: nat, used0: set<nat>, ram0: map<nat, Bytes>, free0: nat)
      reads this, frameMap, frameMap.frames, known, src, t
    {
      && Valid() && usedFrames != frameMap.nframes && 0 in used0 && src in known && t in known && src != t
      && i <= ENTRIES && |t.pages| == ENTRIES && |src.pages| == ENTRIES
      && frameMap.InUse() == used0 + FramesOf(t.pages, i) && FreeFrames() + Held(src.pages, i) == free0
      && TableCopied(src.pages, t.pages, i, used0, ram) && CopiesIn(t.pages, i, frameMap.InUse())
      && (forall j | i <= j < ENTRIES :: t.pages[j] == NO_PAGE)
      && KeptIn(ram0, ram, used0) && FramesFilled(src.pages, ram0) && CopiesIn(src.pages, ENTRIES, used0)
    }

    lemma SourcesInUse(src: PageTable)
      requires Valid() && src in known
      ensures CopiesIn(src.pages, ENTRIES, frameMap.InUse())
    {
    }

    /** Copies page i, if there is one; false exactly when there is and no frame is free. */
    method CopyPage(src: PageTable, t: PageTable, i: nat, ghost used0: set<nat>, ghost ram0: map<nat, Bytes>, ghost free0: nat) returns (ok: bool)
      requires i < ENTRIES && Copying(src, t, i, used0, ram0, free0)
      modifies this`ram, frameMap.frames, t
      ensures ok ==> Copying(src, t, i + 1, used0, ram0, free0)
      ensures !ok ==> Valid() && OutOfFrames() && free0 < Held(src.pages, i + 1)
    {
      hide CopyOf, UsedSet, LowestFree, FreeFrames, TableCopied, Held, FramesOf, KeptIn, Accounted;
      HeldNext(src.pages, i);
      ok := true;
      if src.pages[i].frame != 0 {
        ghost var used1, ram1, pages1 := frameMap.InUse(), ram, t.pages;
        SourcesInUse(src);
        PageFilled(src.pages, i, ram0, ram, used0);
        ok := ClonePage(src, t, i);
        if ok {
          FramesNext(pages1, t.pages, i);
          OneMoreCopied(src.pages, pages1, t.pages, i, used0, used1, ram0, ram1, ram);
        }
      } else {
        FramesNext(t.pages, t.pages, i);
        NothingToCopy(src.pages, t.pages, i, used0, ram);
      }
    }

    /** Copies one table: every page that holds a frame gets a frame of its own
        with the same contents. Null exactly when fewer frames are free than there
        are pages to copy. */
    method CloneTable(src: PageTable) returns (table: PageTable?)
      requires Valid() && src in known && 0 in frameMap.InUse() && usedFrames != frameMap.nframes
      requires FramesFilled(src.pages, ram)
      modifies this`known, this`ram, frameMap.frames
      ensures Valid() && |src.pages| == ENTRIES && frameMap.InUse() >= old(frameMap.InUse())
      ensures table == null <==> old(FreeFrames()) < Held(src.pages, ENTRIES)
      ensures table == null ==> OutOfFrames()
      ensures table != null ==>
                && |table.pages| == ENTRIES && FreeFrames() == old(FreeFrames()) - Held(src.pages, ENTRIES)
                && frameMap.InUse() == old(frameMap.InUse()) + FramesOf(table.pages, ENTRIES)
                && fresh(table) && known == old(known) + {table}
                && TableCopied(src.pages, table.pages, ENTRIES, old(frameMap.InUse()), ram)
                && KeptIn(old(ram), ram, old(frameMap.InUse()))
    {
      hide Accounted, CopyOf, UsedSet, LowestFree, FreeFrames, TableCopied, CopiesIn, KeptIn, FramesFilled, Held, FramesOf;
      var t := new PageTable();
      ghost var used0, ram0, known0, free0 := frameMap.InUse(), ram, known, FreeFrames();
      BlankTableAccounted(known, t, frameMap.InUse());
      known := known + {t};
      WholeTables();
      SourcesInUse(src);
      CopyBegun(src.pages, t.pages, used0, ram);
      var i := 0;
      while i < ENTRIES
        invariant 0 <= i <= ENTRIES && known == known0 + {t} && Copying(src, t, i, used0, ram0, free0)
      {
        HeldNext(src.pages, i);
        var ok := CopyPage(src, t, i, used0, ram0, free0);
        if !ok {
          return null;
        }
        i := i + 1;
      }
      table := t;
    }

    /** Fills slot i of a new directory with a copy of the table in that slot of src. */
    method CopySlot(kernel: PageDirectory, src: PageDirectory, d: PageDirectory, i: nat, ghost known0: set<PageTable>, ghost used0: set<nat>, ghost ram0: map<nat, Bytes>) returns (ok: bool)
      requires Valid() && DirectoryOk(src) && DirectoryOk(d) && d != src && d != kernel && i < ENTRIES && 0 in frameMap.InUse()
      requires usedFrames != frameMap.nframes && PAGE <= placement && placement + 2 * PAGE < ADDRESS_SPACE
      requires known0 <= known && used0 <= frameMap.InUse() && KeptIn(ram0, ram, used0)
      requires src.tables[i] != null && src.tables[i] in known0 && d.tables[i] == null
      requires FramesFilled(src.tables[i].pages, ram0) && CopiesIn(src.tables[i].pages, ENTRIES, used0)
      modifies this`known, this`ram, this`placement, frameMap.frames, d
      ensures !ok ==> Valid() && OutOfFrames()
      ensures |src.tables[i].pages| == ENTRIES && (ok <==> old(FreeFrames()) >= Held(src.tables[i].pages, ENTRIES))
      ensures ok ==>
                && Valid() && DirectoryOk(d) && d.tables[i] != null && fresh(d.tables[i])
                && |d.tables[i].pages| == ENTRIES && FreeFrames() == old(FreeFrames()) - Held(src.tables[i].pages, ENTRIES)
                && frameMap.InUse() == old(frameMap.InUse()) + FramesOf(d.tables[i].pages, ENTRIES)
                && d.tables == old(d.tables)[i := d.tables[i]] && known == old(known) + {d.tables[i]}
                && d.tablesPhysical == old(d.tablesPhysical)[i := PlacedAt(old(placement), true) + 7]
                && d.physicalAddr == old(d.physicalAddr)
                && frameMap.InUse() >= old(frameMap.InUse()) && placement == PlacedAt(old(placement), true) + PAGE
                && TableCopied(src.tables[i].pages, d.tables[i].pages, ENTRIES, used0, ram)
                && KeptIn(old(ram), ram, old(frameMap.InUse())) && KeptIn(ram0, ram, used0)
    {
      hide Accounted, UsedSet, CopyOf, FramesFilled, FreeFrames, Held, FramesOf;
      ghost var used1 := frameMap.InUse();
      WholeTables();
      StillFilled(src.tables[i].pages, ram0, ram, used0);
      var addr := Kmalloc(PAGE, true);
      var copy := CloneTable(src.tables[i]);
      if copy == null {
        return false;
      }
      CopiedWeakened(src.tables[i].pages, copy.pages, used0, used1, ram);
      d.tables := d.tables[i := copy];
      d.tablesPhysical := d.tablesPhysical[i := addr + 7];
      return true;
    }

    /** What a clone builds on: what was in use before keeps its contents and
        the tables known before are whole and filled. */
    ghost predicate Since(known0: set<PageTable>, used0: set<nat>, ram0: map<nat, Bytes>)
      reads this, frameMap.frames, known, known0
    {
      && Valid() && usedFrames != frameMap.nframes && 0 in frameMap.InUse()
      && known0 <= known && used0 <= frameMap.InUse() && KeptIn(ram0, ram, used0)
      && forall t | t in known0 :: FramesFilled(t.pages, ram0) && CopiesIn(t.pages, ENTRIES, used0)
    }

    /** The first i slots of d are cloned, the others empty. */
    ghost predicate ClonedTo(kernel: PageDirectory, src: PageDirectory, d: PageDirectory, i: nat, known0: set<PageTable>, used0: set<nat>)
      reads this, known, kernel, src, d
    {
      && i <= ENTRIES && DirectoryOk(kernel) && DirectoryOk(src) && DirectoryOk(d)
      && (forall k | 0 <= k < ENTRIES && src.tables[k] != null :: src.tables[k] in known0)
      && (forall k | 0 <= k < i :: SlotCloned(kernel.tables[k], src.tables[k], d.tables[k], src.tablesPhysical[k], d.tablesPhysical[k], known0))
      && (forall k | i <= k < ENTRIES :: d.tables[k] == null)
      && (forall k | 0 <= k < i :: SlotCopied(src.tables[k], d.tables[k], known0, used0, ram))
    }

    /** Puts the kernel's own table into slot i. */
    method ShareSlot(kernel: PageDirectory, src: PageDirectory, d: PageDirectory, i: nat, ghost known0: set<PageTable>, ghost used0: set<nat>)
      requires i < ENTRIES && d != src && d != kernel && known0 <= known
      requires ClonedTo(kernel, src, d, i, known0, used0) && src.tables[i] != null && kernel.tables[i] == src.tables[i]
      modifies d
      ensures ClonedTo(kernel, src, d, i + 1, known0, used0) && d.physicalAddr == old(d.physicalAddr)
      ensures d.tables == old(d.tables)[i := src.tables[i]] && d.tablesPhysical == old(d.tablesPhysical)[i := src.tablesPhysical[i]]
    {
      hide TableCopied;
      d.tables := d.tables[i := src.tables[i]];
      d.tablesPhysical := d.tablesPhysical[i := src.tablesPhysical[i]];
    }

    lemma LeaveEmpty(kernel: PageDirectory, src: PageDirectory, d: PageDirectory, i: nat, known0: set<PageTable>, used0: set<nat>)
      requires i < ENTRIES && ClonedTo(kernel, src, d, i, known0, used0) && src.tables[i] == null
      ensures ClonedTo(kernel, src, d, i + 1, known0, used0)
    {
      hide TableCopied;
    }

    /** Slots cloned earlier stay cloned when slot i gets its copy; tables1 and
        phys1 are the slots before. */
    lemma OneMoreSlot(kernel: PageDirectory, src: PageDirectory, d: PageDirectory, i: nat, known0: set<PageTable>, used0: set<nat>, used1: set<nat>, ram1: map<nat, Bytes>, tables1: seq<PageTable?>, phys1: seq<nat>)
      requires i < ENTRIES && |tables1| == |phys1| == ENTRIES && DirectoryOk(kernel) && DirectoryOk(src) && DirectoryOk(d)
      requires forall k | 0 <= k < ENTRIES && src.tables[k] != null :: src.tables[k] in known0
      requires forall k | 0 <= k < i :: SlotCloned(kernel.tables[k], src.tables[k], tables1[k], src.tablesPhysical[k], phys1[k], known0)
      requires forall k | i <= k < ENTRIES :: tables1[k] == null
      requires forall k | 0 <= k < i :: SlotCopied(src.tables[k], tables1[k], known0, used0, ram1)
      requires forall k | 0 <= k < i && src.tables[k] != null :: CopiesIn(src.tables[k].pages, ENTRIES, used1)
      requires forall k | 0 <= k < i && tables1[k] != null :: CopiesIn(tables1[k].pages, ENTRIES, used1)
      requires d.tables == tables1[i := d.tables[i]] && d.tablesPhysical == phys1[i := d.tablesPhysical[i]]
      requires src.tables[i] != null && src.tables[i] != kernel.tables[i] && d.tables[i] != null && d.tables[i] !in known0
      requires TableCopied(src.tables[i].pages, d.tables[i].pages, ENTRIES, used0, ram)
      requires KeptIn(ram1, ram, used1)
      ensures ClonedTo(kernel, src, d, i + 1, known0, used0)
    {
      hide TableCopied, CopiesIn, KeptIn;
      forall k | 0 <= k < i ensures SlotCopied(src.tables[k], d.tables[k], known0, used0, ram) {
        if d.tables[k] != null && d.tables[k] !in known0 {
          CopiedStays(src.tables[k].pages, d.tables[k].pages, used0, used1, ram1, ram);
        }
      }
    }

    /** The first i slots have taken just the frames behind their copies. */
    ghost predicate Paid(kernel: PageDirectory, src: PageDirectory, d: PageDirectory, i: nat, known0: set<PageTable>, used0: set<nat>, free0: nat)
      reads this, frameMap, frameMap.frames, kernel, src, d, src.tables, d.tables
    {
      && i <= ENTRIES && |kernel.tables| == |src.tables| == |d.tables| == ENTRIES
      && FreeFrames() + CostTo(kernel.tables, src.tables, i) == free0
      && frameMap.InUse() == used0 + NewFrames(d.tables, i, known0)
    }

    /** Slot i takes no frames. */
    lemma PaidNothing(kernel: PageDirectory, src: PageDirectory, d: PageDirectory, i: nat, known0: set<PageTable>, used0: set<nat>, free0: nat, tables1: seq<PageTable?>)
      requires i < ENTRIES && |tables1| == |kernel.tables| == |src.tables| == ENTRIES && d.tables == tables1[i := src.tables[i]]
      requires FreeFrames() + CostTo(kernel.tables, src.tables, i) == free0
      requires frameMap.InUse() == used0 + NewFrames(tables1, i, known0)
      requires src.tables[i] == null || (src.tables[i] == kernel.tables[i] && src.tables[i] in known0)
      ensures Paid(kernel, src, d, i + 1, known0, used0, free0)
    {
      hide FreeFrames;
      NewFramesSame(tables1, d.tables, i, known0);
    }

    /** Slot i takes the frames of its copy. */
    lemma PaidCopy(kernel: PageDirectory, src: PageDirectory, d: PageDirectory, i: nat, known0: set<PageTable>, used0: set<nat>, used1: set<nat>, free0: nat, tables1: seq<PageTable?>)
      requires i < ENTRIES && |tables1| == |kernel.tables| == |src.tables| == |d.tables| == ENTRIES && d.tables == tables1[i := d.tables[i]]
      requires src.tables[i] != null && src.tables[i] != kernel.tables[i] && |src.tables[i].pages| == ENTRIES
      requires d.tables[i] != null && d.tables[i] !in known0 && |d.tables[i].pages| == ENTRIES
      requires FreeFrames() + Held(src.tables[i].pages, ENTRIES) + CostTo(kernel.tables, src.tables, i) == free0
      requires used1 == used0 + NewFrames(tables1, i, known0) && frameMap.InUse() == used1 + FramesOf(d.tables[i].pages, ENTRIES)
      ensures Paid(kernel, src, d, i + 1, known0, used0, free0)
    {
      hide FreeFrames, Held, FramesOf;
      NewFramesSame(tables1, d.tables, i, known0);
    }

    /** The first i tables are where cloning places them. */
    ghost predicate PlacedTo(kernel: PageDirectory, src: PageDirectory, d: PageDirectory, i: nat, first: nat)
      reads this, kernel, src, d
    {
      CopiesPlaced(kernel.tables, src.tables, d.tablesPhysical, i, first, placement)
    }

    /** Clones slot i where that means a copy. */
    method CloneCopied(kernel: PageDirectory, src: PageDirectory, d: PageDirectory, i: nat, ghost known0: set<PageTable>, ghost used0: set<nat>, ghost ram0: map<nat, Bytes>, ghost free0: nat, ghost first: nat) returns (ok: bool)
      requires i < ENTRIES && d != src && d != kernel && PAGE <= placement && placement + 2 * PAGE < ADDRESS_SPACE
      requires Since(known0, used0, ram0) && ClonedTo(kernel, src, d, i, known0, used0) && Paid(kernel, src, d, i, known0, used0, free0)
      requires |kernel.tables| == |src.tables| == ENTRIES && src.tables[i] != null && src.tables[i] != kernel.tables[i]
      requires PlacedTo(kernel, src, d, i, first)
      modifies this`known, this`ram, this`placement, frameMap.frames, d
      ensures !ok ==> Valid() && OutOfFrames() && |kernel.tables| == |src.tables| == ENTRIES && free0 < CostTo(kernel.tables, src.tables, i + 1)
      ensures ok ==>
                && Since(known0, used0, ram0) && ClonedTo(kernel, src, d, i + 1, known0, used0)
                && PlacedTo(kernel, src, d, i + 1, first)
                && Paid(kernel, src, d, i + 1, known0, used0, free0)
                && d.physicalAddr == old(d.physicalAddr)
                && old(placement) <= placement <= old(placement) + 2 * PAGE
                && known >= old(known) && fresh(known - old(known))
    {
      hide TableCopied, UsedSet, FramesFilled, CopiesIn, KeptIn, Accounted, FreeFrames, Held, FramesOf, NewFrames, OutOfFrames, CopiesPlaced, PlacedAt;
      ghost var placement1 := placement;
      ghost var used1, ram1, tables1, phys1 := frameMap.InUse(), ram, d.tables, d.tablesPhysical;
      forall t | t in known ensures CopiesIn(t.pages, ENTRIES, frameMap.InUse()) {
        SourcesInUse(t);
      }
      ok := CopySlot(kernel, src, d, i, known0, used0, ram0);
      if ok {
        OneMoreSlot(kernel, src, d, i, known0, used0, used1, ram1, tables1, phys1);
        PaidCopy(kernel, src, d, i, known0, used0, used1, free0, tables1);
        CopyPlaced(kernel.tables, src.tables, phys1, i, first, placement1, d.tablesPhysical, placement);
      }
    }

    /** Clones slot i; false exactly when that takes more frames than are free. */
    method CloneSlot(kernel: PageDirectory, src: PageDirectory, d: PageDirectory, i: nat, ghost known0: set<PageTable>, ghost used0: set<nat>, ghost ram0: map<nat, Bytes>, ghost free0: nat, ghost first: nat) returns (ok: bool)
      requires i < ENTRIES && d != src && d != kernel && PAGE <= placement && placement + 2 * PAGE < ADDRESS_SPACE
      requires Since(known0, used0, ram0) && ClonedTo(kernel, src, d, i, known0, used0) && Paid(kernel, src, d, i, known0, used0, free0)
      requires PlacedTo(kernel, src, d, i, first)
      modifies this`known, this`ram, this`placement, frameMap.frames, d
      ensures !ok ==> Valid() && OutOfFrames() && |kernel.tables| == |src.tables| == ENTRIES && free0 < CostTo(kernel.tables, src.tables, i + 1)
      ensures ok ==>
                && Since(known0, used0, ram0) && ClonedTo(kernel, src, d, i + 1, known0, used0)
                && PlacedTo(kernel, src, d, i + 1, first)
                && Paid(kernel, src, d, i + 1, known0, used0, free0)
                && d.physicalAddr == old(d.physicalAddr)
                && old(placement) <= placement <= old(placement) + 2 * PAGE
                && known >= old(known) && fresh(known - old(known))
    {
      hide TableCopied, UsedSet, FramesFilled, CopiesIn, KeptIn, Accounted, FreeFrames, Held, FramesOf, NewFrames, OutOfFrames, CopiesPlaced, PlacedAt;
      ok := true;
      ghost var tables1, phys1 := d.tables, d.tablesPhysical;
      if src.tables[i] == null {
        LeaveEmpty(kernel, src, d, i, known0, used0);
        PaidNothing(kernel, src, d, i, known0, used0, free0, tables1);
        NoCopyPlaced(kernel.tables, src.tables, phys1, i, first, placement, d.tablesPhysical);
      } else if kernel.tables[i] == src.tables[i] {
        ShareSlot(kernel, src, d, i, known0, used0);
        PaidNothing(kernel, src, d, i, known0, used0, free0, tables1);
        NoCopyPlaced(kernel.tables, src.tables, phys1, i, first, placement, d.tablesPhysical);
      } else {
        ok := CloneCopied(kernel, src, d, i, known0, used0, ram0, free0, first);
      }
    }

    /** Clones all slots. */
    method CloneSlots(kernel: PageDirectory, src: PageDirectory, d: PageDirectory, ghost known0: set<PageTable>, ghost used0: set<nat>, ghost ram0: map<nat, Bytes>, ghost free0: nat, ghost first: nat) returns (ok: bool)
      requires d != src && d != kernel && PAGE <= placement <= 0xFF00_0000 + 4 * PAGE
      requires Since(known0, used0, ram0) && ClonedTo(kernel, src, d, 0, known0, used0) && Paid(kernel, src, d, 0, known0, used0, free0)
      requires PlacedTo(kernel, src, d, 0, first)
      modifies this`known, this`ram, this`placement, frameMap.frames, d
      ensures !ok ==> Valid() && OutOfFrames() && |kernel.tables| == |src.tables| == ENTRIES && free0 < CostTo(kernel.tables, src.tables, ENTRIES)
      ensures ok ==>
                && Since(known0, used0, ram0) && ClonedTo(kernel, src, d, ENTRIES, known0, used0)
                && PlacedTo(kernel, src, d, ENTRIES, first)
                && Paid(kernel, src, d, ENTRIES, known0, used0, free0) && d.physicalAddr == old(d.physicalAddr)
    {
      hide Since, ClonedTo, Valid, OutOfFrames, UsedSet, Paid, CostTo, PlacedTo;
      ok := true;
      var i := 0;
      while i < ENTRIES && ok
        invariant 0 <= i <= ENTRIES && (ok ==> PAGE <= placement <= 0xFF00_0000 + 4 * PAGE + 2 * PAGE * i)
        invariant ok ==> Since(known0, used0, ram0) && ClonedTo(kernel, src, d, i, known0, used0) && d.physicalAddr == old(d.physicalAddr)
        invariant ok ==> Paid(kernel, src, d, i, known0, used0, free0) && PlacedTo(kernel, src, d, i, first)
        invariant !ok ==> Valid() && OutOfFrames() && |kernel.tables| == |src.tables| == ENTRIES && free0 < CostTo(kernel.tables, src.tables, ENTRIES)
      {
        ok := CloneSlot(kernel, src, d, i, known0, used0, ram0, free0, first);
        if !ok { CostMonotone(kernel.tables, src.tables, i + 1, ENTRIES); }
        i := i + 1;
      }
    }

    lemma PaidInAll(kernel: PageDirectory, src: PageDirectory, d: PageDirectory, known0: set<PageTable>, used0: set<nat>, free0: nat)
      requires Paid(kernel, src, d, ENTRIES, known0, used0, free0)
      ensures |kernel.tables| == |src.tables| == |d.tables| == ENTRIES
      ensures FreeFrames() + CostTo(kernel.tables, src.tables, ENTRIES) == free0
      ensures frameMap.InUse() == used0 + NewFrames(d.tables, ENTRIES, known0)
    {
    }

    /** What CloneDirectory leaves behind. */
    ghost predicate IsClone(kernel: PageDirectory, src: PageDirectory, dir: PageDirectory, known0: set<PageTable>, used0: set<nat>)
      reads this, frameMap.frames, known, kernel, src, dir
    {
      && Valid() && DirectoryOk(kernel) && DirectoryOk(src) && DirectoryOk(dir)
      && (forall k | 0 <= k < ENTRIES && src.tables[k] != null :: src.tables[k] in known0)
      && (forall k | 0 <= k < ENTRIES :: SlotCloned(kernel.tables[k], src.tables[k], dir.tables[k], src.tablesPhysical[k], dir.tablesPhysical[k], known0))
      && (forall k | 0 <= k < ENTRIES :: SlotCopied(src.tables[k], dir.tables[k], known0, used0, ram))
    }

    lemma CloneBegun(kernel: PageDirectory, src: PageDirectory, d: PageDirectory, first: nat)
      requires Valid() && DirectoryOk(kernel) && DirectoryOk(src) && 0 in frameMap.InUse() && usedFrames != frameMap.nframes
      requires forall t | t in known :: FramesFilled(t.pages, ram)
      requires d.tables == seq(ENTRIES, _ => null) && d.tablesPhysical == seq(ENTRIES, _ => 0)
      requires PAGE <= placement && first == PlacedAt(placement, true)
      ensures Since(known, frameMap.InUse(), ram) && ClonedTo(kernel, src, d, 0, known, frameMap.InUse())
      ensures Paid(kernel, src, d, 0, known, frameMap.InUse(), FreeFrames()) && PlacedTo(kernel, src, d, 0, first)
    {
      hide UsedSet, FramesFilled, FreeFrames, Accounted, SlotCopied, SlotCloned;
      forall t | t in known ensures CopiesIn(t.pages, ENTRIES, frameMap.InUse()) {
        SourcesInUse(t);
      }
    }

    lemma CloneDone(kernel: PageDirectory, src: PageDirectory, d: PageDirectory, known0: set<PageTable>, used0: set<nat>, ram0: map<nat, Bytes>)
      requires Since(known0, used0, ram0) && ClonedTo(kernel, src, d, ENTRIES, known0, used0)
      ensures IsClone(kernel, src, d, known0, used0) && KeptIn(ram0, ram, used0)
    {
      hide UsedSet, FramesFilled, Accounted, KeptIn, SlotCopied, SlotCloned;
    }

    /** Makes a directory that shares the kernel's tables and copies all others.
        Fails exactly when fewer frames are free than there are pages to copy;
        else just the frames behind the copies came into use. */
    method CloneDirectory(kernel: PageDirectory, src: PageDirectory) returns (dir: PageDirectory?)
      requires Valid() && DirectoryOk(kernel) && DirectoryOk(src) && 0 in frameMap.InUse()
      requires usedFrames != frameMap.nframes && PAGE <= placement <= 0xFF00_0000
      requires forall t | t in known :: FramesFilled(t.pages, ram)
      modifies this`known, this`ram, this`placement, frameMap.frames
      ensures |kernel.tables| == |src.tables| == ENTRIES
      ensures dir == null <==> old(FreeFrames()) < CostTo(kernel.tables, src.tables, ENTRIES)
      ensures dir == null ==> Valid() && OutOfFrames()
      ensures dir != null ==>
                && fresh(dir) && dir.physicalAddr == PlacedAt(old(placement), true) + 4 * ENTRIES
                && PlacedTo(kernel, src, dir, ENTRIES, PlacedAt(old(placement), true) + 3 * PAGE)
                && IsClone(kernel, src, dir, old(known), old(frameMap.InUse()))
                && KeptIn(old(ram), ram, old(frameMap.InUse()))
                && frameMap.InUse() == old(frameMap.InUse()) + NewFrames(dir.tables, ENTRIES, old(known))
                && FreeFrames() == old(FreeFrames()) - CostTo(kernel.tables, src.tables, ENTRIES)
    {
      hide Accounted, UsedSet, CopyOf, FramesFilled, Since, ClonedTo, IsClone, KeptIn, OutOfFrames, FreeFrames, CostTo, NewFrames, Paid, PlacedTo;
      var d := new PageDirectory();
      var phys := Kmalloc(8 * ENTRIES + 4, true);
      d.physicalAddr := phys + 4 * ENTRIES;
      ghost var known0, used0, ram0, free0, first := known, frameMap.InUse(), ram, FreeFrames(), PlacedAt(placement, true);
      assert first == phys + 3 * PAGE;
      CloneBegun(kernel, src, d, first);
      var ok := CloneSlots(kernel, src, d, known0, used0, ram0, free0, first);
      if !ok {
        return null;
      }
      PaidInAll(kernel, src, d, known0, used0, free0);
      CloneDone(kernel, src, d, known0, used0, ram0);
      dir := d;
    }

    /** What a virtual page shows, given the contents of physical memory. */
    ghost function View(dir: PageDirectory, p: nat, memory: map<nat, Bytes>): (v: Seen)
      requires |dir.tables| == ENTRIES && p < ENTRIES * ENTRIES
      requires dir.tables[p / ENTRIES] != null ==> |dir.tables[p / ENTRIES].pages| == ENTRIES
      reads dir, dir.tables[p / ENTRIES]
    {
      var t := dir.tables[p / ENTRIES];
      if t == null || t.pages[p % ENTRIES].frame !in memory then Unmapped
      else Shows(t.pages[p % ENTRIES].frame, memory[t.pages[p % ENTRIES].frame])
    }

    /** The clone knows the address of every copied table: a whole page that was
        placed for it, with the three low bits set; no two of these pages overlap.
        Empty slots have none. */
    lemma ClonePlaced(kernel: PageDirectory, src: PageDirectory, dir: PageDirectory, known0: set<PageTable>, used0: set<nat>, first: nat)
      requires IsClone(kernel, src, dir, known0, used0) && PlacedTo(kernel, src, dir, ENTRIES, first) && first % PAGE == 0
      ensures |dir.tables| == |dir.tablesPhysical| == ENTRIES
      ensures forall k | 0 <= k < ENTRIES && dir.tables[k] == null :: dir.tablesPhysical[k] == 0
      ensures forall k | 0 <= k < ENTRIES && dir.tables[k] != null && dir.tables[k] !in known0 ::
                dir.tablesPhysical[k] % PAGE == 7 && first + 7 <= dir.tablesPhysical[k] && dir.tablesPhysical[k] + PAGE <= placement + 7
      ensures forall j, k | 0 <= j < k < ENTRIES && dir.tables[j] != null && dir.tables[j] !in known0
                            && dir.tables[k] != null && dir.tables[k] !in known0 ::
                dir.tablesPhysical[j] + PAGE <= dir.tablesPhysical[k]
    {
      hide Valid, SlotCopied, Addressed, Copies, PlacedAt;
      AddressesApart(kernel.tables, src.tables, dir.tablesPhysical, first, placement);
      assert forall k | 0 <= k < ENTRIES ::
          SlotCloned(kernel.tables[k], src.tables[k], dir.tables[k], src.tablesPhysical[k], dir.tablesPhysical[k], known0);
    }

    /** A page of the clone shows what the original shows: through the same
        table and frame where the table is the kernel's, and otherwise through
        a frame that was free before. */
    lemma CloneShowsTheSame(kernel: PageDirectory, src: PageDirectory, dir: PageDirectory, known0: set<PageTable>, used0: set<nat>, p: nat)
      requires IsClone(kernel, src, dir, known0, used0) && p < ENTRIES * ENTRIES
      requires src.tables[p / ENTRIES] != null && Entry(src, p).frame != 0
      ensures dir.tables[p / ENTRIES] != null
      ensures src.tables[p / ENTRIES] == kernel.tables[p / ENTRIES] ==>
                View(dir, p, ram) == View(src, p, ram) && Entry(dir, p) == Entry(src, p)
                && dir.tablesPhysical[p / ENTRIES] == src.tablesPhysical[p / ENTRIES]
      ensures src.tables[p / ENTRIES] != kernel.tables[p / ENTRIES] ==>
                && View(dir, p, ram).Shows? && View(src, p, ram).Shows?
                && View(dir, p, ram).contents == View(src, p, ram).contents
                && View(dir, p, ram).frame !in used0 && Entry(dir, p).rw == Entry(src, p).rw
    {
      hide UsedSet;
      WholeTables();
      var k := p / ENTRIES;
      assert SlotCloned(kernel.tables[k], src.tables[k], dir.tables[k], src.tablesPhysical[k], dir.tablesPhysical[k], known0);
      assert SlotCopied(src.tables[k], dir.tables[k], known0, used0, ram);
      if src.tables[k] != kernel.tables[k] {
        assert CopyOf(src.tables[k].pages[p % ENTRIES], dir.tables[k].pages[p % ENTRIES], used0, ram);
      }
    }

    /** The pages of a copied table, field by field: a page with a frame has the flags
        of the original, but that it is always present and open to the user; a page
        without one stays empty. */
    lemma CloneEntries(kernel: PageDirectory, src: PageDirectory, dir: PageDirectory, known0: set<PageTable>, used0: set<nat>, p: nat)
      requires IsClone(kernel, src, dir, known0, used0) && p < ENTRIES * ENTRIES
      ensures src.tables[p / ENTRIES] == null <==> dir.tables[p / ENTRIES] == null
      ensures src.tables[p / ENTRIES] != null && src.tables[p / ENTRIES] != kernel.tables[p / ENTRIES] ==>
                var e, r := Entry(src, p), Entry(dir, p);
                if e.frame == 0 then r.frame == 0 && !r.present
                else r.frame != 0 && r.present && r.user && r.rw == e.rw && r.accessed == e.accessed && r.dirty == e.dirty
    {
      hide UsedSet;
      WholeTables();
      var k := p / ENTRIES;
      assert SlotCloned(kernel.tables[k], src.tables[k], dir.tables[k], src.tablesPhysical[k], dir.tablesPhysical[k], known0);
      assert SlotCopied(src.tables[k], dir.tables[k], known0, used0, ram);
      if src.tables[k] != null && src.tables[k] != kernel.tables[k] {
        assert CopyOf(src.tables[k].pages[p % ENTRIES], dir.tables[k].pages[p % ENTRIES], used0, ram);
      }
    }

    /** Writing page p through the clone, where the clone has a copied table, is
        seen at page p of the clone alone: not through the original, and at no
        other page of the clone. */
    lemma CopiedWritesUnseen(kernel: PageDirectory, src: PageDirectory, dir: PageDirectory, known0: set<PageTable>, used0: set<nat>, p: nat, q: nat, contents: Bytes)
      requires IsClone(kernel, src, dir, known0, used0) && p < ENTRIES * ENTRIES && q < ENTRIES * ENTRIES
      requires dir.tables[p / ENTRIES] != null && dir.tables[p / ENTRIES] !in known0 && Entry(dir, p).frame != 0
      ensures |src.tables| == |dir.tables| == ENTRIES
      ensures src.tables[q / ENTRIES] != null && Entry(src, q).frame != 0 ==>
                View(src, q, ram[Entry(dir, p).frame := contents]) == View(src, q, ram)
      ensures dir.tables[q / ENTRIES] != null && Entry(dir, q).frame != 0 && p != q ==>
                View(dir, q, ram[Entry(dir, p).frame := contents]) == View(dir, q, ram)
      ensures View(dir, p, ram[Entry(dir, p).frame := contents]) == Shows(Entry(dir, p).frame, contents)
    {
      hide UsedSet;
      WholeTables();
      if dir.tables[q / ENTRIES] != null && p != q {
        assert dir.tables[p / ENTRIES] != dir.tables[q / ENTRIES] || p % ENTRIES != q % ENTRIES;
      }
    }

    /** The other way round: writing page p through the original, where the
        table is not the kernel's, is seen at no page of the clone and at no other
        page of the original. */
    lemma OriginalWritesUnseen(kernel: PageDirectory, src: PageDirectory, dir: PageDirectory, known0: set<PageTable>, used0: set<nat>, p: nat, q: nat, contents: Bytes)
      requires IsClone(kernel, src, dir, known0, used0) && p < ENTRIES * ENTRIES && q < ENTRIES * ENTRIES
      requires src.tables[p / ENTRIES] != null && src.tables[p / ENTRIES] != kernel.tables[p / ENTRIES] && Entry(src, p).frame != 0
      ensures |src.tables| == |dir.tables| == ENTRIES
      ensures dir.tables[q / ENTRIES] != null && Entry(dir, q).frame != 0 ==>
                View(dir, q, ram[Entry(src, p).frame := contents]) == View(dir, q, ram)
      ensures src.tables[q / ENTRIES] != null && Entry(src, q).frame != 0 && p != q ==>
                View(src, q, ram[Entry(src, p).frame := contents]) == View(src, q, ram)
      ensures View(src, p, ram[Entry(src, p).frame := contents]) == Shows(Entry(src, p).frame, contents)
    {
      hide UsedSet;
      WholeTables();
      var i, j := p / ENTRIES, q / ENTRIES;
      if dir.tables[j] != null {
        assert SlotCloned(kernel.tables[j], src.tables[j], dir.tables[j], src.tablesPhysical[j], dir.tablesPhysical[j], known0);
        assert dir.tables[j] != src.tables[i];
      }
      if src.tables[j] != null && p != q {
        assert src.tables[i] != src.tables[j] || p % ENTRIES != q % ENTRIES;
      }
    }

    // ---- Runs of alloc_frame and free_frame ----

    /** The frames in use and the entries of all tables. */
    ghost function Books(): (h: Ledger)
      reads this, frameMap, frameMap.frames, known
    {
      Ledger(frameMap.InUse(), EntriesOf(known))
    }

    /** One call; false when it panics. */
    method ServeOne(c: FrameCall) returns (ok: bool)
      requires Valid() && c.table in known && c.slot < ENTRIES
      modifies frameMap.frames, c.table
      ensures Valid() && Books() == Booked(old(Books()), c, frameMap.Limit(), usedFrames == frameMap.nframes)
      ensures ok <==> !Panics(old(Books()), c, frameMap.Limit(), usedFrames == frameMap.nframes)
      ensures !ok ==> Books() == old(Books())
      ensures old(0 in frameMap.InUse()) ==> 0 in frameMap.InUse()
      ensures |c.table.pages| == |old(c.table.pages)| == ENTRIES
      ensures forall i | 0 <= i < ENTRIES && i != c.slot :: c.table.pages[i] == old(c.table.pages)[i]
    {
      hide UsedSet, LowestFree;
      ok := true;
      match c {
        case TakeFrame(t, slot, isKernel, isWriteable) =>
          var r := AllocFrame(t, slot, isKernel, isWriteable);
          ok := r != Panicked;
        case GiveFrame(t, slot) => FreeFrame(t, slot);
      }
      assert Books().entries == old(Books().entries)[c.table := c.table.pages];
      ghost var before := old(c.table.pages);
      assert before[c.slot := before[c.slot]] == before;
      assert old(Books().entries)[c.table := before] == old(Books().entries);
    }

    /** Serves a list of calls on known tables, up to the first that panics, and
        does to the books just what the calls say. Throughout, a held frame is in
        use and held once; frame 0 stays in use, and a page no call names keeps its entry. */
    method Serve(calls: seq<FrameCall>) returns (served: nat)
      requires Valid() && forall c | c in calls :: c.table in known && c.slot < ENTRIES
      modifies frameMap.frames, set c | c in calls :: c.table
      ensures Valid() && served <= |calls|
      ensures Books() == After(old(Books()), calls[..served], frameMap.Limit(), usedFrames == frameMap.nframes)
      ensures served < |calls| ==> Panics(Books(), calls[served], frameMap.Limit(), usedFrames == frameMap.nframes)
      ensures old(0 in frameMap.InUse()) ==> 0 in frameMap.InUse()
      ensures forall t, i | t in known && 0 <= i < ENTRIES && (forall c | c in calls :: c.table != t || c.slot != i) ::
                |t.pages| == |old(t.pages)| == ENTRIES && t.pages[i] == old(t.pages[i])
    {
      hide UsedSet, LowestFree, After;
      assert calls[..0] == [];
      NoCalls(Books(), frameMap.Limit(), usedFrames == frameMap.nframes);
      served := 0;
      while served < |calls|
        invariant 0 <= served <= |calls| && Valid()
        invariant Books() == After(old(Books()), calls[..served], frameMap.Limit(), usedFrames == frameMap.nframes)
        invariant old(0 in frameMap.InUse()) ==> 0 in frameMap.InUse()
        invariant forall t, i | t in known && 0 <= i < ENTRIES && (forall c | c in calls :: c.table != t || c.slot != i) ::
                    |t.pages| == |old(t.pages)| == ENTRIES && t.pages[i] == old(t.pages[i])
      {
        assert calls[served] in calls;
        var ok := ServeOne(calls[served]);
        if !ok {
          return;
        }
        OneMoreCall(old(Books()), calls, served, frameMap.Limit(), usedFrames == frameMap.nframes);
        served := served + 1;
      }
    }
  }
}
