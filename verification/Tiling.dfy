/** A range of addresses cut into contiguous segments, each a hole or a block.
    This is what the headers of kernel/heap.c describe: from one header, its
    size leads to the next. */
module Tilings {
  import opened Memory

  datatype Seg = Seg(size: nat, hole: bool)

  /** Segments by the address of their header. */
  type Segs = map<nat, Seg>

  ghost predicate Bounded(s: Segs, lo: nat, hi: nat)
  {
    forall a | a in s :: lo <= a && OVERHEAD <= s[a].size && a + s[a].size <= hi
  }

  ghost predicate Disjoint(s: Segs)
  {
    forall a, b | a in s && b in s && a < b :: a + s[a].size <= b
  }

  /** Where the segment behind a begins. */
  function Next(s: Segs, a: nat): (b: nat)
    requires a in s
  {
    a + s[a].size
  }

  ghost predicate Chained(s: Segs, hi: nat)
  {
    forall a {:trigger Next(s, a)} | a in s :: Next(s, a) == hi || Next(s, a) in s
  }

  /** The segments are at least 20 bytes each and cover lo..hi-1 without gap or overlap. */
  ghost predicate Tiling(s: Segs, lo: nat, hi: nat)
  {
    lo in s && Bounded(s, lo, hi) && Disjoint(s) && Chained(s, hi)
  }

  ghost predicate NoAdjacentHoles(s: Segs)
  {
    forall a {:trigger Next(s, a)} | a in s && s[a].hole && Next(s, a) in s :: !s[Next(s, a)].hole
  }

  // ---- What a tiling gives: every byte has exactly one owner. ----

  lemma {:induction false} OwnerFrom(s: Segs, lo: nat, hi: nat, c: nat, x: nat) returns (a: nat)
    requires Tiling(s, lo, hi) && c in s && c <= x < hi
    ensures a in s && a <= x < a + s[a].size
    decreases hi - c
  {
    if x < c + s[c].size {
      a := c;
    } else {
      a := OwnerFrom(s, lo, hi, Next(s, c), x);
    }
  }

  /** Every byte of lo..hi-1 lies in exactly one segment. */
  lemma EveryByteOwnedOnce(s: Segs, lo: nat, hi: nat, x: nat)
    requires Tiling(s, lo, hi) && lo <= x < hi
    ensures exists a :: a in s && a <= x < a + s[a].size
    ensures forall a, b | a in s && b in s && a <= x < a + s[a].size && b <= x < b + s[b].size :: a == b
  {
    var a := OwnerFrom(s, lo, hi, lo, x);
  }

  /** Every segment but the first has one that ends where it begins. */
  lemma Predecessor(s: Segs, lo: nat, hi: nat, a: nat) returns (p: nat)
    requires Tiling(s, lo, hi) && a in s && a != lo
    ensures p in s && Next(s, p) == a
  {
    p := OwnerFrom(s, lo, hi, lo, a - 1);
    assert p < a;
  }

  lemma UniqueEnd(s: Segs, lo: nat, hi: nat, a: nat)
    requires Tiling(s, lo, hi) && a in s
    ensures forall c {:trigger Next(s, c)} | c in s && c != a :: Next(s, c) != Next(s, a)
    ensures forall c | c in s && a < c :: Next(s, a) <= c
  {
  }

  /** The segments in address order, found by hopping from header to header. */
  ghost function Walk(s: Segs, lo: nat, hi: nat, c: nat): (w: seq<nat>)
    requires Tiling(s, lo, hi) && (c == hi || c in s)
    decreases hi - c
  {
    if c !in s then [] else [c] + Walk(s, lo, hi, Next(s, c))
  }

  lemma {:induction false} WalkMembers(s: Segs, lo: nat, hi: nat, c: nat)
    requires Tiling(s, lo, hi) && (c == hi || c in s)
    ensures forall a :: a in Walk(s, lo, hi, c) <==> a in s && c <= a
    decreases hi - c
  {
    if c in s {
      WalkMembers(s, lo, hi, Next(s, c));
      UniqueEnd(s, lo, hi, c);
    }
  }

  lemma {:induction false} WalkChain(s: Segs, lo: nat, hi: nat, c: nat)
    requires Tiling(s, lo, hi) && (c == hi || c in s)
    ensures var w := Walk(s, lo, hi, c);
            && (forall i | 0 <= i < |w| :: w[i] in s)
            && (if c == hi then w == [] else w != [] && w[0] == c && Next(s, w[|w| - 1]) == hi)
            && (forall i | 0 <= i < |w| - 1 :: Next(s, w[i]) == w[i + 1])
    decreases hi - c
  {
    if c in s {
      WalkChain(s, lo, hi, Next(s, c));
    }
  }

  /** Hopping from `lo` meets every segment and stops exactly at `hi`: the
      segments are one contiguous chain with no byte to spare. */
  lemma WalkIsExact(s: Segs, lo: nat, hi: nat)
    requires Tiling(s, lo, hi)
    ensures var w := Walk(s, lo, hi, lo);
            && w != [] && w[0] == lo
            && (forall a :: a in w <==> a in s)
            && (forall i | 0 <= i < |w| - 1 :: Next(s, w[i]) == w[i + 1])
            && Next(s, w[|w| - 1]) == hi
  {
    WalkMembers(s, lo, hi, lo);
    WalkChain(s, lo, hi, lo);
  }

  // ---- The five ways the allocator changes a tiling. ----

  function SetHole(s: Segs, a: nat, hole: bool): (r: Segs)
    requires a in s
  {
    s[a := Seg(s[a].size, hole)]
  }

  /** Cuts segment a after k bytes. */
  function Split(s: Segs, a: nat, k: nat, firstHole: bool, secondHole: bool): (r: Segs)
    requires a in s && k <= s[a].size
  {
    s[a := Seg(k, firstHole)][a + k := Seg(s[a].size - k, secondHole)]
  }

  /** Merges segment a with the one behind it into one hole. */
  function Join(s: Segs, a: nat): (r: Segs)
    requires a in s && Next(s, a) in s
  {
    var b := Next(s, a);
    (s - {b})[a := Seg(s[a].size + s[b].size, true)]
  }

  function Resize(s: Segs, a: nat, size: nat): (r: Segs)
    requires a in s
  {
    s[a := Seg(size, s[a].hole)]
  }

  /** Outside the addresses touched, r is s. */
  ghost predicate SameBut(s: Segs, r: Segs, touched: set<nat>)
  {
    && (forall c {:trigger c in r} | c in r && c !in touched :: c in s && r[c] == s[c])
    && (forall c {:trigger Next(r, c)} | c in r && c !in touched :: Next(r, c) == Next(s, c))
    && (forall c {:trigger c in s} | c in s && c !in touched :: c in r)
  }

  lemma SetHoleTiles(s: Segs, lo: nat, hi: nat, a: nat, hole: bool)
    requires Tiling(s, lo, hi) && a in s
    ensures Tiling(SetHole(s, a, hole), lo, hi)
  {
    var r := SetHole(s, a, hole);
    assert SameBut(s, r, {a}) && Next(r, a) == Next(s, a);
  }

  /** r is s with segment a cut at b. */
  ghost predicate CutAt(s: Segs, r: Segs, lo: nat, hi: nat, a: nat, b: nat)
  {
    && Tiling(s, lo, hi) && a in s && b !in s
    && SameBut(s, r, {a, b}) && a in r && b in r && Next(r, a) == b && Next(r, b) == Next(s, a)
    && OVERHEAD <= r[a].size && OVERHEAD <= r[b].size
  }

  lemma SplitDisjoint(s: Segs, r: Segs, lo: nat, hi: nat, a: nat, b: nat)
    requires CutAt(s, r, lo, hi, a, b)
    ensures Disjoint(r)
  {
    hide Chained;
    forall c, d | c in r && d in r && c < d ensures c + r[c].size <= d {
      if c in s {
        assert c < a ==> c + s[c].size <= a;
      }
      if d in s {
        assert a < d ==> Next(s, a) <= d;
      }
    }
  }

  lemma SplitChained(s: Segs, r: Segs, lo: nat, hi: nat, a: nat, b: nat)
    requires CutAt(s, r, lo, hi, a, b)
    ensures lo in r && Bounded(r, lo, hi) && Chained(r, hi)
  {
    assert Chained(r, hi);
  }

  lemma SplitTiles(s: Segs, lo: nat, hi: nat, a: nat, k: nat, firstHole: bool, secondHole: bool)
    requires Tiling(s, lo, hi) && a in s && OVERHEAD <= k && k + OVERHEAD <= s[a].size
    ensures a + k !in s
    ensures Tiling(Split(s, a, k, firstHole, secondHole), lo, hi)
  {
    var r := Split(s, a, k, firstHole, secondHole);
    UniqueEnd(s, lo, hi, a);
    SplitDisjoint(s, r, lo, hi, a, a + k);
    SplitChained(s, r, lo, hi, a, a + k);
  }

  /** r is s with the neighbours a and b made one. */
  ghost predicate JoinedAt(s: Segs, r: Segs, lo: nat, hi: nat, a: nat, b: nat)
  {
    && Tiling(s, lo, hi) && a in s && b in s && Next(s, a) == b
    && SameBut(s, r, {a, b}) && a in r && b !in r && Next(r, a) == Next(s, b)
  }

  lemma JoinDisjoint(s: Segs, r: Segs, lo: nat, hi: nat, a: nat, b: nat)
    requires JoinedAt(s, r, lo, hi, a, b)
    ensures Disjoint(r)
  {
    hide Chained;
    forall c, d | c in r && d in r && c < d ensures c + r[c].size <= d {
      assert b in s && (a < d ==> b <= d) && (b < d ==> Next(s, b) <= d);
    }
  }

  lemma JoinChained(s: Segs, r: Segs, lo: nat, hi: nat, a: nat, b: nat)
    requires JoinedAt(s, r, lo, hi, a, b)
    ensures lo in r && Bounded(r, lo, hi) && Chained(r, hi)
  {
    UniqueEnd(s, lo, hi, a);
    hide Disjoint;
    assert Next(s, b) == hi || Next(s, b) in s;
  }

  lemma JoinTiles(s: Segs, lo: nat, hi: nat, a: nat)
    requires Tiling(s, lo, hi) && a in s && Next(s, a) in s
    ensures Tiling(Join(s, a), lo, hi)
  {
    var b, r := Next(s, a), Join(s, a);
    assert SameBut(s, r, {a, b}) && b !in r && Next(r, a) == Next(s, b);
    JoinDisjoint(s, r, lo, hi, a, b);
    JoinChained(s, r, lo, hi, a, b);
  }

  /** The last segment moves its end. */
  lemma ResizeLastTiles(s: Segs, lo: nat, hi: nat, a: nat, newHi: nat)
    requires Tiling(s, lo, hi) && a in s && Next(s, a) == hi && a + OVERHEAD <= newHi
    ensures Tiling(Resize(s, a, newHi - a), lo, newHi)
  {
    var r := Resize(s, a, newHi - a);
    assert SameBut(s, r, {a}) && Next(r, a) == newHi;
    UniqueEnd(s, lo, hi, a);
    assert forall c | c in r && c != a :: c < a;
  }

  /** A new last segment is put behind the old end. */
  lemma AppendTiles(s: Segs, lo: nat, hi: nat, newHi: nat, hole: bool)
    requires Tiling(s, lo, hi) && hi + OVERHEAD <= newHi
    ensures hi !in s
    ensures Tiling(s[hi := Seg(newHi - hi, hole)], lo, newHi)
  {
    var r := s[hi := Seg(newHi - hi, hole)];
    assert SameBut(s, r, {hi}) && Next(r, hi) == newHi;
  }

  /** The last segment disappears. */
  lemma DropLastTiles(s: Segs, lo: nat, hi: nat, a: nat)
    requires Tiling(s, lo, hi) && a in s && a != lo && Next(s, a) == hi
    ensures Tiling(s - {a}, lo, a)
  {
    var r := s - {a};
    assert SameBut(s, r, {a});
    UniqueEnd(s, lo, hi, a);
    assert forall c | c in r :: c < a;
  }

  /** Splitting a segment and joining the pieces is the identity. */
  lemma JoinUndoesSplit(s: Segs, lo: nat, hi: nat, a: nat, k: nat, firstHole: bool)
    requires Tiling(s, lo, hi) && a in s && s[a].hole && OVERHEAD <= k && k + OVERHEAD <= s[a].size
    ensures Join(SetHole(Split(s, a, k, firstHole, true), a, true), a) == s
  {
    SplitTiles(s, lo, hi, a, k, firstHole, true);
  }
}
