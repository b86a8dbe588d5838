/** The frame bitmap of hal/x86/memory/paging.c: one bit for each 4096-byte
    frame of physical memory, 32 to a word. */
module Frames {

  const FRAME_SIZE := 0x1000
  const BITS := 32
  const NO_FRAME := 0xFFFF_FFFF

  /** 0x1 << j */
  function Mask(j: nat): (m: bv32)
    requires j < BITS
  {
    (1 as bv32) << j
  }

  /** w has a bit of m. */
  predicate Has(w: bv32, m: bv32)
  {
    w & m != 0
  }

  function With(w: bv32, m: bv32): (r: bv32)
  {
    w | m
  }

  function Without(w: bv32, m: bv32): (r: bv32)
  {
    w & !m
  }

  predicate Apart(m: bv32, k: bv32)
  {
    m & k == 0
  }

  predicate Bit(w: bv32, j: nat)
    requires j < BITS
  {
    Has(w, Mask(j))
  }

  /** The masks as numbers. */
  lemma MaskValues()
    ensures Mask(0) == 0x1 && Mask(1) == 0x2 && Mask(2) == 0x4 && Mask(3) == 0x8
    ensures Mask(4) == 0x10 && Mask(5) == 0x20 && Mask(6) == 0x40 && Mask(7) == 0x80
    ensures Mask(8) == 0x100 && Mask(9) == 0x200 && Mask(10) == 0x400 && Mask(11) == 0x800
    ensures Mask(12) == 0x1000 && Mask(13) == 0x2000 && Mask(14) == 0x4000 && Mask(15) == 0x8000
    ensures Mask(16) == 0x1_0000 && Mask(17) == 0x2_0000 && Mask(18) == 0x4_0000 && Mask(19) == 0x8_0000
    ensures Mask(20) == 0x10_0000 && Mask(21) == 0x20_0000 && Mask(22) == 0x40_0000 && Mask(23) == 0x80_0000
    ensures Mask(24) == 0x100_0000 && Mask(25) == 0x200_0000 && Mask(26) == 0x400_0000 && Mask(27) == 0x800_0000
    ensures Mask(28) == 0x1000_0000 && Mask(29) == 0x2000_0000 && Mask(30) == 0x4000_0000 && Mask(31) == 0x8000_0000
  {
  }

  lemma MasksApart(i: nat, j: nat)
    requires i < BITS && j < BITS && i != j
    ensures Apart(Mask(i), Mask(j))
  {
    MaskValues();
  }

  lemma MaskNotZero(j: nat)
    requires j < BITS
    ensures Mask(j) != 0
  {
    MaskValues();
  }

  lemma HasWithOther(w: bv32, m: bv32, k: bv32)
    requires Apart(m, k)
    ensures Has(With(w, m), k) == Has(w, k)
  {
  }

  lemma HasWithSame(w: bv32, m: bv32)
    requires m != 0
    ensures Has(With(w, m), m)
  {
  }

  lemma HasWithoutOther(w: bv32, m: bv32, k: bv32)
    requires Apart(m, k)
    ensures Has(Without(w, m), k) == Has(w, k)
  {
  }

  lemma HasWithoutSame(w: bv32, m: bv32)
    ensures !Has(Without(w, m), m)
  {
  }

  lemma BitSet(w: bv32, i: nat, j: nat)
    requires i < BITS && j < BITS
    ensures Bit(With(w, Mask(i)), j) <==> i == j || Bit(w, j)
  {
    hide Mask, Has, With, Apart;
    if i == j {
      MaskNotZero(i);
      HasWithSame(w, Mask(i));
    } else {
      MasksApart(i, j);
      HasWithOther(w, Mask(i), Mask(j));
    }
  }

  lemma BitCleared(w: bv32, i: nat, j: nat)
    requires i < BITS && j < BITS
    ensures Bit(Without(w, Mask(i)), j) <==> i != j && Bit(w, j)
  {
    hide Mask, Has, Without, Apart;
    if i == j {
      HasWithoutSame(w, Mask(i));
    } else {
      MasksApart(i, j);
      HasWithoutOther(w, Mask(i), Mask(j));
    }
  }

  lemma FullWord(w: bv32)
    requires forall j | 0 <= j < BITS :: Bit(w, j)
    ensures w == 0xFFFF_FFFF
  {
    MaskValues();
    assert Bit(w, 0) && Bit(w, 1) && Bit(w, 2) && Bit(w, 3) && Bit(w, 4) && Bit(w, 5) && Bit(w, 6) && Bit(w, 7);
    assert Bit(w, 8) && Bit(w, 9) && Bit(w, 10) && Bit(w, 11) && Bit(w, 12) && Bit(w, 13) && Bit(w, 14) && Bit(w, 15);
    assert Bit(w, 16) && Bit(w, 17) && Bit(w, 18) && Bit(w, 19) && Bit(w, 20) && Bit(w, 21) && Bit(w, 22) && Bit(w, 23);
    assert Bit(w, 24) && Bit(w, 25) && Bit(w, 26) && Bit(w, 27) && Bit(w, 28) && Bit(w, 29) && Bit(w, 30) && Bit(w, 31);
  }

  lemma FullWordHasAllBits(j: nat)
    requires j < BITS
    ensures Bit(0xFFFF_FFFF, j)
  {
    hide Mask;
    MaskNotZero(j);
  }

  /** Frame f is in use. */
  predicate Used(words: seq<bv32>, f: nat)
    requires f < BITS * |words|
  {
    Bit(words[f / BITS], f % BITS)
  }

  ghost function UsedSet(words: seq<bv32>): (s: set<nat>)
    ensures forall f :: f in s <==> 0 <= f < BITS * |words| && Used(words, f)
  {
    set f: nat | 0 <= f < BITS * |words| && Used(words, f)
  }

  /** A frame is in use when bit f % 32 of word f / 32 is set. */
  lemma UsedIsBit(words: seq<bv32>, f: nat)
    requires f < 32 * |words|
    ensures f in UsedSet(words) <==> words[f / 32] & Mask(f % 32) != 0
  {
    hide Mask;
  }

  /** The lowest frame at or above `from` and below `limit` that is not used; `limit` if there is none. */
  ghost function LowestFree(used: set<nat>, from: nat, limit: nat): (f: nat)
    requires from <= limit
    ensures from <= f <= limit
    ensures f < limit ==> f !in used
    ensures forall k | from <= k < f :: k in used
    decreases limit - from
  {
    if from == limit || from !in used then from else LowestFree(used, from + 1, limit)
  }

  lemma LowestFreeIs(used: set<nat>, limit: nat, f: nat)
    requires f <= limit && (f < limit ==> f !in used) && forall k | 0 <= k < f :: k in used
    ensures LowestFree(used, 0, limit) == f
  {
  }

  /** How many of the frames below `limit` are not used. */
  ghost function FreeCount(used: set<nat>, limit: nat): (n: nat)
  {
    if limit == 0 then 0 else FreeCount(used, limit - 1) + if limit - 1 in used then 0 else 1
  }

  /** Taking a free frame leaves one less. */
  lemma {:induction false} FreeCountTaken(used: set<nat>, limit: nat, f: nat)
    requires f !in used
    ensures FreeCount(used + {f}, limit) == FreeCount(used, limit) - if f < limit then 1 else 0
  {
    if limit > 0 { FreeCountTaken(used, limit - 1, f); }
  }

  /** None is left exactly when there is no lowest free frame. */
  lemma {:induction false} FreeCountZero(used: set<nat>, limit: nat)
    ensures FreeCount(used, limit) == 0 <==> forall f: nat | f < limit :: f in used
    ensures FreeCount(used, limit) == 0 <==> LowestFree(used, 0, limit) == limit
  {
    if limit > 0 { FreeCountZero(used, limit - 1); }
    if forall f: nat | f < limit :: f in used { LowestFreeIs(used, limit, limit); }
  }

  /** Setting one bit uses exactly one more frame. */
  lemma SetBitUses(words: seq<bv32>, f: nat)
    requires f < BITS * |words|
    ensures UsedSet(words[f / BITS := With(words[f / BITS], Mask(f % BITS))]) == UsedSet(words) + {f}
  {
    hide Mask, Bit, With;
    var r := words[f / BITS := With(words[f / BITS], Mask(f % BITS))];
    forall k: nat | k < BITS * |words| ensures Used(r, k) <==> Used(words, k) || k == f {
      BitSet(words[f / BITS], f % BITS, k % BITS);
    }
  }

  /** Clearing one bit frees exactly one frame. */
  lemma ClearBitFrees(words: seq<bv32>, f: nat)
    requires f < BITS * |words|
    ensures UsedSet(words[f / BITS := Without(words[f / BITS], Mask(f % BITS))]) == UsedSet(words) - {f}
  {
    hide Mask, Bit, Without;
    var r := words[f / BITS := Without(words[f / BITS], Mask(f % BITS))];
    forall k: nat | k < BITS * |words| ensures Used(r, k) <==> Used(words, k) && k != f {
      BitCleared(words[f / BITS], f % BITS, k % BITS);
    }
  }

  /** The bitmap: `frames` holds one word for every 32 of the `nframes` frames. */
  class FrameMap {
    const frames: array<bv32>
    const nframes: nat

    ghost predicate Valid()
    {
      frames.Length == nframes / BITS && nframes <= 0x10_0000
    }

    ghost function InUse(): (s: set<nat>)
      reads frames
    {
      UsedSet(frames[..])
    }

    /** The frames the bitmap has a bit for. */
    function Limit(): (n: nat)
    {
      BITS * frames.Length
    }

    /** A zeroed bitmap. */
    constructor (nframes: nat)
      requires nframes <= 0x10_0000
      ensures Valid() && this.nframes == nframes && fresh(frames) && InUse() == {}
    {
      this.nframes := nframes;
      frames := new bv32[nframes / BITS](_ => 0);
      new;
      forall f: nat | f < Limit() ensures !Used(frames[..], f) {
        assert !Has(0, Mask(f % BITS));
      }
    }

    method SetFrame(frameAddr: nat)
      requires Valid() && frameAddr / FRAME_SIZE < Limit()
      modifies frames
      ensures InUse() == old(InUse()) + {frameAddr / FRAME_SIZE}
    {
      hide Mask, UsedSet, With, Without;
      var frame := frameAddr / FRAME_SIZE;
      var index := frame / BITS;
      var offset := frame % BITS;
      ghost var words := frames[..];
      frames[index] := With(frames[index], Mask(offset));
      assert frames[..] == words[index := With(words[index], Mask(offset))];
      SetBitUses(words, frame);
    }

    method ClearFrame(frameAddr: nat)
      requires Valid() && frameAddr / FRAME_SIZE < Limit()
      modifies frames
      ensures InUse() == old(InUse()) - {frameAddr / FRAME_SIZE}
    {
      hide Mask, UsedSet, With, Without;
      var frame := frameAddr / FRAME_SIZE;
      var index := frame / BITS;
      var offset := frame % BITS;
      ghost var words := frames[..];
      frames[index] := Without(frames[index], Mask(offset));
      assert frames[..] == words[index := Without(words[index], Mask(offset))];
      ClearBitFrees(words, frame);
    }

    method TestFrame(frameAddr: nat) returns (used: bool)
      requires Valid() && frameAddr / FRAME_SIZE < Limit()
      ensures used <==> frameAddr / FRAME_SIZE in InUse()
    {
      var frame := frameAddr / FRAME_SIZE;
      used := Bit(frames[frame / BITS], frame % BITS);
    }

    lemma FirstInWord(i: nat, j: nat)
      requires Valid() && i < frames.Length && j < BITS && !Bit(frames[i], j)
      requires forall f: nat | f < BITS * i :: f in InUse()
      requires forall k | 0 <= k < j :: Bit(frames[i], k)
      ensures LowestFree(InUse(), 0, Limit()) == i * BITS + j < Limit()
    {
      hide Bit;
      var f := i * BITS + j;
      assert f / BITS == i && f % BITS == j;
      forall k: nat | k < f ensures k in InUse() {
        if BITS * i <= k {
          assert k / BITS == i && k % BITS < j;
          assert Bit(frames[i], k % BITS);
        }
      }
      LowestFreeIs(InUse(), Limit(), f);
    }

    lemma WordFull(i: nat)
      requires Valid() && i < frames.Length && frames[i] == 0xFFFF_FFFF
      requires forall f: nat | f < BITS * i :: f in InUse()
      ensures forall f: nat | f < BITS * (i + 1) :: f in InUse()
    {
      forall f: nat | BITS * i <= f < BITS * (i + 1) ensures f in InUse() {
        assert f / BITS == i;
        FullWordHasAllBits(f % BITS);
      }
    }

    /** The lowest free frame; NO_FRAME when every bit is set. */
    method FirstFrame() returns (idx: nat)
      requires Valid()
      ensures var f := LowestFree(InUse(), 0, Limit());
              idx == if f == Limit() then NO_FRAME else f
    {
      hide Bit, UsedSet;
      var i := 0;
      while i < nframes / BITS
        invariant i <= frames.Length
        invariant forall f: nat | f < BITS * i :: f in InUse()
      {
        if frames[i] != 0xFFFF_FFFF {
          var j := 0;
          while j < BITS
            invariant j <= BITS
            invariant forall k | 0 <= k < j :: Bit(frames[i], k)
          {
            if !Bit(frames[i], j) {
              FirstInWord(i, j);
              return i * BITS + j;
            }
            j := j + 1;
          }
          FullWord(frames[i]);
          assert false;
        }
        WordFull(i);
        i := i + 1;
      }
      LowestFreeIs(InUse(), Limit(), Limit());
      idx := NO_FRAME;
    }
  }
}
