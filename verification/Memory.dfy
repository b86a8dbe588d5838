/** Byte-addressed kernel memory and the two boundary tags the allocator
    keeps in it (include/heap.h): a 12-byte header in front of every segment
    and an 8-byte footer behind it, both little-endian. */
module Memory {

  type Byte = x: int | 0 <= x < 0x100

  const ADDRESS_SPACE := 0x1_0000_0000

  type Word = x: int | 0 <= x < ADDRESS_SPACE

  type Bytes = seq<Byte>

  const PAGE := 0x1000
  const HEADER_SIZE := 12
  const FOOTER_SIZE := 8
  const OVERHEAD := 20
  const HEAP_MAGIC: Word := 0x123890AB

  datatype Header = Header(magic: Word, isHole: Byte, size: Word)
  datatype Footer = Footer(magic: Word, header: Word)

  /** The two memories agree on the bytes lo..hi-1. */
  ghost predicate SameRange(m: Bytes, r: Bytes, lo: int, hi: int)
  {
    |m| == |r| && forall x | 0 <= x < |m| && lo <= x < hi :: r[x] == m[x]
  }

  /** The two memories agree on every byte outside lo..hi-1. */
  ghost predicate SameOutside(m: Bytes, r: Bytes, lo: int, hi: int)
  {
    |m| == |r| && forall x | 0 <= x < |m| && (x < lo || hi <= x) :: r[x] == m[x]
  }

  function ReadWord(m: Bytes, a: nat): (v: Word)
    requires a + 4 <= |m|
  {
    var b0: int, b1: int, b2: int, b3: int := m[a], m[a + 1], m[a + 2], m[a + 3];
    b0 + 0x100 * b1 + 0x1_0000 * b2 + 0x100_0000 * b3
  }

  function WriteWord(m: Bytes, a: nat, v: Word): (r: Bytes)
    requires a + 4 <= |m|
    ensures SameOutside(m, r, a, a + 4)
    ensures ReadWord(r, a) == v
  {
    var v1 := v / 0x100;
    var v2 := v1 / 0x100;
    m[a := v % 0x100][a + 1 := v1 % 0x100][a + 2 := v2 % 0x100][a + 3 := v2 / 0x100]
  }

  lemma ReadWordSame(m: Bytes, r: Bytes, a: nat)
    requires a + 4 <= |m| && SameRange(m, r, a, a + 4)
    ensures ReadWord(r, a) == ReadWord(m, a)
  {
    assert r[a] == m[a] && r[a + 1] == m[a + 1] && r[a + 2] == m[a + 2] && r[a + 3] == m[a + 3];
  }

  function HeaderAt(m: Bytes, a: nat): (h: Header)
    requires a + HEADER_SIZE <= |m|
  {
    Header(ReadWord(m, a), m[a + 4], ReadWord(m, a + 8))
  }

  function FooterAt(m: Bytes, a: nat): (f: Footer)
    requires a + FOOTER_SIZE <= |m|
  {
    Footer(ReadWord(m, a), ReadWord(m, a + 4))
  }

  /** Stores the three fields; the compiler's three padding bytes keep their value. */
  function WriteHeader(m: Bytes, a: nat, h: Header): (r: Bytes)
    requires a + HEADER_SIZE <= |m|
    ensures SameOutside(m, r, a, a + HEADER_SIZE)
    ensures HeaderAt(r, a) == h
  {
    var m1 := WriteWord(m, a, h.magic);
    var m2 := m1[a + 4 := h.isHole];
    var m3 := WriteWord(m2, a + 8, h.size);
    assert ReadWord(m3, a) == h.magic by {
      ReadWordSame(m1, m2, a);
      ReadWordSame(m2, m3, a);
    }
    m3
  }

  function WriteFooter(m: Bytes, a: nat, f: Footer): (r: Bytes)
    requires a + FOOTER_SIZE <= |m|
    ensures SameOutside(m, r, a, a + FOOTER_SIZE)
    ensures FooterAt(r, a) == f
  {
    var m1 := WriteWord(m, a, f.magic);
    var m2 := WriteWord(m1, a + 4, f.header);
    assert ReadWord(m2, a) == f.magic by { ReadWordSame(m1, m2, a); }
    m2
  }

  predicate WordIs(v: int, b0: int, b1: int, b2: int, b3: int) { v == b0 + 0x100 * b1 + 0x1_0000 * b2 + 0x100_0000 * b3 }

  /** Both tags, byte by byte: the magic number, the hole flag and the size, and
      the magic number and the header's address, each with its lowest byte first. */
  lemma HeaderBytes(m: Bytes, a: nat)
    requires a + HEADER_SIZE <= |m|
    ensures HeaderAt(m, a).magic == HEAP_MAGIC <==> m[a..a + 4] == [0xAB, 0x90, 0x38, 0x12]
    ensures HeaderAt(m, a).isHole == m[a + 4]
    ensures WordIs(HeaderAt(m, a).size, m[a + 8], m[a + 9], m[a + 10], m[a + 11])
  {
    var b0: int, b1: int, b2: int, b3: int := m[a], m[a + 1], m[a + 2], m[a + 3];
    assert m[a..a + 4] == [b0, b1, b2, b3];
  }

  lemma FooterBytes(m: Bytes, a: nat)
    requires a + FOOTER_SIZE <= |m|
    ensures FooterAt(m, a).magic == HEAP_MAGIC <==> m[a..a + 4] == [0xAB, 0x90, 0x38, 0x12]
    ensures WordIs(FooterAt(m, a).header, m[a + 4], m[a + 5], m[a + 6], m[a + 7])
  {
    var b0: int, b1: int, b2: int, b3: int := m[a], m[a + 1], m[a + 2], m[a + 3];
    assert m[a..a + 4] == [b0, b1, b2, b3];
  }

  lemma HeaderSame(m: Bytes, r: Bytes, a: nat)
    requires a + HEADER_SIZE <= |m| && SameRange(m, r, a, a + HEADER_SIZE)
    ensures HeaderAt(r, a) == HeaderAt(m, a)
  {
    ReadWordSame(m, r, a);
    ReadWordSame(m, r, a + 8);
  }

  lemma FooterSame(m: Bytes, r: Bytes, a: nat)
    requires a + FOOTER_SIZE <= |m| && SameRange(m, r, a, a + FOOTER_SIZE)
    ensures FooterAt(r, a) == FooterAt(m, a)
  {
    ReadWordSame(m, r, a);
    ReadWordSame(m, r, a + 4);
  }
}
