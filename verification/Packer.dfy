/** The initrd image and the tool that lays it out (initrd/make_initrd.c): a
    word with the number of files, 64 records of 76 bytes, then the contents of
    the files one after the other. */
module Packer {
  import opened Options
  import opened Memory
  import opened CStrings

  const FILES := 64
  const RECORD := 76
  const NAME := 64
  const FIRST_DATA := 4868
  const FILE_MAGIC: Byte := 0xBF

  /** Where the contents of file i start in the image. */
  function DataAt(contents: seq<Bytes>, i: nat): (a: nat)
    requires i <= |contents|
    ensures a >= FIRST_DATA
  {
    if i == 0 then FIRST_DATA else DataAt(contents, i - 1) + |contents[i - 1]|
  }

  /** The files lie one behind the other. */
  lemma {:induction false} DataOrdered(contents: seq<Bytes>, i: nat, j: nat)
    requires i < j <= |contents|
    ensures DataAt(contents, i) + |contents[i]| <= DataAt(contents, j)
    decreases j
  {
    if i + 1 < j { DataOrdered(contents, i, j - 1); }
  }

  /** Only the lengths of the files matter for where they start. */
  lemma {:induction false} DataSame(c: seq<Bytes>, d: seq<Bytes>, i: nat)
    requires i <= |c| && i <= |d| && forall k | 0 <= k < i :: |c[k]| == |d[k]|
    ensures DataAt(c, i) == DataAt(d, i)
  {
    if i > 0 { DataSame(c, d, i - 1); }
  }

  /** Every byte behind the records belongs to one file. */
  lemma {:induction false} FileHolding(contents: seq<Bytes>, n: nat, a: nat) returns (j: nat)
    requires n <= |contents| && FIRST_DATA <= a < DataAt(contents, n)
    ensures j < n && DataAt(contents, j) <= a < DataAt(contents, j) + |contents[j]|
  {
    if DataAt(contents, n - 1) <= a { j := n - 1; } else { j := FileHolding(contents, n - 1, a); }
  }

  /** The record at address a names a file and gives its offset and length. */
  ghost predicate RecordIs(m: Bytes, a: nat, name: Bytes, offset: nat, length: nat)
  {
    && a + RECORD <= |m| && m[a] == FILE_MAGIC && |name| < NAME && HoldsAt(m, a + 1, name)
    && ReadWord(m, a + 68) == offset && ReadWord(m, a + 72) == length
  }

  lemma RecordSame(m: Bytes, r: Bytes, a: nat, name: Bytes, offset: nat, length: nat)
    requires RecordIs(m, a, name, offset, length)
    requires |m| <= |r| && forall x | a <= x < a + RECORD :: r[x] == m[x]
    ensures RecordIs(r, a, name, offset, length)
  {
    ReadWordSame(m, r[..|m|], a + 68);
    ReadWordSame(m, r[..|m|], a + 72);
  }

  /** The record of file i, in a table of records at `base`. */
  ghost predicate RecordFor(m: Bytes, base: nat, names: seq<Bytes>, contents: seq<Bytes>, i: nat)
    requires i < |names| == |contents|
  {
    RecordIs(m, base + RECORD * i, names[i], DataAt(contents, i), |contents[i]|)
  }

  ghost predicate ContentsAt(m: Bytes, a: nat, s: Bytes)
  {
    a + |s| <= |m| && m[a..a + |s|] == s
  }

  /** The contents of file i, in an image at `base`. */
  ghost predicate FileAt(m: Bytes, base: nat, contents: seq<Bytes>, i: nat)
    requires i < |contents|
  {
    ContentsAt(m, base + DataAt(contents, i), contents[i])
  }

  /** An image of the files. What pads the names and records, and the unused
      records, may be anything. */
  ghost predicate IsImage(m: Bytes, names: seq<Bytes>, contents: seq<Bytes>)
  {
    && |names| == |contents| <= FILES && |m| == DataAt(contents, |contents|)
    && ReadWord(m, 0) == |names|
    && (forall i | 0 <= i < |names| :: RecordFor(m, 4, names, contents, i))
    && (forall i | 0 <= i < |names| :: FileAt(m, 0, contents, i))
  }

  // ---- The command line ----

  function Count(argv: seq<Bytes>): (n: nat) { if |argv| == 0 then 0 else (|argv| - 1) / 2 }

  /** The names the files get in the image. */
  function Names(argv: seq<Bytes>): (s: seq<Bytes>)
    ensures |s| == Count(argv)
  {
    seq(Count(argv), i requires 0 <= i < Count(argv) => argv[2 * i + 2])
  }

  /** The contents of the files on disk, empty for one that is missing. */
  function Sources(argv: seq<Bytes>, disk: map<Bytes, Bytes>): (s: seq<Bytes>)
    ensures |s| == Count(argv)
  {
    seq(Count(argv), i requires 0 <= i < Count(argv) => if argv[2 * i + 1] in disk then disk[argv[2 * i + 1]] else [])
  }

  predicate GoodName(s: Bytes) { |s| < NAME && forall k | 0 <= k < |s| :: s[k] != 0 }

  ghost predicate Packable(argv: seq<Bytes>, disk: map<Bytes, Bytes>)
  {
    && |argv| > 0 && Count(argv) <= FILES && (forall i | 0 <= i < Count(argv) :: GoodName(Names(argv)[i]))
    && DataAt(Sources(argv, disk), Count(argv)) < ADDRESS_SPACE
  }

  /** The first n records are filled. */
  ghost predicate RecordsTo(headers: Bytes, names: seq<Bytes>, contents: seq<Bytes>, n: nat)
  {
    && |headers| == RECORD * FILES && n <= |names| == |contents|
    && forall i | 0 <= i < n :: RecordFor(headers, 0, names, contents, i)
  }

  /** Fills one record. */
  method FillRecord(headers: Bytes, i: nat, name: Bytes, off: Word, length: Word) returns (r: Bytes)
    requires |headers| == RECORD * FILES && i < FILES && GoodName(name)
    ensures SameOutside(headers, r, RECORD * i, RECORD * i + RECORD)
    ensures RecordIs(r, RECORD * i, name, off, length)
  {
    var a := RECORD * i;
    var r1 := Overwrite(headers, a + 1, name + [0]);
    assert HoldsAt(r1, a + 1, name);
    var r2 := WriteWord(r1, a + 68, off);
    var r3 := WriteWord(r2, a + 72, length);
    r := r3[a := FILE_MAGIC];
    HoldsSame(r1, r, a + 1, name);
    ReadWordSame(r2, r, a + 68);
    ReadWordSame(r3, r, a + 72);
  }

  lemma OneMoreRecord(headers: Bytes, filled: Bytes, names: seq<Bytes>, contents: seq<Bytes>, i: nat)
    requires RecordsTo(headers, names, contents, i) && i < |names| && |names| <= FILES
    requires SameOutside(headers, filled, RECORD * i, RECORD * i + RECORD)
    requires RecordIs(filled, RECORD * i, names[i], DataAt(contents, i), |contents[i]|)
    ensures RecordsTo(filled, names, contents, i + 1)
  {
    hide RecordIs;
    forall j | 0 <= j < i ensures RecordFor(filled, 0, names, contents, j) {
      assert RecordFor(headers, 0, names, contents, j);
      RecordSame(headers, filled, RECORD * j, names[j], DataAt(contents, j), |contents[j]|);
    }
  }

  predicate AllPresent(argv: seq<Bytes>, disk: map<Bytes, Bytes>) {
    forall i | 0 <= i < Count(argv) :: argv[2 * i + 1] in disk
  }

  lemma Argument(argv: seq<Bytes>, disk: map<Bytes, Bytes>, i: nat)
    requires Packable(argv, disk) && i < Count(argv)
    ensures GoodName(argv[2 * i + 2]) && Names(argv)[i] == argv[2 * i + 2]
    ensures argv[2 * i + 1] in disk ==> Sources(argv, disk)[i] == disk[argv[2 * i + 1]]
  {
    hide GoodName;
    assert GoodName(Names(argv)[i]);
  }

  lemma NoRecords(headers: Bytes, names: seq<Bytes>, contents: seq<Bytes>)
    requires |headers| == RECORD * FILES && |names| == |contents|
    ensures RecordsTo(headers, names, contents, 0)
  {
  }

  /** The loop that computes offsets and fills the records; false when a file is missing. */
  method FillRecords(argv: seq<Bytes>, disk: map<Bytes, Bytes>, stack: Bytes) returns (ok: bool, headers: Bytes)
    requires Packable(argv, disk) && |stack| == RECORD * FILES
    ensures ok == AllPresent(argv, disk)
    ensures ok ==> RecordsTo(headers, Names(argv), Sources(argv, disk), Count(argv))
  {
    hide RecordIs, RecordsTo, GoodName, Names, Sources;
    ghost var names, contents := Names(argv), Sources(argv, disk);
    var nheaders := (|argv| - 1) / 2;
    headers := stack;
    NoRecords(headers, names, contents);
    var off := RECORD * FILES + 4;
    for i := 0 to nheaders
      invariant off == DataAt(contents, i) && |headers| == RECORD * FILES && RecordsTo(headers, names, contents, i)
      invariant forall j | 0 <= j < i :: argv[2 * j + 1] in disk
    {
      var path, name := argv[2 * i + 1], argv[2 * i + 2];
      if path !in disk {
        return false, headers;
      }
      DataOrdered(contents, i, nheaders);
      Argument(argv, disk, i);
      var filled := FillRecord(headers, i, name, off, |disk[path]|);
      OneMoreRecord(headers, filled, names, contents, i);
      headers := filled;
      off := off + |disk[path]|;
    }
    ok := true;
  }

  /** The image of the first n files: all records, the contents of n files. */
  ghost predicate ImageTo(m: Bytes, names: seq<Bytes>, contents: seq<Bytes>, n: nat)
  {
    && n <= |names| == |contents| <= FILES && |m| == DataAt(contents, n)
    && ReadWord(m, 0) == |names|
    && (forall i | 0 <= i < |names| :: RecordFor(m, 4, names, contents, i))
    && (forall i | 0 <= i < n :: FileAt(m, 0, contents, i))
  }

  lemma RecordShifted(front: Bytes, m: Bytes, a: nat, name: Bytes, offset: nat, length: nat)
    requires RecordIs(m, a, name, offset, length)
    ensures RecordIs(front + m, |front| + a, name, offset, length)
  {
    var r := front + m;
    var d := |front|;
    assert forall x | 0 <= x < |m| :: r[d + x] == m[x];
    assert HoldsAt(r, d + a + 1, name) by {
      assert r[d + (a + 1 + |name|)] == m[a + 1 + |name|];
      forall k | d + a + 1 <= k < d + a + 1 + |name| ensures r[k] == name[k - (d + a + 1)] && r[k] != 0 {
        assert r[d + (k - d)] == m[k - d];
      }
    }
  }

  lemma EmptyImage(count: Bytes, headers: Bytes, names: seq<Bytes>, contents: seq<Bytes>)
    requires |names| == |contents| <= FILES && RecordsTo(headers, names, contents, |names|)
    requires |count| == 4 && ReadWord(count, 0) == |names|
    ensures ImageTo(count + headers, names, contents, 0)
  {
    hide RecordIs;
    var out := count + headers;
    assert ReadWord(out, 0) == |names| by { assert forall x | 0 <= x < 4 :: out[x] == count[x]; }
    forall i | 0 <= i < |names| ensures RecordFor(out, 4, names, contents, i) {
      assert RecordFor(headers, 0, names, contents, i);
      RecordShifted(count, headers, RECORD * i, names[i], DataAt(contents, i), |contents[i]|);
    }
  }

  lemma RecordsStay(m: Bytes, r: Bytes, names: seq<Bytes>, contents: seq<Bytes>, n: nat)
    requires ImageTo(m, names, contents, n) && |m| <= |r| && r[..|m|] == m
    ensures ReadWord(r, 0) == |names|
    ensures forall i | 0 <= i < |names| :: RecordFor(r, 4, names, contents, i)
  {
    hide RecordIs, FileAt;
    assert forall x | 0 <= x < |m| :: r[x] == m[x];
    assert ReadWord(r, 0) == ReadWord(m, 0);
    forall i | 0 <= i < |names| ensures RecordFor(r, 4, names, contents, i) {
      assert RecordFor(m, 4, names, contents, i);
      RecordSame(m, r, 4 + RECORD * i, names[i], DataAt(contents, i), |contents[i]|);
    }
  }

  lemma ContentsStay(m: Bytes, r: Bytes, a: nat, s: Bytes)
    requires ContentsAt(m, a, s) && |m| <= |r| && r[..|m|] == m
    ensures ContentsAt(r, a, s)
  {
    assert r[a..a + |s|] == r[..|m|][a..a + |s|];
  }

  lemma LastContents(m: Bytes, s: Bytes)
    ensures ContentsAt(m + s, |m|, s)
  {
    assert (m + s)[|m|..|m| + |s|] == s;
  }

  lemma OneMoreFile(m: Bytes, names: seq<Bytes>, contents: seq<Bytes>, n: nat)
    requires ImageTo(m, names, contents, n) && n < |names|
    ensures ImageTo(m + contents[n], names, contents, n + 1)
  {
    hide RecordIs;
    var r := m + contents[n];
    assert r[..|m|] == m;
    RecordsStay(m, r, names, contents, n);
    forall i | 0 <= i < n + 1 ensures FileAt(r, 0, contents, i) {
      hide ContentsAt, ReadWord;
      if i < n {
        assert FileAt(m, 0, contents, i);
        ContentsStay(m, r, DataAt(contents, i), contents[i]);
      } else {
        LastContents(m, contents[n]);
      }
    }
  }

  lemma WholeImage(m: Bytes, names: seq<Bytes>, contents: seq<Bytes>)
    requires ImageTo(m, names, contents, |names|)
    ensures IsImage(m, names, contents)
  {
  }

  /** An image byte by byte: the number of files; for each a magic byte, the name it
      was given, its offset and its length; and at that offset what was on disk. */
  lemma ImageMeans(m: Bytes, argv: seq<Bytes>, disk: map<Bytes, Bytes>, i: nat)
    requires Packable(argv, disk) && AllPresent(argv, disk) && IsImage(m, Names(argv), Sources(argv, disk)) && i < (|argv| - 1) / 2
    ensures 4868 <= |m| && ReadWord(m, 0) == (|argv| - 1) / 2 <= 64
    ensures var a, file := 4 + 76 * i, disk[argv[2 * i + 1]];
            && m[a] == 0xBF && HoldsAt(m, a + 1, argv[2 * i + 2]) && ReadWord(m, a + 72) == |file|
            && var offset := ReadWord(m, a + 68);
               4868 <= offset && offset + |file| <= |m| && m[offset..offset + |file|] == file
  {
    hide HoldsAt, ReadWord, GoodName;
    Argument(argv, disk, i);
    assert RecordFor(m, 4, Names(argv), Sources(argv, disk), i) && FileAt(m, 0, Sources(argv, disk), i);
  }

  /** Packs the files named on the command line; `stack` is what the records
      held before. Fails exactly when a file is missing. */
  method Pack(argv: seq<Bytes>, disk: map<Bytes, Bytes>, stack: Bytes) returns (image: Option<Bytes>)
    requires Packable(argv, disk) && |stack| == RECORD * FILES
    ensures image.Some? <==> AllPresent(argv, disk)
    ensures image.Some? ==> IsImage(image.value, Names(argv), Sources(argv, disk))
  {
    hide RecordIs, RecordsTo, ImageTo, IsImage, GoodName, ReadWord;
    var ok, headers := FillRecords(argv, disk, stack);
    if !ok {
      return None;
    }
    ghost var names, contents := Names(argv), Sources(argv, disk);
    var nheaders := (|argv| - 1) / 2;
    var zero: Bytes := [0, 0, 0, 0];
    var count := WriteWord(zero, 0, nheaders);
    var out := count + headers;
    EmptyImage(count, headers, names, contents);
    for i := 0 to nheaders
      invariant ImageTo(out, names, contents, i)
    {
      OneMoreFile(out, names, contents, i);
      out := out + disk[argv[2 * i + 1]];
    }
    WholeImage(out, names, contents);
    image := Some(out);
  }
}
