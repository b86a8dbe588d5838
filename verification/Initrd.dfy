/** The mounted initrd (kernel/initrd.c from line 123 on) and the reader of
    kernel/jslk.c that prints a file in chunks. */
module Initrd {
  import opened Options
  import opened Memory
  import opened CStrings
  import opened Packer

  const NODE_NAME := 128
  const CHUNK := 256
  const DEV: Bytes := [100, 101, 118]

  datatype Node = Node(name: Bytes, length: Word, ino: nat, eof: bool)

  datatype Dirent = Dirent(name: Bytes, ino: nat)

  /** What a lookup yields: nothing, the /dev directory or a file node. */
  datatype Found = Nothing | Dev | File(index: nat)

  function RecordAt(location: nat, i: nat): (a: nat) { location + 4 + RECORD * i }

  /** The record of a file once mounted: its offset counts from address 0. */
  ghost predicate Edited(m: Bytes, location: nat, i: nat, names: seq<Bytes>, files: seq<Bytes>)
    requires i < |names| == |files|
  {
    RecordIs(m, RecordAt(location, i), names[i], location + DataAt(files, i), |files[i]|)
  }

  /** The record as the packer left it. */
  ghost predicate Unedited(m: Bytes, location: nat, i: nat, names: seq<Bytes>, files: seq<Bytes>)
    requires i < |names| == |files|
  {
    RecordIs(m, RecordAt(location, i), names[i], DataAt(files, i), |files[i]|)
  }

  /** Node i has the name, the length and the number of file i. */
  ghost predicate NodeIs(nodes: seq<Node>, i: nat, names: seq<Bytes>, files: seq<Bytes>)
    requires i < |nodes| == |names| == |files|
  {
    var node := nodes[i];
    |node.name| == NODE_NAME && HoldsAt(node.name, 0, names[i]) && node.length == |files[i]| && node.ino == i
  }

  /** Memory holds an image at this address, and ends behind it. */
  ghost predicate Loaded(m: Bytes, location: nat, names: seq<Bytes>, files: seq<Bytes>)
  {
    && |names| == |files| <= FILES && location + DataAt(files, |files|) <= |m| < ADDRESS_SPACE
    && IsImage(m[location..location + DataAt(files, |files|)], names, files)
    && forall i | 0 <= i < |names| :: names[i] != []
  }

  /** The state of the mount loop after i files. */
  ghost predicate MountedTo(m: Bytes, nodes: seq<Node>, location: nat, names: seq<Bytes>, files: seq<Bytes>, i: nat)
  {
    && i <= |nodes| == |names| == |files| <= FILES && location + DataAt(files, |files|) <= |m| < ADDRESS_SPACE
    && (forall j | 0 <= j < i :: Edited(m, location, j, names, files) && NodeIs(nodes, j, names, files))
    && (forall j | i <= j < |names| :: Unedited(m, location, j, names, files) && nodes[j].name == seq(NODE_NAME, _ => 0))
    && (forall j | 0 <= j < |names| :: FileAt(m, location, files, j))
  }

  lemma RecordInside(m: Bytes, lo: nat, hi: nat, a: nat, name: Bytes, offset: nat, length: nat)
    requires lo <= hi <= |m| && RecordIs(m[lo..hi], a, name, offset, length)
    ensures RecordIs(m, lo + a, name, offset, length)
  {
    hide RecordIs, ReadWord;
    RecordShifted(m[..lo], m[lo..hi], a, name, offset, length);
    assert m[..lo] + m[lo..hi] == m[..hi];
    RecordSame(m[..hi], m, lo + a, name, offset, length);
  }

  lemma ContentsInside(m: Bytes, lo: nat, hi: nat, a: nat, s: Bytes)
    requires lo <= hi <= |m| && ContentsAt(m[lo..hi], a, s)
    ensures ContentsAt(m, lo + a, s)
  {
    var t := m[lo..hi];
    forall x: nat | x < |s| ensures m[lo + a + x] == s[x] {
      assert t[a + x] == t[a..a + |s|][x];
    }
  }

  lemma ImageHas(image: Bytes, names: seq<Bytes>, files: seq<Bytes>, j: nat)
    requires IsImage(image, names, files) && j < |names|
    ensures RecordFor(image, 4, names, files, j) && FileAt(image, 0, files, j)
    ensures ReadWord(image, 0) == |names|
  {
    hide RecordFor, FileAt;
  }

  lemma LoadedRecords(m: Bytes, location: nat, names: seq<Bytes>, files: seq<Bytes>, j: nat)
    requires Loaded(m, location, names, files) && j < |names|
    ensures Unedited(m, location, j, names, files) && FileAt(m, location, files, j)
  {
    hide IsImage, RecordIs, ReadWord, ContentsAt, DataAt;
    var hi := location + DataAt(files, |files|);
    ImageHas(m[location..hi], names, files, j);
    RecordInside(m, location, hi, 4 + RECORD * j, names[j], DataAt(files, j), |files[j]|);
    ContentsInside(m, location, hi, DataAt(files, j), files[j]);
  }

  /** Editing record i. */
  lemma RecordEdited(m: Bytes, location: nat, i: nat, names: seq<Bytes>, files: seq<Bytes>, r: Bytes)
    requires i < |names| == |files| && Unedited(m, location, i, names, files) && location + DataAt(files, i) < ADDRESS_SPACE
    requires SameOutside(m, r, RecordAt(location, i) + 68, RecordAt(location, i) + 72)
    requires ReadWord(r, RecordAt(location, i) + 68) == location + DataAt(files, i)
    ensures Edited(r, location, i, names, files)
  {
    var a := RecordAt(location, i);
    ReadWordSame(m, r, a + 72);
    HoldsSame(m, r, a + 1, names[i]);
  }

  lemma AllLoaded(m: Bytes, nodes: seq<Node>, location: nat, names: seq<Bytes>, files: seq<Bytes>)
    requires Loaded(m, location, names, files) && |nodes| == |names|
    requires forall j | 0 <= j < |nodes| :: nodes[j].name == seq(NODE_NAME, _ => 0)
    ensures MountedTo(m, nodes, location, names, files, 0)
  {
    hide Unedited, ContentsAt, IsImage, DataAt;
    forall j | 0 <= j < |names|
      ensures Unedited(m, location, j, names, files) && FileAt(m, location, files, j)
    {
      LoadedRecords(m, location, names, files, j);
    }
  }

  /** Editing an offset word touches no other record and no contents. */
  lemma OffsetWordApart(m: Bytes, r: Bytes, location: nat, i: nat, names: seq<Bytes>, files: seq<Bytes>, nodes: seq<Node>, j: nat)
    requires MountedTo(m, nodes, location, names, files, i) && i < |names| && j < |names|
    requires SameOutside(m, r, RecordAt(location, i) + 68, RecordAt(location, i) + 72)
    ensures j < i ==> Edited(r, location, j, names, files)
    ensures j > i ==> Unedited(r, location, j, names, files)
    ensures FileAt(r, location, files, j)
  {
    hide RecordIs, HoldsAt, DataAt;
    if j < i {
      assert Edited(m, location, j, names, files);
      RecordSame(m, r, RecordAt(location, j), names[j], location + DataAt(files, j), |files[j]|);
    } else if j > i {
      assert Unedited(m, location, j, names, files);
      RecordSame(m, r, RecordAt(location, j), names[j], DataAt(files, j), |files[j]|);
    }
    var a := location + DataAt(files, j);
    assert FileAt(m, location, files, j) && m[a..a + |files[j]|] == r[a..a + |files[j]|];
  }

  /** Neither the end-of-file flag nor the bytes of the files matter. */
  lemma NodeKept(nodes: seq<Node>, nodes': seq<Node>, j: nat, names: seq<Bytes>, files: seq<Bytes>, after: seq<Bytes>)
    requires j < |nodes| == |nodes'| == |names| == |files| == |after| && NodeIs(nodes, j, names, files)
    requires nodes'[j] == nodes[j].(eof := nodes'[j].eof) && |after[j]| == |files[j]|
    ensures NodeIs(nodes', j, names, after)
  {
  }

  lemma OneMoreMounted(m: Bytes, r: Bytes, nodes: seq<Node>, nodes': seq<Node>, location: nat, names: seq<Bytes>, files: seq<Bytes>, i: nat)
    requires MountedTo(m, nodes, location, names, files, i) && i < |names|
    requires SameOutside(m, r, RecordAt(location, i) + 68, RecordAt(location, i) + 72)
    requires Edited(r, location, i, names, files)
    requires |nodes'| == |nodes| && nodes' == nodes[i := nodes'[i]] && NodeIs(nodes', i, names, files)
    ensures MountedTo(r, nodes', location, names, files, i + 1)
  {
    hide Edited, Unedited, ContentsAt, NodeIs, DataAt;
    forall j | 0 <= j < |names|
      ensures j < i ==> Edited(r, location, j, names, files)
      ensures j > i ==> Unedited(r, location, j, names, files)
      ensures FileAt(r, location, files, j)
      ensures j < i ==> NodeIs(nodes', j, names, files)
    {
      if j < i { NodeKept(nodes, nodes', j, names, files, files); }
      OffsetWordApart(m, r, location, i, names, files, nodes, j);
    }
  }

  lemma NameCopied(dest: Bytes, m: Bytes, a: nat, s: Bytes)
    requires HoldsAt(m, a, s) && s != [] && dest == seq(NODE_NAME, _ => 0) && |s| < NODE_NAME
    ensures CopyEnds(m, a, |s|) && HoldsAt(Overwrite(dest, 0, m[a..a + |s|]), 0, s)
  {
    CopyOfString(m, a, s);
    StrcpyExactly(dest, m, a, s, |s|);
  }

  lemma DataWithin(files: seq<Bytes>, i: nat)
    requires i < |files|
    ensures DataAt(files, i) + |files[i]| <= DataAt(files, |files|)
  {
    DataOrdered(files, i, |files|);
  }

  /** One turn of the mount loop: record i gets its offset from address 0, node i
      its name, length and number. */
  method MountFile(m: Bytes, nodes: seq<Node>, location: nat, i: nat, ghost names: seq<Bytes>, ghost files: seq<Bytes>) returns (r: Bytes, nodes': seq<Node>)
    requires MountedTo(m, nodes, location, names, files, i) && i < |nodes| && names[i] != []
    ensures |nodes'| == |nodes| && MountedTo(r, nodes', location, names, files, i + 1)
    ensures SameOutside(m, r, RecordAt(location, i) + 68, RecordAt(location, i) + 72)
  {
    hide DataAt, ReadWord, ContentsAt, HoldsAt;
    DataWithin(files, i);
    assert Unedited(m, location, i, names, files);
    var a := location + 4 + RECORD * i;
    var offset := ReadWord(m, a + 68);
    r := WriteWord(m, a + 68, (offset + location) % ADDRESS_SPACE);
    RecordEdited(m, location, i, names, files, r);
    NameCopied(nodes[i].name, r, a + 1, names[i]);
    var name := Strcpy(nodes[i].name, r, a + 1, |names[i]|);
    nodes' := nodes[i := nodes[i].(name := name, length := ReadWord(r, a + 72), ino := i)];
    OneMoreMounted(m, r, nodes, nodes', location, names, files, i);
  }

  lemma CountOf(image: Bytes, names: seq<Bytes>, files: seq<Bytes>)
    requires IsImage(image, names, files)
    ensures |image| >= FIRST_DATA && ReadWord(image, 0) == |names|
  {
  }

  lemma CountLoaded(m: Bytes, location: nat, names: seq<Bytes>, files: seq<Bytes>)
    requires Loaded(m, location, names, files)
    ensures ReadWord(m, location) == |names|
  {
    hide IsImage, RecordIs;
    var image := m[location..location + DataAt(files, |files|)];
    assert ReadWord(image, 0) == |names| && |image| == DataAt(files, |files|) by { CountOf(image, names, files); }
    assert forall x | 0 <= x < |image| :: image[x] == m[location + x];
  }

  /** initialise_initrd on memory that holds an image at any address. */
  method Mount(m: Bytes, location: nat, ghost names: seq<Bytes>, ghost files: seq<Bytes>) returns (r: Bytes, nodes: seq<Node>)
    requires Loaded(m, location, names, files)
    ensures |nodes| == |names| && MountedTo(r, nodes, location, names, files, |names|)
    ensures SameOutside(m, r, location + 4, location + FIRST_DATA)
  {
    hide DataAt, IsImage, MountedTo, HoldsAt;
    assert ReadWord(m, location) == |names| by { CountLoaded(m, location, names, files); }
    var nfiles := ReadWord(m, location);
    r, nodes := m, seq(nfiles, _ => Node(seq(NODE_NAME, _ => 0), 0, 0, false));
    AllLoaded(m, nodes, location, names, files);
    var i := 0;
    while i < nfiles
      invariant 0 <= i <= |nodes| == nfiles && MountedTo(r, nodes, location, names, files, i)
      invariant SameOutside(m, r, location + 4, location + FIRST_DATA)
    {
      r, nodes := MountFile(r, nodes, location, i, names, files);
      i := i + 1;
    }
  }

  // ---- Reading and writing ----

  /** How much of a request a file of this length serves. */
  function Available(length: nat, offset: nat, size: nat): (n: nat)
  {
    if offset > length then 0 else if size > length - offset then length - offset else size
  }

  /** The source's clipping, in 32 bits. */
  function Clipped(length: Word, offset: Word, size: Word): (n: Word)
    requires offset <= length
  {
    if (offset + size) % ADDRESS_SPACE > length then length - offset else size
  }

  /** It serves what is available exactly when the end of the request is a
      32-bit number. */
  lemma ClippedExactly(length: Word, offset: Word, size: Word)
    requires offset <= length
    ensures Clipped(length, offset, size) == Available(length, offset, size) <==> offset + size < ADDRESS_SPACE
  {
    if offset + size >= ADDRESS_SPACE {
      assert (offset + size) % ADDRESS_SPACE == offset + size - ADDRESS_SPACE;
    }
  }

  /** A file after bytes were written from address start on, if it starts at `at`. */
  function Patched(file: Bytes, at: nat, start: nat, data: Bytes): (r: Bytes)
    ensures |r| == |file|
  {
    seq(|file|, x requires 0 <= x < |file| =>
      if start <= at + x < start + |data| then data[at + x - start] else file[x])
  }

  /** All files after a write through file i. */
  function AfterWrite(files: seq<Bytes>, i: nat, offset: nat, data: Bytes): (r: seq<Bytes>)
    requires i < |files|
    ensures |r| == |files|
  {
    seq(|files|, j requires 0 <= j < |files| => Patched(files[j], DataAt(files, j), DataAt(files, i) + offset, data))
  }

  lemma OtherSame(files: seq<Bytes>, i: nat, offset: nat, data: Bytes, j: nat)
    requires i < |files| && j < |files| && j != i
    requires data == [] || offset + |data| <= |files[i]|
             || DataAt(files, i) + offset >= DataAt(files, |files|) || DataAt(files, i + 1) == DataAt(files, |files|)
    ensures AfterWrite(files, i, offset, data)[j] == files[j]
  {
    DataOrdered(files, j, |files|);
    if j < i { DataOrdered(files, j, i); } else { DataOrdered(files, i, j); }
    assert j > i ==> DataAt(files, i + 1) == DataAt(files, i) + |files[i]|;
    var f, at, start := files[j], DataAt(files, j), DataAt(files, i) + offset;
    assert forall x | 0 <= x < |f| :: Patched(f, at, start, data)[x] == f[x];
  }

  /** A write within the length of its file replaces just the bytes written. */
  lemma WriteInside(files: seq<Bytes>, i: nat, offset: nat, data: Bytes)
    requires i < |files| && offset + |data| <= |files[i]|
    ensures AfterWrite(files, i, offset, data) == files[i := Overwrite(files[i], offset, data)]
  {
    hide DataAt;
    var r := AfterWrite(files, i, offset, data);
    assert r[i] == Overwrite(files[i], offset, data);
    forall j | 0 <= j < |files| && j != i ensures r[j] == files[j] {
      OtherSame(files, i, offset, data, j);
    }
  }

  ghost predicate OthersSame(files: seq<Bytes>, after: seq<Bytes>, i: nat)
  {
    |after| == |files| && forall j | 0 <= j < |files| && j != i :: after[j] == files[j]
  }

  /** A longer write that reaches a later file can change it. */
  lemma Overrun(files: seq<Bytes>, i: nat, offset: nat, size: nat) returns (data: Bytes)
    requires i < |files| && size > 0 && offset + size > |files[i]|
    requires DataAt(files, i) + offset < DataAt(files, |files|) && DataAt(files, i + 1) < DataAt(files, |files|)
    ensures |data| == size && !OthersSame(files, AfterWrite(files, i, offset, data), i)
  {
    var start, end := DataAt(files, i) + offset, DataAt(files, i + 1);
    assert end == DataAt(files, i) + |files[i]|;
    hide DataAt;
    var a := if start < end then end else start;
    var j := FileHolding(files, |files|, a);
    var x := a - DataAt(files, j);
    var was: int := files[j][x];
    var b: Byte := (was + 1) % 0x100;
    data := seq(size, _ => b);
    assert Patched(files[j], DataAt(files, j), start, data)[x] == b != files[j][x];
    if j <= i {
      if j < i { DataOrdered(files, j, i); }
      assert false;
    }
  }

  /** Nothing stops a longer write. It leaves all other files alone, whatever it
      writes, exactly when it is empty, stays within its file, or starts behind
      all files that follow it. */
  lemma OverrunExactly(files: seq<Bytes>, i: nat, offset: nat, size: nat)
    requires i < |files|
    ensures (forall data: Bytes | |data| == size :: OthersSame(files, AfterWrite(files, i, offset, data), i))
            <==> (size == 0 || offset + size <= |files[i]|
                  || DataAt(files, i) + offset >= DataAt(files, |files|) || DataAt(files, i + 1) == DataAt(files, |files|))
  {
    var start, end, all := DataAt(files, i) + offset, DataAt(files, i + 1), DataAt(files, |files|);
    if size == 0 || start + size <= end || start >= all || end == all {
      hide AfterWrite, DataAt;
      forall data: Bytes | |data| == size ensures OthersSame(files, AfterWrite(files, i, offset, data), i) {
        forall j | 0 <= j < |files| && j != i ensures AfterWrite(files, i, offset, data)[j] == files[j] {
          OtherSame(files, i, offset, data, j);
        }
      }
    } else {
      if i + 1 < |files| { DataOrdered(files, i + 1, |files|); }
      var data := Overrun(files, i, offset, size);
    }
  }

  /** Patching memory patches every file in it. */
  lemma ContentsPatched(m: Bytes, base: nat, files: seq<Bytes>, i: nat, offset: nat, data: Bytes, j: nat)
    requires i < |files| && j < |files| && base + DataAt(files, i) + offset + |data| <= |m|
    requires FileAt(m, base, files, j)
    ensures ContentsAt(Overwrite(m, base + DataAt(files, i) + offset, data), base + DataAt(files, j), AfterWrite(files, i, offset, data)[j])
  {
    hide DataAt;
    var a, b := base + DataAt(files, j), base + DataAt(files, i) + offset;
    var r, f := Overwrite(m, b, data), AfterWrite(files, i, offset, data)[j];
    forall x: nat | x < |f| ensures r[a + x] == f[x] {
      assert m[a + x] == m[a..a + |files[j]|][x] == files[j][x];
    }
    assert r[a..a + |f|] == f;
  }

  lemma AfterWriteSizes(files: seq<Bytes>, i: nat, offset: nat, data: Bytes)
    requires i < |files|
    ensures forall j | 0 <= j < |files| :: |AfterWrite(files, i, offset, data)[j]| == |files[j]|
  {
  }

  lemma EditedKept(m: Bytes, r: Bytes, location: nat, j: nat, names: seq<Bytes>, files: seq<Bytes>, after: seq<Bytes>, start: nat)
    requires j < |names| == |files| == |after| && j < FILES && Edited(m, location, j, names, files)
    requires |after[j]| == |files[j]| && DataAt(after, j) == DataAt(files, j)
    requires |m| == |r| && location + FIRST_DATA <= start && forall x | 0 <= x < |m| && x < start :: r[x] == m[x]
    ensures Edited(r, location, j, names, after)
  {
    hide HoldsAt, ReadWord, DataAt;
    RecordSame(m, r, RecordAt(location, j), names[j], location + DataAt(files, j), |files[j]|);
  }

  /** A write changes no record: records lie in front of all contents. */
  lemma MountedAfterWrite(m: Bytes, nodes: seq<Node>, location: nat, names: seq<Bytes>, files: seq<Bytes>, i: nat, offset: nat, data: Bytes)
    requires MountedTo(m, nodes, location, names, files, |names|) && i < |names|
    requires location + DataAt(files, i) + offset + |data| <= |m|
    ensures MountedTo(Overwrite(m, location + DataAt(files, i) + offset, data), nodes, location, names, AfterWrite(files, i, offset, data), |names|)
  {
    hide Edited, NodeIs, ContentsAt, AfterWrite, DataAt;
    var r, after := Overwrite(m, location + DataAt(files, i) + offset, data), AfterWrite(files, i, offset, data);
    AfterWriteSizes(files, i, offset, data);
    DataSame(files, after, |files|);
    forall j | 0 <= j < |names|
      ensures Edited(r, location, j, names, after) && NodeIs(nodes, j, names, after)
      ensures FileAt(r, location, after, j)
    {
      DataSame(files, after, j);
      NodeKept(nodes, nodes, j, names, files, after);
      EditedKept(m, r, location, j, names, files, after, location + DataAt(files, i) + offset);
      ContentsPatched(m, location, files, i, offset, data, j);
    }
  }

  lemma EofKept(m: Bytes, nodes: seq<Node>, location: nat, names: seq<Bytes>, files: seq<Bytes>, i: nat, eof: bool)
    requires MountedTo(m, nodes, location, names, files, |names|) && i < |nodes|
    ensures MountedTo(m, nodes[i := nodes[i].(eof := eof)], location, names, files, |names|)
  {
    hide Edited, FileAt, NodeIs, DataAt;
    var nodes' := nodes[i := nodes[i].(eof := eof)];
    forall j | 0 <= j < |names| ensures NodeIs(nodes', j, names, files) {
      assert Edited(m, location, j, names, files);
      NodeKept(nodes, nodes', j, names, files, files);
    }
  }

  /** What a mounted volume says about one file. */
  lemma FileFacts(m: Bytes, nodes: seq<Node>, location: nat, names: seq<Bytes>, files: seq<Bytes>, i: nat)
    requires MountedTo(m, nodes, location, names, files, |names|) && i < |names|
    ensures RecordAt(location, i) + RECORD <= |m| && nodes[i].ino == i && nodes[i].length == |files[i]|
    ensures ReadWord(m, RecordAt(location, i) + 68) == location + DataAt(files, i)
    ensures ReadWord(m, RecordAt(location, i) + 72) == |files[i]|
    ensures |nodes[i].name| == NODE_NAME && HoldsAt(nodes[i].name, 0, names[i]) && |names[i]| < NAME
    ensures location + DataAt(files, i) + |files[i]| <= |m| < ADDRESS_SPACE
    ensures m[location + DataAt(files, i)..location + DataAt(files, i) + |files[i]|] == files[i]
  {
    hide DataAt, HoldsAt, ReadWord;
    DataWithin(files, i);
    assert Edited(m, location, i, names, files) && FileAt(m, location, files, i);
  }

  lemma RangeOf(m: Bytes, start: nat, f: Bytes, offset: nat, n: nat)
    requires start + |f| <= |m| && m[start..start + |f|] == f && offset + n <= |f|
    ensures m[start + offset..start + offset + n] == f[offset..offset + n]
  {
    var p, q := m[start + offset..start + offset + n], f[offset..offset + n];
    forall x | 0 <= x < n ensures p[x] == q[x] {
      assert m[start..start + |f|][offset + x] == m[start + (offset + x)];
    }
  }

  method Memcpy(dest: array<Byte>, src: Bytes, a: nat, len: nat)
    requires a + len <= |src| && len <= dest.Length
    modifies dest
    ensures dest[..] == src[a..a + len] + old(dest[len..])
  {
    var k := 0;
    while k < len
      invariant 0 <= k <= len
      invariant forall x | 0 <= x < dest.Length :: dest[x] == if x < k then src[a + x] else old(dest[x])
    {
      dest[k] := src[a + k];
      k := k + 1;
    }
  }

  lemma NoZeros(b: Bytes, s: Bytes)
    requires HoldsAt(b, 0, s)
    ensures forall x | 0 <= x < |s| :: s[x] != 0
  {
    forall x | 0 <= x < |s| ensures s[x] != 0 { assert b[x] == s[x]; }
  }

  /** With the terminator the caller adds, the copy is right in any buffer. */
  lemma NameEnded(dest: Bytes, s: Bytes)
    requires |s| < |dest| && forall x | 0 <= x < |s| :: s[x] != 0
    ensures HoldsAt(Overwrite(dest, 0, s)[|s| := 0], 0, s)
  {
  }

  lemma DevHolds()
    ensures HoldsAt(DEV + [0], 0, DEV)
  {
  }

  /** A mounted initrd. The ghost fields are what is packed in it: the names of
      the files, and what they now contain. */
  class Volume {
    const location: nat
    var mem: Bytes
    var nodes: seq<Node>
    var dirent: Dirent
    ghost const names: seq<Bytes>
    ghost var files: seq<Bytes>

    ghost predicate Valid()
      reads this
    {
      |nodes| == |names| == |files| && |dirent.name| == NODE_NAME && MountedTo(mem, nodes, location, names, files, |names|)
      && forall i | 0 <= i < |names| :: names[i] != []
    }

    constructor (memory: Bytes, location: nat, dirent: Dirent, ghost names: seq<Bytes>, ghost files: seq<Bytes>)
      requires Loaded(memory, location, names, files) && |dirent.name| == NODE_NAME
      ensures Valid() && this.names == names && this.files == files && this.location == location
    {
      hide MountedTo, IsImage, DataAt;
      var m, n := Mount(memory, location, names, files);
      this.location, this.names, this.files := location, names, files;
      this.dirent := dirent;
      mem, nodes := m, n;
    }

    /** Copies what the file has of the range into the buffer. */
    method Read(i: nat, offset: Word, size: Word, buffer: array<Byte>) returns (n: nat)
      requires Valid() && i < |nodes| && Available(|files[i]|, offset, size) <= buffer.Length
      requires offset <= |files[i]| ==> offset + size < ADDRESS_SPACE
      modifies this`nodes, buffer
      ensures Valid() && n == Available(|files[i]|, offset, size)
      ensures n == if |files[i]| < offset then 0 else if |files[i]| < offset + size then |files[i]| - offset else size
      ensures n == 0 ==> buffer[..] == old(buffer[..])
      ensures n > 0 ==> buffer[..] == files[i][offset..offset + n] + old(buffer[n..])
      ensures nodes == old(nodes)[i := old(nodes)[i].(eof := offset <= |files[i]| && offset + n == |files[i]|)]
    {
      hide MountedTo, ReadWord, DataAt, HoldsAt;
      FileFacts(mem, nodes, location, names, files, i);
      EofKept(mem, nodes, location, names, files, i, false);
      EofKept(mem, nodes, location, names, files, i, true);
      var ino := nodes[i].ino;
      nodes := nodes[i := nodes[i].(eof := false)];
      var start, length := ReadWord(mem, RecordAt(location, ino) + 68), ReadWord(mem, RecordAt(location, ino) + 72);
      if offset > length {
        return 0;
      }
      n := size;
      if offset + n > length {
        n := length - offset;
      }
      RangeOf(mem, start, files[i], offset, n);
      Memcpy(buffer, mem, start + offset, n);
      if offset + n >= length {
        nodes := nodes[i := nodes[i].(eof := true)];
      }
      assert nodes == old(nodes)[i := old(nodes)[i].(eof := offset + n == length)];
    }

    /** Copies the buffer over the range, however long the file is; the new
        length stays in a local copy of the record. */
    method Write(i: nat, offset: Word, size: Word, buffer: array<Byte>) returns (n: nat)
      requires Valid() && i < |nodes| && size <= buffer.Length
      requires location + DataAt(files, i) + offset + size <= |mem|
      modifies this`mem, this`nodes, this`files
      ensures Valid() && n == size && |files| == |old(files)|
      ensures files == AfterWrite(old(files), i, offset, buffer[..size])
      ensures mem == Overwrite(old(mem), location + DataAt(old(files), i) + offset, buffer[..size])
      ensures nodes == old(nodes)[i := old(nodes)[i].(eof := offset + size >= |old(files)[i]|)]
    {
      hide MountedTo, ReadWord, DataAt, HoldsAt;
      FileFacts(mem, nodes, location, names, files, i);
      var ino := nodes[i].ino;
      var start, length := ReadWord(mem, RecordAt(location, ino) + 68), ReadWord(mem, RecordAt(location, ino) + 72);
      MountedAfterWrite(mem, nodes, location, names, files, i, offset, buffer[..size]);
      mem := Overwrite(mem, start + offset, buffer[..size]);
      files := AfterWrite(files, i, offset, buffer[..size]);
      EofKept(mem, nodes, location, names, files, i, offset + size >= length);
      nodes := nodes[i := nodes[i].(eof := false)];
      if offset + size >= length {
        nodes := nodes[i := nodes[i].(eof := true)];
      }
      assert nodes == old(nodes)[i := old(nodes)[i].(eof := offset + size >= length)];
      n := size;
    }

    /** A write within the file's length, then a read of the same range. */
    method WriteThenRead(i: nat, offset: Word, size: Word, buffer: array<Byte>, out: array<Byte>)
      requires Valid() && i < |nodes| && size <= buffer.Length && size <= out.Length && buffer != out
      requires offset + size <= |files[i]|
      modifies this`mem, this`nodes, this`files, out
      ensures Valid() && out[..size] == buffer[..size]
      ensures |files| == |old(files)| && forall j | 0 <= j < |files| && j != i :: files[j] == old(files)[j]
      ensures files[i] == Overwrite(old(files)[i], offset, buffer[..size])
    {
      hide MountedTo, DataAt, HoldsAt, AfterWrite;
      FileFacts(mem, nodes, location, names, files, i);
      WriteInside(files, i, offset, buffer[..size]);
      var w := Write(i, offset, size, buffer);
      var r := Read(i, offset, size, out);
    }

    /** The first file of that name; in the root, /dev comes before all files. */
    method FindDir(atRoot: bool, name: Bytes, ghost s: Bytes) returns (r: Found)
      requires Valid() && HoldsAt(name, 0, s)
      ensures r.Dev? <==> atRoot && s == DEV
      ensures r.File? ==> r.index < |names| && names[r.index] == s && forall j | 0 <= j < r.index :: names[j] != s
      ensures r.Nothing? ==> s !in names
    {
      hide MountedTo, HoldsAt, DataAt, ReadWord;
      if atRoot {
        DevHolds();
        var d := Strcmp(name, DEV + [0], s, DEV);
        if d == 0 {
          return Dev;
        }
      }
      for i := 0 to |nodes|
        invariant forall j | 0 <= j < i :: names[j] != s
      {
        FileFacts(mem, nodes, location, names, files, i);
        var d := Strcmp(name, nodes[i].name, s, names[i]);
        if d == 0 {
          return File(i);
        }
      }
      return Nothing;
    }

    lemma NodesFew()
      requires Valid()
      ensures |nodes| <= FILES
    {
      hide DataAt, RecordIs, ContentsAt, HoldsAt;
    }

    /** Entry 0 of the root is "dev"; entry k is the k-th file. */
    method ReadDir(atRoot: bool, index: Word) returns (ok: bool)
      requires Valid()
      modifies this`dirent
      ensures Valid() && (ok <==> (atRoot && index == 0) || 1 <= index <= |names|)
      ensures !ok ==> dirent == old(dirent)
      ensures ok ==> HoldsAt(dirent.name, 0, if index == 0 then DEV else names[index - 1])
      ensures ok ==> dirent.ino == if index == 0 then 0 else index - 1
    {
      hide MountedTo, DataAt, ReadWord;
      if atRoot && index == 0 {
        DevHolds();
        CopyOfString(DEV + [0], 0, DEV);
        var name := Strcpy(dirent.name, DEV + [0], 0, 3);
        NameEnded(dirent.name, DEV);
        dirent := Dirent(name[3 := 0], 0);
        return true;
      }
      assert |nodes| < ADDRESS_SPACE - 1 by { NodesFew(); }
      if (index - 1) % ADDRESS_SPACE >= |nodes| {
        return false;
      }
      var i := index - 1;
      FileFacts(mem, nodes, location, names, files, i);
      CopyOfString(nodes[i].name, 0, names[i]);
      var name := Strcpy(dirent.name, nodes[i].name, 0, |names[i]|);
      var len := Strlen(nodes[i].name, names[i]);
      assert forall x | 0 <= x < |names[i]| :: names[i][x] != 0 by { NoZeros(nodes[i].name, names[i]); }
      NameEnded(dirent.name, names[i]);
      dirent := Dirent(name[len := 0], nodes[i].ino);
      return true;
    }

    /** Prints a file of the root in chunks of 256 bytes; none if there is no such
        file. Ends with the end-of-file flag set, unless the file is empty. */
    method Open(name: Bytes, ghost s: Bytes) returns (output: Option<Bytes>)
      requires Valid() && HoldsAt(name, 0, s) && s != DEV
      modifies this`nodes
      ensures Valid() && (output.Some? <==> s in names)
      ensures output.Some? ==>
                exists i :: (&& 0 <= i < |names| == |files| && names[i] == s && (forall j | 0 <= j < i :: names[j] != s)
                             && output.value == files[i] && nodes == old(nodes)[i := nodes[i]] && (files[i] != [] ==> nodes[i].eof))
    {
      hide MountedTo, DataAt, HoldsAt, ReadWord;
      var found := FindDir(true, name, s);
      if found == Nothing {
        return None;
      }
      var i := found.index;
      FileFacts(mem, nodes, location, names, files, i);
      var buf := new Byte[CHUNK];
      var length, bread, text := nodes[i].length, 0, [];
      while bread < length
        invariant 0 <= bread <= length == |files[i]| && Valid() && text == files[i][..bread]
        invariant |nodes| == |old(nodes)| && nodes == old(nodes)[i := nodes[i]]
        invariant bread > 0 ==> nodes[i].eof == (bread == length)
      {
        assert bread + CHUNK < ADDRESS_SPACE by { FileFacts(mem, nodes, location, names, files, i); }
        var sz := Read(i, bread, CHUNK, buf);
        assert buf[..sz] == files[i][bread..bread + sz];
        text := text + buf[..sz];
        assert text == files[i][..bread + sz];
        bread := bread + sz;
      }
      assert files[i][..length] == files[i];
      output := Some(text);
    }
  }

  lemma ImageLoaded(memory: Bytes, location: nat, image: Bytes, names: seq<Bytes>, files: seq<Bytes>)
    requires IsImage(image, names, files) && location + |image| <= |memory| < ADDRESS_SPACE
    requires forall i | 0 <= i < |names| :: names[i] != []
    ensures Loaded(Overwrite(memory, location, image), location, names, files)
  {
    hide RecordIs, ContentsAt, ReadWord;
  }

  lemma ImageSize(image: Bytes, names: seq<Bytes>, contents: seq<Bytes>)
    requires IsImage(image, names, contents)
    ensures |image| == DataAt(contents, |contents|)
  {
  }

  lemma TerminatedHolds(s: Bytes)
    requires GoodName(s)
    ensures HoldsAt(s + [0], 0, s)
  {
  }

  /** Packing files, putting the image anywhere into memory, mounting it there
      and printing the k-th file by its name gives the bytes that were on disk,
      if no file before it has the same name. */
  method PackMountOpen(argv: seq<Bytes>, disk: map<Bytes, Bytes>, stack: Bytes, memory: Bytes, location: nat, dirent: Dirent, k: nat)
    returns (output: Option<Bytes>)
    requires Packable(argv, disk) && |stack| == RECORD * FILES && |dirent.name| == NODE_NAME
    requires forall i | 0 <= i < Count(argv) :: Names(argv)[i] != []
    requires location + DataAt(Sources(argv, disk), Count(argv)) <= |memory| < ADDRESS_SPACE
    requires AllPresent(argv, disk) && k < Count(argv) && Names(argv)[k] != DEV
    requires forall j | 0 <= j < k :: Names(argv)[j] != Names(argv)[k]
    ensures output == Some(disk[argv[2 * k + 1]])
  {
    hide IsImage, HoldsAt, DataAt;
    ghost var names, files := Names(argv), Sources(argv, disk);
    var image := Pack(argv, disk, stack);
    assert |image.value| == DataAt(files, |files|) by { ImageSize(image.value, names, files); }
    ImageLoaded(memory, location, image.value, names, files);
    var volume := new Volume(Overwrite(memory, location, image.value), location, dirent, names, files);
    var name := argv[2 * k + 2];
    assert GoodName(names[k]);
    assert HoldsAt(name + [0], 0, name) by { TerminatedHolds(name); }
    output := volume.Open(name + [0], name);
  }
}
