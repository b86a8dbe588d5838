/** NUL-terminated strings in byte buffers (lib/jstdclib/string.c). */
module CStrings {
  import opened Memory

  /** The bytes of m from a on are the string s and its terminator. */
  ghost predicate HoldsAt(m: Bytes, a: nat, s: Bytes)
  {
    && a + |s| < |m| && m[a + |s|] == 0
    && forall k | a <= k < a + |s| :: m[k] == s[k - a] && m[k] != 0
  }

  /** A buffer holds at most one string. */
  lemma HoldsOne(m: Bytes, a: nat, s: Bytes, t: Bytes)
    requires HoldsAt(m, a, s)
    ensures HoldsAt(m, a, t) <==> s == t
  {
    if HoldsAt(m, a, t) {
      assert |s| == |t| by { assert m[a + |s|] == m[a + |t|] == 0; }
      assert forall k | 0 <= k < |s| :: s[k] == m[a + k] == t[k];
    }
  }

  lemma HoldsSame(m: Bytes, r: Bytes, a: nat, s: Bytes)
    requires HoldsAt(m, a, s) && SameRange(m, r, a, a + |s| + 1)
    ensures HoldsAt(r, a, s)
  {
  }

  /** Bytes a..a+|s|-1 replaced by s. */
  function Overwrite(m: Bytes, a: nat, s: Bytes): (r: Bytes)
    requires a + |s| <= |m|
    ensures SameOutside(m, r, a, a + |s|) && r[a..a + |s|] == s
    ensures forall x | a <= x < a + |s| :: r[x] == s[x - a]
  {
    m[..a] + s + m[a + |s|..]
  }

  /** The length of the string in b. */
  method Strlen(b: Bytes, ghost s: Bytes) returns (n: nat)
    requires HoldsAt(b, 0, s)
    ensures n == |s|
  {
    n := 0;
    while b[n] != 0
      invariant n <= |s|
      decreases |b| - n
    {
      n := n + 1;
    }
  }

  /** The source's char is signed. */
  function SignedChar(b: Byte): (v: int)
    ensures -0x80 <= v < 0x80 && (v - b) % 0x100 == 0
  {
    if b < 0x80 then b else b - 0x100
  }

  /** Zero exactly for equal strings; else the difference of the first characters
      that differ. */
  method Strcmp(a: Bytes, b: Bytes, ghost s: Bytes, ghost t: Bytes) returns (d: int)
    requires HoldsAt(a, 0, s) && HoldsAt(b, 0, t)
    ensures d == 0 <==> s == t
    ensures d != 0 ==>
              exists i :: (&& 0 <= i <= |s| && i <= |t| && s[..i] == t[..i] && a[i] != b[i]
                           && d == SignedChar(a[i]) - SignedChar(b[i]))
  {
    var i := 0;
    while a[i] == b[i]
      invariant i <= |s| && i <= |t| && s[..i] == t[..i]
      decreases |a| - i
    {
      if a[i] == 0 {
        assert |s| == |t| == i && s == s[..i] && t == t[..i];
        return 0;
      }
      assert s[..i + 1] == s[..i] + [a[i]] && t[..i + 1] == t[..i] + [a[i]];
      i := i + 1;
    }
    d := SignedChar(a[i]) - SignedChar(b[i]);
  }

  /** The bytes strcpy copies from a: the first, and then up to the next zero. */
  ghost predicate CopyEnds(src: Bytes, a: nat, k: nat)
  {
    && 0 < k && a + k < |src| && src[a + k] == 0
    && forall x | a < x < a + k :: src[x] != 0
  }

  /** A string that is not empty is copied up to its terminator. */
  lemma CopyOfString(src: Bytes, a: nat, s: Bytes)
    requires HoldsAt(src, a, s) && s != []
    ensures CopyEnds(src, a, |s|) && src[a..a + |s|] == s
  {
  }

  /** The kernel's own copy never writes a terminator, and runs past that of an
      empty string to the next zero. */
  method Strcpy(dest: Bytes, src: Bytes, a: nat, ghost n: nat) returns (r: Bytes)
    requires CopyEnds(src, a, n) && n <= |dest|
    ensures r == Overwrite(dest, 0, src[a..a + n])
  {
    r := dest[0 := src[a]];
    var k := 1;
    while src[a + k] != 0
      invariant 1 <= k <= n && |r| == |dest|
      invariant forall x | 0 <= x < |r| :: r[x] == if x < k then src[a + x] else dest[x]
      decreases n - k
    {
      r := r[k := src[a + k]];
      k := k + 1;
    }
  }

  /** The destination then holds the string exactly when the string is empty or
      there already was a zero where it ends. */
  lemma StrcpyExactly(dest: Bytes, src: Bytes, a: nat, s: Bytes, n: nat)
    requires HoldsAt(src, a, s) && CopyEnds(src, a, n) && n <= |dest|
    ensures HoldsAt(Overwrite(dest, 0, src[a..a + n]), 0, s) <==> s == [] || (|s| < |dest| && dest[|s|] == 0)
  {
    var r := Overwrite(dest, 0, src[a..a + n]);
    if s == [] {
      assert r[0] == src[a] == 0;
    } else {
      assert n == |s| by { assert src[a + n] == src[a + |s|] == 0; }
      assert forall k | 0 <= k < |s| :: r[k] == src[a + k];
      if |s| < |dest| { assert r[|s|] == dest[|s|]; }
    }
  }
}
