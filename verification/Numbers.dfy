/** Number printing: itoa of lib/jstdclib/string.c, kernelPrintDec and
    kernelPrintHex of hal/x86/io/vga.c, over ASCII bytes. */
module Numbers {
  import opened Memory
  import opened CStrings

  type Int = x: int | -0x8000_0000 <= x < 0x8000_0000

  const ZERO: Byte := 48
  const MINUS: Byte := 45
  const BASE_D: Byte := 100
  const BASE_X: Byte := 120
  const HEX_PREFIX: Bytes := [48, 120]

  // ---- Numerals ----

  /** The two radices in use; the arithmetic below is spelled out for each. */
  type Radix = r: int | r == 10 || r == 16 witness 10

  function Times(m: int, radix: Radix): (r: int) { if radix == 10 then m * 10 else m * 16 }

  /** All digits but the last, and the last. */
  function Upper(n: nat, radix: Radix): (q: nat)
    ensures n >= radix ==> 0 < q < n
    ensures n < radix ==> q == 0
  {
    if radix == 10 then n / 10 else n / 16
  }

  function Last(n: nat, radix: Radix): (k: nat)
    ensures k < radix && n == Times(Upper(n, radix), radix) + k
  {
    if radix == 10 then n % 10 else n % 16
  }

  lemma DivMod(n: nat, radix: Radix)
    ensures n / radix == Upper(n, radix) && n % radix == Last(n, radix)
  {
    if radix == 10 { assert n / radix == n / 10; } else { assert n / radix == n / 16; }
  }

  function Digit(k: nat): (b: Byte)
    requires k < 16
  {
    if k < 10 then k + 48 else k + 97 - 10
  }

  /** The digits of n, the most significant first. */
  function Digits(n: nat, radix: Radix): (s: Bytes)
    ensures s != []
  {
    if n < radix then [Digit(n)] else Digits(Upper(n, radix), radix) + [Digit(Last(n, radix))]
  }

  predicate IsDigit(b: Byte, radix: Radix) { exists k :: 0 <= k < radix && Digit(k) == b }

  function ValueOf(b: Byte): (k: int) { if b < 97 then b - 48 else b - 97 + 10 }

  /** The number a row of digits stands for. */
  function Parse(s: Bytes, radix: Radix): (n: int)
  {
    if s == [] then 0 else Times(Parse(s[..|s| - 1], radix), radix) + ValueOf(s[|s| - 1])
  }

  /** A row of digits that does not start with 0, or is just 0. */
  ghost predicate Canonical(s: Bytes, radix: Radix)
  {
    s != [] && (forall i | 0 <= i < |s| :: IsDigit(s[i], radix)) && (s[0] == ZERO ==> |s| == 1)
  }

  /** The digits as they are printed. */
  lemma DigitCharacter(k: nat, radix: Radix)
    requires k < radix
    ensures Digit(k) == "0123456789abcdef"[k] as int && ValueOf("0123456789abcdef"[k] as int) == k
    ensures forall b :: IsDigit(b, radix) <==> exists j :: 0 <= j < radix && "0123456789abcdef"[j] as int == b
  {
    assert forall j | 0 <= j < 16 :: Digit(j) == "0123456789abcdef"[j] as int;
  }

  lemma DigitValue(k: nat, radix: Radix)
    requires k < radix
    ensures ValueOf(Digit(k)) == k && IsDigit(Digit(k), radix) && (Digit(k) == ZERO <==> k == 0) && Digit(k) != 0
  {
  }

  lemma OneDigit(n: nat, radix: Radix)
    requires n < radix
    ensures Canonical([Digit(n)], radix) && Parse([Digit(n)], radix) == n && ([Digit(n)][0] == ZERO <==> n == 0)
  {
    DigitValue(n, radix);
    assert [Digit(n)][..0] == [];
  }

  lemma ParseSnoc(s: Bytes, b: Byte, radix: Radix)
    ensures Parse(s + [b], radix) == Times(Parse(s, radix), radix) + ValueOf(b)
  {
    assert (s + [b])[..|s|] == s;
  }

  lemma CanonicalSnoc(s: Bytes, b: Byte, radix: Radix)
    requires Canonical(s, radix) && s[0] != ZERO && IsDigit(b, radix)
    ensures Canonical(s + [b], radix) && (s + [b])[0] == s[0]
  {
  }

  /** The digits of n are a canonical numeral for n. */
  lemma {:induction false} DigitsCanonical(n: nat, radix: Radix)
    ensures Canonical(Digits(n, radix), radix) && Parse(Digits(n, radix), radix) == n
    ensures Digits(n, radix)[0] == ZERO <==> n == 0
  {
    hide Canonical;
    DigitValue(Last(n, radix), radix);
    if n < radix {
      OneDigit(n, radix);
    } else {
      DigitsCanonical(Upper(n, radix), radix);
      CanonicalSnoc(Digits(Upper(n, radix), radix), Digit(Last(n, radix)), radix);
      ParseSnoc(Digits(Upper(n, radix), radix), Digit(Last(n, radix)), radix);
    }
  }

  lemma Divides(m: nat, radix: Radix, k: nat)
    requires m > 0 && k < radix
    ensures Times(m, radix) + k >= radix && Upper(Times(m, radix) + k, radix) == m && Last(Times(m, radix) + k, radix) == k
  {
  }

  lemma CanonicalFront(s: Bytes, radix: Radix) returns (k: nat)
    requires Canonical(s, radix)
    ensures k < radix && s == s[..|s| - 1] + [Digit(k)]
    ensures |s| > 1 ==> Canonical(s[..|s| - 1], radix) && s[..|s| - 1] != [ZERO]
  {
    assert IsDigit(s[|s| - 1], radix);
    k :| 0 <= k < radix && Digit(k) == s[|s| - 1];
  }

  lemma DigitsSnoc(m: nat, radix: Radix, k: nat)
    requires k < radix
    ensures m > 0 ==> Times(m, radix) + k > 0 && Digits(Times(m, radix) + k, radix) == Digits(m, radix) + [Digit(k)]
    ensures Digits(k, radix) == [Digit(k)]
  {
    if m > 0 { Divides(m, radix, k); }
  }

  lemma NothingParsed(radix: Radix)
    ensures Parse([], radix) == 0 && Times(0, radix) == 0
  {
  }

  /** There is no other canonical numeral for n. */
  lemma {:induction false} CanonicalUnique(s: Bytes, radix: Radix)
    requires Canonical(s, radix)
    ensures Parse(s, radix) >= 0 && Digits(Parse(s, radix), radix) == s
    ensures Parse(s, radix) == 0 ==> s == [ZERO]
  {
    hide Canonical, Parse, Digits, Digit;
    var k := CanonicalFront(s, radix);
    var front := s[..|s| - 1];
    DigitValue(k, radix);
    ParseSnoc(front, Digit(k), radix);
    if |s| == 1 {
      NothingParsed(radix);
      DigitsSnoc(0, radix, k);
    } else {
      CanonicalUnique(front, radix);
      DigitsSnoc(Parse(front, radix), radix, k);
    }
  }

  function Pow(radix: Radix, k: nat): (p: nat)
    ensures p > 0
  {
    if k == 0 then 1 else Times(Pow(radix, k - 1), radix)
  }

  lemma UpperBelow(n: nat, radix: Radix, p: nat)
    ensures Upper(n, radix) < p <==> n < Times(p, radix)
  {
  }

  /** How long a numeral is. */
  lemma {:induction false} DigitsLength(n: nat, radix: Radix, k: nat)
    requires k > 0
    ensures |Digits(n, radix)| <= k <==> n < Pow(radix, k)
  {
    UpperBelow(n, radix, Pow(radix, k - 1));
    if n >= radix && k > 1 {
      DigitsLength(Upper(n, radix), radix, k - 1);
    }
  }

  // ---- itoa ----

  /** The number as an unsigned word. */
  function Unsigned(d: Int): (n: Word) { if d < 0 then d + ADDRESS_SPACE else d }

  /** How far a number is from 0. */
  function Magnitude(d: Int): (n: Word) { var m: int := d; if m < 0 then 0 - m else m }

  function Signed(base: Byte, d: Int): (neg: bool) { base == BASE_D && d < 0 }

  function RadixOf(base: Byte): (r: Radix) { if base == BASE_X then 16 else 10 }

  /** What itoa writes: a sign only with base 'd', hexadecimal only with 'x'. */
  function Numeral(base: Byte, d: Int): (s: Bytes)
  {
    if Signed(base, d) then [MINUS] + Digits(Magnitude(d), 10) else Digits(Unsigned(d), RadixOf(base))
  }

  lemma PowTen()
    ensures Pow(10, 10) == 10000000000
  {
    assert Pow(10, 5) == 100000;
    assert Pow(10, 10) == 100000 * Pow(10, 5);
  }

  lemma PowSixteen()
    ensures Pow(16, 10) >= 0x1_0000_0000
  {
    assert Pow(16, 5) == 0x10_0000;
    assert Pow(16, 10) == 0x10_0000 * Pow(16, 5);
  }

  /** With its terminator a numeral takes at most 12 bytes. */
  lemma NumeralLength(base: Byte, d: Int)
    ensures |Numeral(base, d)| + 1 <= 12
  {
    assert Pow(10, 10) == 10000000000 by { PowTen(); }
    assert Pow(16, 10) >= 0x1_0000_0000 by { PowSixteen(); }
    DigitsLength(Unsigned(d), RadixOf(base), 10);
    if Signed(base, d) { DigitsLength(Magnitude(d), 10, 10); }
  }

  function Reversed(s: Bytes): (r: Bytes)
    ensures |r| == |s|
  {
    seq(|s|, i requires 0 <= i < |s| => s[|s| - 1 - i])
  }

  lemma ReversedSnoc(s: Bytes, b: Byte)
    ensures Reversed(s + [b]) == [b] + Reversed(s)
  {
  }

  /** What is still to be written before the digits in buf[start..p]. */
  function Rest(ud: nat, radix: Radix, more: bool): (s: Bytes) { if more then Digits(ud, radix) else [] }

  lemma RestStep(ud: nat, radix: Radix)
    ensures var q := Upper(ud, radix);
            Rest(ud, radix, true) == Rest(q, radix, q != 0) + [Digit(Last(ud, radix))]
  {
  }

  lemma NothingYet(n: nat, radix: Radix)
    ensures Rest(n, radix, true) == Digits(n, radix) && Rest(0, radix, false) == [] && Reversed([]) == []
    ensures forall q :: Rest(q, radix, false) == []
  {
  }

  /** The digit loop: the last digit goes first into the buffer. */
  method PutDigits(buf: array<Byte>, start: nat, n: nat, radix: Radix) returns (p: nat)
    requires start + |Digits(n, radix)| <= buf.Length
    modifies buf
    ensures p == start + |Digits(n, radix)| && Reversed(buf[start..p]) == Digits(n, radix)
    ensures forall x | 0 <= x < buf.Length && (x < start || p <= x) :: buf[x] == old(buf[x])
  {
    hide Digits, Reversed, Rest, Last, Upper;
    NothingYet(n, radix);
    p := start;
    var ud: nat, more := n, true;
    while more
      invariant start <= p && p + |Rest(ud, radix, more)| == start + |Digits(n, radix)|
      invariant Digits(n, radix) == Rest(ud, radix, more) + Reversed(buf[start..p])
      invariant forall x | 0 <= x < buf.Length && (x < start || p <= x) :: buf[x] == old(buf[x])
      decreases more, ud
    {
      DivMod(ud, radix);
      var remainder := ud % radix;
      RestStep(ud, radix);
      ghost var done := buf[start..p];
      buf[p] := if remainder < 10 then remainder + 48 else remainder + 97 - 10;
      p := p + 1;
      assert buf[start..p] == done + [Digit(remainder)];
      ReversedSnoc(done, Digit(remainder));
      ud := ud / radix;
      more := ud != 0;
    }
  }

  /** The bytes lo..hi-1 in reverse order. */
  function Turned(s: Bytes, lo: nat, hi: nat): (r: Bytes)
    requires lo <= hi <= |s|
    ensures |r| == |s|
  {
    seq(|s|, x requires 0 <= x < |s| => if lo <= x < hi then s[lo + hi - 1 - x] else s[x])
  }

  /** The reversal in place of buf[lo..hi]. */
  method Reverse(buf: array<Byte>, lo: nat, hi: nat)
    requires lo < hi <= buf.Length
    modifies buf
    ensures buf[..] == Turned(old(buf[..]), lo, hi)
  {
    var p1, p2 := lo, hi - 1;
    while p1 < p2
      invariant lo <= p1 <= p2 + 1 <= hi && p1 + p2 == lo + hi - 1
      invariant forall x | 0 <= x < buf.Length ::
                  buf[x] == if lo <= x < p1 || p2 < x < hi then old(buf[lo + hi - 1 - x]) else old(buf[x])
    {
      var tmp := buf[p1];
      buf[p1] := buf[p2];
      buf[p2] := tmp;
      p1 := p1 + 1;
      p2 := p2 - 1;
    }
    assert buf[..] == Turned(old(buf[..]), lo, hi);
  }

  lemma TurnedHolds(m: Bytes, lo: nat, hi: nat, s: Bytes)
    requires lo <= hi < |m| && m[hi] == 0 && s == m[..lo] + Reversed(m[lo..hi])
    requires forall k | 0 <= k < |s| :: s[k] != 0
    ensures HoldsAt(Turned(m, lo, hi), 0, s)
    ensures forall x | hi < x < |m| :: Turned(m, lo, hi)[x] == m[x]
  {
    var r := m[lo..hi];
    forall k | lo <= k < hi ensures s[k] == m[lo + hi - 1 - k] {
      assert s[k] == Reversed(r)[k - lo] == r[hi - 1 - k];
    }
  }

  lemma {:induction false} DigitsNonzero(n: nat, radix: Radix)
    ensures forall k | 0 <= k < |Digits(n, radix)| :: Digits(n, radix)[k] != 0
  {
    if n >= radix { DigitsNonzero(n / radix, radix); }
  }

  lemma NumeralNonzero(base: Byte, d: Int)
    ensures forall k | 0 <= k < |Numeral(base, d)| :: Numeral(base, d)[k] != 0
  {
    DigitsNonzero(Unsigned(d), RadixOf(base));
    if Signed(base, d) { DigitsNonzero(Magnitude(d), 10); }
  }

  /** Writes the numeral and its terminator, and nothing else. */
  method Itoa(buf: array<Byte>, base: Byte, d: Int)
    requires |Numeral(base, d)| < buf.Length
    modifies buf
    ensures HoldsAt(buf[..], 0, Numeral(base, d))
    ensures forall x | |Numeral(base, d)| < x < buf.Length :: buf[x] == old(buf[x])
  {
    var start, ud, divisor := 0, Unsigned(d), 10;
    if base == BASE_D && d < 0 {
      buf[0] := MINUS;
      start := 1;
      ud := Magnitude(d);
    } else if base == BASE_X {
      divisor := 16;
    }
    hide Digits, Turned, Reversed;
    var p := PutDigits(buf, start, ud, divisor);
    ghost var digits := buf[start..p];
    buf[p] := 0;
    ghost var mid := buf[..];
    assert mid[start..p] == digits;
    assert mid[..start] == if start == 0 then [] else [MINUS];
    Reverse(buf, start, p);
    NumeralNonzero(base, d);
    TurnedHolds(mid, start, p, Numeral(base, d));
  }

  /** Reading the numeral back: with 'd' it gives the number; with 'x' and with any
      other base the one number of 32 bits that differs from it by a multiple of 2^32. */
  lemma NumeralMeans(base: Byte, d: Int)
    ensures var s := Numeral(base, d);
            var radix: Radix := if base == 120 then 16 else 10;
            if base == 100 && d < 0 then s[0] == 45 && Canonical(s[1..], 10) && Parse(s[1..], 10) + d == 0
            else Canonical(s, radix) && 0 <= Parse(s, radix) < 0x1_0000_0000 && (Parse(s, radix) - d) % 0x1_0000_0000 == 0
  {
    DigitsCanonical(Unsigned(d), RadixOf(base));
    if Signed(base, d) {
      DigitsCanonical(Magnitude(d), 10);
      assert ([MINUS] + Digits(Magnitude(d), 10))[1..] == Digits(Magnitude(d), 10);
    }
  }

  /** kprintf passes 10, not 'd', for its integers: the number is then printed
      as a signed one exactly when it is not negative. */
  lemma SignLostExactly(d: Int)
    ensures Numeral(10, d) == Numeral(BASE_D, d) <==> d >= 0
  {
    if d < 0 {
      DigitsCanonical(Unsigned(d), 10);
      var s := Digits(Unsigned(d), 10);
      assert IsDigit(s[0], 10);
      assert s[0] != MINUS;
    }
  }

  // ---- The printers of the console ----

  /** kprint: the bytes it prints. */
  method Kprint(c: Bytes, ghost s: Bytes) returns (text: Bytes)
    requires HoldsAt(c, 0, s)
    ensures text == s
  {
    text := [];
    var i := 0;
    while c[i] != 0
      invariant 0 <= i <= |s| && text == s[..i]
      decreases |s| - i
    {
      text := text + [c[i]];
      i := i + 1;
    }
  }

  /** What kernelPrintDec prints: it counts down a signed copy. */
  function DecText(n: Word): (s: Bytes) { if n == 0 then [ZERO] else if n < 0x8000_0000 then Digits(n, 10) else [] }

  /** The digits of a positive number, the last first. */
  method LastFirst(n: Int, c: array<Byte>) returns (i: nat)
    requires n > 0 && c.Length == 32
    modifies c
    ensures i == |Digits(n, 10)| < 12 && c[i] == 0 && Reversed(c[..i]) == Digits(n, 10)
  {
    NumeralLength(BASE_D, n);
    var acc := n;
    i := 0;
    while acc > 0
      invariant 0 <= acc && i + |Rest(acc, 10, acc > 0)| == |Digits(n, 10)|
      invariant Digits(n, 10) == Rest(acc, 10, acc > 0) + Reversed(c[..i])
      decreases acc
    {
      ghost var done, b := c[..i], Digit(acc % 10);
      c[i] := 48 + acc % 10;
      acc := acc / 10;
      i := i + 1;
      assert c[..i] == done + [b];
      ReversedSnoc(done, b);
    }
    c[i] := 0;
  }

  /** Copies the string in c the other way round. */
  method FlippedCopy(c: array<Byte>, n: nat) returns (c2: array<Byte>)
    requires n < 32 == c.Length && forall x | 0 <= x < n :: c[x] != 0
    ensures fresh(c2) && HoldsAt(c2[..], 0, Reversed(c[..n]))
  {
    c2 := new Byte[32];
    c2[n] := 0;
    var i, j := n - 1, 0;
    while i >= 0
      invariant -1 <= i < n && j == n - 1 - i && c[..] == old(c[..])
      invariant c2[n] == 0 && forall x | i < x < n :: c2[x] == c[n - 1 - x]
    {
      c2[i] := c[j];
      i, j := i - 1, j + 1;
    }
  }

  lemma ReversedNonzero(s: Bytes, n: nat)
    requires Reversed(s) == Digits(n, 10)
    ensures forall x | 0 <= x < |s| :: s[x] != 0
  {
    DigitsNonzero(n, 10);
    forall x | 0 <= x < |s| ensures s[x] != 0 {
      assert Reversed(s)[|s| - 1 - x] == s[x];
    }
  }

  method PrintDec(n: Word) returns (text: Bytes)
    ensures text == DecText(n)
  {
    hide Digits;
    if n == 0 {
      return [ZERO];
    }
    var acc := if n < 0x8000_0000 then n else n - ADDRESS_SPACE;
    var c, i := new Byte[32], 0;
    if acc > 0 {
      i := LastFirst(acc, c);
      ReversedNonzero(c[..i], n);
    } else {
      c[0] := 0;
    }
    var c2 := FlippedCopy(c, i);
    text := Kprint(c2[..], Reversed(c[..i]));
  }

  /** It agrees with itoa exactly below 2^31. */
  lemma DecAgreesExactly(n: Word, d: Int)
    requires n == d % 0x1_0000_0000
    ensures DecText(n) == Numeral(BASE_D, d) <==> n < 0x8000_0000
  {
  }

  function ShiftRight(n: nat, i: nat): (r: nat) { if i == 0 then n else ShiftRight(n, i - 1) / 2 }

  lemma ShiftFour(n: nat, i: nat)
    ensures ShiftRight(n, i + 4) == ShiftRight(n, i) / 16
  {
    var a := ShiftRight(n, i);
    assert ShiftRight(n, i + 1) == a / 2;
    assert ShiftRight(n, i + 2) == ShiftRight(n, i + 1) / 2;
    assert ShiftRight(n, i + 3) == ShiftRight(n, i + 2) / 2;
    assert ShiftRight(n, i + 4) == ShiftRight(n, i + 3) / 2;
    assert a / 2 / 2 / 2 / 2 == a / 16;
  }

  lemma ShiftOut(n: Word)
    ensures ShiftRight(n, 32) == 0
  {
    ShiftFour(n, 0); ShiftFour(n, 4); ShiftFour(n, 8); ShiftFour(n, 12);
    ShiftFour(n, 16); ShiftFour(n, 20); ShiftFour(n, 24); ShiftFour(n, 28);
  }

  /** The digits above position i, without leading zeros. */
  function Leading(m: nat): (s: Bytes) { if m == 0 then [] else Digits(m, 16) }

  lemma LeadingStep(m: nat)
    ensures Leading(m) == if m / 16 == 0 && m % 16 == 0 then [] else Leading(m / 16) + [Digit(m % 16)]
    ensures Digits(m, 16) == Leading(m / 16) + [Digit(m % 16)]
  {
    DivMod(m, 16);
  }

  method HexDigit(tmp: nat) returns (b: Byte)
    requires tmp < 16
    ensures b == Digit(tmp)
  {
    if tmp >= 0xA {
      b := tmp - 0xA + 97;
    } else {
      b := tmp + 48;
    }
  }

  lemma ShiftNone(n: nat)
    ensures ShiftRight(n, 0) == n
  {
  }

  /** kernelPrintHex takes the digits from the top, skipping leading zeros. */
  method PrintHex(n: Word) returns (text: Bytes)
    ensures text == HEX_PREFIX + Digits(n, 16)
  {
    hide Leading, ShiftRight, Digits, Digit;
    assert Leading(0) == [] by { LeadingStep(0); }
    text := HEX_PREFIX;
    var noZeroes, i := true, 28;
    ShiftOut(n);
    while i > 0
      invariant 0 <= i <= 28 && i % 4 == 0
      invariant noZeroes == (ShiftRight(n, i + 4) == 0) && text == HEX_PREFIX + Leading(ShiftRight(n, i + 4))
    {
      ShiftFour(n, i);
      LeadingStep(ShiftRight(n, i));
      var tmp := ShiftRight(n, i) % 16;
      if tmp != 0 || !noZeroes {
        noZeroes := false;
        var b := HexDigit(tmp);
        text := text + [b];
      }
      i := i - 4;
    }
    ShiftNone(n);
    ShiftFour(n, 0);
    LeadingStep(n);
    var b := HexDigit(n % 16);
    text := text + [b];
  }

  lemma HexNumeral(n: Word, d: Int)
    requires n == d % 0x1_0000_0000
    ensures Numeral(BASE_X, d) == Digits(n, 16) && Canonical(Digits(n, 16), 16) && Parse(Digits(n, 16), 16) == n
  {
    hide Digits, Canonical, Parse;
    DigitsCanonical(n, 16);
  }

  lemma DecMeans(n: Word)
    ensures var text := DecText(n);
            if n < 0x8000_0000 then Canonical(text, 10) && Parse(text, 10) == n else text == []
  {
    DigitsCanonical(n, 10);
  }

  /** The two hexadecimal printers: what kernelPrintHex prints is the prefix and
      then the string that itoa leaves in its buffer for 'x'. */
  method HexPrintersAgree(n: Word, d: Int, buf: array<Byte>) returns (text: Bytes, ghost digits: Bytes)
    requires n == d % 0x1_0000_0000 && 12 <= buf.Length
    modifies buf
    ensures HoldsAt(buf[..], 0, digits) && text == [48, 120] + digits
    ensures Canonical(digits, 16) && Parse(digits, 16) == n
  {
    hide Numeral, Digits, Canonical, Parse;
    NumeralLength(BASE_X, d);
    HexNumeral(n, d);
    text := PrintHex(n);
    Itoa(buf, BASE_X, d);
    digits := Numeral(BASE_X, d);
  }

  /** The two decimal printers: kernelPrintDec prints the string that itoa leaves
      in its buffer for 'd' exactly below 2^31. */
  method DecPrintersAgree(n: Word, d: Int, buf: array<Byte>) returns (text: Bytes)
    requires n == d % 0x1_0000_0000 && 12 <= buf.Length
    modifies buf
    ensures HoldsAt(buf[..], 0, text) <==> n < 0x8000_0000
    ensures if n < 0x8000_0000 then Canonical(text, 10) && Parse(text, 10) == n else text == []
  {
    hide Numeral, Digits, Canonical, Parse, DecText;
    NumeralLength(BASE_D, d);
    DecMeans(n);
    text := PrintDec(n);
    Itoa(buf, BASE_D, d);
    HoldsOne(buf[..], 0, Numeral(BASE_D, d), text);
    DecAgreesExactly(n, d);
  }
}
