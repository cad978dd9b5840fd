/** 32-bit words as numbers, the operations on them that the tlsf allocator needs,
    and its two software bit searches. */
module Bits {
  import Modulo

  const WORD: nat := 0x1_0000_0000

  function Pow2(n: nat): (p: nat)
    ensures p > 0
  {
    if n == 0 then 1 else 2 * Pow2(n - 1)
  }

  /** Bit i of x, for negative x in two's complement. */
  predicate Bit(x: int, i: nat)
    decreases i
  {
    if i == 0 then x % 2 == 1 else Bit(x / 2, i - 1)
  }

  function SetBit(x: nat, i: nat): nat
    decreases i
  {
    if i == 0 then x / 2 * 2 + 1 else x % 2 + 2 * SetBit(x / 2, i - 1)
  }

  function ClearBit(x: nat, i: nat): nat
    decreases i
  {
    if i == 0 then x / 2 * 2 else x % 2 + 2 * ClearBit(x / 2, i - 1)
  }

  /** x & (~0 << s) */
  function ClearLow(x: nat, s: nat): nat
    decreases s
  {
    if s == 0 then x else 2 * ClearLow(x / 2, s - 1)
  }

  lemma {:induction false} BitOfSet(x: nat, i: nat, j: nat)
    ensures Bit(SetBit(x, i), j) <==> j == i || Bit(x, j)
    decreases i
  {
    if i > 0 && j > 0 { BitOfSet(x / 2, i - 1, j - 1); }
  }

  lemma {:induction false} BitOfClear(x: nat, i: nat, j: nat)
    ensures Bit(ClearBit(x, i), j) <==> j != i && Bit(x, j)
    decreases i
  {
    if i > 0 && j > 0 { BitOfClear(x / 2, i - 1, j - 1); }
  }

  lemma {:induction false} BitOfClearLow(x: nat, s: nat, j: nat)
    ensures Bit(ClearLow(x, s), j) <==> s <= j && Bit(x, j)
    decreases s
  {
    if s > 0 && j > 0 { BitOfClearLow(x / 2, s - 1, j - 1); }
  }

  lemma HalfBelow(x: nat, n: nat)
    requires n > 0 && x < Pow2(n)
    ensures x / 2 < Pow2(n - 1)
  {}

  lemma DoubleBelow(y: nat, n: nat)
    requires n > 0 && y < Pow2(n - 1)
    ensures 2 * y + 1 < Pow2(n)
  {}

  lemma {:induction false} Bounds(x: nat, i: nat, n: nat)
    requires x < Pow2(n) && i < n
    ensures SetBit(x, i) < Pow2(n) && ClearBit(x, i) < Pow2(n)
    decreases i
  {
    HalfBelow(x, n);
    if i > 0 {
      Bounds(x / 2, i - 1, n - 1);
      DoubleBelow(SetBit(x / 2, i - 1), n);
      DoubleBelow(ClearBit(x / 2, i - 1), n);
    } else {
      DoubleBelow(x / 2, n);
    }
  }

  lemma {:induction false} ClearLowBound(x: nat, s: nat)
    ensures ClearLow(x, s) <= x
    decreases s
  {
    if s > 0 { ClearLowBound(x / 2, s - 1); }
  }

  lemma {:induction false} NoHighBits(x: nat, n: nat, i: nat)
    requires x < Pow2(n) && n <= i
    ensures !Bit(x, i)
    decreases i
  {
    if i > 0 { NoHighBits(x / 2, if n == 0 then 0 else n - 1, i - 1); }
  }

  /** A nonzero word has a bit set. */
  lemma {:induction false} SomeBit(x: nat) returns (i: nat)
    requires x > 0
    ensures Bit(x, i)
  {
    if x % 2 == 1 {
      i := 0;
    } else {
      i := SomeBit(x / 2);
      i := i + 1;
    }
  }

  lemma {:induction false} ZeroHasNoBit(i: nat)
    ensures !Bit(0, i)
  {
    if i > 0 { ZeroHasNoBit(i - 1); }
  }

  // ------------------------------------------------------------- _ffs and _fls

  /** The value of a word read as a 32-bit signed integer. */
  function AsInt32(w: nat): int
    requires w < WORD
  {
    if w < WORD / 2 then w else w - WORD
  }

  lemma {:induction false} BitWraps(w: nat, n: nat, i: nat)
    requires i < n
    ensures Bit(w - Pow2(n), i) == Bit(w, i)
    decreases i
  {
    assert (w - Pow2(n)) / 2 == w / 2 - Pow2(n - 1);
    if i > 0 { BitWraps(w / 2, n - 1, i - 1); }
  }

  lemma Pow2Is()
    ensures Pow2(0) == 1 && Pow2(1) == 2 && Pow2(2) == 4 && Pow2(4) == 16 && Pow2(5) == 32 && Pow2(7) == 128
    ensures Pow2(8) == 256 && Pow2(16) == 65536 && Pow2(24) == 0x100_0000 && Pow2(28) == 0x1000_0000
      && Pow2(30) == 0x4000_0000
    ensures Pow2(31) == 0x8000_0000 && Pow2(32) == WORD
  {
    assert Pow2(4) == 16;
    assert Pow2(8) == 256;
    assert Pow2(12) == 4096;
    assert Pow2(16) == 65536;
    assert Pow2(20) == 0x10_0000;
    assert Pow2(24) == 0x100_0000;
    assert Pow2(28) == 0x1000_0000;
  }

  lemma HalvingStep(x: int, m: int)
    requires m > 0
    ensures x / (2 * m) == (x / 2) / m && x % (2 * m) == 2 * ((x / 2) % m) + x % 2
  {
    var q, r := (x / 2) / m, (x / 2) % m;
    assert x / 2 == m * q + r;
    assert x == q * (2 * m) + (2 * r + x % 2);
    Modulo.Unique(x, 2 * m, q, 2 * r + x % 2);
  }

  lemma {:induction false} BitOfQuotient(x: int, k: nat, j: nat)
    ensures Bit(x / Pow2(k), j) == Bit(x, k + j)
    decreases k
  {
    if k > 0 {
      HalvingStep(x, Pow2(k - 1));
      BitOfQuotient(x / 2, k - 1, j);
    }
  }

  /** x & (2^k - 1) is zero exactly if the k lowest bits are clear. */
  lemma {:induction false} LowBitsClear(x: int, k: nat)
    ensures x % Pow2(k) == 0 ==> forall j :: 0 <= j < k ==> !Bit(x, j)
    ensures x % Pow2(k) != 0 ==> exists j :: 0 <= j < k && Bit(x, j)
    decreases k
  {
    if k > 0 {
      HalvingStep(x, Pow2(k - 1));
      LowBitsClear(x / 2, k - 1);
      if x % Pow2(k) == 0 {
        forall j | 0 <= j < k ensures !Bit(x, j) {
          if j > 0 { assert !Bit(x / 2, j - 1); }
        }
      } else if x % 2 == 0 {
        var j :| 0 <= j < k - 1 && Bit(x / 2, j);
        assert Bit(x, j + 1);
      } else {
        var j := 0;
        assert 0 <= j < k && Bit(x, j);
      }
    }
  }

  /** r is the number of the lowest bit set in x, -1 if there is none. */
  ghost predicate IsLowest(x: int, r: int) {
    if x == 0 then r == -1 else r >= 0 && Bit(x, r) && forall j :: 0 <= j < r ==> !Bit(x, j)
  }

  lemma {:induction false} QuotientOfQuotient(x: int, r: nat, k: nat)
    ensures x / Pow2(r) / Pow2(k) == x / Pow2(r + k)
    decreases r
  {
    if r > 0 {
      HalvingStep(x, Pow2(r - 1));
      HalvingStep(x, Pow2(r + k - 1));
      QuotientOfQuotient(x / 2, r - 1, k);
    }
  }

  lemma {:induction false} Pow2Sum(a: nat, b: nat)
    ensures Pow2(a + b) == Pow2(a) * Pow2(b)
    decreases a
  {
    if a > 0 { Pow2Sum(a - 1, b); }
  }

  /** The search for the lowest bit has dropped r clear bits of x0 and is left with
      x, whose lowest set bit is among the `width` lowest. */
  ghost predicate Searching(x0: int, x: int, r: nat, width: nat) {
    && x == x0 / Pow2(r)
    && (forall j :: 0 <= j < r ==> !Bit(x0, j))
    && x % Pow2(width) != 0
  }

  lemma Multiples(x: int, p: int)
    requires p > 0 && x % p == 0 && (x / p) % p == 0
    ensures x % (p * p) == 0
  {
    assert x == p * (x / p) && x / p == p * (x / p / p);
    var q := x / p / p;
    assert p * (p * q) == q * (p * p);
    Modulo.Unique(x, p * p, q, 0);
  }

  /** If the lower half of 2 * k bits is clear and the whole is not, the upper half is not. */
  lemma UpperHalf(x: int, k: nat)
    requires x % Pow2(2 * k) != 0
    ensures x % Pow2(k) == 0 ==> (x / Pow2(k)) % Pow2(k) != 0
  {
    Pow2Sum(k, k);
    var p := Pow2(k);
    if x % p == 0 && (x / p) % p == 0 { Multiples(x, p); }
  }

  lemma DropClear(x0: int, r: nat, k: nat)
    requires (x0 / Pow2(r)) % Pow2(k) == 0
    requires forall j :: 0 <= j < r ==> !Bit(x0, j)
    ensures forall j :: 0 <= j < r + k ==> !Bit(x0, j)
  {
    LowBitsClear(x0 / Pow2(r), k);
    forall j | r <= j < r + k ensures !Bit(x0, j) {
      BitOfQuotient(x0, r, j - r);
    }
  }

  lemma SearchStep(x0: int, x: int, r: nat, k: nat)
    requires Searching(x0, x, r, 2 * k)
    ensures if x % Pow2(k) == 0 then Searching(x0, x / Pow2(k), r + k, k) else Searching(x0, x, r, k)
  {
    UpperHalf(x, k);
    if x % Pow2(k) == 0 {
      DropClear(x0, r, k);
      QuotientOfQuotient(x0, r, k);
    }
  }

  /** One of the five steps: if the k lowest bits are clear, they are shifted out. */
  method DropIfClear(x: int, r: nat, k: nat, ghost x0: int) returns (x': int, r': nat)
    requires Searching(x0, x, r, 2 * k)
    ensures Searching(x0, x', r', k) && r' <= r + k
  {
    SearchStep(x0, x, r, k);
    if x % Pow2(k) == 0 {
      return x / Pow2(k), r + k;
    } else {
      return x, r;
    }
  }

  method Ffs(x0: int) returns (r: int)
    requires -0x8000_0000 <= x0 < 0x8000_0000
    ensures IsLowest(x0, r) && r < 32
  {
    if x0 == 0 { return -1; }
    Pow2Is();
    var x := x0;
    r := 0;
    x, r := DropIfClear(x, r, 16, x0);
    x, r := DropIfClear(x, r, 8, x0);
    x, r := DropIfClear(x, r, 4, x0);
    x, r := DropIfClear(x, r, 2, x0);
    x, r := DropIfClear(x, r, 1, x0);
    BitOfQuotient(x0, r, 0);
  }

  /** r is the number of the highest bit set in x, -1 if there is none. */
  ghost predicate IsHighest(x: nat, r: int) {
    if x == 0 then r == -1 else r >= 0 && Pow2(r) <= x < Pow2(r + 1)
  }

  /** x << k, where no bit is lost */
  function ShiftUp(x: nat, k: nat): nat
    decreases k
  {
    if k == 0 then x else ShiftUp(2 * x, k - 1)
  }

  lemma {:induction false} ShiftUpTwice(x: nat, a: nat, b: nat)
    ensures ShiftUp(ShiftUp(x, a), b) == ShiftUp(x, a + b)
    decreases a
  {
    if a > 0 { ShiftUpTwice(2 * x, a - 1, b); }
  }

  lemma {:induction false} ShiftUpOrder(x: nat, m: nat, k: nat)
    ensures x < Pow2(m) <==> ShiftUp(x, k) < Pow2(m + k)
    decreases k
  {
    if k > 0 {
      assert Pow2(m + 1) == 2 * Pow2(m);
      ShiftUpOrder(2 * x, m + 1, k - 1);
    }
  }

  /** The search for the highest bit has shifted x0 up by 31 - r places into x, whose
      highest set bit is among the `width` highest of 32. */
  ghost predicate Shifting(x0: nat, x: nat, r: int, width: nat) {
    && width <= 32
    && width - 1 <= r <= 31
    && x == ShiftUp(x0, 31 - r)
    && Pow2(32 - width) <= x < Pow2(32)
  }

  lemma UpKeepsTop(x: nat, k: nat, w: nat)
    requires 2 * k <= w && Pow2(w - 2 * k) <= x < Pow2(w - k)
    ensures Pow2(w - k) <= ShiftUp(x, k) < Pow2(w)
  {
    ShiftUpOrder(x, w - k, k);
    ShiftUpOrder(x, w - 2 * k, k);
  }

  lemma ShiftStep(x0: nat, x: nat, r: int, k: nat)
    requires k <= 16 && Shifting(x0, x, r, 2 * k) && x < Pow2(32 - k)
    ensures Shifting(x0, ShiftUp(x, k), r - k, k)
  {
    ShiftUpTwice(x0, 31 - r, k);
    UpKeepsTop(x, k, 32);
  }

  /** One of the five steps: if the k highest bits are clear, x is shifted up by k, which
      drops no bit. */
  method ShiftIfClear(x: nat, r: int, k: nat, ghost x0: nat) returns (x': nat, r': int)
    requires k <= 16 && Shifting(x0, x, r, 2 * k)
    ensures Shifting(x0, x', r', k)
  {
    if x < Pow2(32 - k) {
      ShiftStep(x0, x, r, k);
      return ShiftUp(x, k), r - k;
    } else {
      return x, r;
    }
  }

  method Fls(x0: nat) returns (r: int)
    requires x0 < WORD
    ensures IsHighest(x0, r) && r < 32
  {
    if x0 == 0 { return -1; }
    Pow2Is();
    var x := x0;
    r := 31;
    x, r := ShiftIfClear(x, r, 16, x0);
    x, r := ShiftIfClear(x, r, 8, x0);
    x, r := ShiftIfClear(x, r, 4, x0);
    x, r := ShiftIfClear(x, r, 2, x0);
    x, r := ShiftIfClear(x, r, 1, x0);
    ShiftUpOrder(x0, r, 31 - r);
    ShiftUpOrder(x0, r + 1, 31 - r);
  }
}
