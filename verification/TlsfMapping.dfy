/** The size classes of the tlsf allocator: below 128 bytes one class for every four
    bytes, above that 32 classes for each power of two. */
module TlsfMapping {
  import opened Bits
  import Modulo

  const MAX_SLI: nat := 32
  const MAX_LOG2_SLI: nat := 5
  const FLI_OFFSET: nat := 6
  const REAL_FLI: nat := 24
  const SMALL_BLOCK: nat := 128
  const CLASSES: nat := 768

  /** Sizes from here on have no class. */
  const TOO_BIG: nat := 0x4000_0000

  /** The largest size for which a search stays inside the tables. */
  const LARGEST_REQUEST: nat := 0x3F00_0000

  /** Up to here the sum of a search fits into 32 bits. */
  const SUM_FITS: nat := 0xFC00_0000

  function Log2(x: nat): (r: nat)
    requires x > 0
    ensures Pow2(r) <= x < Pow2(r + 1)
  {
    if x == 1 then 0 else 1 + Log2(x / 2)
  }

  lemma {:induction false} Pow2Grows(a: nat, b: nat)
    requires a <= b
    ensures Pow2(a) <= Pow2(b)
    decreases b
  {
    if a < b { Pow2Grows(a, b - 1); }
  }

  lemma HighestIsLog2(x: nat, r: int)
    requires x > 0 && IsHighest(x, r)
    ensures r == Log2(x)
  {
    if r < Log2(x) { Pow2Grows(r + 1, Log2(x)); }
    if Log2(x) < r { Pow2Grows(Log2(x) + 1, r); }
  }

  /** The class a free block of r bytes is kept in, numbered row by row. */
  function ClassOf(r: nat): nat {
    if r < SMALL_BLOCK then
      r / 4
    else
      MediumClass(r, Log2(r))
  }

  function MediumClass(r: nat, f: nat): nat
    requires f >= 7 && Pow2(f) <= r
  {
    Quotient(r, f);
    (f - FLI_OFFSET) * MAX_SLI + r / Pow2(f - MAX_LOG2_SLI) - MAX_SLI
  }

  /** The smallest size of the class in row fl and column sl. */
  function LowerBound(fl: nat, sl: nat): nat {
    if fl == 0 then 4 * sl else Pow2(fl + 1) * (MAX_SLI + sl)
  }

  lemma Product(u: nat, m: nat, a: nat)
    ensures a <= m ==> u * a <= u * m
    ensures u > 0 && a < m ==> u * a < u * m
  {
    if a <= m { assert u * (m - a) >= 0; }
    if u > 0 && a < m { assert u * (m - a) > 0; }
  }

  lemma QuotientAtLeast(s: nat, u: nat, m: nat)
    requires u > 0
    ensures s / u >= m <==> s >= u * m
  {
    Product(u, s / u, m);
    Product(u, m, s / u + 1);
  }

  /** Shifted down so that six bits remain, a number has its highest bit in place. */
  lemma Quotient(s: nat, f: nat)
    requires f >= 5 && Pow2(f) <= s
    ensures s / Pow2(f - 5) >= 32
    ensures s < Pow2(f + 1) ==> s / Pow2(f - 5) < 64
  {
    var u := Pow2(f - 5);
    Unfold(f);
    QuotientAtLeast(s, u, 32);
    QuotientAtLeast(s, u, 64);
  }

  lemma Unfold(f: nat)
    requires f >= 5
    ensures Pow2(f) == 32 * Pow2(f - 5) && Pow2(f + 1) == 64 * Pow2(f - 5)
  {
    assert Pow2(f - 4) == 2 * Pow2(f - 5);
    assert Pow2(f - 3) == 4 * Pow2(f - 5);
    assert Pow2(f - 2) == 8 * Pow2(f - 5);
    assert Pow2(f - 1) == 16 * Pow2(f - 5);
  }

  lemma RowBounds(fl: nat, sl: nat)
    requires fl > 0 && sl < MAX_SLI
    ensures Pow2(fl + 6) <= LowerBound(fl, sl) < Pow2(fl + 7)
  {
    Unfold(fl + 6);
    Product(Pow2(fl + 1), 32 + sl, 32);
    Product(Pow2(fl + 1), 64, 32 + sl);
  }

  lemma LogOfMedium(s: nat)
    requires s >= SMALL_BLOCK
    ensures Log2(s) >= 7
  {
    Pow2Is();
    if Log2(s) < 7 { Pow2Grows(Log2(s) + 1, 7); }
  }

  lemma MediumAtLeast(s: nat, f: nat, fl: nat, sl: nat)
    requires f >= 7 && Pow2(f) <= s < Pow2(f + 1) && fl > 0 && sl < MAX_SLI
    ensures MediumClass(s, f) >= fl * MAX_SLI + sl <==> s >= LowerBound(fl, sl)
  {
    Quotient(s, f);
    RowBounds(fl, sl);
    if fl + 6 == f {
      QuotientAtLeast(s, Pow2(f - 5), 32 + sl);
    } else if fl + 6 < f {
      Pow2Grows(fl + 7, f);
    } else {
      Pow2Grows(f + 1, fl + 6);
    }
  }

  lemma SmallAtLeast(s: nat, fl: nat, sl: nat)
    requires s < SMALL_BLOCK && sl < MAX_SLI
    ensures s / 4 >= fl * MAX_SLI + sl <==> s >= LowerBound(fl, sl)
  {
    if fl > 0 {
      RowBounds(fl, sl);
      Pow2Grows(7, fl + 6);
      assert Pow2(7) == 128;
    }
  }

  lemma MediumAboveSmall(s: nat, f: nat, sl: nat)
    requires s >= SMALL_BLOCK && f >= 7 && Pow2(f) <= s && sl < MAX_SLI
    ensures MediumClass(s, f) >= sl && s >= LowerBound(0, sl)
  {
    Quotient(s, f);
  }

  /** A size falls in a class or a higher one exactly if it is at least the smallest size of
      the class.  This makes the classes intervals in ascending order. */
  lemma ClassAtLeast(s: nat, fl: nat, sl: nat)
    requires sl < MAX_SLI
    ensures ClassOf(s) >= fl * MAX_SLI + sl <==> s >= LowerBound(fl, sl)
  {
    if s < SMALL_BLOCK {
      SmallAtLeast(s, fl, sl);
    } else {
      LogOfMedium(s);
      if fl > 0 { MediumAtLeast(s, Log2(s), fl, sl); } else { MediumAboveSmall(s, Log2(s), sl); }
    }
  }

  lemma ClassMonotone(a: nat, b: nat)
    requires a <= b
    ensures ClassOf(a) <= ClassOf(b)
  {
    var fl, sl := ClassOf(a) / MAX_SLI, ClassOf(a) % MAX_SLI;
    ClassAtLeast(a, fl, sl);
    ClassAtLeast(b, fl, sl);
  }

  /** Every size below 2^30 has its class inside the tables. */
  lemma ClassInTables(s: nat)
    requires s < TOO_BIG
    ensures ClassOf(s) < CLASSES
  {
    Pow2Is();
    RowBounds(REAL_FLI, 0);
    ClassAtLeast(s, REAL_FLI, 0);
  }

  lemma ClearLowIs(x: nat, s: nat)
    ensures ClearLow(x, s) == x / Pow2(s) * Pow2(s)
    decreases s
  {
    if s > 0 {
      ClearLowIs(x / 2, s - 1);
      HalvingStep(x, Pow2(s - 1));
    }
  }

  method MappingInsert(r: nat) returns (fl: nat, sl: nat)
    requires r < TOO_BIG
    ensures fl < REAL_FLI && sl < MAX_SLI && fl * MAX_SLI + sl == ClassOf(r)
  {
    ClassInTables(r);
    if r < SMALL_BLOCK {
      fl, sl := 0, r / 4;
    } else {
      var f := Fls(r);
      HighestIsLog2(r, f);
      LogOfMedium(r);
      Quotient(r, f);
      sl := r / Pow2(f - MAX_LOG2_SLI) - MAX_SLI;
      fl := f - FLI_OFFSET;
    }
  }

  // -------------------------------------------------------------------- searching

  /** The least multiple of u that is not below r. */
  lemma RoundUp(r: nat, u: nat)
    requires u > 0
    ensures r <= (r + u - 1) / u * u < r + u
  {
    var x := r + u - 1;
    assert x == u * (x / u) + x % u;
  }

  /** What a search for r bytes looks for: blocks of at least `want` bytes, which is the
      smallest size of a class.  It is r itself below 128, and above that r rounded up by
      less than one part in 32. */
  ghost predicate IsGoodFit(r: nat, want: nat, fl: nat, sl: nat) {
    && sl < MAX_SLI
    && want == LowerBound(fl, sl)
    && r <= want
    && 32 * (want - r) < r
    && (r < SMALL_BLOCK ==> want == r)
  }

  lemma RoundsUp(r: nat, f: nat, x: nat, want: nat)
    requires f >= 7 && Pow2(f) <= r < Pow2(f + 1)
    requires x == r + Pow2(f - 5) - 1 && want == x / Pow2(f - 5) * Pow2(f - 5)
    ensures r <= want && 32 * (want - r) < r
  {
    Unfold(f);
    RoundUp(r, Pow2(f - 5));
  }

  /** Adding to r less than a part in 32 of its power of two either stays below the next
      power, or just reaches it. */
  lemma NextRow(r: nat, f: nat, x: nat)
    requires f >= 7 && Pow2(f) <= r < Pow2(f + 1)
    requires x == r + Pow2(f - 5) - 1
    ensures Pow2(f) <= x < Pow2(f + 2)
    ensures x >= Pow2(f + 1) ==> x / Pow2(f - 5) == 64 && x / Pow2(f - 4) == 32
  {
    Unfold(f);
    var u := Pow2(f - 5);
    assert Pow2(f - 4) == 2 * u;
    if x >= Pow2(f + 1) {
      Modulo.Unique(x, u, 64, x - 64 * u);
      Modulo.Unique(x, 2 * u, 32, x - 64 * u);
    }
  }

  lemma Log2Is(x: nat, f: nat)
    requires Pow2(f) <= x < Pow2(f + 1)
    ensures Log2(x) == f
  {
    HighestIsLog2(x, f);
  }

  lemma SameRowBound(x: nat, f: nat)
    requires f >= 7 && Pow2(f) <= x < Pow2(f + 1)
    ensures var q := x / Pow2(f - 5);
      32 <= q < 64 && q * Pow2(f - 5) == LowerBound(f - 6, q - 32)
  {
    Quotient(x, f);
  }

  lemma NextRowBound(f: nat)
    requires f >= 7
    ensures 64 * Pow2(f - 5) == LowerBound(f - 5, 0)
  {
    assert Pow2(f - 4) == 2 * Pow2(f - 5);
  }

  lemma SearchedClass(r: nat, f: nat, x: nat, want: nat, f2: nat, sl: nat)
    requires f >= 7 && Pow2(f) <= r < Pow2(f + 1)
    requires x == r + Pow2(f - 5) - 1 && want == x / Pow2(f - 5) * Pow2(f - 5)
    requires Pow2(f2) <= x < Pow2(f2 + 1) && f2 >= 7 && sl == x / Pow2(f2 - 5) - 32
    ensures sl < MAX_SLI && want == LowerBound(f2 - 6, sl)
  {
    NextRow(r, f, x);
    Log2Is(x, f2);
    if x >= Pow2(f + 1) {
      Log2Is(x, f + 1);
      NextRowBound(f);
    } else {
      Log2Is(x, f);
      SameRowBound(x, f);
    }
  }

  /** A search leaves the tables exactly for requests above 63/64 of 2^30. */
  lemma SearchInTables(r: nat, f: nat, x: nat, f2: nat)
    requires f >= 7 && Pow2(f) <= r < Pow2(f + 1)
    requires x == r + Pow2(f - 5) - 1 && Pow2(f2) <= x < Pow2(f2 + 1)
    ensures f2 < 30 <==> r <= LARGEST_REQUEST
  {
    Pow2Is();
    assert Pow2(29) == 0x2000_0000;
    if f >= 30 { Pow2Grows(30, f); }
    if f < 29 { Pow2Grows(f + 1, 29); Pow2Grows(f - 5, 24); }
    if f2 < 30 { Pow2Grows(f2 + 1, 30); } else { Pow2Grows(30, f2); }
  }

  function Multiple(r: nat, u: nat): nat
    requires u > 0
  {
    (r + u - 1) / u * u
  }

  /** The size a search for r bytes looks for. */
  function SearchSize(r: nat): nat {
    if r < SMALL_BLOCK then
      r
    else
      LogOfMedium(r);
      Multiple(r, Pow2(Log2(r) - MAX_LOG2_SLI))
  }

  lemma LowerBoundAligned(fl: nat, sl: nat)
    ensures LowerBound(fl, sl) % 4 == 0
  {
    if fl > 0 {
      var m := Pow2(fl - 1) * (MAX_SLI + sl);
      assert Pow2(fl + 1) == 4 * Pow2(fl - 1);
      assert 4 * Pow2(fl - 1) * (MAX_SLI + sl) == 4 * m;
    }
  }

  lemma AlignedStep(r: nat, b: nat)
    requires r % 4 == 0 && b % 4 == 0
    ensures r + 1 >= b ==> r >= b
  {}

  lemma FlagAtLeast(r: nat, fl: nat, sl: nat)
    requires r % 4 == 0 && sl < MAX_SLI && ClassOf(r + 1) >= fl * MAX_SLI + sl
    ensures ClassOf(r) >= fl * MAX_SLI + sl
  {
    ClassAtLeast(r + 1, fl, sl);
    ClassAtLeast(r, fl, sl);
    LowerBoundAligned(fl, sl);
    AlignedStep(r, LowerBound(fl, sl));
  }

  /** A flag in the lowest bit of a size word does not change its class. */
  lemma FlagIgnored(r: nat)
    requires r % 4 == 0
    ensures ClassOf(r + 1) == ClassOf(r)
  {
    var c := ClassOf(r + 1);
    FlagAtLeast(r, c / MAX_SLI, c % MAX_SLI);
    ClassMonotone(r, r + 1);
  }

  lemma SearchCorrect(r: nat, f: nat, x: nat, want: nat, f2: nat, sl: nat)
    requires SMALL_BLOCK <= r <= SUM_FITS && f == Log2(r) && f >= 7 && f2 >= 7
    requires x == r + Pow2(f - 5) - 1 && want == x / Pow2(f - 5) * Pow2(f - 5)
    requires Pow2(f2) <= x < Pow2(f2 + 1) && sl == x / Pow2(f2 - 5) - 32
    ensures IsGoodFit(r, want, f2 - 6, sl) && want == SearchSize(r)
    ensures f2 - 6 < REAL_FLI <==> r <= LARGEST_REQUEST
  {
    RoundsUp(r, f, x, want);
    SearchedClass(r, f, x, want, f2, sl);
    SearchInTables(r, f, x, f2);
  }

  method MappingSearch(r: nat) returns (want: nat, fl: nat, sl: nat)
    requires 0 < r <= SUM_FITS && r % 4 == 0
    ensures IsGoodFit(r, want, fl, sl) && want == SearchSize(r)
    ensures fl < REAL_FLI <==> r <= LARGEST_REQUEST
  {
    if r < SMALL_BLOCK {
      want, fl, sl := r, 0, r / 4;
    } else {
      var f := Fls(r);
      HighestIsLog2(r, f);
      LogOfMedium(r);
      var t := Pow2(f - MAX_LOG2_SLI) - 1;
      SumFits(r, f);
      var x := r + t;
      var f2 := Fls(x);
      HighestIsLog2(x, f2);
      LogOfMedium(x);
      Quotient(x, f2);
      sl := x / Pow2(f2 - MAX_LOG2_SLI) - MAX_SLI;
      fl := f2 - FLI_OFFSET;
      ClearLowIs(x, f - MAX_LOG2_SLI);
      want := ClearLow(x, f - MAX_LOG2_SLI);
      SearchCorrect(r, f, x, want, f2, sl);
    }
  }

  lemma SumFits(r: nat, f: nat)
    requires r <= SUM_FITS && Pow2(f) <= r < Pow2(f + 1) && f >= 5
    ensures r + Pow2(f - 5) - 1 < WORD
  {
    Unfold(f);
    Pow2Is();
    assert Pow2(31) == 0x8000_0000 && Pow2(32) == 0x1_0000_0000;
    if f >= 32 { Pow2Grows(32, f); } else if f < 31 { Pow2Grows(f + 1, 31); }
  }

  lemma ClassOfBound(fl: nat, sl: nat)
    requires sl < MAX_SLI
    ensures ClassOf(LowerBound(fl, sl)) >= fl * MAX_SLI + sl
  {
    ClassAtLeast(LowerBound(fl, sl), fl, sl);
  }

  lemma BelowNextRow(fl: nat, sl: nat)
    requires fl < REAL_FLI && sl < MAX_SLI
    ensures ClassOf(LowerBound(fl, sl)) < CLASSES
  {
    Pow2Is();
    if fl > 0 {
      RowBounds(fl, sl);
      Pow2Grows(fl + 7, 30);
    }
    ClassInTables(LowerBound(fl, sl));
  }

  lemma ClassInTablesIff(want: nat, fl: nat, sl: nat)
    requires want == LowerBound(fl, sl) && sl < MAX_SLI
    ensures ClassOf(want) < CLASSES <==> fl < REAL_FLI
  {
    if fl < REAL_FLI { BelowNextRow(fl, sl); } else { ClassOfBound(fl, sl); }
  }

  lemma MediumSearch(r: nat, f: nat, x: nat, want: nat, f2: nat, sl: nat)
    requires SMALL_BLOCK <= r <= SUM_FITS && f == Log2(r) && f >= 7 && f2 >= 7
    requires x == r + Pow2(f - 5) - 1 && want == x / Pow2(f - 5) * Pow2(f - 5)
    requires Pow2(f2) <= x < Pow2(f2 + 1) && sl == x / Pow2(f2 - 5) - 32
    ensures want == SearchSize(r) && (ClassOf(want) < CLASSES <==> r <= LARGEST_REQUEST)
  {
    SearchCorrect(r, f, x, want, f2, sl);
    ClassInTablesIff(want, f2 - 6, sl);
  }

  lemma SearchedSum(r: nat, f: nat) returns (x: nat, f2: nat)
    requires r >= SMALL_BLOCK && f >= 7
    ensures x == r + Pow2(f - 5) - 1 && f2 >= 7 && Pow2(f2) <= x < Pow2(f2 + 1)
  {
    x := r + Pow2(f - 5) - 1;
    LogOfMedium(x);
    f2 := Log2(x);
  }

  lemma SearchedParts(x: nat, f: nat, f2: nat) returns (want: nat, sl: nat)
    requires f >= 7 && f2 >= 7 && Pow2(f2) <= x
    ensures want == x / Pow2(f - 5) * Pow2(f - 5) && sl == x / Pow2(f2 - 5) - 32
  {
    Quotient(x, f2);
    want, sl := x / Pow2(f - 5) * Pow2(f - 5), x / Pow2(f2 - 5) - 32;
  }

  /** A search stays inside the tables exactly for requests up to 63/64 of 2^30, although
      blocks of all sizes below 2^30 are kept. */
  lemma SearchesInTables(r: nat)
    requires 0 < r <= SUM_FITS && r % 4 == 0
    ensures ClassOf(SearchSize(r)) < CLASSES <==> r <= LARGEST_REQUEST
  {
    if r < SMALL_BLOCK {
      ClassInTables(r);
    } else {
      LogOfMedium(r);
      var x, f2 := SearchedSum(r, Log2(r));
      var want, sl := SearchedParts(x, Log2(r), f2);
      MediumSearch(r, Log2(r), x, want, f2, sl);
    }
  }

  /** What a search asks for exceeds the request by less than one part in 32, and by nothing
      below 128 bytes. */
  lemma SearchSizeBounds(r: nat)
    requires r > 0
    ensures r <= SearchSize(r) && 32 * (SearchSize(r) - r) < r
    ensures r < SMALL_BLOCK ==> SearchSize(r) == r
  {
    if r >= SMALL_BLOCK {
      LogOfMedium(r);
      var f := Log2(r);
      RoundsUp(r, f, r + Pow2(f - 5) - 1, SearchSize(r));
    }
  }
}
