/**
 * Generation of the 256-entry CRC-32 lookup tables and the memo cache that
 * hands out one table per (polynomial, reflected) key.
 *
 * The library's `reverse == true` table is built MSB-first by left shifts;
 * the `false` table is built LSB-first by right shifts with the
 * bit-reversed polynomial.
 */
module Crc32TableCache {
  import opened Bits

  /**
   * One MSB-first division step: shift left, folding in the polynomial when the
   * top bit falls out. The branch on the top bit is written as an AND with a
   * mask that is all ones exactly when that bit is set; MsbFirstStepBranches
   * gives the two cases as the generator's loop writes them.
   */
  function MsbFirstStep(entry: bv32, polynomial: bv32): bv32
  {
    (entry << 1) ^ (polynomial & -(entry >> 31))
  }

  /** `n` MSB-first steps from `entry`. */
  function MsbFirstSteps(entry: bv32, polynomial: bv32, n: nat): bv32
  {
    if n == 0 then entry else MsbFirstStep(MsbFirstSteps(entry, polynomial, n - 1), polynomial)
  }

  /** One LSB-first division step: shift right, folding in the reversed polynomial when the low bit falls out. */
  function LsbFirstStep(entry: bv32, reversedPolynomial: bv32): bv32
  {
    (entry >> 1) ^ (reversedPolynomial & -(entry & 1))
  }

  /** The MSB-first step is the source's two-way branch on bit 31. */
  lemma {:induction false} MsbFirstStepBranches(entry: bv32, polynomial: bv32)
    ensures entry & 0x8000_0000 != 0 ==> MsbFirstStep(entry, polynomial) == (entry << 1) ^ polynomial
    ensures entry & 0x8000_0000 == 0 ==> MsbFirstStep(entry, polynomial) == entry << 1
  {
  }

  /** The LSB-first step is the source's two-way branch on bit 0. */
  lemma {:induction false} LsbFirstStepBranches(entry: bv32, reversedPolynomial: bv32)
    ensures entry & 1 == 1 ==> LsbFirstStep(entry, reversedPolynomial) == (entry >> 1) ^ reversedPolynomial
    ensures entry & 1 != 1 ==> LsbFirstStep(entry, reversedPolynomial) == entry >> 1
  {
  }

  /** `n` LSB-first steps from `entry`. */
  function LsbFirstSteps(entry: bv32, reversedPolynomial: bv32, n: nat): bv32
  {
    if n == 0 then entry else LsbFirstStep(LsbFirstSteps(entry, reversedPolynomial, n - 1), reversedPolynomial)
  }

  /** Table entry `i`: eight steps from the byte `i`, placed at the top (MSB-first) or the bottom (LSB-first). */
  function Entry(polynomial: bv32, reverse: bool, i: bv32): bv32
    requires i < 256
  {
    if reverse then MsbFirstSteps(i << 24, polynomial, 8)
    else LsbFirstSteps(i, SwapBits(polynomial), 8)
  }

  /** The whole table for a key, as a value. */
  function Table(polynomial: bv32, reverse: bool): seq<bv32>
  {
    seq(256, i requires 0 <= i < 256 => Entry(polynomial, reverse, i as bv32))
  }

  /** The inner loop of the MSB-first branch: eight left-shifting steps from `i << 24`. */
  method MsbFirstEntry(polynomial: bv32, i: bv32) returns (entry: bv32)
    requires i < 256
    ensures entry == Entry(polynomial, true, i)
  {
    entry := i << 24;
    var j := 8 - 1;
    while j >= 0
      invariant -1 <= j <= 7
      invariant entry == MsbFirstSteps(i << 24, polynomial, 7 - j)
    {
      MsbFirstStepBranches(entry, polynomial);
      if entry & 0x8000_0000 != 0 {
        entry := (entry << 1) ^ polynomial;
      } else {
        entry := entry << 1;
      }
      j := j - 1;
    }
  }

  /** The inner loop of the LSB-first branch: eight right-shifting steps from `i`. */
  method LsbFirstEntry(reversedPolynomial: bv32, i: bv32) returns (entry: bv32)
    ensures entry == LsbFirstSteps(i, reversedPolynomial, 8)
  {
    entry := i;
    for j := 0 to 8
      invariant entry == LsbFirstSteps(i, reversedPolynomial, j)
    {
      LsbFirstStepBranches(entry, reversedPolynomial);
      if entry & 1 == 1 {
        entry := (entry >> 1) ^ reversedPolynomial;
      } else {
        entry := entry >> 1;
      }
    }
  }

  /** Fills a fresh 256-entry array with the table for (polynomial, reverse). */
  method InitializeTable(polynomial: bv32, reverse: bool) returns (polynomialTable: array<bv32>)
    ensures fresh(polynomialTable)
    ensures polynomialTable.Length == 256
    ensures polynomialTable[..] == Table(polynomial, reverse)
  {
    polynomialTable := new bv32[256];
    if reverse {
      FillMsbFirst(polynomialTable, polynomial);
    } else {
      // The source rebinds its by-value parameter; here the reversed polynomial is a local.
      var reversedPolynomial := SwapBits(polynomial);
      FillLsbFirst(polynomialTable, polynomial, reversedPolynomial);
    }
  }

  /** The outer loop of the MSB-first branch: one entry per byte value. */
  method FillMsbFirst(polynomialTable: array<bv32>, polynomial: bv32)
    requires polynomialTable.Length == 256
    modifies polynomialTable
    ensures polynomialTable[..] == Table(polynomial, true)
  {
    for i := 0 to 256
      invariant forall k :: 0 <= k < i ==> polynomialTable[k] == Entry(polynomial, true, k as bv32)
    {
      var entry := MsbFirstEntry(polynomial, i as bv32);
      polynomialTable[i] := entry;
    }
  }

  /** The outer loop of the LSB-first branch: one entry per byte value. */
  method FillLsbFirst(polynomialTable: array<bv32>, polynomial: bv32, reversedPolynomial: bv32)
    requires polynomialTable.Length == 256
    requires reversedPolynomial == SwapBits(polynomial)
    modifies polynomialTable
    ensures polynomialTable[..] == Table(polynomial, false)
  {
    for i := 0 to 256
      invariant forall k :: 0 <= k < i ==> polynomialTable[k] == Entry(polynomial, false, k as bv32)
    {
      var entry := LsbFirstEntry(reversedPolynomial, i as bv32);
      polynomialTable[i] := entry;
    }
  }

  /** A zero word never triggers the polynomial XOR, in either direction. */
  lemma {:induction false} ZeroStaysZero(polynomial: bv32, n: nat)
    ensures MsbFirstSteps(0, polynomial, n) == 0
    ensures LsbFirstSteps(0, polynomial, n) == 0
  {
    if n > 0 {
      ZeroStaysZero(polynomial, n - 1);
    }
  }

  /** Entry 0 of every table is 0. */
  lemma {:induction false} TableEntryZero(polynomial: bv32, reverse: bool)
    ensures Table(polynomial, reverse)[0] == 0
  {
    ZeroStaysZero(polynomial, 8);
    ZeroStaysZero(SwapBits(polynomial), 8);
  }

  /**
   * After `k` MSB-first steps the word started from `x` differs from the word
   * started from `y` by exactly `m`.
   */
  predicate MsbFirstStepsDiffer(x: bv32, y: bv32, polynomial: bv32, k: nat, m: bv32)
  {
    MsbFirstSteps(x, polynomial, k) == m ^ MsbFirstSteps(y, polynomial, k)
  }

  /**
   * After `k` LSB-first steps the word started from `x` differs from the word
   * started from `y` by exactly `m`.
   */
  predicate LsbFirstStepsDiffer(x: bv32, y: bv32, reversedPolynomial: bv32, k: nat, m: bv32)
  {
    LsbFirstSteps(x, reversedPolynomial, k) == m ^ LsbFirstSteps(y, reversedPolynomial, k)
  }

  /** Bits below the top one do not affect the feedback decision of an MSB-first step; they only move up. */
  lemma {:induction false} MsbFirstStepPassThrough(s: bv32, m: bv32, polynomial: bv32)
    requires m & 0x8000_0000 == 0
    ensures MsbFirstStep(m ^ s, polynomial) == (m << 1) ^ MsbFirstStep(s, polynomial)
  {
  }

  /** Bits above the low one do not affect the feedback decision of an LSB-first step; they only move down. */
  lemma {:induction false} LsbFirstStepPassThrough(s: bv32, m: bv32, reversedPolynomial: bv32)
    requires m & 1 == 0
    ensures LsbFirstStep(m ^ s, reversedPolynomial) == (m >> 1) ^ LsbFirstStep(s, reversedPolynomial)
  {
  }

  /** Before any step the two words differ by their XOR. */
  lemma {:induction false} MsbFirstStepsDifferStart(x: bv32, y: bv32, polynomial: bv32, m: bv32)
    requires x == m ^ y
    ensures MsbFirstStepsDiffer(x, y, polynomial, 0, m)
  {
  }

  /** Before any step the two words differ by their XOR. */
  lemma {:induction false} LsbFirstStepsDifferStart(x: bv32, y: bv32, reversedPolynomial: bv32, m: bv32)
    requires x == m ^ y
    ensures LsbFirstStepsDiffer(x, y, reversedPolynomial, 0, m)
  {
  }

  /** A difference whose top bit is clear survives one more MSB-first step, shifted left. */
  lemma {:induction false} MsbFirstStepsDifferNext(x: bv32, y: bv32, polynomial: bv32, k: nat, n: nat, m: bv32)
    requires n == k + 1
    requires MsbFirstStepsDiffer(x, y, polynomial, k, m)
    requires m & 0x8000_0000 == 0
    ensures MsbFirstStepsDiffer(x, y, polynomial, n, m << 1)
  {
    MsbFirstStepPassThrough(MsbFirstSteps(y, polynomial, k), m, polynomial);
  }

  /** A difference whose low bit is clear survives one more LSB-first step, shifted right. */
  lemma {:induction false} LsbFirstStepsDifferNext(x: bv32, y: bv32, reversedPolynomial: bv32, k: nat, n: nat, m: bv32)
    requires n == k + 1
    requires LsbFirstStepsDiffer(x, y, reversedPolynomial, k, m)
    requires m & 1 == 0
    ensures LsbFirstStepsDiffer(x, y, reversedPolynomial, n, m >> 1)
  {
    LsbFirstStepPassThrough(LsbFirstSteps(y, reversedPolynomial, k), m, reversedPolynomial);
  }

  /** Shifting a word with a clear top byte left seven times never brings a set bit to the top. */
  lemma {:induction false} ShiftLeftFacts(l: bv32)
    requires l & 0xFF00_0000 == 0
    ensures l & 0x8000_0000 == 0
    ensures (l << 1) & 0x8000_0000 == 0
    ensures ((l << 1) << 1) & 0x8000_0000 == 0
    ensures (((l << 1) << 1) << 1) & 0x8000_0000 == 0
    ensures ((((l << 1) << 1) << 1) << 1) & 0x8000_0000 == 0
    ensures (((((l << 1) << 1) << 1) << 1) << 1) & 0x8000_0000 == 0
    ensures ((((((l << 1) << 1) << 1) << 1) << 1) << 1) & 0x8000_0000 == 0
    ensures (((((((l << 1) << 1) << 1) << 1) << 1) << 1) << 1) & 0x8000_0000 == 0
    ensures ((((((((l << 1) << 1) << 1) << 1) << 1) << 1) << 1) << 1) == l << 8
  {
  }

  /** Shifting a word with a clear low byte right seven times never brings a set bit to the bottom. */
  lemma {:induction false} ShiftRightFacts(h: bv32)
    requires h & 0xFF == 0
    ensures h & 1 == 0
    ensures (h >> 1) & 1 == 0
    ensures ((h >> 1) >> 1) & 1 == 0
    ensures (((h >> 1) >> 1) >> 1) & 1 == 0
    ensures ((((h >> 1) >> 1) >> 1) >> 1) & 1 == 0
    ensures (((((h >> 1) >> 1) >> 1) >> 1) >> 1) & 1 == 0
    ensures ((((((h >> 1) >> 1) >> 1) >> 1) >> 1) >> 1) & 1 == 0
    ensures (((((((h >> 1) >> 1) >> 1) >> 1) >> 1) >> 1) >> 1) & 1 == 0
    ensures ((((((((h >> 1) >> 1) >> 1) >> 1) >> 1) >> 1) >> 1) >> 1) == h >> 8
  {
  }

  /**
   * The low 24 bits of a word pass through eight MSB-first steps untouched:
   * only the top byte decides where the polynomial is folded in.
   */
  lemma {:induction false} MsbFirstPassThrough(h: bv32, l: bv32, polynomial: bv32)
    requires l & 0xFF00_0000 == 0
    ensures MsbFirstStepsDiffer(l ^ h, h, polynomial, 8, l << 8)
  {
    ShiftLeftFacts(l);
    var x := l ^ h;
    MsbFirstStepsDifferStart(x, h, polynomial, l);
    var m := l;
    MsbFirstStepsDifferNext(x, h, polynomial, 0, 1, m);
    m := m << 1;
    MsbFirstStepsDifferNext(x, h, polynomial, 1, 2, m);
    m := m << 1;
    MsbFirstStepsDifferNext(x, h, polynomial, 2, 3, m);
    m := m << 1;
    MsbFirstStepsDifferNext(x, h, polynomial, 3, 4, m);
    m := m << 1;
    MsbFirstStepsDifferNext(x, h, polynomial, 4, 5, m);
    m := m << 1;
    MsbFirstStepsDifferNext(x, h, polynomial, 5, 6, m);
    m := m << 1;
    MsbFirstStepsDifferNext(x, h, polynomial, 6, 7, m);
    m := m << 1;
    MsbFirstStepsDifferNext(x, h, polynomial, 7, 8, m);
  }

  /**
   * The high 24 bits of a word pass through eight LSB-first steps untouched:
   * only the low byte decides where the polynomial is folded in.
   */
  lemma {:induction false} LsbFirstPassThrough(l: bv32, h: bv32, reversedPolynomial: bv32)
    requires h & 0xFF == 0
    ensures LsbFirstStepsDiffer(h ^ l, l, reversedPolynomial, 8, h >> 8)
  {
    ShiftRightFacts(h);
    var x := h ^ l;
    LsbFirstStepsDifferStart(x, l, reversedPolynomial, h);
    var m := h;
    LsbFirstStepsDifferNext(x, l, reversedPolynomial, 0, 1, m);
    m := m >> 1;
    LsbFirstStepsDifferNext(x, l, reversedPolynomial, 1, 2, m);
    m := m >> 1;
    LsbFirstStepsDifferNext(x, l, reversedPolynomial, 2, 3, m);
    m := m >> 1;
    LsbFirstStepsDifferNext(x, l, reversedPolynomial, 3, 4, m);
    m := m >> 1;
    LsbFirstStepsDifferNext(x, l, reversedPolynomial, 4, 5, m);
    m := m >> 1;
    LsbFirstStepsDifferNext(x, l, reversedPolynomial, 5, 6, m);
    m := m >> 1;
    LsbFirstStepsDifferNext(x, l, reversedPolynomial, 6, 7, m);
    m := m >> 1;
    LsbFirstStepsDifferNext(x, l, reversedPolynomial, 7, 8, m);
  }

  /**
   * The memo cache: one table per (polynomial, reflected) key, created on first
   * request and never replaced or evicted.
   */
  class Cache {
    var tables: map<(bv32, bool), seq<bv32>>

    /** Every stored table is the table of its key. */
    ghost predicate Valid()
      reads this
    {
      forall key :: key in tables ==> tables[key] == Table(key.0, key.1)
    }

    constructor ()
      ensures Valid()
      ensures tables == map[]
    {
      tables := map[];
    }

    /** Returns the cached table for the key, generating and storing it on a miss. */
    method GetOrCreate(polynomial: bv32, reflected: bool) returns (table: seq<bv32>)
      requires Valid()
      modifies this
      ensures Valid()
      ensures table == Table(polynomial, reflected)
      ensures (polynomial, reflected) in old(tables) ==>
                tables == old(tables) && table == old(tables)[(polynomial, reflected)]
      ensures (polynomial, reflected) !in old(tables) ==>
                tables == old(tables)[(polynomial, reflected) := table]
    {
      var key := (polynomial, reflected);
      if key in tables {
        table := tables[key];
        return;
      }
      var generated := InitializeTable(polynomial, reflected);
      table := generated[..];
      tables := tables[key := table];
    }
  }

  /** Two requests for the same key return the same table, and the second generates nothing. */
  method GetOrCreateTwice(cache: Cache, polynomial: bv32, reflected: bool) returns (first: seq<bv32>, second: seq<bv32>)
    requires cache.Valid()
    modifies cache
    ensures cache.Valid()
    ensures first == second == Table(polynomial, reflected)
    ensures (polynomial, reflected) in cache.tables
    ensures cache.tables == old(cache.tables)[(polynomial, reflected) := first]
  {
    first := cache.GetOrCreate(polynomial, reflected);
    ghost var afterFirst := cache.tables;
    second := cache.GetOrCreate(polynomial, reflected);
    assert cache.tables == afterFirst;
  }
}
