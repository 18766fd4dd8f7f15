/**
 * The incremental CRC-32 engine: a running accumulator folded over the input
 * one byte at a time through a 256-entry table, finished by an XOR-out mask.
 *
 * The per-byte rule and its left fold are specification functions; the class
 * `Crc32` keeps the accumulator in a mutable field and its `Compute` loop is
 * proved equal to the fold.
 */
module Crc32Engine {
  import opened Bits
  import Crc32Info
  import opened Crc32TableCache

  /** The table index taken from a word by the `& 0xFF` mask: its low byte, always a valid index. */
  function TableIndex(x: bv32): (i: nat)
    ensures i < 256
  {
    (x & 0xFF) as nat
  }

  /** Converting a word to a number and back gives the word. */
  lemma {:induction false} NatRoundTrip(y: bv32)
    ensures (y as nat) as bv32 == y
  {
  }

  /** The index is the masked low byte itself. */
  lemma {:induction false} TableIndexValue(x: bv32)
    ensures TableIndex(x) as bv32 == x & 0xFF
  {
    NatRoundTrip(x & 0xFF);
  }

  /** One byte of MSB-first input: the byte meets the accumulator's top byte and the accumulator shifts left. */
  function MsbFirstByteStep(table: seq<bv32>, crc: bv32, b: bv8): bv32
    requires |table| == 256
  {
    (crc << 8) ^ table[TableIndex((crc >> 24) ^ (b as bv32))]
  }

  /** One byte of LSB-first input: the byte meets the accumulator's low byte and the accumulator shifts right. */
  function LsbFirstByteStep(table: seq<bv32>, crc: bv32, b: bv8): bv32
    requires |table| == 256
  {
    (crc >> 8) ^ table[TableIndex(crc ^ (b as bv32))]
  }

  /** One byte of input in the direction `reflected` selects. */
  function ByteStep(table: seq<bv32>, reflected: bool, crc: bv32, b: bv8): bv32
    requires |table| == 256
  {
    if reflected then MsbFirstByteStep(table, crc, b) else LsbFirstByteStep(table, crc, b)
  }

  /** The accumulator after feeding `input`, byte by byte from the left, starting from `crc`. */
  function Update(table: seq<bv32>, reflected: bool, crc: bv32, input: seq<bv8>): bv32
    requires |table| == 256
    decreases |input|
  {
    if input == [] then crc
    else ByteStep(table, reflected, Update(table, reflected, crc, input[..|input| - 1]), input[|input| - 1])
  }

  /** The visible checksum of a whole message for a given configuration. */
  function Checksum(polynomial: bv32, reflected: bool, initial: bv32, xorOut: bv32, input: seq<bv8>): bv32
  {
    Update(Table(polynomial, reflected), reflected, initial, input) ^ xorOut
  }

  /** The visible checksum of a whole message for one of the predefined variants. */
  function AlgorithmChecksum(algorithm: Crc32Info.Crc32Algorithm, input: seq<bv8>): bv32
  {
    Checksum(Crc32Info.Polynomial(algorithm), Crc32Info.Reverse(algorithm),
             Crc32Info.Initial(algorithm), Crc32Info.XorOut(algorithm), input)
  }

  /** Feeding nothing leaves the accumulator as it was. */
  lemma {:induction false} UpdateEmpty(table: seq<bv32>, reflected: bool, crc: bv32)
    requires |table| == 256
    ensures Update(table, reflected, crc, []) == crc
  {
  }

  /** Feeding one byte is one byte step. */
  lemma {:induction false} UpdateSingle(table: seq<bv32>, reflected: bool, crc: bv32, b: bv8)
    requires |table| == 256
    ensures Update(table, reflected, crc, [b]) == ByteStep(table, reflected, crc, b)
  {
    assert [b][..0] == [];
  }

  /** Feeding one more byte of `input` is one more byte step. */
  lemma {:induction false} UpdateExtend(table: seq<bv32>, reflected: bool, crc: bv32, input: seq<bv8>, k: nat)
    requires |table| == 256
    requires k < |input|
    ensures Update(table, reflected, crc, input[..k + 1]) == ByteStep(table, reflected, Update(table, reflected, crc, input[..k]), input[k])
  {
    assert input[..k + 1][..k] == input[..k];
  }

  /** Streaming: feeding `a` and then `b` is the same as feeding `a + b` at once. */
  lemma {:induction false} UpdateConcat(table: seq<bv32>, reflected: bool, crc: bv32, a: seq<bv8>, b: seq<bv8>)
    requires |table| == 256
    ensures Update(table, reflected, Update(table, reflected, crc, a), b) == Update(table, reflected, crc, a + b)
    decreases |b|
  {
    if b == [] {
      assert a + b == a;
    } else {
      var n := |b| - 1;
      UpdateConcat(table, reflected, crc, a, b[..n]);
      assert (a + b)[..|a + b| - 1] == a + b[..n];
      assert (a + b)[|a + b| - 1] == b[n];
    }
  }

  /**
   * The bit-at-a-time reference for one MSB-first byte: XOR the byte into the
   * top of the accumulator, then divide by the polynomial for eight bits.
   */
  function MsbFirstBitwiseStep(polynomial: bv32, crc: bv32, b: bv8): bv32
  {
    MsbFirstSteps(crc ^ ((b as bv32) << 24), polynomial, 8)
  }

  /**
   * The bit-at-a-time reference for one LSB-first byte: XOR the byte into the
   * bottom of the accumulator, then divide by the reversed polynomial for eight bits.
   */
  function LsbFirstBitwiseStep(polynomial: bv32, crc: bv32, b: bv8): bv32
  {
    LsbFirstSteps(crc ^ (b as bv32), SwapBits(polynomial), 8)
  }

  /** The bit-at-a-time reference for one byte in the direction `reflected` selects. */
  function BitwiseStep(polynomial: bv32, reflected: bool, crc: bv32, b: bv8): bv32
  {
    if reflected then MsbFirstBitwiseStep(polynomial, crc, b) else LsbFirstBitwiseStep(polynomial, crc, b)
  }

  /** The bit-at-a-time reference for a whole input: no table, eight division steps per byte. */
  function BitwiseUpdate(polynomial: bv32, reflected: bool, crc: bv32, input: seq<bv8>): bv32
    decreases |input|
  {
    if input == [] then crc
    else BitwiseStep(polynomial, reflected, BitwiseUpdate(polynomial, reflected, crc, input[..|input| - 1]), input[|input| - 1])
  }

  /**
   * `w` is `l ^ h` where `h` holds the top byte and `l` the remaining bits,
   * which a left shift by eight moves exactly as it moves `crc`.
   */
  predicate MsbFirstSplitAt(crc: bv32, w: bv32, l: bv32, h: bv32)
  {
    w == l ^ h && l & 0xFF00_0000 == 0 && l << 8 == crc << 8
  }

  /** The MSB-first accumulator XOR the byte splits into the table seed (top byte) and the bits that pass through. */
  lemma {:induction false} MsbFirstSplit(crc: bv32, b: bv8)
    ensures MsbFirstSplitAt(crc, crc ^ ((b as bv32) << 24), crc & 0x00FF_FFFF, (((crc >> 24) ^ (b as bv32)) & 0xFF) << 24)
  {
  }

  /**
   * `w` is `h ^ l` where `l` holds the low byte and `h` the remaining bits,
   * which a right shift by eight moves exactly as it moves `crc`.
   */
  predicate LsbFirstSplitAt(crc: bv32, w: bv32, l: bv32, h: bv32)
  {
    w == h ^ l && h & 0xFF == 0 && h >> 8 == crc >> 8
  }

  /** The LSB-first accumulator XOR the byte splits into the table seed (low byte) and the bits that pass through. */
  lemma {:induction false} LsbFirstSplit(crc: bv32, b: bv8)
    ensures LsbFirstSplitAt(crc, crc ^ (b as bv32), (crc ^ (b as bv32)) & 0xFF, crc & 0xFFFF_FF00)
  {
  }

  /** The table entry picked by a masked index is the entry for the masked byte. */
  lemma {:induction false} TableAt(polynomial: bv32, reverse: bool, x: bv32)
    ensures Table(polynomial, reverse)[TableIndex(x)] == Entry(polynomial, reverse, x & 0xFF)
  {
    TableIndexValue(x);
  }

  /** The MSB-first table lookup for one byte, written with the entry's own division steps. */
  lemma {:induction false} MsbFirstTableSide(polynomial: bv32, crc: bv32, b: bv8, x: bv32, s: bv32)
    requires x == (crc >> 24) ^ (b as bv32)
    requires s == MsbFirstSteps((x & 0xFF) << 24, polynomial, 8)
    ensures MsbFirstByteStep(Table(polynomial, true), crc, b) == (crc << 8) ^ s
  {
    TableAt(polynomial, true, x);
  }

  /** Eight MSB-first division steps on a word split into a top-byte seed `h` and pass-through bits `l`. */
  lemma {:induction false} MsbFirstSplitSteps(polynomial: bv32, crc: bv32, w: bv32, l: bv32, h: bv32, s: bv32)
    requires MsbFirstSplitAt(crc, w, l, h)
    requires s == MsbFirstSteps(h, polynomial, 8)
    ensures MsbFirstSteps(w, polynomial, 8) == (crc << 8) ^ s
  {
    MsbFirstPassThrough(h, l, polynomial);
  }

  /** Eight MSB-first division steps after XORing the byte in: the low 24 bits only pass through. */
  lemma {:induction false} MsbFirstBitwiseSide(polynomial: bv32, crc: bv32, b: bv8, h: bv32, s: bv32)
    requires h == (((crc >> 24) ^ (b as bv32)) & 0xFF) << 24
    requires s == MsbFirstSteps(h, polynomial, 8)
    ensures MsbFirstBitwiseStep(polynomial, crc, b) == (crc << 8) ^ s
  {
    MsbFirstSplit(crc, b);
    MsbFirstSplitSteps(polynomial, crc, crc ^ ((b as bv32) << 24), crc & 0x00FF_FFFF, h, s);
  }

  /** One MSB-first table lookup does the work of eight bit-at-a-time division steps. */
  lemma {:induction false} MsbFirstByteStepIsBitwise(polynomial: bv32, crc: bv32, b: bv8)
    ensures MsbFirstByteStep(Table(polynomial, true), crc, b) == MsbFirstBitwiseStep(polynomial, crc, b)
  {
    var x := (crc >> 24) ^ (b as bv32);
    var h := (x & 0xFF) << 24;
    var s := MsbFirstSteps(h, polynomial, 8);
    MsbFirstTableSide(polynomial, crc, b, x, s);
    MsbFirstBitwiseSide(polynomial, crc, b, h, s);
  }

  /**
   * The 24 bits of the accumulator that remain once its low byte is dropped.
   * It exists only to keep the LSB-first proof cheap: naming the shift keeps
   * the solver from unfolding it inside the two side lemmas below.
   */
  function DropLowByte(crc: bv32): bv32
  {
    crc >> 8
  }

  /** The LSB-first table lookup for one byte, written with the entry's own division steps. */
  lemma {:induction false} LsbFirstTableSide(polynomial: bv32, crc: bv32, b: bv8, x: bv32, s: bv32)
    requires x == crc ^ (b as bv32)
    requires s == LsbFirstSteps(x & 0xFF, SwapBits(polynomial), 8)
    ensures LsbFirstByteStep(Table(polynomial, false), crc, b) == DropLowByte(crc) ^ s
  {
    TableAt(polynomial, false, x);
  }

  /** Eight LSB-first division steps on a word split into a low-byte seed `l` and pass-through bits `h`. */
  lemma {:induction false} LsbFirstSplitSteps(reversedPolynomial: bv32, crc: bv32, w: bv32, l: bv32, h: bv32, s: bv32)
    requires LsbFirstSplitAt(crc, w, l, h)
    requires s == LsbFirstSteps(l, reversedPolynomial, 8)
    ensures LsbFirstSteps(w, reversedPolynomial, 8) == (crc >> 8) ^ s
  {
    LsbFirstPassThrough(l, h, reversedPolynomial);
  }

  /** Eight LSB-first division steps after XORing the byte in: the high 24 bits only pass through. */
  lemma {:induction false} LsbFirstBitwiseSide(polynomial: bv32, crc: bv32, b: bv8, l: bv32, s: bv32)
    requires l == (crc ^ (b as bv32)) & 0xFF
    requires s == LsbFirstSteps(l, SwapBits(polynomial), 8)
    ensures LsbFirstBitwiseStep(polynomial, crc, b) == DropLowByte(crc) ^ s
  {
    LsbFirstSplit(crc, b);
    LsbFirstSplitSteps(SwapBits(polynomial), crc, crc ^ (b as bv32), l, crc & 0xFFFF_FF00, s);
  }

  /** One LSB-first table lookup does the work of eight bit-at-a-time division steps. */
  lemma {:induction false} LsbFirstByteStepIsBitwise(polynomial: bv32, crc: bv32, b: bv8)
    ensures LsbFirstByteStep(Table(polynomial, false), crc, b) == LsbFirstBitwiseStep(polynomial, crc, b)
  {
    var x := crc ^ (b as bv32);
    var l := x & 0xFF;
    var s := LsbFirstSteps(l, SwapBits(polynomial), 8);
    LsbFirstTableSide(polynomial, crc, b, x, s);
    LsbFirstBitwiseSide(polynomial, crc, b, l, s);
  }

  /** A table lookup in either direction does the work of eight bit-at-a-time division steps. */
  lemma {:induction false} ByteStepIsBitwise(polynomial: bv32, reflected: bool, crc: bv32, b: bv8)
    ensures ByteStep(Table(polynomial, reflected), reflected, crc, b) == BitwiseStep(polynomial, reflected, crc, b)
  {
    if reflected {
      MsbFirstByteStepIsBitwise(polynomial, crc, b);
    } else {
      LsbFirstByteStepIsBitwise(polynomial, crc, b);
    }
  }

  /**
   * The table-driven accumulator over a whole input equals the bit-at-a-time
   * reference: the table generated for a key implements division by its polynomial.
   */
  lemma {:induction false} UpdateIsBitwise(polynomial: bv32, reflected: bool, crc: bv32, input: seq<bv8>)
    ensures Update(Table(polynomial, reflected), reflected, crc, input) == BitwiseUpdate(polynomial, reflected, crc, input)
    decreases |input|
  {
    if input != [] {
      var front := input[..|input| - 1];
      UpdateIsBitwise(polynomial, reflected, crc, front);
      ByteStepIsBitwise(polynomial, reflected, Update(Table(polynomial, reflected), reflected, crc, front), input[|input| - 1]);
    }
  }

  /** The visible checksum of a message is the bit-at-a-time remainder with the XOR-out mask applied. */
  lemma {:induction false} ChecksumIsBitwise(polynomial: bv32, reflected: bool, initial: bv32, xorOut: bv32, input: seq<bv8>)
    ensures Checksum(polynomial, reflected, initial, xorOut, input) == BitwiseUpdate(polynomial, reflected, initial, input) ^ xorOut
  {
    UpdateIsBitwise(polynomial, reflected, initial, input);
  }

  /** The checksum of the empty message is the initial value with the XOR-out mask applied. */
  lemma {:induction false} EmptyChecksum(polynomial: bv32, reflected: bool, initial: bv32, xorOut: bv32)
    ensures Checksum(polynomial, reflected, initial, xorOut, []) == initial ^ xorOut
  {
    UpdateEmpty(Table(polynomial, reflected), reflected, initial);
  }

  /**
   * Whether the constructor would choose the SSE4.2 instruction instead of a
   * table: the key must be CRC32C's polynomial and direction, and the CPU must
   * support the instruction.
   */
  function NativeCrc32cEligible(polynomial: bv32, reflected: bool, sse42Supported: bool): bool
  {
    polynomial == Crc32Info.Polynomial(Crc32Info.CRC32C) && reflected == Crc32Info.Reverse(Crc32Info.CRC32C) && sse42Supported
  }

  /** Among the predefined variants only CRC32C can take the hardware path. */
  lemma {:induction false} NativeOnlyForCrc32c(algorithm: Crc32Info.Crc32Algorithm, sse42Supported: bool)
    ensures NativeCrc32cEligible(Crc32Info.Polynomial(algorithm), Crc32Info.Reverse(algorithm), sse42Supported)
            <==> algorithm == Crc32Info.CRC32C && sse42Supported
  {
  }

  /** The left-shifting loop of `Compute`: one table lookup per byte, indexed by the top byte. */
  method UpdateMsbFirst(table: seq<bv32>, crc0: bv32, input: seq<bv8>) returns (crc: bv32)
    requires |table| == 256
    ensures crc == Update(table, true, crc0, input)
  {
    crc := crc0;
    for k := 0 to |input|
      invariant crc == Update(table, true, crc0, input[..k])
    {
      UpdateExtend(table, true, crc0, input, k);
      crc := MsbFirstByteStep(table, crc, input[k]);
    }
    assert input[..|input|] == input;
  }

  /** The right-shifting loop of `Compute`: one table lookup per byte, indexed by the low byte. */
  method UpdateLsbFirst(table: seq<bv32>, crc0: bv32, input: seq<bv8>) returns (crc: bv32)
    requires |table| == 256
    ensures crc == Update(table, false, crc0, input)
  {
    crc := crc0;
    for k := 0 to |input|
      invariant crc == Update(table, false, crc0, input[..k])
    {
      UpdateExtend(table, false, crc0, input, k);
      crc := LsbFirstByteStep(table, crc, input[k]);
    }
    assert input[..|input|] == input;
  }

  /**
   * A CRC-32 hash object. `value` is the running accumulator; the initial
   * value, the XOR-out mask, the direction and the table are fixed at
   * construction. The table is shared through the cache in the library; here it
   * is held as the value it denotes.
   */
  class Crc32 {
    var value: bv32
    const init: bv32
    const xorOut: bv32
    const reflected: bool
    const table: seq<bv32>
    /** The polynomial the table was generated from; the library does not keep it. */
    ghost const polynomial: bv32

    /** The digest is four bytes wide. */
    const ByteSize: nat := 4

    /** The held table is the one for this object's polynomial and direction. */
    ghost predicate Valid()
    {
      table == Table(polynomial, reflected) && |table| == 256
    }

    /** A hash object for an explicit configuration; the table comes from the cache. */
    constructor (cache: Cache, polynomial: bv32, reflected: bool := false,
                 initial: bv32 := 0xFFFF_FFFF, xorOut: bv32 := 0xFFFF_FFFF)
      requires cache.Valid()
      modifies cache
      ensures Valid() && cache.Valid()
      ensures this.polynomial == polynomial && this.reflected == reflected
      ensures init == initial && value == initial && this.xorOut == xorOut
      ensures cache.tables == old(cache.tables)[(polynomial, reflected) := table]
    {
      this.reflected := reflected;
      init := initial;
      value := initial;
      this.xorOut := xorOut;
      this.polynomial := polynomial;
      var t := cache.GetOrCreate(polynomial, reflected);
      table := t;
    }

    /** A hash object for one of the predefined variants. */
    constructor FromAlgorithm(cache: Cache, algorithm: Crc32Info.Crc32Algorithm)
      requires cache.Valid()
      modifies cache
      ensures Valid() && cache.Valid()
      ensures polynomial == Crc32Info.Polynomial(algorithm) && reflected == Crc32Info.Reverse(algorithm)
      ensures init == Crc32Info.Initial(algorithm) && value == init && xorOut == Crc32Info.XorOut(algorithm)
      ensures cache.tables == old(cache.tables)[(polynomial, reflected) := table]
    {
      reflected := Crc32Info.Reverse(algorithm);
      init := Crc32Info.Initial(algorithm);
      value := Crc32Info.Initial(algorithm);
      xorOut := Crc32Info.XorOut(algorithm);
      polynomial := Crc32Info.Polynomial(algorithm);
      var t := cache.GetOrCreate(Crc32Info.Polynomial(algorithm), Crc32Info.Reverse(algorithm));
      table := t;
    }

    /** A hash object for the Default (IEEE 802.3) variant. */
    constructor Default(cache: Cache)
      requires cache.Valid()
      modifies cache
      ensures Valid() && cache.Valid()
      ensures polynomial == 0x04C1_1DB7 && !reflected
      ensures init == 0xFFFF_FFFF && value == init && xorOut == 0xFFFF_FFFF
      ensures cache.tables == old(cache.tables)[(polynomial, reflected) := table]
    {
      reflected := Crc32Info.Reverse(Crc32Info.Default);
      init := Crc32Info.Initial(Crc32Info.Default);
      value := Crc32Info.Initial(Crc32Info.Default);
      xorOut := Crc32Info.XorOut(Crc32Info.Default);
      polynomial := Crc32Info.Polynomial(Crc32Info.Default);
      var t := cache.GetOrCreate(Crc32Info.Polynomial(Crc32Info.Default), Crc32Info.Reverse(Crc32Info.Default));
      table := t;
    }

    /** The visible checksum: the accumulator with the XOR-out mask applied, which undoing the mask gives back. */
    function Value(): (v: bv32)
      reads this
      ensures v ^ xorOut == value
    {
      value ^ xorOut
    }

    /** Feeds `input` into the accumulator through the table, in the object's direction. */
    method Compute(input: seq<bv8>)
      requires Valid()
      modifies this`value
      ensures value == Update(table, reflected, old(value), input)
    {
      var crc := value;
      if reflected {
        crc := UpdateMsbFirst(table, crc, input);
      } else {
        crc := UpdateLsbFirst(table, crc, input);
      }
      value := crc;
    }

    /** Puts the accumulator back to the initial value. */
    method Reset()
      modifies this`value
      ensures value == init
    {
      value := init;
    }

    /** Replaces the accumulator with `seed`. */
    method SetSeed(seed: bv32)
      modifies this`value
      ensures value == seed
    {
      value := seed;
    }
  }

  /** A new object for the configuration, fed `input`: its accumulator is the fold of `input` from the initial value. */
  method NewObjectAccumulator(polynomial: bv32, reflected: bool, initial: bv32, xorOut: bv32, input: seq<bv8>) returns (acc: bv32)
    ensures acc == Update(Table(polynomial, reflected), reflected, initial, input)
  {
    var cache := new Cache();
    var crc := new Crc32(cache, polynomial, reflected, initial, xorOut);
    crc.Compute(input);
    acc := crc.value;
  }

  /** Feeding nothing leaves the accumulator at the initial value and the visible value as it was. */
  method EmptyInputValue(polynomial: bv32, reflected: bool, initial: bv32, xorOut: bv32) returns (acc: bv32, before: bv32, after: bv32)
    ensures acc == initial
    ensures before == after
  {
    var cache := new Cache();
    var crc := new Crc32(cache, polynomial, reflected, initial, xorOut);
    before := crc.Value();
    crc.Compute([]);
    acc := crc.value;
    after := crc.Value();
  }

  /** Streaming: feeding `a` and then `b` leaves the accumulator a new object reaches on `a + b`. */
  method ComputeInTwoParts(polynomial: bv32, reflected: bool, initial: bv32, xorOut: bv32, a: seq<bv8>, b: seq<bv8>) returns (acc: bv32)
    ensures acc == Update(Table(polynomial, reflected), reflected, initial, a + b)
  {
    var cache := new Cache();
    var crc := new Crc32(cache, polynomial, reflected, initial, xorOut);
    crc.Compute(a);
    crc.Compute(b);
    acc := crc.value;
    UpdateConcat(Table(polynomial, reflected), reflected, initial, a, b);
  }

  /** After `Reset`, an object that has already consumed `used` reaches the accumulator a new object reaches on `input`. */
  method ComputeAfterReset(polynomial: bv32, reflected: bool, initial: bv32, xorOut: bv32, used: seq<bv8>, input: seq<bv8>) returns (acc: bv32)
    ensures acc == Update(Table(polynomial, reflected), reflected, initial, input)
  {
    var cache := new Cache();
    var crc := new Crc32(cache, polynomial, reflected, initial, xorOut);
    crc.Compute(used);
    crc.Reset();
    crc.Compute(input);
    acc := crc.value;
  }

  /**
   * After `SetSeed(seed)`, an object reaches the accumulator a new object
   * constructed with `seed` as its initial value reaches, whatever it had consumed before.
   */
  method ComputeAfterSetSeed(polynomial: bv32, reflected: bool, initial: bv32, xorOut: bv32, seed: bv32,
                             used: seq<bv8>, input: seq<bv8>) returns (acc: bv32)
    ensures acc == Update(Table(polynomial, reflected), reflected, seed, input)
  {
    var cache := new Cache();
    var crc := new Crc32(cache, polynomial, reflected, initial, xorOut);
    crc.Compute(used);
    crc.SetSeed(seed);
    crc.Compute(input);
    acc := crc.value;
  }
}
