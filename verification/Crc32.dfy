/**
 * CRC-32 as both fixture writers compute it (scripts/attachment-fixtures.ts,
 * scripts/media-fixtures.ts): a 256-entry table and one lookup per byte.
 */
module Crc32 {
  import opened ByteCodec

  /** The reflected generator of section 8 of RFC 1952. */
  const POLYNOMIAL: bv32 := 0xedb88320

  /** One reduction step: divide by x, folding the generator in when a bit falls out. */
  function Step(c: bv32): bv32 {
    if c & 1 == 1 then POLYNOMIAL ^ (c >> 1) else c >> 1
  }

  function Iterate<T>(f: T -> T, x: T, n: nat): T {
    if n == 0 then x else f(Iterate(f, x, n - 1))
  }

  function Steps(c: bv32, n: nat): bv32 {
    Iterate(Step, c, n)
  }

  // ---------------------------------------------------------------- the definition, bit by bit

  /** The register after one byte: eight single-bit steps. */
  function PushByte(c: bv32, b: bv8): bv32 {
    Steps(c ^ (b as bv32), 8)
  }

  function Fold<S, B>(f: (S, B) -> S, start: S, xs: seq<B>): S {
    if xs == [] then start else f(Fold(f, start, xs[..|xs| - 1]), xs[|xs| - 1])
  }

  function Register(c: bv32, bytes: seq<bv8>): bv32 {
    Fold(PushByte, c, bytes)
  }

  /** The CRC-32 of a byte string, with the standard pre- and post-inversion. */
  function Crc(bytes: seq<bv8>): bv32 {
    Register(0xffff_ffff, bytes) ^ 0xffff_ffff
  }

  function BitsOf(data: Bytes): (r: seq<bv8>)
    ensures |r| == |data|
  {
    seq(|data|, i requires 0 <= i < |data| => data[i] as bv8)
  }

  function CrcOf(data: Bytes): (crc: int)
    ensures 0 <= crc < U32_LIMIT
  {
    Crc(BitsOf(data)) as int
  }

  // ---------------------------------------------------------------- the table

  /** Entry `b` is the byte `b` reduced by eight steps. */
  ghost predicate Reduced(table: seq<bv32>, b: bv8)
    requires |table| == 256
  {
    table[b as int] == Steps(b as bv32, 8)
  }

  ghost predicate IsCrcTable(table: seq<bv32>) {
    |table| == 256 && forall b: bv8 :: Reduced(table, b)
  }

  lemma ByteOfIndex(b: bv8, n: int)
    requires b as int == n
    ensures n as bv8 == b
  {
  }

  /** The inner loop: one entry, bit by bit. */
  method TableEntry(n: bv32) returns (c: bv32)
    ensures c == Steps(n, 8)
  {
    c := n;
    for k := 0 to 8
      invariant c == Steps(n, k)
    {
      c := if c & 1 == 1 then POLYNOMIAL ^ (c >> 1) else c >> 1;
    }
  }

  /** `crcTable()`: filled in place, entry by entry. */
  method CrcTable() returns (table: array<bv32>)
    ensures fresh(table) && IsCrcTable(table[..])
  {
    table := new bv32[256];
    for n := 0 to 256
      invariant forall b: bv8 | b as int < n :: Reduced(table[..], b)
    {
      ghost var before := table[..];
      table[n] := TableEntry((n as bv8) as bv32);
      forall b: bv8 | b as int < n + 1 ensures Reduced(table[..], b)
      {
        if b as int == n { ByteOfIndex(b, n); } else { assert Reduced(before, b); }
      }
    }
  }

  lemma LinearEvenEven(x: bv32, y: bv32)
    requires x & 1 == 0 && y & 1 == 0
    ensures Step(x ^ y) == Step(x) ^ Step(y)
  {
  }

  lemma LinearOddEven(x: bv32, y: bv32)
    requires x & 1 == 1 && y & 1 == 0
    ensures Step(x ^ y) == Step(x) ^ Step(y)
  {
  }

  lemma LinearOddOdd(x: bv32, y: bv32)
    requires x & 1 == 1 && y & 1 == 1
    ensures Step(x ^ y) == Step(x) ^ Step(y)
  {
  }

  /** Reduction is linear. */
  lemma StepLinear(x: bv32, y: bv32)
    ensures Step(x ^ y) == Step(x) ^ Step(y)
  {
    if x & 1 == 0 && y & 1 == 0 { LinearEvenEven(x, y); }
    else if x & 1 == 1 && y & 1 == 0 { LinearOddEven(x, y); }
    else if x & 1 == 0 && y & 1 == 1 { LinearOddEven(y, x); assert x ^ y == y ^ x; }
    else { LinearOddOdd(x, y); }
  }

  /** Iterating a map that respects an operation respects the operation. */
  lemma {:induction false} IterateRespects<T(!new)>(f: T -> T, op: (T, T) -> T, x: T, y: T, n: nat)
    requires forall a, b :: f(op(a, b)) == op(f(a), f(b))
    ensures Iterate(f, op(x, y), n) == op(Iterate(f, x, n), Iterate(f, y, n))
  {
    if n > 0 {
      IterateRespects(f, op, x, y, n - 1);
    }
  }

  function Xor(x: bv32, y: bv32): bv32 { x ^ y }

  lemma StepsLinear(x: bv32, y: bv32)
    ensures Steps(Xor(x, y), 8) == Xor(Steps(x, 8), Steps(y, 8))
  {
    forall a, b ensures Step(Xor(a, b)) == Xor(Step(a), Step(b))
    {
      StepLinear(a, b);
    }
    IterateRespects(Step, Xor, x, y, 8);
  }

  /** A register whose low byte is zero is only shifted by eight steps. */
  lemma HighBytesShift(c: bv32)
    requires c & 0xff == 0
    ensures Steps(c, 8) == c >> 8
  {
    assert c >> 0 == c;
  }

  /** The table index of the source: the low byte of the register and the data byte. */
  function Index(c: bv32, b: bv8): bv8 {
    ((c ^ (b as bv32)) & 0xff) as bv8
  }

  lemma EightStepsOf(low: bv32, high: bv32)
    requires high & 0xff == 0
    ensures Steps(Xor(low, high), 8) == Xor(Steps(low, 8), high >> 8)
  {
    StepsLinear(low, high);
    HighBytesShift(high);
  }

  lemma EightSteps(x: bv32)
    ensures Steps(x, 8) == Xor(Steps(x & 0xff, 8), x >> 8)
  {
    EightStepsOf(x & 0xff, x & 0xffff_ff00);
  }

  /** One table lookup does what eight single-bit steps do. */
  lemma LookupIsEightSteps(c: bv32, b: bv8)
    ensures Xor(Steps(Index(c, b) as bv32, 8), c >> 8) == PushByte(c, b)
  {
    EightSteps(c ^ (b as bv32));
  }

  /** `crc32(buf)`: the table-driven loop computes the bit-by-bit CRC of every byte string. */
  method Crc32(table: array<bv32>, bytes: seq<bv8>) returns (crc: bv32)
    requires IsCrcTable(table[..])
    ensures crc == Crc(bytes)
  {
    var c: bv32 := 0xffff_ffff;
    for i := 0 to |bytes|
      invariant c == Register(0xffff_ffff, bytes[..i])
    {
      LookupIsEightSteps(c, bytes[i]);
      assert bytes[..i + 1][..i] == bytes[..i];
      var index := Index(c, bytes[i]);
      assert Reduced(table[..], index);
      c := Xor(table[index as int], c >> 8);
    }
    assert bytes[..|bytes|] == bytes;
    crc := c ^ 0xffff_ffff;
  }

  // ---------------------------------------------------------------- the check value

  /** Eight steps written out, with the generator of section 8 of RFC 1952 in full. */
  function EightOut(c: bv32): bv32 {
    OneOut(OneOut(OneOut(OneOut(OneOut(OneOut(OneOut(OneOut(c))))))))
  }

  function OneOut(c: bv32): bv32 {
    if c & 1 == 0 then c >> 1 else (c >> 1) ^ 0xedb8_8320
  }

  lemma EightAgree<T(!new)>(f: T -> T, g: T -> T, x: T)
    requires forall y :: f(y) == g(y)
    ensures Iterate(f, x, 8) == g(g(g(g(g(g(g(g(x))))))))
  {
    assert Iterate(f, x, 2) == g(g(x));
    assert Iterate(f, x, 4) == g(g(Iterate(f, x, 2)));
    assert Iterate(f, x, 6) == g(g(Iterate(f, x, 4)));
  }

  lemma StepIsOut(c: bv32)
    ensures Step(c) == OneOut(c)
  {
  }

  lemma StepsAreOut(c: bv32)
    ensures Steps(c, 8) == EightOut(c)
  {
    forall y ensures Step(y) == OneOut(y) { StepIsOut(y); }
    EightAgree(Step, OneOut, c);
  }

  lemma RegisterStep(bytes: seq<bv8>, b: bv8, before: bv32, mixed: bv32, after: bv32)
    requires Register(0xffff_ffff, bytes) == before && mixed == before ^ (b as bv32) && EightOut(mixed) == after
    ensures Register(0xffff_ffff, bytes + [b]) == after
  {
    StepsAreOut(mixed);
    assert (bytes + [b])[..|bytes|] == bytes;
  }

  /** The nine bytes of the check value, one by one. */
  lemma NineSteps()
    ensures EightOut(0xffff_ffce) == 0x7c23_1048
    ensures EightOut(0x7c23_107a) == 0xb0ac_bb32
    ensures EightOut(0xb0ac_bb01) == 0x77b7_9c2d
    ensures EightOut(0x77b7_9c19) == 0x641c_1f5c
    ensures EightOut(0x641c_1f69) == 0x340a_c5e3
    ensures EightOut(0x340a_c5d5) == 0xf68d_2c9e
    ensures EightOut(0xf68d_2ca9) == 0xaffc_9660
    ensures EightOut(0xaffc_9658) == 0x651f_2550
    ensures EightOut(0x651f_2569) == 0x340b_c6d9
  {
  }

  lemma Mixed()
    ensures 0xffff_ffff ^ ((0x31 as bv8) as bv32) == 0xffff_ffce
    ensures 0x7c23_1048 ^ ((0x32 as bv8) as bv32) == 0x7c23_107a
    ensures 0xb0ac_bb32 ^ ((0x33 as bv8) as bv32) == 0xb0ac_bb01
    ensures 0x77b7_9c2d ^ ((0x34 as bv8) as bv32) == 0x77b7_9c19
    ensures 0x641c_1f5c ^ ((0x35 as bv8) as bv32) == 0x641c_1f69
    ensures 0x340a_c5e3 ^ ((0x36 as bv8) as bv32) == 0x340a_c5d5
    ensures 0xf68d_2c9e ^ ((0x37 as bv8) as bv32) == 0xf68d_2ca9
    ensures 0xaffc_9660 ^ ((0x38 as bv8) as bv32) == 0xaffc_9658
    ensures 0x651f_2550 ^ ((0x39 as bv8) as bv32) == 0x651f_2569
  {
  }

  lemma Digits1To3(front: seq<bv8>, d0: bv8, d1: bv8, d2: bv8)
    requires Register(0xffff_ffff, front) == 0xffff_ffff && d0 == 0x31 && d1 == 0x32 && d2 == 0x33
    ensures Register(0xffff_ffff, front + [d0] + [d1] + [d2]) == 0x77b7_9c2d
  {
    NineSteps();
    Mixed();
    RegisterStep(front, d0, 0xffff_ffff, 0xffff_ffce, 0x7c23_1048);
    RegisterStep(front + [d0], d1, 0x7c23_1048, 0x7c23_107a, 0xb0ac_bb32);
    RegisterStep(front + [d0] + [d1], d2, 0xb0ac_bb32, 0xb0ac_bb01, 0x77b7_9c2d);
  }

  lemma Digits4To6(front: seq<bv8>, d3: bv8, d4: bv8, d5: bv8)
    requires Register(0xffff_ffff, front) == 0x77b7_9c2d && d3 == 0x34 && d4 == 0x35 && d5 == 0x36
    ensures Register(0xffff_ffff, front + [d3] + [d4] + [d5]) == 0xf68d_2c9e
  {
    NineSteps();
    Mixed();
    RegisterStep(front, d3, 0x77b7_9c2d, 0x77b7_9c19, 0x641c_1f5c);
    RegisterStep(front + [d3], d4, 0x641c_1f5c, 0x641c_1f69, 0x340a_c5e3);
    RegisterStep(front + [d3] + [d4], d5, 0x340a_c5e3, 0x340a_c5d5, 0xf68d_2c9e);
  }

  lemma Digits7To9(front: seq<bv8>, d6: bv8, d7: bv8, d8: bv8)
    requires Register(0xffff_ffff, front) == 0xf68d_2c9e && d6 == 0x37 && d7 == 0x38 && d8 == 0x39
    ensures Register(0xffff_ffff, front + [d6] + [d7] + [d8]) == 0x340b_c6d9
  {
    NineSteps();
    Mixed();
    RegisterStep(front, d6, 0xf68d_2c9e, 0xf68d_2ca9, 0xaffc_9660);
    RegisterStep(front + [d6], d7, 0xaffc_9660, 0xaffc_9658, 0x651f_2550);
    RegisterStep(front + [d6] + [d7], d8, 0x651f_2550, 0x651f_2569, 0x340b_c6d9);
  }

  /** The standard check value: the CRC-32 of the nine digits "123456789" is CBF43926. */
  lemma CheckValue()
    ensures Crc([0x31, 0x32, 0x33] + [0x34, 0x35, 0x36] + [0x37, 0x38, 0x39]) == 0xcbf4_3926
  {
    var none: seq<bv8> := [];
    Digits1To3(none, 0x31, 0x32, 0x33);
    var three := none + [0x31] + [0x32] + [0x33];
    Digits4To6(three, 0x34, 0x35, 0x36);
    var six := three + [0x34] + [0x35] + [0x36];
    Digits7To9(six, 0x37, 0x38, 0x39);
    assert six + [0x37] + [0x38] + [0x39] == [0x31, 0x32, 0x33] + [0x34, 0x35, 0x36] + [0x37, 0x38, 0x39];
  }

  // ---------------------------------------------------------------- what the check can tell apart

  lemma {:induction false} IterateInjective<T(!new)>(f: T -> T, x: T, y: T, n: nat)
    requires forall a, b :: f(a) == f(b) ==> a == b
    ensures Iterate(f, x, n) == Iterate(f, y, n) ==> x == y
  {
    if n > 0 { IterateInjective(f, x, y, n - 1); }
  }

  /** The polynomial's top bit is set, so a step shows which bit it shifted out. */
  lemma StepInjective(x: bv32, y: bv32)
    ensures Step(x) == Step(y) ==> x == y
  {
  }

  lemma StepsInjective(x: bv32, y: bv32)
    ensures Steps(x, 8) == Steps(y, 8) ==> x == y
  {
    forall a, b ensures Step(a) == Step(b) ==> a == b { StepInjective(a, b); }
    IterateInjective(Step, x, y, 8);
  }

  /** Pushing a byte loses nothing: neither of the register nor of the byte. */
  lemma PushInjective(c: bv32, d: bv32, a: bv8, b: bv8)
    ensures PushByte(c, a) == PushByte(d, a) ==> c == d
    ensures PushByte(c, a) == PushByte(c, b) ==> a == b
  {
    StepsInjective(c ^ (a as bv32), d ^ (a as bv32));
    StepsInjective(c ^ (a as bv32), c ^ (b as bv32));
  }

  lemma {:induction false} FoldInjective<S(!new), B(!new)>(f: (S, B) -> S, c: S, d: S, xs: seq<B>)
    requires forall s, t, x :: f(s, x) == f(t, x) ==> s == t
    ensures Fold(f, c, xs) == Fold(f, d, xs) ==> c == d
  {
    if xs != [] { FoldInjective(f, c, d, xs[..|xs| - 1]); }
  }

  /** If a step loses neither state nor input, two inputs that differ in one element end differently. */
  lemma {:induction false} FoldOneChange<S(!new), B(!new)>(f: (S, B) -> S, c: S, xs: seq<B>, at: nat, b: B)
    requires forall s, t, x :: f(s, x) == f(t, x) ==> s == t
    requires forall s, x, y :: f(s, x) == f(s, y) ==> x == y
    requires at < |xs| && b != xs[at]
    ensures Fold(f, c, xs[at := b]) != Fold(f, c, xs)
  {
    var n := |xs| - 1;
    if at < n {
      assert xs[at := b][..n] == xs[..n][at := b];
      FoldOneChange(f, c, xs[..n], at, b);
    } else {
      assert xs[at := b][..n] == xs[..n];
    }
  }

  /** Changing any one byte of any byte string changes its CRC. */
  lemma OneByteChangesCrc(bytes: seq<bv8>, at: nat, b: bv8)
    requires at < |bytes| && b != bytes[at]
    ensures Crc(bytes[at := b]) != Crc(bytes)
  {
    forall c, d, a ensures PushByte(c, a) == PushByte(d, a) ==> c == d
    {
      PushInjective(c, d, a, a);
    }
    forall c, a, e ensures PushByte(c, a) == PushByte(c, e) ==> a == e
    {
      PushInjective(c, c, a, e);
    }
    FoldOneChange(PushByte, 0xffff_ffff, bytes, at, b);
  }
}
