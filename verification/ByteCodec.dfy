/** Fixed-width integers in a byte buffer, as Node's `writeUInt*` and `DataView.setUint32` lay them out. */
module ByteCodec {
  import opened Pieces

  type Byte = n: int | 0 <= n < 256
  type Bytes = seq<Byte>

  const U16_LIMIT: int := 0x1_0000
  const U32_LIMIT: int := 0x1_0000_0000

  function U16LE(n: int): (r: Bytes)
    requires 0 <= n < U16_LIMIT
    ensures |r| == 2
  {
    [n % 256, n / 256]
  }

  function U16BE(n: int): (r: Bytes)
    requires 0 <= n < U16_LIMIT
    ensures |r| == 2
  {
    [n / 256, n % 256]
  }

  function U32LE(n: int): (r: Bytes)
    requires 0 <= n < U32_LIMIT
    ensures |r| == 4
  {
    U16LE(n % U16_LIMIT) + U16LE(n / U16_LIMIT)
  }

  function U32BE(n: int): (r: Bytes)
    requires 0 <= n < U32_LIMIT
    ensures |r| == 4
  {
    U16BE(n / U16_LIMIT) + U16BE(n % U16_LIMIT)
  }

  function ReadU16LE(s: Bytes, at: nat): (n: int)
    requires at + 2 <= |s|
    ensures 0 <= n < U16_LIMIT
  {
    s[at] as int + 256 * s[at + 1] as int
  }

  function ReadU32LE(s: Bytes, at: nat): (n: int)
    requires at + 4 <= |s|
    ensures 0 <= n < U32_LIMIT
  {
    ReadU16LE(s, at) + U16_LIMIT * ReadU16LE(s, at + 2)
  }

  function ReadU32BE(s: Bytes, at: nat): (n: int)
    requires at + 4 <= |s|
    ensures 0 <= n < U32_LIMIT
  {
    U16_LIMIT * (256 * s[at] as int + s[at + 1] as int) + (256 * s[at + 2] as int + s[at + 3] as int)
  }

  /** Big-endian means the most significant byte first. */
  lemma U32BESpelled()
    ensures U32BE(0x0102_0304) == [1, 2, 3, 4]
  {
  }

  lemma U32BEReads(s: Bytes, at: nat, n: int)
    requires 0 <= n < U32_LIMIT && HasAt(s, U32BE(n), at)
    ensures ReadU32BE(s, at) == n
  {
    var high, low := U16BE(n / U16_LIMIT), U16BE(n % U16_LIMIT);
    assert s[at..at + 4][..2] == high && s[at..at + 4][2..] == low;
    assert s[at] == high[0] && s[at + 1] == high[1] && s[at + 2] == low[0] && s[at + 3] == low[1];
  }

  // ---------------------------------------------------------------- fixed-layout records

  /** One little-endian field of a record: its place, its width in bytes and its value. */
  datatype Field = Field16(at: nat, value: int) | Field32(at: nat, value: int)
  {
    function Width(): nat { if Field16? then 2 else 4 }

    predicate Fits(size: nat) {
      at + Width() <= size && 0 <= value < if Field16? then U16_LIMIT else U32_LIMIT
    }

    function Encoded(): (r: Bytes)
      requires Fits(at + Width())
      ensures |r| == Width()
    {
      if Field16? then U16LE(value) else U32LE(value)
    }
  }

  predicate Apart(a: Field, at: nat, width: nat) {
    a.at + a.Width() <= at || at + width <= a.at
  }

  /** A buffer with `piece` written over it at `at`. */
  function Put(s: Bytes, piece: Bytes, at: nat): (r: Bytes)
    requires at + |piece| <= |s|
    ensures |r| == |s|
  {
    s[..at] + piece + s[at + |piece|..]
  }

  /** `Buffer.alloc(n)`. */
  function Zeros(n: nat): (r: Bytes)
    ensures |r| == n && forall k | 0 <= k < n :: r[k] == 0
  {
    seq(n, _ => 0)
  }

  /** A zeroed buffer after the fields have been written to it one after the other. */
  function Layout(size: nat, fields: seq<Field>): (r: Bytes)
    ensures |r| == size
  {
    if fields == [] then Zeros(size)
    else
      var last := fields[|fields| - 1];
      var before := Layout(size, fields[..|fields| - 1]);
      if last.Fits(size) then Put(before, last.Encoded(), last.at) else before
  }

  lemma LayoutAppend(size: nat, fields: seq<Field>, f: Field)
    requires f.Fits(size)
    ensures Layout(size, fields + [f]) == Put(Layout(size, fields), f.Encoded(), f.at)
  {
    assert (fields + [f])[..|fields|] == fields;
  }

  function ReadField(s: Bytes, f: Field): int
    requires f.at + f.Width() <= |s|
  {
    if f.Field16? then ReadU16LE(s, f.at) else ReadU32LE(s, f.at)
  }

  /** A field no later field overlaps reads back as the value written. */
  lemma {:induction false} FieldReads(size: nat, fields: seq<Field>, i: nat)
    requires i < |fields| && fields[i].Fits(size)
    requires forall j | i < j < |fields| :: Apart(fields[j], fields[i].at, fields[i].Width())
    ensures ReadField(Layout(size, fields), fields[i]) == fields[i].value
  {
    var n := |fields| - 1;
    if i == n {
    } else {
      FieldReads(size, fields[..n], i);
    }
  }

  /** A place no field overlaps reads as zero. */
  lemma {:induction false} GapReadsZero(size: nat, fields: seq<Field>, gap: Field)
    requires gap.at + gap.Width() <= size
    requires forall i | 0 <= i < |fields| :: Apart(fields[i], gap.at, gap.Width())
    ensures ReadField(Layout(size, fields), gap) == 0
  {
    if fields != [] {
      var n := |fields| - 1;
      GapReadsZero(size, fields[..n], gap);
    }
  }
}
