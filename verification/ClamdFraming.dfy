/**
 * The `INSTREAM` framing of src/lib/clamav.ts: what the client writes, and what a daemon that
 * follows the protocol takes out of it.
 */
module ClamdFraming {
  import opened Prelude
  import opened Pieces
  import opened ByteCodec

  const CHUNK_BYTES: int := 64 * 1024

  /** `zINSTREAM` and a NUL. */
  const COMMAND: Bytes := [122, 73, 78, 83, 84, 82, 69, 65, 77, 0]

  function ChunkLength(bytes: Bytes): (n: nat)
    ensures n <= |bytes| && n <= CHUNK_BYTES && (bytes != [] ==> n >= 1)
  {
    if |bytes| < CHUNK_BYTES then |bytes| else CHUNK_BYTES
  }

  function LengthPrefix(size: nat): (r: Bytes)
    requires size <= CHUNK_BYTES
    ensures |r| == 4
  {
    U32BE(size)
  }

  /** The chunks of a buffer, each behind its length, and the empty chunk that ends them. */
  function Frames(bytes: Bytes): Bytes {
    if bytes == [] then LengthPrefix(0)
    else
      var n := ChunkLength(bytes);
      LengthPrefix(n) + bytes[..n] + Frames(bytes[n..])
  }

  function Wire(bytes: Bytes): Bytes { COMMAND + Frames(bytes) }

  function Remaining(bytes: Bytes, offset: nat): Bytes {
    if offset < |bytes| then bytes[offset..] else []
  }

  /**
   * The writes of the connect handler, one element a `socket.write`. The socket takes `accepts` of
   * them and throws at the next, if there is a next.
   */
  method WriteStream(bytes: Bytes, accepts: nat) returns (written: seq<Bytes>, ok: bool)
    ensures ok ==> Flatten(written) == Wire(bytes)
    ensures !ok ==> CutShort(written, bytes)
    ensures forall w <- written :: 1 <= |w| <= 65536
    ensures ok ==> |written| <= accepts
    ensures !ok ==> |written| == accepts
  {
    written := [];
    if accepts == 0 { return written, false; }
    FlattenAppend(written, COMMAND);
    written := [COMMAND];
    assert Flatten(written) == COMMAND;
    var offset := 0;
    while offset < |bytes|
      invariant 0 <= offset
      invariant Flatten(written) + Frames(Remaining(bytes, offset)) == Wire(bytes)
      invariant |written| <= accepts && forall w <- written :: 1 <= |w| <= CHUNK_BYTES
    {
      var end := if offset + CHUNK_BYTES < |bytes| then offset + CHUNK_BYTES else |bytes|;
      var chunk := bytes[offset..end];
      Turn(written, chunk, bytes, offset);
      if |written| == accepts { return written, false; }
      written := written + [LengthPrefix(|chunk|)];
      if |written| == accepts { return written, false; }
      written := written + [chunk];
      offset := offset + CHUNK_BYTES;
    }
    if |written| == accepts { return written, false; }
    FlattenAppend(written, LengthPrefix(0));
    written, ok := written + [LengthPrefix(0)], true;
  }

  ghost predicate CutShort(written: seq<Bytes>, bytes: Bytes) {
    Flatten(written) <= Wire(bytes) && |Flatten(written)| < |Wire(bytes)|
  }

  lemma Appended(written: seq<Bytes>, piece: Bytes, tail: Bytes, wire: Bytes)
    requires Flatten(written) + (piece + tail) == wire
    ensures Flatten(written + [piece]) + tail == wire
  {
    FlattenAppend(written, piece);
  }

  /** One turn of the loop: a chunk of 1 to 65536 bytes goes out behind its length. */
  lemma Turn(written: seq<Bytes>, chunk: Bytes, bytes: Bytes, offset: nat)
    requires offset < |bytes| && Flatten(written) + Frames(bytes[offset..]) == Wire(bytes)
    requires chunk == bytes[offset..if offset + CHUNK_BYTES < |bytes| then offset + CHUNK_BYTES else |bytes|]
    ensures 1 <= |chunk| <= CHUNK_BYTES
    ensures CutShort(written, bytes) && CutShort(written + [LengthPrefix(|chunk|)], bytes)
    ensures Flatten(written + [LengthPrefix(|chunk|)] + [chunk]) + Frames(Remaining(bytes, offset + CHUNK_BYTES))
            == Wire(bytes)
  {
    var rest, tail := bytes[offset..], Frames(Remaining(bytes, offset + CHUNK_BYTES));
    assert |chunk| == ChunkLength(rest) && chunk == rest[..|chunk|];
    assert rest[|chunk|..] == Remaining(bytes, offset + CHUNK_BYTES);
    assert Frames(rest) == LengthPrefix(|chunk|) + (chunk + tail);
    Appended(written, LengthPrefix(|chunk|), chunk + tail, Wire(bytes));
    Appended(written + [LengthPrefix(|chunk|)], chunk, tail, Wire(bytes));
  }

  // ---------------------------------------------------------------- the daemon's side

  /** Length-prefixed chunks up to the empty one, which must be the last thing on the wire. */
  function ReadFrames(s: Bytes): Option<Bytes> {
    if |s| < 4 then None
    else
      var n := ReadU32BE(s, 0);
      if n == 0 then (if |s| == 4 then Some([]) else None)
      else if |s| < 4 + n then None
      else match ReadFrames(s[4 + n..])
        case None => None
        case Some(rest) => Some(s[4..4 + n] + rest)
  }

  /** The command is the text `zINSTREAM`, ended by a NUL. */
  predicate IsCommand(wire: Bytes) {
    |wire| >= 10 && wire[9] == 0 && forall i | 0 <= i < 9 :: wire[i] == "zINSTREAM"[i] as int
  }

  function ReadStream(wire: Bytes): Option<Bytes> {
    if IsCommand(wire) then ReadFrames(wire[10..]) else None
  }

  lemma ReadFramesStep(n: nat, chunk: Bytes, rest: Bytes)
    requires 1 <= n <= CHUNK_BYTES && |chunk| == n
    ensures ReadFrames(LengthPrefix(n) + chunk + rest)
            == if ReadFrames(rest).Some? then Some(chunk + ReadFrames(rest).value) else None
  {
    var s := LengthPrefix(n) + chunk + rest;
    assert s == LengthPrefix(n) + (chunk + rest);
    assert s[4 + n..] == rest && s[4..4 + n] == chunk;
  }

  lemma {:induction false} FramesRead(bytes: Bytes)
    ensures ReadFrames(Frames(bytes)) == Some(bytes)
    decreases |bytes|
  {
    if bytes == [] {
      assert LengthPrefix(0) + [] == LengthPrefix(0);
    } else {
      var n := ChunkLength(bytes);
      FramesRead(bytes[n..]);
      ReadFramesStep(n, bytes[..n], Frames(bytes[n..]));
      assert bytes[..n] + bytes[n..] == bytes;
    }
  }

  /** What is written reads back as the buffer, whatever bytes it holds. */
  lemma FramingRoundTrip(bytes: Bytes)
    ensures ReadStream(Wire(bytes)) == Some(bytes)
  {
    FramesRead(bytes);
    assert Wire(bytes)[|COMMAND|..] == Frames(bytes);
  }

  lemma TruncatedStep(n: nat, chunk: Bytes, rest: Bytes, cut: nat)
    requires 1 <= n <= CHUNK_BYTES && |chunk| == n && cut < 4 + n + |rest|
    requires forall k: nat | k < |rest| :: ReadFrames(rest[..k]) == None
    ensures ReadFrames((LengthPrefix(n) + chunk + rest)[..cut]) == None
  {
    var whole := LengthPrefix(n) + chunk + rest;
    if cut >= 4 + n {
      assert whole[..cut] == LengthPrefix(n) + chunk + rest[..cut - 4 - n];
      ReadFramesStep(n, chunk, rest[..cut - 4 - n]);
    } else if cut >= 4 {
      assert whole[..cut] == LengthPrefix(n) + chunk[..cut - 4];
    }
  }

  /** A stream cut short anywhere never looks complete: the zero length stands only at the end. */
  lemma {:induction false} TruncatedFrames(bytes: Bytes, cut: nat)
    requires cut < |Frames(bytes)|
    ensures ReadFrames(Frames(bytes)[..cut]) == None
    decreases |bytes|
  {
    if bytes != [] {
      var n := ChunkLength(bytes);
      forall k: nat | k < |Frames(bytes[n..])| ensures ReadFrames(Frames(bytes[n..])[..k]) == None {
        TruncatedFrames(bytes[n..], k);
      }
      TruncatedStep(n, bytes[..n], Frames(bytes[n..]), cut);
    }
  }

  /** So the daemon takes a buffer from what the handler wrote exactly when no write threw. */
  lemma TruncatedNeverReads(bytes: Bytes, cut: nat)
    requires cut <= |Wire(bytes)|
    ensures ReadStream(Wire(bytes)[..cut]) == if cut == |Wire(bytes)| then Some(bytes) else None
  {
    if cut == |Wire(bytes)| {
      FramingRoundTrip(bytes);
      assert Wire(bytes)[..cut] == Wire(bytes);
    } else if COMMAND <= Wire(bytes)[..cut] {
      assert Wire(bytes)[..cut][|COMMAND|..] == Frames(bytes)[..cut - |COMMAND|];
      TruncatedFrames(bytes, cut - |COMMAND|);
    }
  }
}
