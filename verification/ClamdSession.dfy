/**
 * The event machine of `scanBuffer` (src/lib/clamav.ts): one connection, whose events arrive in any
 * order, and a promise they race to settle.
 */
module ClamdSession {
  import opened Prelude
  import opened Pieces
  import opened ByteCodec
  import opened ClamdFraming
  import opened ClamdReply

  /** `Connected(ok)`: the connection opened, and `ok` tells whether every write went through. */
  datatype Event =
    | OpenThrew
    | Connected(ok: bool)
    | Data(text: string)
    | SocketError
    | Closed
    | DeadlinePassed

  /** How a received reply is judged; the program's judge is `Interpret`. */
  type Judge = string -> ScanOutcome

  datatype Session = Session(received: string, result: Option<ScanOutcome>)
  {
    /** `finish`: the first outcome stays. */
    function Finish(outcome: ScanOutcome): Session {
      if result.Some? then this else this.(result := Some(outcome))
    }

    function Step(judge: Judge, e: Event): Session {
      match e
      case OpenThrew | SocketError => Finish(Failed(Unreachable))
      case DeadlinePassed => Finish(Failed(Timeout))
      case Connected(ok) => if ok then this else Finish(Failed(Unreachable))
      case Data(text) =>
        var next := this.(received := received + text);
        if NUL in next.received then next.Finish(judge(next.received)) else next
      case Closed =>
        if received != "" then Finish(judge(received)) else Finish(Failed(Unreachable))
    }
  }

  /** The session after a run of events. */
  function Run(judge: Judge, events: seq<Event>): Session {
    if events == [] then Session("", None)
    else Run(judge, events[..|events| - 1]).Step(judge, events[|events| - 1])
  }

  // ---------------------------------------------------------------- the promise, in place

  class ScanSession {
    const bytes: Bytes
    const judge: Judge
    var settled: bool
    var received: string
    /** Every call of the promise's `resolve`. */
    var resolutions: seq<ScanOutcome>
    var destroyed: bool
    /** Everything handed to `socket.write`. */
    var written: seq<Bytes>

    ghost predicate Valid() reads this {
      |resolutions| <= 1 && (settled <==> |resolutions| == 1) && destroyed == settled
    }

    ghost function State(): Session
      requires Valid()
      reads this
    {
      Session(received, if settled then Some(resolutions[0]) else None)
    }

    constructor (bytes: Bytes)
      ensures Valid() && this.bytes == bytes && judge == Interpret && State() == Run(judge, []) && written == []
    {
      this.bytes := bytes;
      judge := Interpret;
      settled, received, resolutions, destroyed, written := false, "", [], false, [];
    }

    method Finish(outcome: ScanOutcome)
      requires Valid()
      modifies this`settled, this`resolutions, this`destroyed
      ensures Valid() && State() == old(State()).Finish(outcome)
      ensures old(settled) ==> resolutions == old(resolutions)
    {
      if settled { return; }
      settled := true;
      destroyed := true;
      resolutions := resolutions + [outcome];
    }

    /** The socket takes `accepts` writes and throws at the next one, if there is a next one. */
    method OnConnect(accepts: nat) returns (ok: bool)
      requires Valid() && written == []
      modifies this
      ensures Valid() && State() == old(State()).Step(judge, Connected(ok))
      ensures if ok then Flatten(written) == Wire(bytes) else CutShort(written, bytes) && |written| == accepts
    {
      written, ok := WriteStream(bytes, accepts);
      if !ok { Finish(Failed(Unreachable)); }
    }

    method OnData(text: string)
      requires Valid()
      modifies this
      ensures Valid() && State() == old(State()).Step(judge, Data(text)) && written == old(written)
    {
      received := received + text;
      if NUL in received { Finish(judge(received)); }
    }

    method OnError()
      requires Valid()
      modifies this
      ensures Valid() && State() == old(State()).Step(judge, SocketError) && written == old(written)
    {
      Finish(Failed(Unreachable));
    }

    method OnDeadline()
      requires Valid()
      modifies this
      ensures Valid() && State() == old(State()).Step(judge, DeadlinePassed) && written == old(written)
    {
      Finish(Failed(Timeout));
    }

    method OnClose()
      requires Valid()
      modifies this
      ensures Valid() && State() == old(State()).Step(judge, Closed) && written == old(written)
    {
      if settled { return; }
      if |received| > 0 { Finish(judge(received)); return; }
      Finish(Failed(Unreachable));
    }
  }

  // ---------------------------------------------------------------- the first decision wins

  /** All that was received in a run, settled or not. */
  function Received(events: seq<Event>): string {
    if events == [] then ""
    else
      var last := events[|events| - 1];
      Received(events[..|events| - 1]) + if last.Data? then last.text else ""
  }

  /** The k-th event is one the promise can settle on: a failure, the close, or a complete reply. */
  predicate Decides(events: seq<Event>, k: nat)
    requires k < |events|
  {
    match events[k]
    case Connected(ok) => !ok
    case Data(_) => NUL in Received(events[..k + 1])
    case _ => true
  }

  function Verdict(judge: Judge, events: seq<Event>, k: nat): ScanOutcome
    requires k < |events|
  {
    match events[k]
    case DeadlinePassed => Failed(Timeout)
    case OpenThrew | SocketError | Connected(_) => Failed(Unreachable)
    case Data(_) | Closed =>
      if Received(events[..k + 1]) == "" then Failed(Unreachable) else judge(Received(events[..k + 1]))
  }

  /** Only the first decision counts; what is received keeps growing whether or not it still matters. */
  ghost predicate SettledBy(judge: Judge, events: seq<Event>, result: Option<ScanOutcome>) {
    match result
    case None => forall k: nat | k < |events| :: !Decides(events, k)
    case Some(outcome) =>
      exists k: nat | k < |events| ::
        && Decides(events, k) && outcome == Verdict(judge, events, k)
        && forall j: nat | j < k :: !Decides(events, j)
  }

  lemma PrefixDecides(judge: Judge, events: seq<Event>, n: nat, k: nat)
    requires k < n <= |events|
    ensures Decides(events[..n], k) == Decides(events, k) && Verdict(judge, events[..n], k) == Verdict(judge, events, k)
  {
    assert events[..n][..k + 1] == events[..k + 1];
  }

  /**
   * For every order of events the promise settles on the first deciding one, with that event's
   * verdict, and on nothing before it.
   */
  lemma {:induction false} SettlesOnFirstDecision(judge: Judge, events: seq<Event>)
    ensures Run(judge, events).received == Received(events)
    ensures SettledBy(judge, events, Run(judge, events).result)
    decreases |events|
  {
    if events != [] {
      var n := |events| - 1;
      var before := Run(judge, events[..n]);
      SettlesOnFirstDecision(judge, events[..n]);
      assert events[..n + 1] == events;
      forall k: nat | k < n
        ensures Decides(events[..n], k) == Decides(events, k)
        ensures Verdict(judge, events[..n], k) == Verdict(judge, events, k)
      {
        PrefixDecides(judge, events, n, k);
      }
      if before.result.None? && Decides(events, n) {
        assert SettledAt(events, n);
      }
    }
  }

  ghost predicate SettledAt(events: seq<Event>, k: nat)
    requires k < |events|
  {
    Decides(events, k) && forall j: nat | j < k :: !Decides(events, j)
  }

  /** A settled promise never changes, whatever happens afterwards. */
  lemma {:induction false} NeverChanges(judge: Judge, events: seq<Event>, more: seq<Event>)
    requires Run(judge, events).result.Some?
    ensures Run(judge, events + more).result == Run(judge, events).result
    decreases |more|
  {
    if more == [] {
      assert events + more == events;
    } else {
      NeverChanges(judge, events, more[..|more| - 1]);
      assert (events + more)[..|events + more| - 1] == events + more[..|more| - 1];
    }
  }

  /** It does settle: the deadline, the close and an error each end every run they occur in. */
  lemma SettlesAtTheLatest(judge: Judge, events: seq<Event>, k: nat)
    requires k < |events|
    requires events[k].DeadlinePassed? || events[k].Closed? || events[k].SocketError? || events[k].OpenThrew?
    ensures Run(judge, events).result.Some?
  {
    SettlesOnFirstDecision(judge, events);
    assert Decides(events, k);
  }

  lemma SettledAtGives(judge: Judge, events: seq<Event>, k: nat)
    requires k < |events| && SettledAt(events, k)
    ensures Run(judge, events).result == Some(Verdict(judge, events, k))
  {
    SettlesOnFirstDecision(judge, events);
  }

  lemma FirstDecision(judge: Judge, events: seq<Event>) returns (k: nat)
    requires Run(judge, events).result.Some?
    ensures k < |events| && SettledAt(events, k)
  {
    SettlesOnFirstDecision(judge, events);
    k :| k < |events| && Decides(events, k) && forall j: nat | j < k :: !Decides(events, j);
  }

  /** A reply, complete or ended by a close, of which the last word so far is OK. */
  predicate RepliesOk(events: seq<Event>, k: nat)
    requires k < |events|
  {
    (events[k].Data? || events[k].Closed?) && LastWord(Line(Received(events[..k + 1]))) == "OK"
  }

  lemma CleanVerdictIff(events: seq<Event>, k: nat)
    requires k < |events|
    ensures Verdict(Interpret, events, k) == Clean <==> RepliesOk(events, k)
  {
    VerdictIsLastWord(Received(events[..k + 1]));
  }

  /** `clean` is reported exactly when the event that settles the scan is such a reply. */
  lemma CleanIffOk(events: seq<Event>)
    ensures Run(Interpret, events).result == Some(Clean)
            <==> exists k: nat | k < |events| :: SettledAt(events, k) && RepliesOk(events, k)
  {
    if Run(Interpret, events).result.Some? {
      var k := FirstDecision(Interpret, events);
      SettledAtGives(Interpret, events, k);
      CleanVerdictIff(events, k);
    }
    forall k: nat | k < |events| && SettledAt(events, k) && RepliesOk(events, k)
      ensures Run(Interpret, events).result == Some(Clean)
    {
      SettledAtGives(Interpret, events, k);
      CleanVerdictIff(events, k);
    }
  }

  // ---------------------------------------------------------------- fragmentation

  function DataEvents(chunks: seq<string>): (r: seq<Event>)
    ensures |r| == |chunks|
  {
    Each(chunk => Data(chunk), chunks)
  }

  function Nuls(n: nat): (s: string)
    ensures |s| == n && forall c <- s :: c == NUL
  {
    seq(n, _ => NUL)
  }

  lemma {:induction false} StripNulsOf(body: string, n: nat)
    requires NUL !in body
    ensures StripNuls(body + Nuls(n)) == body
  {
    if n > 0 {
      assert (body + Nuls(n))[..|body| + n - 1] == body + Nuls(n - 1);
      StripNulsOf(body, n - 1);
    } else {
      assert body + Nuls(0) == body;
    }
  }

  /** What has arrived of the reply once a NUL has is the line and some of the NULs. */
  lemma PartialReply(body: string, n: nat, received: string)
    requires NUL !in body && received <= body + Nuls(n) && NUL in received
    ensures |received| >= |body| && received == body + Nuls(|received| - |body|)
  {
    var i :| 0 <= i < |received| && received[i] == NUL;
    assert received[i] == (body + Nuls(n))[i];
    assert i >= |body|;
  }

  lemma {:induction false} FlattenPrefix(chunks: seq<string>, k: nat)
    requires k <= |chunks|
    ensures Flatten(chunks[..k]) <= Flatten(chunks)
    decreases |chunks| - k
  {
    if k < |chunks| {
      FlattenPrefix(chunks, k + 1);
      FlattenGrows(chunks, k);
    } else {
      assert chunks[..k] == chunks;
    }
  }

  lemma RunAppend(judge: Judge, events: seq<Event>, e: Event)
    ensures Run(judge, events + [e]) == Run(judge, events).Step(judge, e)
  {
    assert (events + [e])[..|events|] == events;
  }

  lemma EventsGrow(chunks: seq<string>, k: nat)
    requires k < |chunks|
    ensures DataEvents(chunks)[..k + 1] == DataEvents(chunks)[..k] + [Data(chunks[k])]
  {
  }

  lemma OneMoreChunk(judge: Judge, chunks: seq<string>, k: nat)
    requires k < |chunks|
    ensures Run(judge, DataEvents(chunks)[..k + 1]) == Run(judge, DataEvents(chunks)[..k]).Step(judge, Data(chunks[k]))
  {
    EventsGrow(chunks, k);
    RunAppend(judge, DataEvents(chunks)[..k], Data(chunks[k]));
  }

  /** Whatever part of the reply has arrived when a NUL has, it is judged like the whole reply. */
  predicate JudgedAlike(judge: Judge, reply: string) {
    forall n: nat | n <= |reply| && NUL in reply[..n] :: judge(reply[..n]) == judge(reply)
  }

  /** After `k` chunks the session has what they held, and the verdict if a NUL was among it. */
  lemma {:induction false} ChunkByChunk(judge: Judge, chunks: seq<string>, k: nat)
    requires k <= |chunks| && JudgedAlike(judge, Flatten(chunks))
    ensures var got := Flatten(chunks[..k]);
            Run(judge, DataEvents(chunks)[..k])
            == Session(got, if NUL in got then Some(judge(Flatten(chunks))) else None)
  {
    if k > 0 {
      ChunkByChunk(judge, chunks, k - 1);
      OneMoreChunk(judge, chunks, k - 1);
      FlattenGrows(chunks, k - 1);
      FlattenPrefix(chunks, k);
      var got := Flatten(chunks[..k]);
      assert got == Flatten(chunks)[..|got|];
    }
  }

  lemma {:induction false} NoNulNoVerdict(judge: Judge, chunks: seq<string>, k: nat)
    requires k <= |chunks| && NUL !in Flatten(chunks)
    ensures Run(judge, DataEvents(chunks)[..k]) == Session(Flatten(chunks[..k]), None)
  {
    if k > 0 {
      NoNulNoVerdict(judge, chunks, k - 1);
      OneMoreChunk(judge, chunks, k - 1);
      FlattenGrows(chunks, k - 1);
      FlattenPrefix(chunks, k);
    }
  }

  /** Without a NUL the line is judged when the daemon closes, again however it was cut up. */
  lemma JudgedAtClose(judge: Judge, chunks: seq<string>)
    requires NUL !in Flatten(chunks) && Flatten(chunks) != ""
    ensures Run(judge, DataEvents(chunks)).result == None
    ensures Run(judge, DataEvents(chunks) + [Closed]).result == Some(judge(Flatten(chunks)))
  {
    NoNulNoVerdict(judge, chunks, |chunks|);
    assert chunks[..|chunks|] == chunks && DataEvents(chunks)[..|chunks|] == DataEvents(chunks);
    RunAppend(judge, DataEvents(chunks), Closed);
  }

  lemma OneChunk(judge: Judge, text: string)
    ensures Run(judge, DataEvents([text])).result == if NUL in text then Some(judge(text)) else None
  {
    assert DataEvents([text]) == [] + [Data(text)];
    RunAppend(judge, [], Data(text));
    assert "" + text == text;
  }

  lemma TwoChunks(judge: Judge, first: string, second: string)
    requires NUL in first
    ensures Run(judge, DataEvents([first, second])).result == Some(judge(first))
  {
    OneChunk(judge, first);
    NeverChanges(judge, DataEvents([first]), [Data(second)]);
    assert DataEvents([first, second]) == DataEvents([first]) + [Data(second)];
  }

  /**
   * A NUL-terminated reply gets the verdict on the whole of it however the network cuts it up,
   * if and only if every beginning of it that holds a NUL is judged like the whole.
   */
  lemma SameForEveryCutIff(judge: Judge, reply: string)
    requires NUL in reply
    ensures (forall chunks | Flatten(chunks) == reply :: Run(judge, DataEvents(chunks)).result == Some(judge(reply)))
            <==> JudgedAlike(judge, reply)
  {
    if JudgedAlike(judge, reply) {
      forall chunks | Flatten(chunks) == reply ensures Run(judge, DataEvents(chunks)).result == Some(judge(reply)) {
        ChunkByChunk(judge, chunks, |chunks|);
        assert chunks[..|chunks|] == chunks && DataEvents(chunks)[..|chunks|] == DataEvents(chunks);
      }
    } else {
      var n: nat :| n <= |reply| && NUL in reply[..n] && judge(reply[..n]) != judge(reply);
      TwoChunks(judge, reply[..n], reply[n..]);
      FlattenTwo(reply[..n], reply[n..]);
      assert reply[..n] + reply[n..] == reply;
      assert Flatten([reply[..n], reply[n..]]) == reply;
    }
  }

  lemma FlattenTwo(first: string, second: string)
    ensures Flatten([first, second]) == first + second
  {
    FlattenAppend([], first);
    FlattenAppend([first], second);
    assert [first] == [] + [first] && [first, second] == [first] + [second];
  }

  /**
   * A reply of one line, NUL-terminated, gets the same verdict however the network cuts it up: the
   * verdict on the line itself.
   */
  lemma FragmentationDoesNotMatter(chunks: seq<string>, body: string, n: nat)
    requires NUL !in body && n > 0 && Flatten(chunks) == body + Nuls(n)
    ensures Run(Interpret, DataEvents(chunks)).result == Some(Interpret(body))
  {
    var reply := body + Nuls(n);
    assert reply[|body|] == NUL;
    forall m: nat ensures Interpret(body + Nuls(m)) == Interpret(body) {
      StripNulsOf(body, m);
      StripNulsOf(body, 0);
      assert body + Nuls(0) == body;
    }
    forall k: nat | k <= |reply| && NUL in reply[..k] ensures Interpret(reply[..k]) == Interpret(reply) {
      PartialReply(body, n, reply[..k]);
    }
    SameForEveryCutIff(Interpret, reply);
  }

  lemma EndingInX()
    ensures Interpret("stream: OK" + [NUL] + "x") == Failed(Protocol)
  {
    var whole := "stream: OK" + [NUL] + "x";
    assert whole[|whole| - 1] == 'x' && whole[0] == 's';
    assert Line(whole) == whole;
  }

  lemma EndingInOk()
    ensures Interpret("stream: OK" + [NUL]) == Clean
  {
    var first := "stream: OK" + [NUL];
    assert first[..|first| - 1] == "stream: OK" && first[10] == NUL;
    assert StripNuls("stream: OK") == "stream: OK";
    assert Line(first) == "stream: OK";
    assert "stream: OK"[8..] == "OK";
  }

  /** Text behind the NUL can make the verdict depend on where the reply is cut. */
  lemma TextBehindTheNulCanMatter()
    ensures var first := "stream: OK" + [NUL];
            && Run(Interpret, DataEvents([first + "x"])).result == Some(Failed(Protocol))
            && Run(Interpret, DataEvents([first, "x"])).result == Some(Clean)
  {
    var first := "stream: OK" + [NUL];
    assert first[10] == NUL;
    OneChunk(Interpret, first + "x");
    TwoChunks(Interpret, first, "x");
    EndingInX();
    EndingInOk();
  }

  lemma OneLetterIsNoVerdict()
    ensures Interpret("x" + [NUL]) == Failed(Protocol)
    ensures Interpret("x" + [NUL] + "x") == Failed(Protocol)
  {
    var short, long := "x" + [NUL], "x" + [NUL] + "x";
    assert short[..1] == "x" && short[1] == NUL;
    assert StripNuls("x") == "x";
    assert Line(short) == "x";
    assert long[2] == 'x' && long[0] == 'x';
    assert Line(long) == long;
  }

  lemma LastLetterAlike(judge: Judge, line: string, last: char)
    requires NUL !in line && judge(line + [NUL]) == judge(line + [NUL] + [last])
    ensures JudgedAlike(judge, line + [NUL] + [last])
  {
    var reply := line + [NUL] + [last];
    forall n: nat | n <= |reply| && NUL in reply[..n] ensures judge(reply[..n]) == judge(reply) {
      assert n > |line|;
      assert reply[..|line| + 1] == line + [NUL] && reply[..|reply|] == reply;
    }
  }

  /** It need not: a reply that is an error with and without that text is one however it is cut. */
  lemma TextBehindTheNulNeedNotMatter()
    ensures JudgedAlike(Interpret, "x" + [NUL] + "x")
  {
    OneLetterIsNoVerdict();
    LastLetterAlike(Interpret, "x", 'x');
  }
}
