/**
 * The fixed-window limiter of src/lib/rate-limit.ts: one atomic `INCR`, `EXPIRE ... NX`, `TTL` per
 * check, answered in time or failed open.
 *
 * Times are Redis's own, in milliseconds. A key lives through the millisecond of its expiry.
 */
module RateLimit {
  import opened Prelude

  datatype Config = Config(limit: nat, windowSeconds: nat)
  {
    function Window(): nat { 1000 * windowSeconds }
  }

  /** A stored counter; without an expiry it would live for ever. */
  datatype Counter = Counter(count: nat, expireAt: Option<int>)

  /**
   * What becomes of one check. `Answered`: the reply arrives within the timeout, with this `TTL`.
   * `Failed`: anything else - an error, no client, a reply too late or of the wrong shape; `landed`
   * tells whether Redis executed the commands all the same.
   */
  datatype Fate = Answered(ttl: int) | Failed(landed: bool)

  datatype Outcome = Outcome(allowed: bool, retryAfterSeconds: Option<int>)

  datatype Hit = Hit(time: int, fate: Fate)

  predicate Landed(h: Hit) { h.fate.Answered? || h.fate.landed }

  predicate Live(c: Option<Counter>, now: int) {
    c.Some? && (c.value.expireAt.None? || now <= c.value.expireAt.value)
  }

  /** The counter after the three commands. */
  function Bumped(cfg: Config, c: Option<Counter>, now: int): Counter {
    var base := if Live(c, now) then c.value else Counter(0, None);
    Counter(base.count + 1, if base.expireAt.None? then Some(now + cfg.Window()) else base.expireAt)
  }

  function Step(cfg: Config, c: Option<Counter>, h: Hit): Option<Counter> {
    if Landed(h) then Some(Bumped(cfg, c, h.time)) else c
  }

  /** An allow that the limiter decided, as opposed to one that failed open. */
  predicate EnforcedAllow(cfg: Config, c: Option<Counter>, h: Hit) {
    h.fate.Answered? && Bumped(cfg, c, h.time).count <= cfg.limit
  }

  /** What the caller is told. */
  function Decide(cfg: Config, c: Option<Counter>, h: Hit): Outcome {
    if h.fate.Answered? && Bumped(cfg, c, h.time).count > cfg.limit
    then Outcome(false, Some(if h.fate.ttl > 0 then h.fate.ttl else cfg.windowSeconds))
    else Outcome(true, None)
  }

  function Run(cfg: Config, c: Option<Counter>, hits: seq<Hit>): Option<Counter>
    decreases |hits|
  {
    if hits == [] then c else Run(cfg, Step(cfg, c, hits[0]), hits[1..])
  }

  /** How many of a run's checks were allowed by decision. */
  function Allows(cfg: Config, c: Option<Counter>, hits: seq<Hit>): nat
    decreases |hits|
  {
    if hits == [] then 0
    else (if EnforcedAllow(cfg, c, hits[0]) then 1 else 0) + Allows(cfg, Step(cfg, c, hits[0]), hits[1..])
  }

  function LandedHits(hits: seq<Hit>): nat {
    if hits == [] then 0 else (if Landed(hits[0]) then 1 else 0) + LandedHits(hits[1..])
  }

  /** The checks reach Redis in this order, the first not before `from` and none at or after `until`. */
  ghost predicate Between(hits: seq<Hit>, from: int, until: int)
    decreases |hits|
  {
    hits == [] || (from <= hits[0].time < until && Between(hits[1..], hits[0].time, until))
  }

  /** What the commands leave behind: a counter counts at least the hit that made it. */
  predicate WellFormed(c: Option<Counter>) { c.Some? ==> c.value.count >= 1 }

  function AtMost(limit: nat, used: nat): nat { if used < limit then limit - used else 0 }

  // ---------------------------------------------------------------- the counter

  /** While a window lasts its counter counts every landed check, enforced or not, and its end stays put. */
  lemma {:induction false} WindowCountsEverything(cfg: Config, n: nat, end: int, hits: seq<Hit>, from: int)
    requires Between(hits, from, end + 1)
    ensures Run(cfg, Some(Counter(n, Some(end))), hits) == Some(Counter(n + LandedHits(hits), Some(end)))
    ensures Allows(cfg, Some(Counter(n, Some(end))), hits) <= LandedHits(hits)
    ensures Allows(cfg, Some(Counter(n, Some(end))), hits) <= AtMost(cfg.limit, n)
    decreases |hits|
  {
    if hits != [] {
      WindowCountsEverything(cfg, if Landed(hits[0]) then n + 1 else n, end, hits[1..], hits[0].time);
    }
  }

  /** Every counter a check leaves has an expiry, at most one window away, and an expiry once set stays. */
  lemma ExpiryIsAnchored(cfg: Config, c: Option<Counter>, now: int)
    requires Live(c, now) && c.value.expireAt.Some? ==> c.value.expireAt.value <= now + cfg.Window()
    ensures var e := Bumped(cfg, c, now).expireAt;
            && e.Some? && e.value <= now + cfg.Window()
            && (Live(c, now) && c.value.expireAt.Some? ==> e == c.value.expireAt)
            && (!Live(c, now) || c.value.expireAt.None? ==> e.value == now + 1000 * cfg.windowSeconds)
  {
  }

  ghost predicate Anchored(cfg: Config, c: Option<Counter>, now: int) {
    c.Some? && c.value.expireAt.Some? ==> c.value.expireAt.value <= now + cfg.Window()
  }

  /** Over every run no counter's expiry is ever more than one window away, and none is lost. */
  lemma {:induction false} RunStaysAnchored(cfg: Config, c: Option<Counter>, hits: seq<Hit>, from: int, until: int)
    requires from <= until && Between(hits, from, until) && Anchored(cfg, c, from)
    ensures Anchored(cfg, Run(cfg, c, hits), until)
    ensures LandedHits(hits) > 0 ==> Run(cfg, c, hits).Some? && Run(cfg, c, hits).value.expireAt.Some?
    decreases |hits|
  {
    if hits != [] {
      var next := Step(cfg, c, hits[0]);
      RunStaysAnchored(cfg, next, hits[1..], hits[0].time, until);
      if Landed(hits[0]) { ExpiryStays(cfg, next, hits[1..]); }
    }
  }

  lemma {:induction false} ExpiryStays(cfg: Config, c: Option<Counter>, hits: seq<Hit>)
    requires c.Some? && c.value.expireAt.Some?
    ensures Run(cfg, c, hits).Some? && Run(cfg, c, hits).value.expireAt.Some?
    decreases |hits|
  {
    if hits != [] { ExpiryStays(cfg, Step(cfg, c, hits[0]), hits[1..]); }
  }

  /** A rejected caller is told to wait between one second and one window. */
  lemma RetryAfterInRange(cfg: Config, c: Option<Counter>, h: Hit)
    requires cfg.windowSeconds >= 1 && Anchored(cfg, c, h.time) && h.fate.Answered?
    requires 1000 * h.fate.ttl < Bumped(cfg, c, h.time).expireAt.value - h.time + 1000
    ensures !Decide(cfg, c, h).allowed ==> 1 <= Decide(cfg, c, h).retryAfterSeconds.value <= cfg.windowSeconds
  {
    ExpiryIsAnchored(cfg, c, h.time);
  }

  /**
   * Exactly when a check is allowed: when its answer did not come in time - the limiter fails open - or
   * when it is among the first `limit` that landed since the counter's window began.
   */
  lemma AllowedIff(cfg: Config, c: Option<Counter>, h: Hit)
    ensures Decide(cfg, c, h).allowed <==>
            h.fate.Failed? || (if Live(c, h.time) then c.value.count else 0) < cfg.limit
    ensures Decide(cfg, c, h).allowed <==> Decide(cfg, c, h).retryAfterSeconds.None?
  {
  }

  /** Redis's `TTL`: what is left of a key's life, rounded to whole seconds. */
  function Ttl(left: nat): nat { (left + 500) / 1000 }

  /**
   * A rejected caller is told what is left of the window, to half a second; only when that rounds to
   * nothing is it told to wait a whole window.
   */
  lemma RetryAfterIsTheRest(cfg: Config, c: Option<Counter>, h: Hit)
    requires h.fate.Answered? && !Decide(cfg, c, h).allowed
    requires Live(c, h.time) && c.value.expireAt.Some?
    requires h.fate.ttl == Ttl(c.value.expireAt.value - h.time)
    ensures var left, wait := c.value.expireAt.value - h.time, Decide(cfg, c, h).retryAfterSeconds;
            && wait.Some?
            && (left >= 500 ==> left - 500 <= 1000 * wait.value <= left + 500)
            && (left < 500 ==> wait.value == cfg.windowSeconds)
  {
  }

  // ---------------------------------------------------------------- the bounds

  /** From a dead key, the checks of one window, both its ends included, get at most `limit` allows between them. */
  lemma {:induction false} FreshWindowBound(cfg: Config, c: Option<Counter>, hits: seq<Hit>, from: int, until: int)
    requires !Live(c, from) && Between(hits, from, until) && until <= from + cfg.Window() + 1
    ensures Allows(cfg, c, hits) <= cfg.limit
    decreases |hits|
  {
    if hits != [] {
      var h := hits[0];
      if Landed(h) {
        var end := h.time + cfg.Window();
        Widen(hits[1..], h.time, until, end + 1);
        WindowCountsEverything(cfg, 1, end, hits[1..], h.time);
      } else {
        FreshWindowBound(cfg, c, hits[1..], h.time, until);
      }
    }
  }

  lemma {:induction false} Widen(hits: seq<Hit>, from: int, until: int, later: int)
    requires Between(hits, from, until) && until <= later
    ensures Between(hits, from, later)
    decreases |hits|
  {
    if hits != [] { Widen(hits[1..], hits[0].time, until, later); }
  }

  /** What is left of a running window, and then one more. */
  lemma {:induction false} RunningWindowBound(cfg: Config, n: nat, end: int, hits: seq<Hit>, from: int, until: int)
    requires Between(hits, from, until) && until <= end + cfg.Window() + 2
    ensures Allows(cfg, Some(Counter(n, Some(end))), hits) <= AtMost(cfg.limit, n) + cfg.limit
    decreases |hits|
  {
    if hits != [] {
      var h := hits[0];
      if h.time <= end {
        RunningWindowBound(cfg, if Landed(h) then n + 1 else n, end, hits[1..], h.time, until);
      } else {
        assert Between(hits, h.time, until);
        FreshWindowBound(cfg, Some(Counter(n, Some(end))), hits, h.time, until);
      }
    }
  }

  /** Until its first landed check an immortal counter stays; then it gets an end. */
  lemma {:induction false} ImmortalBound(cfg: Config, n: nat, hits: seq<Hit>, from: int, until: int)
    requires cfg.windowSeconds >= 1 && Between(hits, from, until) && until <= from + cfg.Window() + 2
    ensures Allows(cfg, Some(Counter(n, None)), hits)
            <= AtMost(cfg.limit, n) + if until <= from + cfg.Window() + 1 then 0 else cfg.limit
    decreases |hits|
  {
    if hits != [] {
      var h := hits[0];
      var end := h.time + cfg.Window();
      if !Landed(h) {
        ImmortalBound(cfg, n, hits[1..], h.time, until);
      } else if until <= end + 1 {
        Widen(hits[1..], h.time, until, end + 1);
        WindowCountsEverything(cfg, n + 1, end, hits[1..], h.time);
      } else {
        RunningWindowBound(cfg, n + 1, end, hits[1..], h.time, until);
      }
    }
  }

  /** From a dead key, one millisecond more gets at most twice the limit. */
  lemma {:induction false} FreshSpanBound(cfg: Config, c: Option<Counter>, hits: seq<Hit>, from: int, until: int)
    requires cfg.windowSeconds >= 1 && !Live(c, from) && Between(hits, from, until) && until <= from + cfg.Window() + 2
    ensures Allows(cfg, c, hits) <= 2 * cfg.limit
    decreases |hits|
  {
    if hits != [] {
      var h := hits[0];
      if Landed(h) {
        RunningWindowBound(cfg, 1, h.time + cfg.Window(), hits[1..], h.time, until);
      } else {
        FreshSpanBound(cfg, c, hits[1..], h.time, until);
      }
    }
  }

  /**
   * Whatever counter is stored, a span of at most one window, both its ends included, holds at most
   * one fewer than twice the limit of enforced allows, and one millisecond more at most twice.
   */
  lemma SpanBound(cfg: Config, c: Option<Counter>, hits: seq<Hit>, from: int, until: int)
    requires cfg.windowSeconds >= 1 && WellFormed(c) && Between(hits, from, until)
    ensures until <= from + cfg.Window() + 2 ==> Allows(cfg, c, hits) <= 2 * cfg.limit
    ensures until <= from + cfg.Window() + 1 ==> Allows(cfg, c, hits) <= AtMost(2 * cfg.limit, 1)
  {
    if until <= from + cfg.Window() + 2 {
      if !Live(c, from) {
        FreshSpanBound(cfg, c, hits, from, until);
        if until <= from + cfg.Window() + 1 { FreshWindowBound(cfg, c, hits, from, until); }
      } else if c.value.expireAt.Some? {
        RunningWindowBound(cfg, c.value.count, c.value.expireAt.value, hits, from, until);
      } else {
        ImmortalBound(cfg, c.value.count, hits, from, until);
      }
    }
  }

  lemma {:induction false} RunWellFormed(cfg: Config, c: Option<Counter>, hits: seq<Hit>)
    requires WellFormed(c)
    ensures WellFormed(Run(cfg, c, hits))
    decreases |hits|
  {
    if hits != [] { RunWellFormed(cfg, Step(cfg, c, hits[0]), hits[1..]); }
  }

  /** The bound for every span of every run: hits `i` to `j` of a run that began with any counter. */
  lemma AnySpanBound(cfg: Config, c: Option<Counter>, hits: seq<Hit>, i: nat, j: nat, from: int)
    requires cfg.windowSeconds >= 1 && WellFormed(c) && i <= j <= |hits|
    requires Between(hits[i..j], from, from + cfg.Window() + 1)
    ensures Allows(cfg, Run(cfg, c, hits[..i]), hits[i..j]) <= AtMost(2 * cfg.limit, 1)
  {
    RunWellFormed(cfg, c, hits[..i]);
    SpanBound(cfg, Run(cfg, c, hits[..i]), hits[i..j], from, from + cfg.Window() + 1);
  }

  /** Within a window exactly the first `limit` landed checks are under the limit. */
  lemma FirstOnesAreAllowed(cfg: Config, c: Option<Counter>, first: Hit, hits: seq<Hit>, h: Hit)
    requires Landed(first) && !Live(c, first.time) && h.fate.Answered?
    requires Between(hits, first.time, first.time + cfg.Window() + 1) && h.time <= first.time + cfg.Window()
    ensures Decide(cfg, Run(cfg, c, [first] + hits), h).allowed <==> 1 + LandedHits(hits) < cfg.limit
  {
    WindowCountsEverything(cfg, 1, first.time + cfg.Window(), hits, first.time);
    assert ([first] + hits)[1..] == hits;
  }

  // ---------------------------------------------------------------- the bounds are reached

  function Burst(time: int, k: nat): (hits: seq<Hit>)
    ensures |hits| == k
  {
    if k == 0 then [] else [Hit(time, Answered(1))] + Burst(time, k - 1)
  }

  lemma {:induction false} BurstBetween(time: int, k: nat, until: int)
    requires time < until
    ensures Between(Burst(time, k), time, until)
  {
    if k > 0 { BurstBetween(time, k - 1, until); }
  }

  lemma {:induction false} BurstAllowed(cfg: Config, n: nat, end: int, time: int, k: nat)
    requires time <= end && n + k <= cfg.limit
    ensures Allows(cfg, Some(Counter(n, Some(end))), Burst(time, k)) == k
    ensures Run(cfg, Some(Counter(n, Some(end))), Burst(time, k)) == Some(Counter(n + k, Some(end)))
    decreases k
  {
    if k > 0 { BurstAllowed(cfg, n + 1, end, time, k - 1); }
  }

  lemma FreshBurstAllowed(cfg: Config, c: Option<Counter>, time: int)
    requires !Live(c, time) && cfg.limit >= 1 && cfg.windowSeconds >= 1
    ensures Allows(cfg, c, Burst(time, cfg.limit)) == cfg.limit
    ensures Run(cfg, c, Burst(time, cfg.limit)) == Some(Counter(cfg.limit, Some(time + cfg.Window())))
  {
    BurstAllowed(cfg, 1, time + cfg.Window(), time, cfg.limit - 1);
  }

  lemma {:induction false} RunAppend(cfg: Config, c: Option<Counter>, a: seq<Hit>, b: seq<Hit>)
    ensures Allows(cfg, c, a + b) == Allows(cfg, c, a) + Allows(cfg, Run(cfg, c, a), b)
    ensures Run(cfg, c, a + b) == Run(cfg, Run(cfg, c, a), b)
    decreases |a|
  {
    if a == [] {
      assert a + b == b;
    } else {
      assert (a + b)[1..] == a[1..] + b;
      RunAppend(cfg, Step(cfg, c, a[0]), a[1..], b);
    }
  }

  /** Twice the limit does get through in one millisecond more than a window: a burst as it opens and one behind it. */
  lemma TwiceTheLimitIsReached(cfg: Config)
    requires cfg.limit >= 1 && cfg.windowSeconds >= 1
    ensures Allows(cfg, None, Burst(0, cfg.limit) + Burst(cfg.Window() + 1, cfg.limit)) == 2 * cfg.limit
  {
    FreshBurstAllowed(cfg, None, 0);
    RunAppend(cfg, None, Burst(0, cfg.limit), Burst(cfg.Window() + 1, cfg.limit));
    FreshBurstAllowed(cfg, Some(Counter(cfg.limit, Some(cfg.Window()))), cfg.Window() + 1);
  }

  /** And one fewer in two adjacent milliseconds. */
  lemma AlmostTwiceAtOnce(cfg: Config)
    requires cfg.limit >= 1 && cfg.windowSeconds >= 1
    ensures var after := Run(cfg, None, Burst(0, 1));
            var bursts := Burst(cfg.Window(), cfg.limit - 1) + Burst(cfg.Window() + 1, cfg.limit);
            Allows(cfg, after, bursts) == 2 * cfg.limit - 1
  {
    var end := cfg.Window();
    assert Burst(0, 1)[1..] == [];
    BurstAllowed(cfg, 1, end, end, cfg.limit - 1);
    RunAppend(cfg, Some(Counter(1, Some(end))), Burst(end, cfg.limit - 1), Burst(end + 1, cfg.limit));
    FreshBurstAllowed(cfg, Some(Counter(cfg.limit, Some(end))), end + 1);
  }

  // ---------------------------------------------------------------- the store, in place

  class RateLimiter {
    const cfg: Config
    var store: map<string, Counter>

    constructor (cfg: Config)
      ensures this.cfg == cfg && store == map[]
    {
      this.cfg := cfg;
      store := map[];
    }

    function At(key: string): Option<Counter>
      reads this
    {
      if key in store then Some(store[key]) else None
    }

    method Incr(key: string, now: int) returns (count: nat)
      modifies this
      ensures count == (if Live(old(At(key)), now) then old(store)[key].count else 0) + 1
      ensures key in store && store == old(store)[key := store[key]] && store[key].count == count
      ensures store[key].expireAt == if Live(old(At(key)), now) then old(store)[key].expireAt else None
    {
      if Live(At(key), now) {
        count := store[key].count + 1;
        store := store[key := store[key].(count := count)];
      } else {
        count := 1;
        store := store[key := Counter(1, None)];
      }
    }

    method ExpireNx(key: string, now: int)
      requires key in store
      modifies this
      ensures key in store && store == old(store)[key := store[key]] && store[key].count == old(store)[key].count
      ensures old(store)[key].expireAt.Some? ==> store == old(store)
      ensures old(store)[key].expireAt.None? ==> store[key].expireAt == Some(now + cfg.Window())
    {
      if store[key].expireAt.None? {
        store := store[key := store[key].(expireAt := Some(now + cfg.Window()))];
      }
    }

    /** `checkRateLimit` for one client. Only that client's counter changes, and exactly as one step says. */
    method CheckRateLimit(client: string, h: Hit) returns (outcome: Outcome)
      modifies this
      ensures outcome == Decide(cfg, old(At(client)), h)
      ensures At(client) == Step(cfg, old(At(client)), h)
      ensures forall other | other != client :: At(other) == old(At(other))
    {
      var count: nat := 0;
      if Landed(h) {
        count := Incr(client, h.time);
        ExpireNx(client, h.time);
      }
      if !h.fate.Answered? { return Outcome(true, None); }
      if count > cfg.limit {
        return Outcome(false, Some(if h.fate.ttl > 0 then h.fate.ttl else cfg.windowSeconds));
      }
      outcome := Outcome(true, None);
    }
  }
}
