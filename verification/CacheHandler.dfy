/**
 * The Redis-backed cache handler (cache-handler.js).
 *
 * Invalidation deletes nothing: `revalidateTag` stamps each tag with the moment, and a read treats
 * an entry as a miss when one of its tags carries a later stamp than the entry's own
 * `lastModified`. The lemmas show when that is the same cache as one that deletes every entry
 * carrying the tag on the spot.
 */
module CacheHandler {
  import opened Prelude

  /** `ENTRY_TTL_SECONDS`, in the milliseconds of `Date.now()`. */
  const ENTRY_TTL_MS: int := 60 * 60 * 24 * 1000

  datatype Kind = Fetch | OtherKind

  datatype Data<V> = Data(kind: Kind, body: V)

  /**
   * A stored entry as `JSON.parse` returns it. An older build may have left one without a value,
   * of another kind, or with a `tags` field that is not an array (None).
   */
  datatype Entry<V> = Entry(lastModified: int, value: Option<Data<V>>, tags: Option<seq<string>>, expiresAt: int)

  datatype Redis<V> = Redis(entries: map<string, Entry<V>>, stamps: map<string, int>)

  datatype Hit<V> = Hit(lastModified: int, body: V)

  function TagsOf<V>(e: Entry<V>): seq<string> {
    if e.tags.Some? then e.tags.value else []
  }

  function StampOf(stamps: map<string, int>, tag: string): int {
    if tag in stamps then stamps[tag] else 0
  }

  /** `Math.max(0, ...stamps)`. */
  function InvalidatedAt(stamps: map<string, int>, tags: seq<string>): (at: int)
    ensures at >= 0
    ensures forall tag <- tags :: StampOf(stamps, tag) <= at
    ensures at == 0 || exists tag <- tags :: StampOf(stamps, tag) == at
  {
    if tags == [] then 0
    else
      var rest := InvalidatedAt(stamps, tags[..|tags| - 1]);
      var last := StampOf(stamps, tags[|tags| - 1]);
      assert tags == tags[..|tags| - 1] + [tags[|tags| - 1]];
      if last > rest then last else rest
  }

  predicate Stale<V>(stamps: map<string, int>, e: Entry<V>) {
    |TagsOf(e)| > 0 && InvalidatedAt(stamps, TagsOf(e)) > e.lastModified
  }

  /** What Redis GET finds: an entry whose EX is not behind it (Redis keeps it through that millisecond). */
  function Stored<V>(entries: map<string, Entry<V>>, key: string, now: int): Option<Entry<V>> {
    if key in entries && now <= entries[key].expiresAt then Some(entries[key]) else None
  }

  predicate Cacheable<V>(e: Entry<V>) {
    e.value.Some? && e.value.value.kind == Fetch
  }

  function ReadEntry<V>(r: Redis<V>, key: string, now: int): (Redis<V>, Option<Hit<V>>) {
    match Stored(r.entries, key, now)
    case None => (r, None)
    case Some(e) =>
      if !Cacheable(e) then (r, None)
      else if Stale(r.stamps, e) then (r.(entries := r.entries - {key}), None)
      else (r, Some(Hit(e.lastModified, e.value.value.body)))
  }

  function WriteEntry<V>(r: Redis<V>, key: string, data: Data<V>, tags: seq<string>, now: int): Redis<V> {
    r.(entries := r.entries[key := Entry(now, Some(data), Some(tags), now + ENTRY_TTL_MS)])
  }

  function StampTags<V>(r: Redis<V>, list: seq<string>, now: int): Redis<V> {
    r.(stamps := r.stamps + (map tag | tag in list :: now))
  }

  /**
   * What becomes of one handler call: there is no client; it completes; or it times out or throws,
   * in which case the caller sees nothing and the work may or may not have landed.
   */
  datatype Link = NoClient | Completes | Lost(landed: bool)

  predicate Lands(link: Link) {
    link == Completes || link == Lost(true)
  }

  /** A call does its work if it completes, or if it was lost only after it landed. */
  lemma LandsIff(link: Link)
    ensures Lands(link) <==> !(link.NoClient? || (link.Lost? && !link.landed))
  {
  }

  class RedisCacheHandler<V> {
    var store: Redis<V>

    constructor (store: Redis<V>)
      ensures this.store == store
    {
      this.store := store;
    }

    /** The `mGet` and `Math.max` of a read. */
    method LatestStamp(tags: seq<string>) returns (at: int)
      ensures at == InvalidatedAt(store.stamps, tags)
    {
      at := 0;
      for i := 0 to |tags|
        invariant at == InvalidatedAt(store.stamps, tags[..i])
      {
        assert tags[..i + 1][..i] == tags[..i];
        var stamp := StampOf(store.stamps, tags[i]);
        if stamp > at { at := stamp; }
      }
      assert tags[..|tags|] == tags;
    }

    method Get(key: string, now: int, link: Link) returns (hit: Option<Hit<V>>)
      modifies this
      ensures store == if Lands(link) then ReadEntry(old(store), key, now).0 else old(store)
      ensures hit == if link == Completes then ReadEntry(old(store), key, now).1 else None
    {
      hit := None;
      if !Lands(link) { return; }
      var found := Stored(store.entries, key, now);
      if found.None? || !Cacheable(found.value) { return; }
      var entry := found.value;
      var tags := TagsOf(entry);
      if |tags| > 0 {
        var invalidatedAt := LatestStamp(tags);
        if invalidatedAt > entry.lastModified {
          store := store.(entries := store.entries - {key});
          return;
        }
      }
      if link == Completes { hit := Some(Hit(entry.lastModified, entry.value.value.body)); }
    }

    method Set(key: string, data: Option<Data<V>>, tags: seq<string>, now: int, link: Link)
      modifies this
      ensures store == if data.Some? && data.value.kind == Fetch && Lands(link)
                       then WriteEntry(old(store), key, data.value, tags, now) else old(store)
      ensures store.stamps == old(store).stamps && store.entries - {key} == old(store).entries - {key}
      ensures data.Some? && data.value.kind == Fetch && Lands(link) && InvalidatedAt(store.stamps, tags) <= now ==>
                ReadEntry(store, key, now) == (store, Some(Hit(now, data.value.body)))
    {
      if data.None? || data.value.kind != Fetch || !Lands(link) { return; }
      store := WriteEntry(store, key, data.value, tags, now);
    }

    method RevalidateTag(list: seq<string>, now: int, link: Link)
      modifies this
      ensures store == if Lands(link) then StampTags(old(store), list, now) else old(store)
    {
      if |list| == 0 {
        assert store.stamps + (map tag | tag in list :: now) == store.stamps;
        return;
      }
      if !Lands(link) { return; }
      var stamps := store.stamps;
      for i := 0 to |list|
        invariant stamps == store.stamps + (map tag | tag in list[..i] :: now)
      {
        assert list[..i + 1] == list[..i] + [list[i]];
        stamps := stamps[list[i] := now];
      }
      assert list[..|list|] == list;
      store := store.(stamps := stamps);
    }
  }

  /**
   * Exactly when a read is a hit, and what it answers: a FETCH entry under this key that is not yet
   * expired and none of whose tags carries a stamp later than the entry.
   */
  lemma HitIff<V>(r: Redis<V>, key: string, now: int, hit: Hit<V>)
    requires forall k | k in r.entries :: r.entries[k].lastModified >= 0
    ensures ReadEntry(r, key, now).1 == Some(hit) <==>
            && key in r.entries && now <= r.entries[key].expiresAt
            && r.entries[key].value == Some(Data(Fetch, hit.body)) && r.entries[key].lastModified == hit.lastModified
            && forall tag <- TagsOf(r.entries[key]) :: tag in r.stamps ==> r.stamps[tag] <= hit.lastModified
  {
    if key in r.entries {
      var e := r.entries[key];
      assert forall tag <- TagsOf(e) :: StampOf(r.stamps, tag) <= InvalidatedAt(r.stamps, TagsOf(e));
    }
  }

  /** An entry that nothing overtakes is served for 24 hours from its writing, and never after. */
  lemma ServedForADay<V>(r: Redis<V>, key: string, body: V, tags: seq<string>, writtenAt: int, now: int)
    requires NotAfter(r, writtenAt)
    ensures ReadEntry(WriteEntry(r, key, Data(Fetch, body), tags, writtenAt), key, now).1
            == if now - writtenAt <= 86_400_000 then Some(Hit(writtenAt, body)) else None
  {
  }

  // ---------------------------------------------------------------- the eager cache

  /** The simple cache: entries only, and a purge that deletes what carries the tag. */
  type Eager<V> = map<string, Entry<V>>

  predicate Carries<V>(e: Entry<V>, list: seq<string>) {
    exists tag <- TagsOf(e) :: tag in list
  }

  function EagerGet<V>(c: Eager<V>, key: string, now: int): Option<Hit<V>> {
    match Stored(c, key, now)
    case Some(e) => if Cacheable(e) then Some(Hit(e.lastModified, e.value.value.body)) else None
    case None => None
  }

  function EagerSet<V>(c: Eager<V>, key: string, data: Data<V>, tags: seq<string>, now: int): Eager<V> {
    c[key := Entry(now, Some(data), Some(tags), now + ENTRY_TTL_MS)]
  }

  function EagerPurge<V>(c: Eager<V>, list: seq<string>): Eager<V> {
    map k | k in c && !Carries(c[k], list) :: c[k]
  }

  /** The eager cache a stamped store stands for: its entries that no stamp has overtaken. */
  function Unstamped<V>(r: Redis<V>): Eager<V> {
    map k | k in r.entries && !Stale(r.stamps, r.entries[k]) :: r.entries[k]
  }

  /** A read returns what the eager cache returns, and its lazy deletion cannot be observed. */
  lemma GetRefines<V>(r: Redis<V>, key: string, now: int)
    ensures ReadEntry(r, key, now).1 == EagerGet(Unstamped(r), key, now)
    ensures Unstamped(ReadEntry(r, key, now).0) == Unstamped(r)
  {
    var after := ReadEntry(r, key, now).0;
    assert after.stamps == r.stamps;
    assert Unstamped(after) == Unstamped(r);
  }

  /** A write is the eager write exactly when no tag of the entry carries a stamp from the future. */
  lemma SetRefinesIff<V>(r: Redis<V>, key: string, data: Data<V>, tags: seq<string>, now: int)
    ensures Unstamped(WriteEntry(r, key, data, tags, now)) == EagerSet(Unstamped(r), key, data, tags, now)
            <==> |tags| == 0 || InvalidatedAt(r.stamps, tags) <= now
  {
    var after := WriteEntry(r, key, data, tags, now);
    var written := after.entries[key];
    assert TagsOf(written) == tags;
    var eager := EagerSet(Unstamped(r), key, data, tags, now);
    if Stale(r.stamps, written) {
      assert key !in Unstamped(after) && key in eager;
    } else {
      assert Unstamped(after) == eager;
    }
  }

  /**
   * A stamp is the eager purge exactly when every entry it should remove is strictly older than
   * the stamp: within the same millisecond the comparison `invalidatedAt > lastModified` lets the
   * entry live.
   */
  lemma RevalidateRefinesIff<V>(r: Redis<V>, list: seq<string>, now: int)
    requires forall tag <- list :: StampOf(r.stamps, tag) <= now
    requires now >= 0
    ensures Unstamped(StampTags(r, list, now)) == EagerPurge(Unstamped(r), list)
            <==> forall k | k in Unstamped(r) && Carries(r.entries[k], list) :: r.entries[k].lastModified < now
  {
    var after, purged := Unstamped(StampTags(r, list, now)), EagerPurge(Unstamped(r), list);
    forall k | k in r.entries
      ensures k in after <==> k in Unstamped(r) && (Carries(r.entries[k], list) ==> r.entries[k].lastModified >= now)
    {
      StampedEntry(r, list, now, r.entries[k]);
    }
    SubmapsAgreeIff(after, purged, r.entries);
  }

  lemma SubmapsAgreeIff<V>(a: Eager<V>, b: Eager<V>, whole: Eager<V>)
    requires forall k | k in a :: k in whole && a[k] == whole[k]
    requires forall k | k in b :: k in whole && b[k] == whole[k]
    ensures a == b <==> forall k | k in whole :: k in a <==> k in b
  {
    if forall k | k in whole :: k in a <==> k in b { assert a.Keys == b.Keys; }
  }

  lemma StampedEntry<V>(r: Redis<V>, list: seq<string>, now: int, e: Entry<V>)
    requires forall tag <- list :: StampOf(r.stamps, tag) <= now
    requires now >= 0
    ensures Stale(StampTags(r, list, now).stamps, e) <==>
            Stale(r.stamps, e) || (Carries(e, list) && e.lastModified < now)
  {
    var before, after := r.stamps, StampTags(r, list, now).stamps;
    var tags := TagsOf(e);
    forall tag <- tags
      ensures StampOf(before, tag) <= StampOf(after, tag)
      ensures tag in list ==> StampOf(after, tag) == now
      ensures tag !in list ==> StampOf(after, tag) == StampOf(before, tag)
    {
    }
  }

  // ---------------------------------------------------------------- over any run

  datatype Call<V> =
    | GetCall(key: string)
    | SetCall(key: string, data: Option<Data<V>>, tags: seq<string>)
    | RevalidateCall(list: seq<string>)

  datatype Timed<V> = Timed(now: int, call: Call<V>, link: Link)

  function LazyStep<V>(r: Redis<V>, t: Timed<V>): (Redis<V>, Option<Hit<V>>) {
    if !Lands(t.link) then (r, None)
    else match t.call
      case GetCall(key) =>
        var (after, hit) := ReadEntry(r, key, t.now);
        (after, if t.link == Completes then hit else None)
      case SetCall(key, data, tags) =>
        (if data.Some? && data.value.kind == Fetch then WriteEntry(r, key, data.value, tags, t.now) else r, None)
      case RevalidateCall(list) => (StampTags(r, list, t.now), None)
  }

  function EagerStep<V>(c: Eager<V>, t: Timed<V>): (Eager<V>, Option<Hit<V>>) {
    if !Lands(t.link) then (c, None)
    else match t.call
      case GetCall(key) => (c, if t.link == Completes then EagerGet(c, key, t.now) else None)
      case SetCall(key, data, tags) =>
        (if data.Some? && data.value.kind == Fetch then EagerSet(c, key, data.value, tags, t.now) else c, None)
      case RevalidateCall(list) => (EagerPurge(c, list), None)
  }

  /** The answers of a sequence of calls, in order. */
  function LazyAnswers<V>(r: Redis<V>, calls: seq<Timed<V>>): seq<Option<Hit<V>>>
    decreases |calls|
  {
    if calls == [] then []
    else var (next, hit) := LazyStep(r, calls[0]); [hit] + LazyAnswers(next, calls[1..])
  }

  function EagerAnswers<V>(c: Eager<V>, calls: seq<Timed<V>>): seq<Option<Hit<V>>>
    decreases |calls|
  {
    if calls == [] then []
    else var (next, hit) := EagerStep(c, calls[0]); [hit] + EagerAnswers(next, calls[1..])
  }

  /** Times never go back, and a stamp is strictly later than the call before it. */
  predicate Ordered<V>(from: int, calls: seq<Timed<V>>)
    decreases |calls|
  {
    calls == [] ||
    (from <= calls[0].now && (calls[0].call.RevalidateCall? ==> from < calls[0].now)
     && Ordered(calls[0].now, calls[1..]))
  }

  ghost predicate NotAfter<V>(r: Redis<V>, t: int) {
    && (forall k | k in r.entries :: r.entries[k].lastModified <= t)
    && (forall tag | tag in r.stamps :: r.stamps[tag] <= t)
    && 0 <= t
  }

  /**
   * Stamping refines eager purging: over any sequence of gets, sets and revalidations - some of
   * them lost on the way, with entries expiring in between - every answer is the answer of the
   * cache that deletes.
   */
  lemma {:induction false} StampingRefinesPurging<V>(r: Redis<V>, from: int, calls: seq<Timed<V>>)
    requires NotAfter(r, from) && Ordered(from, calls)
    ensures LazyAnswers(r, calls) == EagerAnswers(Unstamped(r), calls)
    decreases |calls|
  {
    if calls != [] {
      var t := calls[0];
      StepRefines(r, from, t);
      StampingRefinesPurging(LazyStep(r, t).0, t.now, calls[1..]);
    }
  }

  lemma StepRefines<V>(r: Redis<V>, from: int, t: Timed<V>)
    requires NotAfter(r, from) && from <= t.now && (t.call.RevalidateCall? ==> from < t.now)
    ensures NotAfter(LazyStep(r, t).0, t.now)
    ensures LazyStep(r, t).1 == EagerStep(Unstamped(r), t).1
    ensures Unstamped(LazyStep(r, t).0) == EagerStep(Unstamped(r), t).0
  {
    match t.call
    case GetCall(key) => GetRefines(r, key, t.now);
    case SetCall(key, data, tags) =>
      if data.Some? { SetRefinesIff(r, key, data.value, tags, t.now); }
    case RevalidateCall(list) => RevalidateRefinesIff(r, list, t.now);
  }

  /** An answer computed before a stamp but written after it is served: the stamp does not reach it. */
  lemma LateWriteSurvives<V>(r: Redis<V>, key: string, body: V, tags: seq<string>, list: seq<string>,
                             stampedAt: int, writtenAt: int, now: int)
    requires NotAfter(r, stampedAt) && stampedAt <= writtenAt <= now <= writtenAt + ENTRY_TTL_MS
    ensures var after := WriteEntry(StampTags(r, list, stampedAt), key, Data(Fetch, body), tags, writtenAt);
            ReadEntry(after, key, now).1 == Some(Hit(writtenAt, body))
  {
  }
}
