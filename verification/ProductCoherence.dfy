/**
 * Coherence of the two-hop read over time: edits, purges, requests and computations that are still
 * in flight when a purge lands, in any order.
 */
module ProductCoherence {
  import opened Prelude
  import opened Pieces
  import opened CacheHandler
  import opened ProductReads

  // ---------------------------------------------------------------- edits, purges and slow fills

  /** A computation in flight: it read database version `since` and has not written its entry yet. */
  datatype Fill = IdFill(slug: string, since: nat) | PageFill(id: Id, locale: Locale, since: nat)

  /**
   * The whole site: the cache, every database version so far (the last one is current), the fills
   * in flight, and for every entry the version its value was read from.
   */
  datatype Site = Site(store: Store, history: seq<Db>, fills: seq<Fill>, origin: map<string, nat>, clock: int)

  datatype Action =
    | Edit(db: Db)                           // an edit, a publish, a slug rename
    | Wait(elapsed: nat)
    | Purge(list: seq<string>)               // a landed revalidateTag, strictly later than what precedes it
    | Serve(slug: string, locale: Locale)    // a request that nothing interleaves with
    | Resolve(slug: string)                  // the first hop of a request, by itself
    | ReadPage(id: Id, locale: Locale)       // the second hop of a request that resolved to this id some time ago
    | BeginId(slug: string)                  // a first hop misses and starts to read the database
    | BeginPage(id: Id, locale: Locale)      // a second hop misses and starts to read the database
    | Finish(index: nat)                     // it writes its entry

  ghost predicate Wf(s: Site) {
    && |s.history| > 0
    && (forall i | 0 <= i < |s.history| :: UniqueSlugs(s.history[i]))
    && NotAfter(s.store, s.clock)
  }

  function Version(s: Site): nat
    requires |s.history| > 0
  {
    |s.history| - 1
  }

  function Current(s: Site): Db
    requires |s.history| > 0
  {
    s.history[|s.history| - 1]
  }

  function FillKey(f: Fill): string {
    match f case IdFill(slug, _) => IdKey(slug) case PageFill(id, locale, _) => PageKey(id, locale)
  }

  function FillTags(f: Fill): seq<string> {
    match f case IdFill(_, _) => [CATALOG] case PageFill(id, _, _) => PageTags(id)
  }

  ghost function FillCell(f: Fill, history: seq<Db>): Cell
    requires f.since < |history|
  {
    match f
    case IdFill(slug, since) => IdCell(QueryProductId(history[since], slug))
    case PageFill(id, locale, since) => PageCell(QueryProductById(history[since], id, locale))
  }

  /** Write a fill's entry and remember which version it came from. */
  ghost function Write(s: Site, f: Fill): Site
    requires f.since < |s.history|
  {
    s.(store := WriteEntry(s.store, FillKey(f), Data(Fetch, FillCell(f, s.history)), FillTags(f), s.clock),
       origin := s.origin[FillKey(f) := f.since])
  }

  /** One uninterrupted cached read as a lookup that writes only on a miss. */
  ghost function ReadThrough(s: Site, f: Fill): (r: (Site, Cell))
    requires f.since < |s.history|
  {
    var (after, hit) := ReadEntry(s.store, FillKey(f), s.clock);
    if hit.Some? then (s.(store := after), hit.value.body)
    else (Write(s.(store := after), f), FillCell(f, s.history))
  }

  ghost function Hop(s: Site, slug: string): (Site, Option<Id>)
    requires |s.history| > 0
  {
    var (after, cell) := ReadThrough(s, IdFill(slug, Version(s)));
    (after, if cell.IdCell? && cell.id.Some? then cell.id else QueryProductId(Current(s), slug))
  }

  ghost function ServePage(s: Site, slug: string, locale: Locale): (Site, Option<Page>)
    requires |s.history| > 0
  {
    var (hopped, id) := Hop(s, slug);
    if id.None? then (hopped, None)
    else
      var (after, cell) := ReadThrough(hopped, PageFill(id.value, locale, Version(s)));
      (after, if cell.PageCell? then cell.page else None)
  }

  /** Some version up to this one had the product published; no request ever resolves to another id. */
  ghost predicate PublishedBy(s: Site, id: Id, version: nat) {
    exists i | 0 <= i <= version && i < |s.history| :: id in s.history[i] && s.history[i][id].published
  }

  ghost function ActStep(s: Site, a: Action): Option<Site>
    requires |s.history| > 0
  {
    match a
    case Edit(db) => if UniqueSlugs(db) then Some(s.(history := s.history + [db])) else None
    case Wait(elapsed) => Some(s.(clock := s.clock + elapsed))
    case Purge(list) => Some(s.(clock := s.clock + 1, store := StampTags(s.store, list, s.clock + 1)))
    case Serve(slug, locale) => Some(ServePage(s, slug, locale).0)
    case Resolve(slug) => Some(Hop(s, slug).0)
    case ReadPage(id, locale) =>
      if PublishedBy(s, id, Version(s)) then Some(ReadThrough(s, PageFill(id, locale, Version(s))).0) else None
    case BeginId(slug) => Some(s.(fills := s.fills + [IdFill(slug, Version(s))]))
    case BeginPage(id, locale) =>
      if PublishedBy(s, id, Version(s)) then Some(s.(fills := s.fills + [PageFill(id, locale, Version(s))])) else None
    case Finish(index) =>
      if index < |s.fills| && s.fills[index].since < |s.history|
      then Some(Write(s, s.fills[index]).(fills := s.fills[..index] + s.fills[index + 1..])) else None
  }

  ghost function ActRun(s: Site, actions: seq<Action>): Option<Site>
    requires |s.history| > 0
    ensures ActRun(s, actions).Some? ==> |ActRun(s, actions).value.history| > 0
    decreases |actions|
  {
    if actions == [] then Some(s)
    else match ActStep(s, actions[0])
      case None => None
      case Some(next) => ActRun(next, actions[1..])
  }

  // ---------------------------------------------------------------- provenance

  /** An entry under `key` is what a fill of that key computed from the version it is marked with. */
  ghost predicate HoldsFill(s: Site, key: string, f: Fill) {
    && f.since < |s.history|
    && key in s.store.entries && key in s.origin && s.origin[key] == f.since
    && s.store.entries[key].value == Some(Data(Fetch, FillCell(f, s.history)))
    && s.store.entries[key].tags == Some(FillTags(f))
  }

  /** Every entry holds what its own key asks for, as some database version answered it. */
  ghost predicate Provenance(s: Site) {
    && Wf(s)
    && (forall f <- s.fills :: f.since < |s.history|)
    && (forall slug | IdKey(slug) in s.store.entries ::
          IdKey(slug) in s.origin && HoldsFill(s, IdKey(slug), IdFill(slug, s.origin[IdKey(slug)])))
    && (forall id, locale | PageKey(id, locale) in s.store.entries ::
          PageKey(id, locale) in s.origin
          && HoldsFill(s, PageKey(id, locale), PageFill(id, locale, s.origin[PageKey(id, locale)])))
  }

  lemma WriteKeeps(s: Site, f: Fill)
    requires Provenance(s) && f.since < |s.history|
    ensures Provenance(Write(s, f))
  {
    var next := Write(s, f);
    forall slug | IdKey(slug) in next.store.entries
      ensures IdKey(slug) in next.origin && HoldsFill(next, IdKey(slug), IdFill(slug, next.origin[IdKey(slug)]))
    {
      if IdKey(slug) == FillKey(f) {
        SameKeySameFill(f, IdFill(slug, f.since));
      } else {
        assert HoldsFill(s, IdKey(slug), IdFill(slug, s.origin[IdKey(slug)]));
      }
    }
    forall id, locale | PageKey(id, locale) in next.store.entries
      ensures PageKey(id, locale) in next.origin
              && HoldsFill(next, PageKey(id, locale), PageFill(id, locale, next.origin[PageKey(id, locale)]))
    {
      if PageKey(id, locale) == FillKey(f) {
        SameKeySameFill(f, PageFill(id, locale, f.since));
      } else {
        assert HoldsFill(s, PageKey(id, locale), PageFill(id, locale, s.origin[PageKey(id, locale)]));
      }
    }
  }

  lemma SameKeySameFill(f: Fill, g: Fill)
    requires FillKey(f) == FillKey(g) && f.since == g.since
    ensures f == g
  {
    match (f, g)
    case (IdFill(a, _), IdFill(b, _)) =>
      IdKeyInjective(a, b);
    case (PageFill(a, la, _), PageFill(b, lb, _)) => KeysDistinguish("", a, la, b, lb);
    case (IdFill(a, _), PageFill(b, lb, _)) => KeysDistinguish(a, b, lb, b, lb);
    case (PageFill(a, la, _), IdFill(b, _)) => KeysDistinguish(b, a, la, a, la);
  }

  lemma DropKeeps(s: Site, key: string)
    requires Provenance(s)
    ensures Provenance(s.(store := s.store.(entries := s.store.entries - {key})))
  {
    var next := s.(store := s.store.(entries := s.store.entries - {key}));
    forall slug | IdKey(slug) in next.store.entries
      ensures IdKey(slug) in next.origin && HoldsFill(next, IdKey(slug), IdFill(slug, next.origin[IdKey(slug)]))
    {
      assert HoldsFill(s, IdKey(slug), IdFill(slug, s.origin[IdKey(slug)]));
    }
    forall id, locale | PageKey(id, locale) in next.store.entries
      ensures PageKey(id, locale) in next.origin
              && HoldsFill(next, PageKey(id, locale), PageFill(id, locale, next.origin[PageKey(id, locale)]))
    {
      assert HoldsFill(s, PageKey(id, locale), PageFill(id, locale, s.origin[PageKey(id, locale)]));
    }
  }

  lemma ReadThroughKeeps(s: Site, f: Fill)
    requires Provenance(s) && f.since < |s.history|
    ensures Provenance(ReadThrough(s, f).0)
    ensures ReadThrough(s, f).0.history == s.history && ReadThrough(s, f).0.fills == s.fills
    ensures ReadThrough(s, f).0.clock == s.clock
  {
    var after := ReadEntry(s.store, FillKey(f), s.clock).0;
    DropKeeps(s, FillKey(f));
    assert after == s.store || after == s.store.(entries := s.store.entries - {FillKey(f)});
    WriteKeeps(s.(store := after), f);
  }

  lemma HopKeeps(s: Site, slug: string)
    requires Provenance(s)
    ensures Provenance(Hop(s, slug).0)
    ensures Hop(s, slug).0.history == s.history && Hop(s, slug).0.fills == s.fills && Hop(s, slug).0.clock == s.clock
    ensures Hop(s, slug).1.Some? ==>
              exists i | 0 <= i < |s.history| :: Resolves(s.history[i], slug, Hop(s, slug).1.value)
  {
    var f := IdFill(slug, Version(s));
    ReadThroughKeeps(s, f);
    var (after, cell) := ReadThrough(s, f);
    var hit := ReadEntry(s.store, IdKey(slug), s.clock).1;
    if hit.Some? {
      assert HoldsFill(s, IdKey(slug), IdFill(slug, s.origin[IdKey(slug)]));
    }
  }

  lemma ActStepKeeps(s: Site, a: Action, next: Site)
    requires Provenance(s) && ActStep(s, a) == Some(next)
    ensures Provenance(next)
    ensures s.history <= next.history
  {
    match a
    case Edit(db) => assert forall i | 0 <= i < |s.history| :: next.history[i] == s.history[i]; EditKeeps(s, db);
    case Wait(_) => assert NotAfter(next.store, next.clock); SameEntriesKeep(s, next);
    case Purge(_) => assert NotAfter(next.store, next.clock); SameEntriesKeep(s, next);
    case Serve(slug, locale) =>
      HopKeeps(s, slug);
      var (hopped, id) := Hop(s, slug);
      if id.Some? { ReadThroughKeeps(hopped, PageFill(id.value, locale, Version(s))); }
    case Resolve(slug) => HopKeeps(s, slug);
    case ReadPage(id, locale) => ReadThroughKeeps(s, PageFill(id, locale, Version(s)));
    case BeginId(_) => SameEntriesKeep(s, next);
    case BeginPage(_, _) => SameEntriesKeep(s, next);
    case Finish(index) =>
      WriteKeeps(s, s.fills[index]);
      SameEntriesKeep(Write(s, s.fills[index]), next);
  }

  lemma EditKeeps(s: Site, db: Db)
    requires Provenance(s) && UniqueSlugs(db)
    ensures Provenance(s.(history := s.history + [db]))
  {
    var next := s.(history := s.history + [db]);
    forall f: Fill | f.since < |s.history| ensures FillCell(f, next.history) == FillCell(f, s.history) {}
    SameEntriesKeep(s, next);
  }

  lemma SameEntriesKeep(s: Site, next: Site)
    requires Provenance(s) && Wf(next)
    requires next.store.entries == s.store.entries && next.origin == s.origin && s.history <= next.history
    requires forall f <- next.fills :: f.since < |next.history|
    ensures Provenance(next)
  {
    forall f: Fill | f.since < |s.history| ensures FillCell(f, next.history) == FillCell(f, s.history)
    {
      assert next.history[f.since] == s.history[f.since];
    }
    forall slug | IdKey(slug) in next.store.entries
      ensures IdKey(slug) in next.origin && HoldsFill(next, IdKey(slug), IdFill(slug, next.origin[IdKey(slug)]))
    {
      assert HoldsFill(s, IdKey(slug), IdFill(slug, s.origin[IdKey(slug)]));
    }
    forall id, locale | PageKey(id, locale) in next.store.entries
      ensures PageKey(id, locale) in next.origin
              && HoldsFill(next, PageKey(id, locale), PageFill(id, locale, next.origin[PageKey(id, locale)]))
    {
      assert HoldsFill(s, PageKey(id, locale), PageFill(id, locale, s.origin[PageKey(id, locale)]));
    }
  }

  // ---------------------------------------------------------------- where an answer comes from

  /** The database version a read of `key` is answered from, if the cache answers it at all. */
  function CachedVersion(s: Site, key: string): Option<nat> {
    if Stored(s.store.entries, key, s.clock).Some? && !Stale(s.store.stamps, s.store.entries[key]) && key in s.origin
    then Some(s.origin[key]) else None
  }

  /** The second hop is answered by one version: the cached one, or else the newest. */
  lemma PageReadFrom(s: Site, id: Id, locale: Locale)
    requires Provenance(s)
    ensures var from := CachedVersion(s, PageKey(id, locale));
            (from.Some? ==> from.value < |s.history|)
            && ReadThrough(s, PageFill(id, locale, Version(s))).1 == PageCell(
                 QueryProductById(if from.Some? then s.history[from.value] else Current(s), id, locale))
  {
    var key := PageKey(id, locale);
    if key in s.store.entries { assert HoldsFill(s, key, PageFill(id, locale, s.origin[key])); }
  }

  lemma HopLeavesPages(s: Site, slug: string, id: Id, locale: Locale)
    requires |s.history| > 0
    ensures CachedVersion(Hop(s, slug).0, PageKey(id, locale)) == CachedVersion(s, PageKey(id, locale))
    ensures Hop(s, slug).0.history == s.history
  {
    KeysDistinguish(slug, id, locale, id, locale);
  }

  lemma SecondHopAnswers(s: Site, slug: string, id: Id, locale: Locale)
    requires |s.history| > 0 && Hop(s, slug).1 == Some(id)
    requires Hop(s, slug).0.history == s.history
    requires ReadThrough(Hop(s, slug).0, PageFill(id, locale, Version(s))).1.PageCell?
    ensures ServePage(s, slug, locale).1 == ReadThrough(Hop(s, slug).0, PageFill(id, locale, Version(s))).1.page
  {
  }

  /** The page served is the resolved product's, as one version answered it: the cached one, or the newest. */
  lemma ServedFromVersion(s: Site, slug: string, found: Id, locale: Locale)
    requires Provenance(s) && Hop(s, slug).1 == Some(found)
    ensures var from := CachedVersion(s, PageKey(found, locale));
            (from.Some? ==> from.value < |s.history|)
            && ServePage(s, slug, locale).1
               == QueryProductById(if from.Some? then s.history[from.value] else Current(s), found, locale)
  {
    HopKeeps(s, slug);
    HopLeavesPages(s, slug, found, locale);
    PageReadFrom(Hop(s, slug).0, found, locale);
    SecondHopAnswers(s, slug, found, locale);
  }

  // ---------------------------------------------------------------- which purges reach an entry

  /** A slug's entry answers to `catalog` alone, a page also to `product:{id}` of its own product. */
  predicate Reaches(list: seq<string>, f: Fill) {
    match f
    case IdFill(_, _) => CATALOG in list
    case PageFill(id, _, _) => ProductTag(id) in list || CATALOG in list
  }

  /** A purge ends the life of a live entry exactly when it reaches it. */
  lemma PurgeEndsIff(s: Site, list: seq<string>, f: Fill)
    requires Provenance(s) && HoldsFill(s, FillKey(f), f)
    requires !Stale(s.store.stamps, s.store.entries[FillKey(f)])
    ensures Stale(ActStep(s, Purge(list)).value.store.stamps, s.store.entries[FillKey(f)]) <==> Reaches(list, f)
  {
    var e := s.store.entries[FillKey(f)];
    StampedEntry(s.store, list, s.clock + 1, e);
    assert CATALOG in TagsOf(e);
    if f.PageFill? { assert ProductTag(f.id) in TagsOf(e); }
  }

  lemma ProductTagsDiffer(a: Id, b: Id)
    ensures ProductTag(a) == ProductTag(b) ==> a == b
    ensures ProductTag(a) != CATALOG
  {
    assert ProductTag(a)[8..] == a && ProductTag(b)[8..] == b;
    assert ProductTag(a)[0] == 'p' && CATALOG[0] == 'c';
  }

  /** Purges of other products leave every slug's and every page's entry as live as it was. */
  lemma PurgeSparesOthers(s: Site, others: seq<Id>, f: Fill)
    requires Provenance(s) && (f.PageFill? ==> f.id !in others)
    ensures CachedVersion(ActStep(s, Purge(Each(ProductTag, others))).value.(clock := s.clock), FillKey(f))
            == CachedVersion(s, FillKey(f))
  {
    var list, key := Each(ProductTag, others), FillKey(f);
    forall tag | tag in list ensures tag != CATALOG && (f.PageFill? ==> tag != ProductTag(f.id)) {
      var i :| 0 <= i < |others| && tag == ProductTag(others[i]);
      ProductTagsDiffer(others[i], if f.PageFill? then f.id else others[i]);
    }
    if key in s.store.entries {
      EntryHolds(s, f);
      StampedEntry(s.store, list, s.clock + 1, s.store.entries[key]);
      if !Stale(s.store.stamps, s.store.entries[key]) { PurgeEndsIff(s, list, f.(since := s.origin[key])); }
    }
  }

  /** Whatever stands under a fill's key is what such a fill computed. */
  lemma EntryHolds(s: Site, f: Fill)
    requires Provenance(s) && FillKey(f) in s.store.entries
    ensures FillKey(f) in s.origin && HoldsFill(s, FillKey(f), f.(since := s.origin[FillKey(f)]))
  {
    match f
    case IdFill(slug, _) => assert HoldsFill(s, IdKey(slug), IdFill(slug, s.origin[IdKey(slug)]));
    case PageFill(id, locale, _) =>
      assert HoldsFill(s, PageKey(id, locale), PageFill(id, locale, s.origin[PageKey(id, locale)]));
  }

  // ---------------------------------------------------------------- after a purge

  /** Nothing under this key that the cache would still serve was read before version `v`. */
  predicate NothingOlder(s: Site, key: string, v: nat) {
    key in s.store.entries && key in s.origin && !Stale(s.store.stamps, s.store.entries[key]) ==> s.origin[key] >= v
  }

  predicate OldFill(f: Fill, key: string, v: nat) {
    FillKey(f) == key && f.since < v
  }

  /** What keeps it so: nothing older is in the cache, and nothing older is on its way there. */
  predicate CoherentSince(s: Site, key: string, v: nat) {
    v < |s.history| && NothingOlder(s, key, v) && forall f <- s.fills :: !OldFill(f, key, v)
  }

  /** A purge that reaches a key leaves nothing older under it, whatever is in flight. */
  lemma PurgeClearsKey(s: Site, list: seq<string>, f: Fill)
    requires Provenance(s) && Reaches(list, f)
    ensures NothingOlder(ActStep(s, Purge(list)).value, FillKey(f), Version(s))
  {
    var key := FillKey(f);
    if key in s.store.entries {
      EntryHolds(s, f);
      StampedEntry(s.store, list, s.clock + 1, s.store.entries[key]);
      if !Stale(s.store.stamps, s.store.entries[key]) { PurgeEndsIff(s, list, f.(since := s.origin[key])); }
    }
  }

  lemma WriteStaysCoherent(s: Site, f: Fill, key: string, v: nat)
    requires CoherentSince(s, key, v)
    requires f.since < |s.history| && (FillKey(f) == key ==> f.since >= v)
    ensures CoherentSince(Write(s, f), key, v)
  {
  }

  lemma ReadThroughStaysCoherent(s: Site, f: Fill, key: string, v: nat)
    requires Provenance(s) && CoherentSince(s, key, v)
    requires f.since < |s.history| && (FillKey(f) == key ==> f.since >= v)
    ensures Provenance(ReadThrough(s, f).0) && CoherentSince(ReadThrough(s, f).0, key, v)
    ensures ReadThrough(s, f).0.history == s.history
  {
    ReadThroughKeeps(s, f);
    var after := ReadEntry(s.store, FillKey(f), s.clock).0;
    assert after == s.store || after == s.store.(entries := s.store.entries - {FillKey(f)});
    assert CoherentSince(s.(store := after), key, v);
    WriteStaysCoherent(s.(store := after), f, key, v);
  }

  lemma PurgeStaysCoherent(s: Site, list: seq<string>, next: Site, key: string, v: nat)
    requires Provenance(s) && CoherentSince(s, key, v) && ActStep(s, Purge(list)) == Some(next)
    ensures CoherentSince(next, key, v)
  {
    if key in s.store.entries { StampedEntry(s.store, list, s.clock + 1, s.store.entries[key]); }
  }

  lemma ServeStaysCoherent(s: Site, slug: string, locale: Locale, key: string, v: nat)
    requires Provenance(s) && CoherentSince(s, key, v)
    ensures CoherentSince(ServePage(s, slug, locale).0, key, v)
  {
    HopKeeps(s, slug);
    ReadThroughStaysCoherent(s, IdFill(slug, Version(s)), key, v);
    var (hopped, found) := Hop(s, slug);
    if found.Some? { ReadThroughStaysCoherent(hopped, PageFill(found.value, locale, Version(s)), key, v); }
  }

  /** Once cut off, the past stays cut off, whatever happens next. */
  lemma StaysCoherent(s: Site, a: Action, next: Site, key: string, v: nat)
    requires Provenance(s) && CoherentSince(s, key, v) && ActStep(s, a) == Some(next)
    ensures CoherentSince(next, key, v)
  {
    match a
    case Edit(db) =>
    case Wait(_) =>
    case Purge(list) => PurgeStaysCoherent(s, list, next, key, v);
    case Serve(slug, locale) => ServeStaysCoherent(s, slug, locale, key, v);
    case Resolve(slug) => ReadThroughStaysCoherent(s, IdFill(slug, Version(s)), key, v);
    case ReadPage(other, locale) => ReadThroughStaysCoherent(s, PageFill(other, locale, Version(s)), key, v);
    case BeginId(_) =>
    case BeginPage(_, _) =>
    case Finish(index) =>
      assert s.fills[index] in s.fills;
      WriteStaysCoherent(s, s.fills[index], key, v);
  }

  /**
   * Provenance of an answer: a second hop, however long after its first hop and through whichever
   * slug, gets the page of its id exactly as some database version answered it - and no version older
   * than a cut-off. So does every uninterrupted request that resolves to this id.
   */
  lemma PageServedFrom(s: Site, id: Id, locale: Locale, v: nat) returns (origin: nat)
    requires Provenance(s) && CoherentSince(s, PageKey(id, locale), v)
    ensures v <= origin < |s.history|
    ensures ReadThrough(s, PageFill(id, locale, Version(s))).1
            == PageCell(QueryProductById(s.history[origin], id, locale))
    ensures forall slug | Hop(s, slug).1 == Some(id) ::
              ServePage(s, slug, locale).1 == QueryProductById(s.history[origin], id, locale)
  {
    var from := CachedVersion(s, PageKey(id, locale));
    PageReadFrom(s, id, locale);
    origin := if from.Some? then from.value else Version(s);
    forall slug | Hop(s, slug).1 == Some(id)
      ensures ServePage(s, slug, locale).1 == QueryProductById(s.history[origin], id, locale)
    {
      ServedFromVersion(s, slug, id, locale);
    }
  }

  /** The first hop answers from one version no older than a cut-off, and from the newest if that one has no id. */
  lemma SlugResolvedFrom(s: Site, slug: string, v: nat) returns (origin: nat)
    requires Provenance(s) && CoherentSince(s, IdKey(slug), v)
    ensures v <= origin < |s.history|
    ensures Hop(s, slug).1 == if QueryProductId(s.history[origin], slug).Some?
                              then QueryProductId(s.history[origin], slug) else QueryProductId(Current(s), slug)
  {
    var from := CachedVersion(s, IdKey(slug));
    origin := if from.Some? then from.value else Version(s);
    if IdKey(slug) in s.store.entries { EntryHolds(s, IdFill(slug, 0)); }
  }

  lemma {:induction false} RunStaysCoherent(s: Site, actions: seq<Action>, key: string, v: nat)
    requires Provenance(s) && CoherentSince(s, key, v) && ActRun(s, actions).Some?
    ensures Provenance(ActRun(s, actions).value) && CoherentSince(ActRun(s, actions).value, key, v)
    ensures s.history <= ActRun(s, actions).value.history
    decreases |actions|
  {
    if actions != [] {
      var next := ActStep(s, actions[0]).value;
      ActStepKeeps(s, actions[0], next);
      StaysCoherent(s, actions[0], next, key, v);
      RunStaysCoherent(next, actions[1..], key, v);
    }
  }

  /** After a purge that reaches a key and outlives its older computations, every run leaves it coherent. */
  lemma CoherentAfter(s: Site, list: seq<string>, f: Fill, actions: seq<Action>)
    requires Provenance(s) && Reaches(list, f)
    requires forall g <- s.fills :: !OldFill(g, FillKey(f), Version(s))
    requires ActRun(ActStep(s, Purge(list)).value, actions).Some?
    ensures var end := ActRun(ActStep(s, Purge(list)).value, actions).value;
            Provenance(end) && CoherentSince(end, FillKey(f), Version(s)) && s.history <= end.history
  {
    var purged := ActStep(s, Purge(list)).value;
    PurgeClearsKey(s, list, f);
    ActStepKeeps(s, Purge(list), purged);
    RunStaysCoherent(purged, actions, FillKey(f), Version(s));
  }

  /** An old computation that finishes puts its old answer where the cache serves it. */
  lemma OldFillLands(s: Site, index: nat, key: string, v: nat)
    requires Provenance(s) && index < |s.fills| && OldFill(s.fills[index], key, v)
    ensures ActRun(s, [Finish(index)]).Some? && !NothingOlder(ActRun(s, [Finish(index)]).value, key, v)
  {
    var f := s.fills[index];
    assert f in s.fills;
    var next := ActStep(s, Finish(index)).value;
    assert ActRun(next, []) == Some(next) && [Finish(index)][1..] == [];
    assert NotAfter(s.store, s.clock);
    assert !Stale(next.store.stamps, next.store.entries[key]);
  }

  /**
   * A purge that reaches a slug's or a page's entry cuts off its past - over every further run, no
   * answer from before the purge is ever again in a place it is served from - exactly when no
   * computation of it that read an older version is in flight as the purge lands.
   */
  lemma PurgeCutsOffThePastIff(s: Site, list: seq<string>, f: Fill)
    requires Provenance(s) && Reaches(list, f)
    ensures var purged, key := ActStep(s, Purge(list)).value, FillKey(f);
            (forall acts | ActRun(purged, acts).Some? :: NothingOlder(ActRun(purged, acts).value, key, Version(s)))
            <==> forall g <- s.fills :: !OldFill(g, key, Version(s))
  {
    var purged, key := ActStep(s, Purge(list)).value, FillKey(f);
    if forall g <- s.fills :: !OldFill(g, key, Version(s)) {
      forall acts | ActRun(purged, acts).Some? ensures NothingOlder(ActRun(purged, acts).value, key, Version(s)) {
        CoherentAfter(s, list, f, acts);
      }
    } else {
      var i :| 0 <= i < |s.fills| && OldFill(s.fills[i], key, Version(s));
      ActStepKeeps(s, Purge(list), purged);
      OldFillLands(purged, i, key, Version(s));
    }
  }

  /**
   * Two-hop coherence: after a purge that no older computation of this page outlives, every page
   * handed out for this id - by any second hop whose first hop resolved to it at any time, and by any
   * uninterrupted request through any slug, after any further edits, renames, purges, hops and fills -
   * is what a database version no older than the purge answers for this very id.
   */
  lemma CoherentAfterPurge(s: Site, list: seq<string>, actions: seq<Action>, end: Site, id: Id, locale: Locale)
    returns (origin: nat)
    requires Provenance(s)
    requires ProductTag(id) in list || CATALOG in list
    requires forall f <- s.fills :: !OldFill(f, PageKey(id, locale), Version(s))
    requires ActRun(ActStep(s, Purge(list)).value, actions) == Some(end)
    ensures Version(s) <= origin < |end.history| && s.history <= end.history
    ensures ReadThrough(end, PageFill(id, locale, Version(end))).1
            == PageCell(QueryProductById(end.history[origin], id, locale))
    ensures forall slug | Hop(end, slug).1 == Some(id) ::
              ServePage(end, slug, locale).1 == QueryProductById(end.history[origin], id, locale)
  {
    CoherentAfter(s, list, PageFill(id, locale, 0), actions);
    origin := PageServedFrom(end, id, locale, Version(s));
  }

  /**
   * The same for the first hop: after a purge of `catalog` that no older computation of this slug's
   * id outlives, whatever a slug resolves to over every further run, it resolved to in a database
   * version no older than the purge. A retired owner of the slug is never found again.
   */
  lemma SlugCoherentAfterPurge(s: Site, list: seq<string>, actions: seq<Action>, end: Site, slug: string)
    returns (origin: nat)
    requires Provenance(s) && CATALOG in list
    requires forall f <- s.fills :: !OldFill(f, IdKey(slug), Version(s))
    requires ActRun(ActStep(s, Purge(list)).value, actions) == Some(end)
    ensures Version(s) <= origin < |end.history| && s.history <= end.history
    ensures Hop(end, slug).1.Some? ==> Resolves(end.history[origin], slug, Hop(end, slug).1.value)
    ensures Hop(end, slug).1.None? ==> forall id: Id :: !Resolves(Current(end), slug, id)
  {
    CoherentAfter(s, list, IdFill(slug, 0), actions);
    origin := SlugResolvedFrom(end, slug, Version(s));
    if QueryProductId(end.history[origin], slug).None? { origin := Version(end); }
  }

  /** Every id that a first hop ever resolves to may be read by a second hop at any later time. */
  lemma ResolvedStaysReadable(s: Site, slug: string, actions: seq<Action>)
    requires Provenance(s) && Hop(s, slug).1.Some? && ActRun(s, actions).Some?
    ensures var end := ActRun(s, actions).value;
            PublishedBy(end, Hop(s, slug).1.value, Version(end))
  {
    HopPublished(s, slug);
    HistoryGrows(s, actions);
  }

  lemma {:induction false} HistoryGrows(s: Site, actions: seq<Action>)
    requires Provenance(s) && ActRun(s, actions).Some?
    ensures s.history <= ActRun(s, actions).value.history
    decreases |actions|
  {
    if actions != [] {
      var next := ActStep(s, actions[0]).value;
      ActStepKeeps(s, actions[0], next);
      HistoryGrows(next, actions[1..]);
    }
  }

  lemma WrittenIsRead(s: Site, f: Fill)
    requires NotAfter(s.store, s.clock) && f.since < |s.history|
    ensures ReadEntry(Write(s, f).store, FillKey(f), s.clock).1 == Some(Hit(s.clock, FillCell(f, s.history)))
  {
  }

  /** A computation that outlives the purge does put the older version back on the site. */
  lemma OldFillReturnsThePast(s: Site, list: seq<string>, index: nat)
    requires Provenance(s) && index < |s.fills| && s.fills[index].PageFill?
    ensures var f := s.fills[index];
            var purged := ActStep(s, Purge(list)).value;
            var end := ActStep(purged, Finish(index));
            end.Some? && ReadThrough(end.value, PageFill(f.id, f.locale, Version(end.value))).1
                         == PageCell(QueryProductById(s.history[f.since], f.id, f.locale))
  {
    var f, purged := s.fills[index], ActStep(s, Purge(list)).value;
    assert f in s.fills;
    ActStepKeeps(s, Purge(list), purged);
    WrittenIsRead(purged, f);
  }

  // ---------------------------------------------------------------- a first publication

  /** No page of a product exists, cached or in flight, that was read before the product was ever published. */
  ghost predicate NoEarlyPages(s: Site) {
    && (forall id, locale | PageKey(id, locale) in s.store.entries && PageKey(id, locale) in s.origin ::
          PublishedBy(s, id, s.origin[PageKey(id, locale)]))
    && (forall f <- s.fills | f.PageFill? :: PublishedBy(s, f.id, f.since))
  }

  lemma WriteKeepsNoEarlyPages(s: Site, f: Fill)
    requires NoEarlyPages(s) && f.since < |s.history|
    requires f.PageFill? ==> PublishedBy(s, f.id, f.since)
    ensures NoEarlyPages(Write(s, f))
  {
    var next := Write(s, f);
    forall id, locale | PageKey(id, locale) in next.store.entries && PageKey(id, locale) in next.origin
      ensures PublishedBy(next, id, next.origin[PageKey(id, locale)])
    {
      if PageKey(id, locale) == FillKey(f) {
        SameKeySameFill(f, PageFill(id, locale, f.since));
      } else {
        assert PublishedBy(s, id, s.origin[PageKey(id, locale)]);
      }
    }
    forall g <- next.fills | g.PageFill? ensures PublishedBy(next, g.id, g.since)
    {
    }
  }

  lemma ReadThroughKeepsNoEarlyPages(s: Site, f: Fill)
    requires Provenance(s) && NoEarlyPages(s) && f.since < |s.history|
    requires f.PageFill? ==> PublishedBy(s, f.id, f.since)
    ensures NoEarlyPages(ReadThrough(s, f).0)
  {
    var after := ReadEntry(s.store, FillKey(f), s.clock).0;
    assert after == s.store || after == s.store.(entries := s.store.entries - {FillKey(f)});
    var mid := s.(store := after);
    KeepsNoEarlyPages(s, mid);
    WriteKeepsNoEarlyPages(mid, f);
  }

  lemma KeepsNoEarlyPages(s: Site, next: Site)
    requires NoEarlyPages(s) && s.history <= next.history && next.origin == s.origin
    requires next.store.entries.Keys <= s.store.entries.Keys
    requires forall f <- next.fills :: f in s.fills || f.IdFill? || PublishedBy(s, f.id, f.since)
    ensures NoEarlyPages(next)
  {
    forall id, locale | PageKey(id, locale) in next.store.entries && PageKey(id, locale) in next.origin
      ensures PublishedBy(next, id, next.origin[PageKey(id, locale)])
    {
    }
    forall f <- next.fills | f.PageFill? ensures PublishedBy(next, f.id, f.since)
    {
    }
  }

  lemma HopPublished(s: Site, slug: string)
    requires Provenance(s) && Hop(s, slug).1.Some?
    ensures PublishedBy(s, Hop(s, slug).1.value, Version(s))
  {
    HopKeeps(s, slug);
    var i :| 0 <= i < |s.history| && Resolves(s.history[i], slug, Hop(s, slug).1.value);
  }

  lemma ActKeepsNoEarlyPages(s: Site, a: Action, next: Site)
    requires Provenance(s) && NoEarlyPages(s) && ActStep(s, a) == Some(next)
    ensures NoEarlyPages(next)
  {
    match a
    case Edit(_) => KeepsNoEarlyPages(s, next);
    case Wait(_) => KeepsNoEarlyPages(s, next);
    case Purge(_) => KeepsNoEarlyPages(s, next);
    case Serve(slug, locale) =>
      HopKeeps(s, slug);
      ReadThroughKeepsNoEarlyPages(s, IdFill(slug, Version(s)));
      var (hopped, id) := Hop(s, slug);
      if id.Some? {
        HopPublished(s, slug);
        ReadThroughKeepsNoEarlyPages(hopped, PageFill(id.value, locale, Version(s)));
      }
    case Resolve(slug) => ReadThroughKeepsNoEarlyPages(s, IdFill(slug, Version(s)));
    case ReadPage(id, locale) => ReadThroughKeepsNoEarlyPages(s, PageFill(id, locale, Version(s)));
    case BeginId(_) => KeepsNoEarlyPages(s, next);
    case BeginPage(_, _) => KeepsNoEarlyPages(s, next);
    case Finish(index) =>
      assert s.fills[index] in s.fills;
      WriteKeepsNoEarlyPages(s, s.fills[index]);
      KeepsNoEarlyPages(Write(s, s.fills[index]), next);
  }

  /** A site before any request: nothing cached, nothing in flight. */
  ghost predicate Empty(s: Site) {
    Wf(s) && s.store.entries == map[] && s.fills == []
  }

  lemma {:induction false} RunKeeps(s: Site, actions: seq<Action>)
    requires Provenance(s) && NoEarlyPages(s) && ActRun(s, actions).Some?
    ensures Provenance(ActRun(s, actions).value) && NoEarlyPages(ActRun(s, actions).value)
    decreases |actions|
  {
    if actions != [] {
      var next := ActStep(s, actions[0]).value;
      ActStepKeeps(s, actions[0], next);
      ActKeepsNoEarlyPages(s, actions[0], next);
      RunKeeps(next, actions[1..]);
    }
  }

  // ---------------------------------------------------------------- when an edit is served

  /** A live page entry that no stamp has overtaken, from a version that answers otherwise than the newest. */
  ghost predicate PageOutdated(s: Site, id: Id, locale: Locale)
    requires |s.history| > 0
  {
    match CachedVersion(s, PageKey(id, locale))
    case None => false
    case Some(v) =>
      v < |s.history| && QueryProductById(s.history[v], id, locale) != QueryProductById(Current(s), id, locale)
  }

  /** A live slug entry that no stamp has overtaken, from a version in which the slug was another product's. */
  ghost predicate SlugWasAnothers(s: Site, slug: string, id: Id) {
    match CachedVersion(s, IdKey(slug))
    case None => false
    case Some(v) => v < |s.history| && QueryProductId(s.history[v], slug) !in {None, Some(id)}
  }

  lemma QueryFindsTheOwner(db: Db, slug: string, id: Id)
    requires UniqueSlugs(db) && Resolves(db, slug, id)
    ensures QueryProductId(db, slug) == Some(id)
  {
  }

  /** The first hop finds the present owner of a slug unless the cache still names another. */
  lemma HopFindsOwnerIff(s: Site, slug: string, id: Id)
    requires Provenance(s) && Resolves(Current(s), slug, id)
    ensures Hop(s, slug).1.Some?
    ensures Hop(s, slug).1 == Some(id) <==> !SlugWasAnothers(s, slug, id)
  {
    QueryFindsTheOwner(Current(s), slug, id);
    if IdKey(slug) in s.store.entries {
      assert HoldsFill(s, IdKey(slug), IdFill(slug, s.origin[IdKey(slug)]));
    }
  }

  /**
   * Exactly when the next request for a slug gets the page of its product as the database has it
   * now, with no purge: unless the cache still holds, live and not stamped, a page of this product
   * from a version that answers otherwise, or names another product for the slug.
   */
  lemma ServedAsItIsNowIff(s: Site, slug: string, id: Id, locale: Locale)
    requires Provenance(s) && Resolves(Current(s), slug, id)
    ensures ServePage(s, slug, locale).1 == Some(Page(id, Current(s)[id], locale))
            <==> !SlugWasAnothers(s, slug, id) && !PageOutdated(s, id, locale)
  {
    HopFindsOwnerIff(s, slug, id);
    ServedFromVersion(s, slug, Hop(s, slug).1.value, locale);
  }

  lemma NeverOutdated(s: Site, id: Id, locale: Locale)
    requires Provenance(s) && NoEarlyPages(s)
    requires forall i | 0 <= i < Version(s) :: !(id in s.history[i] && s.history[i][id].published)
    ensures !PageOutdated(s, id, locale)
  {
    var key := PageKey(id, locale);
    if CachedVersion(s, key).Some? { assert PublishedBy(s, id, s.origin[key]); }
  }

  lemma NeverAnothers(s: Site, slug: string, id: Id)
    requires forall i, other | 0 <= i < |s.history| && Resolves(s.history[i], slug, other) :: other == id
    ensures !SlugWasAnothers(s, slug, id)
  {
  }

  /**
   * A product published for the first time is served at once, with no purge: after any run from an
   * empty cache - including any number of requests for its slug that cached a null - the next
   * request gets the page as the database has it now, exactly when the cache does not still name
   * another product for the slug; so always when the slug never belonged to another published product.
   */
  lemma FirstPublicationIsServedIff(start: Site, actions: seq<Action>, s: Site, slug: string, id: Id, locale: Locale)
    requires Empty(start) && ActRun(start, actions) == Some(s)
    requires Resolves(Current(s), slug, id)
    requires forall i | 0 <= i < Version(s) :: !(id in s.history[i] && s.history[i][id].published)
    ensures ServePage(s, slug, locale).1 == Some(Page(id, Current(s)[id], locale)) <==> !SlugWasAnothers(s, slug, id)
    ensures (forall i, other | 0 <= i < |s.history| && Resolves(s.history[i], slug, other) :: other == id) ==>
              ServePage(s, slug, locale).1 == Some(Page(id, Current(s)[id], locale))
  {
    RunKeeps(start, actions);
    NeverOutdated(s, id, locale);
    ServedAsItIsNowIff(s, slug, id, locale);
    if forall i, other | 0 <= i < |s.history| && Resolves(s.history[i], slug, other) :: other == id {
      NeverAnothers(s, slug, id);
    }
  }

  lemma ActUnfold(s: Site, actions: seq<Action>, next: Site)
    requires |s.history| > 0 && |next.history| > 0 && actions != [] && ActStep(s, actions[0]) == Some(next)
    ensures ActRun(s, actions) == ActRun(next, actions[1..])
  {
  }

  /**
   * A product published again is not: whoever asked for it while it was a draft left a null under
   * its page key, and no step of publishing takes that away. Whole requests suffice: one before the
   * product is withdrawn, one while it is, and the next one after it is back gets nothing.
   */
  lemma RepublicationIsHidden(start: Site, slug: string, id: Id, draft: Db, earlier: Locale, locale: Locale)
    requires Empty(start) && Resolves(Current(start), slug, id) && earlier != locale
    requires UniqueSlugs(draft) && !(id in draft && draft[id].published)
    ensures var end := ActRun(start, [Serve(slug, earlier), Edit(draft), Serve(slug, locale), Edit(Current(start))]);
            && end.Some? && Resolves(Current(end.value), slug, id)
            && ServePage(end.value, slug, locale).1 == None
  {
    var acts := [Serve(slug, earlier), Edit(draft), Serve(slug, locale), Edit(Current(start))];
    var s1 := FirstServe(start, slug, id, earlier);
    var s2 := s1.(history := s1.history + [draft]);
    var s3 := WithdrawnServe(s2, slug, id, locale);
    var s4 := s3.(history := s3.history + [Current(start)]);
    HiddenByNull(s4, slug, id, locale);
    RunFour(start, acts, s1, s2, s3, s4);
  }

  /** One such run: a site whose only product is withdrawn and published again. */
  lemma RepublicationExample() returns (start: Site, actions: seq<Action>, end: Site)
    ensures Empty(start) && ActRun(start, actions) == Some(end)
    ensures Resolves(Current(end), "s", "i") && ServePage(end, "s", En).1 == None
  {
    var published: Db := map["i" := Row("s", true, map[])];
    var draft: Db := map["i" := Row("s", false, map[])];
    start := Site(Redis(map[], map[]), [published], [], map[], 0);
    actions := [Serve("s", Tr), Edit(draft), Serve("s", En), Edit(published)];
    RepublicationIsHidden(start, "s", "i", draft, Tr, En);
    end := ActRun(start, actions).value;
  }

  lemma RunFour(s: Site, acts: seq<Action>, s1: Site, s2: Site, s3: Site, s4: Site)
    requires |acts| == 4 && |s.history| > 0 && |s1.history| > 0 && |s2.history| > 0 && |s3.history| > 0
    requires ActStep(s, acts[0]) == Some(s1) && ActStep(s1, acts[1]) == Some(s2)
    requires ActStep(s2, acts[2]) == Some(s3) && ActStep(s3, acts[3]) == Some(s4) && |s4.history| > 0
    ensures ActRun(s, acts) == Some(s4)
  {
    ActUnfold(s, acts, s1);
    ActUnfold(s1, acts[1..], s2);
    ActUnfold(s2, acts[2..], s3);
    ActUnfold(s3, acts[3..], s4);
    assert acts[4..] == [] && ActRun(s4, []) == Some(s4);
  }

  predicate Hits(s: Site, key: string, cell: Cell) {
    ReadEntry(s.store, key, s.clock).1 == Some(Hit(s.clock, cell))
  }

  lemma MissWrites(s: Site, f: Fill)
    requires f.since < |s.history| && FillKey(f) !in s.store.entries
    ensures ReadThrough(s, f) == (Write(s, f), FillCell(f, s.history))
  {
  }

  lemma FirstServe(s: Site, slug: string, id: Id, locale: Locale) returns (next: Site)
    requires Empty(s) && Resolves(Current(s), slug, id)
    ensures ActStep(s, Serve(slug, locale)) == Some(next)
    ensures next.history == s.history && NotAfter(next.store, next.clock)
    ensures Hits(next, IdKey(slug), IdCell(Some(id)))
    ensures forall other | other != locale :: PageKey(id, other) !in next.store.entries
  {
    var first, second := IdFill(slug, Version(s)), PageFill(id, locale, Version(s));
    forall other: Locale
      ensures IdKey(slug) != PageKey(id, other)
      ensures PageKey(id, other) == PageKey(id, locale) ==> other == locale
    {
      KeysDistinguish(slug, id, other, id, locale);
    }
    QueryFindsTheOwner(Current(s), slug, id);
    MissWrites(s, first);
    var hopped := Write(s, first);
    assert Hop(s, slug) == (hopped, Some(id));
    MissWrites(hopped, second);
    next := Write(hopped, second);
  }

  lemma WithdrawnServe(s: Site, slug: string, id: Id, locale: Locale) returns (next: Site)
    requires |s.history| > 0 && !(id in Current(s) && Current(s)[id].published) && NotAfter(s.store, s.clock)
    requires Hits(s, IdKey(slug), IdCell(Some(id))) && PageKey(id, locale) !in s.store.entries
    ensures ActStep(s, Serve(slug, locale)) == Some(next) && next.history == s.history
    ensures Hits(next, IdKey(slug), IdCell(Some(id))) && Hits(next, PageKey(id, locale), PageCell(None))
  {
    KeysDistinguish(slug, id, locale, id, locale);
    assert Hop(s, slug) == (s, Some(id));
    MissWrites(s, PageFill(id, locale, Version(s)));
    next := Write(s, PageFill(id, locale, Version(s)));
  }

  lemma HiddenByNull(s: Site, slug: string, id: Id, locale: Locale)
    requires |s.history| > 0
    requires Hits(s, IdKey(slug), IdCell(Some(id))) && Hits(s, PageKey(id, locale), PageCell(None))
    ensures ServePage(s, slug, locale).1 == None
  {
  }

  // ---------------------------------------------------------------- the site's requests are the repository's

  lemma HopIsResolveProductId(s: Site, slug: string)
    requires |s.history| > 0
    ensures var (hopped, id) := Hop(s, slug);
            && (hopped.store, id) == ResolveProductId(s.store, Current(s), slug, s.clock)
            && hopped.history == s.history && hopped.clock == s.clock
  {
  }

  lemma ReadIsPageById(s: Site, id: Id, locale: Locale)
    requires |s.history| > 0
    ensures var (after, cell) := ReadThrough(s, PageFill(id, locale, Version(s)));
            (after.store, cell) == PageById(s.store, Current(s), id, locale, s.clock)
  {
  }

  /** What a site serves, and the cache it leaves, are what `ProductRepository.GetBySlug` computes. */
  lemma ServeIsGetProductBySlug(s: Site, slug: string, locale: Locale)
    requires |s.history| > 0
    ensures var (after, page) := ServePage(s, slug, locale);
            (after.store, page) == GetProductBySlug(s.store, Current(s), slug, locale, s.clock)
  {
    HopIsResolveProductId(s, slug);
    var (hopped, id) := Hop(s, slug);
    if id.Some? { ReadIsPageById(hopped, id.value, locale); }
  }

  lemma HopsAsSteps(s: Site, slug: string, id: Id, locale: Locale, hopped: Site, end: Site)
    requires |s.history| > 0 && hopped.history == s.history && PublishedBy(hopped, id, Version(hopped))
    requires Hop(s, slug) == (hopped, Some(id))
    requires end == ReadThrough(hopped, PageFill(id, locale, Version(s))).0
    ensures ActStep(s, Resolve(slug)) == Some(hopped)
    ensures ActStep(hopped, ReadPage(id, locale)) == Some(end)
    ensures ActStep(s, Serve(slug, locale)) == Some(end)
  {
  }

  lemma RunTwo(s: Site, acts: seq<Action>, s1: Site, s2: Site)
    requires |acts| == 2 && |s.history| > 0 && |s1.history| > 0 && |s2.history| > 0
    requires ActStep(s, acts[0]) == Some(s1) && ActStep(s1, acts[1]) == Some(s2)
    ensures ActRun(s, acts) == Some(s2)
  {
    ActUnfold(s, acts, s1);
    ActUnfold(s1, acts[1..], s2);
    assert acts[2..] == [] && ActRun(s2, []) == Some(s2);
  }

  /** An uninterrupted request is its two hops, one right after the other. */
  lemma ServeIsTwoHops(s: Site, slug: string, locale: Locale)
    requires Provenance(s) && Hop(s, slug).1.Some?
    ensures ActRun(s, [Resolve(slug), ReadPage(Hop(s, slug).1.value, locale)]) == ActStep(s, Serve(slug, locale))
  {
    var (hopped, id) := Hop(s, slug);
    var page := PageFill(id.value, locale, Version(s));
    HopKeeps(s, slug);
    HopPublished(s, slug);
    ReadThroughKeeps(hopped, page);
    var end := ReadThrough(hopped, page).0;
    HopsAsSteps(s, slug, id.value, locale, hopped, end);
    RunTwo(s, [Resolve(slug), ReadPage(id.value, locale)], hopped, end);
  }
}
