/**
 * The two-hop cached product read (src/server/repositories/product.ts): slug to id, then id to
 * page, both through `cached()` (src/lib/cache.ts) and the handler of `CacheHandler`.
 */
module ProductReads {
  import opened Prelude
  import opened CacheHandler

  /** Product ids are database-generated and never contain the key separator. */
  type Id = s: string | ',' !in s witness ""

  datatype Locale = En | Tr | Ru

  datatype Row = Row(slug: string, published: bool, content: map<Locale, string>)

  type Db = map<Id, Row>

  /** `Product.slug` is `@unique`. */
  ghost predicate UniqueSlugs(db: Db) {
    forall a, b | a in db && b in db && db[a].slug == db[b].slug :: a == b
  }

  /** The page of one product for one locale. */
  datatype Page = Page(id: Id, row: Row, locale: Locale)

  /** What the two kinds of cache entry hold; either may hold a null. */
  datatype Cell = IdCell(id: Option<Id>) | PageCell(page: Option<Page>)

  predicate Resolves(db: Db, slug: string, id: Id) {
    id in db && db[id].slug == slug && db[id].published
  }

  ghost function QueryProductId(db: Db, slug: string): (r: Option<Id>)
    ensures r.Some? ==> Resolves(db, slug, r.value)
    ensures r.None? ==> forall id: Id :: !Resolves(db, slug, id)
  {
    if id: Id :| Resolves(db, slug, id) then Some(id) else None
  }

  function QueryProductById(db: Db, id: Id, locale: Locale): Option<Page> {
    if id in db && db[id].published then Some(Page(id, db[id], locale)) else None
  }

  // ---------------------------------------------------------------- keys and tags

  function LocaleText(locale: Locale): string {
    match locale case En => "en" case Tr => "tr" case Ru => "ru"
  }

  function IdKey(slug: string): string { "product-id," + slug }

  function PageKey(id: Id, locale: Locale): string { "product" + "," + (id + "," + LocaleText(locale)) }

  const CATALOG: string := "catalog"

  function ProductTag(id: Id): string { "product:" + id }

  function PageTags(id: Id): seq<string> { [ProductTag(id), CATALOG] }

  /** The keys distinguish everything the reads depend on. */
  lemma KeysDistinguish(slug: string, a: Id, la: Locale, b: Id, lb: Locale)
    ensures IdKey(slug) != PageKey(a, la)
    ensures PageKey(a, la) == PageKey(b, lb) ==> a == b && la == lb
  {
    assert IdKey(slug)[7] == '-' && PageKey(a, la)[7] == ',';
    forall id: Id, locale: Locale ensures Split(PageKey(id, locale), ',') == ["product", id, LocaleText(locale)]
    {
      SplitHead("product", id + "," + LocaleText(locale), ',');
      SplitHead(id, LocaleText(locale), ',');
      assert ',' !in LocaleText(locale);
    }
    assert PageKey(a, la) == PageKey(b, lb) ==>
        Split(PageKey(a, la), ',')[1] == Split(PageKey(b, lb), ',')[1]
        && Split(PageKey(a, la), ',')[2] == Split(PageKey(b, lb), ',')[2];
  }

  /** The keys as they stand in the store. */
  lemma KeysSpelled()
    ensures IdKey("pump") == "product-id,pump"
    ensures PageKey("7", En) == "product,7,en" && PageKey("7", Tr) == "product,7,tr"
    ensures PageKey("7", Ru) == "product,7,ru"
    ensures ProductTag("7") == "product:7" && CATALOG == "catalog"
  {
  }

  lemma IdKeyInjective(a: string, b: string)
    ensures IdKey(a) == IdKey(b) ==> a == b
  {
    assert IdKey(a)[11..] == a && IdKey(b)[11..] == b;
  }

  // ---------------------------------------------------------------- cached reads

  type Store = Redis<Cell>

  /** `cached(read, key, tags)`: the entry if the handler has one, else `read`'s answer, stored. */
  function Cached(r: Store, key: string, tags: seq<string>, computed: Cell, now: int): (Store, Cell) {
    var (after, hit) := ReadEntry(r, key, now);
    if hit.Some? then (after, hit.value.body)
    else (WriteEntry(after, key, Data(Fetch, computed), tags, now), computed)
  }

  ghost function ResolveProductId(r: Store, db: Db, slug: string, now: int): (Store, Option<Id>) {
    var (after, cell) := Cached(r, IdKey(slug), [CATALOG], IdCell(QueryProductId(db, slug)), now);
    (after, if cell.IdCell? && cell.id.Some? then cell.id else QueryProductId(db, slug))
  }

  function PageById(r: Store, db: Db, id: Id, locale: Locale, now: int): (Store, Cell) {
    Cached(r, PageKey(id, locale), PageTags(id), PageCell(QueryProductById(db, id, locale)), now)
  }

  ghost function GetProductBySlug(r: Store, db: Db, slug: string, locale: Locale, now: int): (Store, Option<Page>) {
    var (resolved, id) := ResolveProductId(r, db, slug, now);
    if id.None? then (resolved, None)
    else
      var (after, cell) := PageById(resolved, db, id.value, locale, now);
      (after, if cell.PageCell? then cell.page else None)
  }

  /** The repository's reads, over the shared handler and the database as it stands. */
  class ProductRepository {
    const handler: RedisCacheHandler<Cell>
    var db: Db

    constructor (handler: RedisCacheHandler<Cell>, db: Db)
      ensures this.handler == handler && this.db == db
    {
      this.handler := handler;
      this.db := db;
    }

    method FindId(slug: string) returns (id: Option<Id>)
      requires UniqueSlugs(db)
      ensures id == QueryProductId(db, slug)
    {
      id := None;
      var rest := db.Keys;
      while rest != {}
        invariant rest <= db.Keys
        invariant id.Some? ==> Resolves(db, slug, id.value)
        invariant id.None? ==> forall k | k in db.Keys - rest :: !Resolves(db, slug, k)
      {
        var k :| k in rest;
        if db[k].slug == slug && db[k].published { id := Some(k); }
        rest := rest - {k};
      }
    }

    method ResolveId(slug: string, now: int) returns (id: Option<Id>)
      requires UniqueSlugs(db)
      modifies handler
      ensures (handler.store, id) == ResolveProductId(old(handler.store), db, slug, now)
    {
      var hit := handler.Get(IdKey(slug), now, Completes);
      if hit.Some? {
        if hit.value.body.IdCell? && hit.value.body.id.Some? { return hit.value.body.id; }
      } else {
        var found := FindId(slug);
        handler.Set(IdKey(slug), Some(Data(Fetch, IdCell(found))), [CATALOG], now, Completes);
        if found.Some? { return found; }
      }
      id := FindId(slug);
    }

    method GetBySlug(slug: string, locale: Locale, now: int) returns (page: Option<Page>)
      requires UniqueSlugs(db)
      modifies handler
      ensures (handler.store, page) == GetProductBySlug(old(handler.store), db, slug, locale, now)
    {
      var id := ResolveId(slug, now);
      if id.None? { return None; }
      var hit := handler.Get(PageKey(id.value, locale), now, Completes);
      if hit.Some? {
        page := if hit.value.body.PageCell? then hit.value.body.page else None;
      } else {
        page := QueryProductById(db, id.value, locale);
        handler.Set(PageKey(id.value, locale), Some(Data(Fetch, PageCell(page))), PageTags(id.value), now, Completes);
      }
    }
  }

  // ---------------------------------------------------------------- no slug changes another's answer

  /** Answering one cached read never changes the answer of another that computes the same under the same key. */
  lemma CachedLeavesOthers(r: Store, k1: string, tags1: seq<string>, c1: Cell, t1: int,
                           k2: string, tags2: seq<string>, c2: Cell, t2: int)
    requires t1 <= t2
    requires k1 == k2 ==> c1 == c2
    ensures Cached(Cached(r, k1, tags1, c1, t1).0, k2, tags2, c2, t2).1 == Cached(r, k2, tags2, c2, t2).1
  {
  }

  /**
   * No poisoning: whatever is cached, and however slugs were renamed before, serving one slug
   * first never changes what another slug (or the same one) is then served.
   */
  lemma ServingLeavesOtherAnswers(r: Store, db: Db, a: string, la: Locale, t1: int, b: string, lb: Locale, t2: int)
    requires t1 <= t2
    ensures GetProductBySlug(GetProductBySlug(r, db, a, la, t1).0, db, b, lb, t2).1
            == GetProductBySlug(r, db, b, lb, t2).1
  {
    var hopA, hopB := IdCell(QueryProductId(db, a)), IdCell(QueryProductId(db, b));
    var (r1, ida) := ResolveProductId(r, db, a, t1);
    var r2 := GetProductBySlug(r, db, a, la, t1).0;
    IdKeyInjective(a, b);
    CachedLeavesOthers(r, IdKey(a), [CATALOG], hopA, t1, IdKey(b), [CATALOG], hopB, t2);
    if ida.Some? {
      var pageA := PageCell(QueryProductById(db, ida.value, la));
      KeysDistinguish(b, ida.value, la, ida.value, la);
      CachedLeavesOthers(r1, PageKey(ida.value, la), PageTags(ida.value), pageA, t1, IdKey(b), [CATALOG], hopB, t2);
    }
    var (rb, idb) := ResolveProductId(r, db, b, t2);
    assert ResolveProductId(r2, db, b, t2).1 == idb;
    if idb.Some? {
      var key, page := PageKey(idb.value, lb), PageCell(QueryProductById(db, idb.value, lb));
      var tags := PageTags(idb.value);
      KeysDistinguish(a, idb.value, lb, idb.value, lb);
      KeysDistinguish(b, idb.value, lb, idb.value, lb);
      CachedLeavesOthers(r, IdKey(b), [CATALOG], hopB, t2, key, tags, page, t2);
      CachedLeavesOthers(r2, IdKey(b), [CATALOG], hopB, t2, key, tags, page, t2);
      CachedLeavesOthers(r, IdKey(a), [CATALOG], hopA, t1, key, tags, page, t2);
      if ida.Some? {
        var pageA := PageCell(QueryProductById(db, ida.value, la));
        KeysDistinguish(a, ida.value, la, idb.value, lb);
        CachedLeavesOthers(r1, PageKey(ida.value, la), PageTags(ida.value), pageA, t1, key, tags, page, t2);
      }
    }
  }
}
