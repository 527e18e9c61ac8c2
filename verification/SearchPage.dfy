/** `searchProducts` of src/server/repositories/product.ts: which products a query finds. */
module SearchPage {
  import opened Prelude
  import opened Pieces
  import opened Search

  datatype Product = Product(
    slug: string, published: bool, model: string, names: map<string, string>,
    category: string, manufacturer: string, series: Option<string>)

  datatype Filters = Filters(category: Option<string>, manufacturer: Option<string>, series: Option<string>)

  type Condition = Product -> bool

  /** An absent or empty filter asks for nothing. */
  predicate Asks(filter: Option<string>) { filter.Some? && filter.value != "" }

  function Trimmed(q: Option<string>): string { if q.Some? then Trim(q.value) else "" }

  /** The name shown in the active locale, or the English one that may stand in for it, holds the query. */
  predicate NameHolds(lower: char -> string, q: string, locale: string, p: Product) {
    exists l <- {locale, "en"} :: l in p.names && Contains(LowerAll(lower, p.names[l]), LowerAll(lower, q))
  }

  predicate ModelHolds(lower: char -> string, q: string, p: Product) {
    NormalizeModelQuery(lower, q) != "" && Contains(NormalizeModelQuery(lower, p.model), NormalizeModelQuery(lower, q))
  }

  /** What a search promises to find. */
  predicate Wanted(lower: char -> string, q: Option<string>, filters: Filters, locale: string, p: Product) {
    && p.published
    && (Trimmed(q) == "" || NameHolds(lower, Trimmed(q), locale, p) || ModelHolds(lower, Trimmed(q), p))
    && (Asks(filters.category) ==> p.category == filters.category.value)
    && (Asks(filters.manufacturer) ==> p.manufacturer == filters.manufacturer.value)
    && (Asks(filters.series) ==> p.series == filters.series)
  }

  predicate AnyHolds(arms: seq<Condition>, p: Product) {
    exists i | 0 <= i < |arms| :: arms[i](p)
  }

  predicate AllHold(conditions: seq<Condition>, p: Product) {
    forall i | 0 <= i < |conditions| :: conditions[i](p)
  }

  /** `lower(t.name) LIKE ... ESCAPE '\'` for one of the two locales. */
  predicate NameArm(lower: char -> string, q: string, locale: string, p: Product) {
    exists l <- {locale, "en"} :: l in p.names
      && Like(LowerAll(lower, p.names[l]), "%" + EscapeLike(LowerAll(lower, q)) + "%") == Some(true)
  }

  lemma NameArmHolds(lower: char -> string, q: string, locale: string, p: Product)
    ensures NameArm(lower, q, locale, p) == NameHolds(lower, q, locale, p)
  {
    forall l | l in p.names
      ensures Like(LowerAll(lower, p.names[l]), "%" + EscapeLike(LowerAll(lower, q)) + "%")
           == Some(Contains(LowerAll(lower, p.names[l]), LowerAll(lower, q)))
    {
      EscapedLikeIsSubstring(LowerAll(lower, p.names[l]), LowerAll(lower, q));
    }
  }

  /** The arms of the text search; a query that normalises to nothing contributes no model arm. */
  method SearchArms(lower: char -> string, q: string, locale: string) returns (arms: seq<Condition>)
    ensures forall p :: AnyHolds(arms, p) <==> NameHolds(lower, q, locale, p) || ModelHolds(lower, q, p)
  {
    arms := [];
    var normalized := NormalizeModelQuery(lower, q);
    if normalized != "" {
      arms := arms + [(p: Product) => Like(NormalizeModelQuery(lower, p.model), "%" + normalized + "%") == Some(true)];
    }
    arms := arms + [p => NameArm(lower, q, locale, p)];
    forall p: Product ensures AnyHolds(arms, p) <==> NameHolds(lower, q, locale, p) || ModelHolds(lower, q, p)
    {
      NameArmHolds(lower, q, locale, p);
      ModelArmIsSubstring(lower, p.model, q);
      assert arms[|arms| - 1](p) == NameHolds(lower, q, locale, p);
      if normalized != "" {
        assert arms[0](p) == ModelHolds(lower, q, p);
        assert |arms| == 2;
      } else {
        assert |arms| == 1;
      }
    }
  }

  lemma AllHoldPushed(conditions: seq<Condition>, c: Condition, p: Product)
    ensures AllHold(conditions + [c], p) <==> AllHold(conditions, p) && c(p)
  {
    var all := conditions + [c];
    assert all[|conditions|] == c;
    if AllHold(all, p) { forall i | 0 <= i < |conditions| ensures conditions[i](p) { assert all[i] == conditions[i]; } }
  }

  method Push(conditions: seq<Condition>, c: Condition) returns (all: seq<Condition>)
    ensures forall p :: AllHold(all, p) <==> AllHold(conditions, p) && c(p)
  {
    all := conditions + [c];
    forall p: Product ensures AllHold(all, p) <==> AllHold(conditions, p) && c(p) { AllHoldPushed(conditions, c, p); }
  }

  method SearchConditions(lower: char -> string, q: Option<string>, filters: Filters, locale: string)
    returns (conditions: seq<Condition>)
    ensures forall p :: AllHold(conditions, p) <==> Wanted(lower, q, filters, locale, p)
  {
    conditions := Push([], (p: Product) => p.published);
    var trimmed := Trimmed(q);
    if trimmed != "" {
      var arms := SearchArms(lower, trimmed, locale);
      conditions := Push(conditions, p => AnyHolds(arms, p));
    }
    if Asks(filters.category) { conditions := Push(conditions, (p: Product) => p.category == filters.category.value); }
    if Asks(filters.manufacturer) {
      conditions := Push(conditions, (p: Product) => p.manufacturer == filters.manufacturer.value);
    }
    if Asks(filters.series) { conditions := Push(conditions, (p: Product) => p.series == filters.series); }
  }

  /**
   * `searchProducts` over a table in slug order: the first `limit` of exactly the wanted products,
   * and how many those are - which the window function can only tell on a page that has a row.
   */
  method SearchProducts(lower: char -> string, table: seq<Product>, q: Option<string>, filters: Filters,
                        locale: string, limit: nat)
    returns (page: seq<Product>, total: nat)
    ensures var wanted := Filter(p => Wanted(lower, q, filters, locale, p), table);
            && page == wanted[..if limit < |wanted| then limit else |wanted|]
            && (total == |wanted| <==> limit > 0 || wanted == [])
            && (limit == 0 ==> total == 0)
  {
    var conditions := SearchConditions(lower, q, filters, locale);
    var matches := Filter(p => AllHold(conditions, p), table);
    FilterSame(p => AllHold(conditions, p), p => Wanted(lower, q, filters, locale, p), table);
    page := matches[..if limit < |matches| then limit else |matches|];
    total := if |page| > 0 then |matches| else 0;
  }

  /**
   * What a search asks of a product, filter by filter: an absent or empty filter asks nothing, a given
   * one its own field; and a query that is absent or blank asks nothing either.
   */
  lemma WantedIff(lower: char -> string, q: Option<string>, filters: Filters, locale: string, p: Product)
    ensures Wanted(lower, q, filters, locale, p) <==>
            && p.published
            && (filters.category.None? || filters.category.value == "" || filters.category.value == p.category)
            && (filters.manufacturer.None? || filters.manufacturer.value == ""
                || filters.manufacturer.value == p.manufacturer)
            && (filters.series.None? || filters.series.value == ""
                || (p.series.Some? && filters.series.value == p.series.value))
            && (q.None? || (forall c <- q.value :: IsSpace(c))
                || (locale in p.names && Contains(LowerAll(lower, p.names[locale]), LowerAll(lower, Trim(q.value))))
                || ("en" in p.names && Contains(LowerAll(lower, p.names["en"]), LowerAll(lower, Trim(q.value))))
                || (NormalizeModelQuery(lower, Trim(q.value)) != ""
                    && Contains(NormalizeModelQuery(lower, p.model), NormalizeModelQuery(lower, Trim(q.value)))))
  {
    if q.Some? {
      TrimmedIff(q.value);
      NameHoldsIff(lower, Trim(q.value), locale, p);
    }
  }

  lemma NameHoldsIff(lower: char -> string, q: string, locale: string, p: Product)
    ensures NameHolds(lower, q, locale, p) <==>
            || (locale in p.names && Contains(LowerAll(lower, p.names[locale]), LowerAll(lower, q)))
            || ("en" in p.names && Contains(LowerAll(lower, p.names["en"]), LowerAll(lower, q)))
  {
    assert locale in {locale, "en"} && "en" in {locale, "en"};
    if NameHolds(lower, q, locale, p) {
      var l :| l in {locale, "en"} && l in p.names && Contains(LowerAll(lower, p.names[l]), LowerAll(lower, q));
    }
  }

  /**
   * Exactly when a respelling of a fragment of its model finds a published product: whenever
   * something is left of the query when it is normalised, whenever the query is blank and so asks for
   * nothing, and otherwise - a fragment of nothing but punctuation - only through a shown name.
   */
  lemma FragmentFindsProductIff(lower: char -> string, p: Product, i: nat, j: nat, q: string, locale: string)
    requires p.published && i <= j <= |p.model| && Respells(lower, p.model[i..j], Trim(q))
    ensures Wanted(lower, Some(q), Filters(None, None, None), locale, p)
            <==> NormalizeModelQuery(lower, Trim(q)) != "" || Trim(q) == "" || NameHolds(lower, Trim(q), locale, p)
  {
    FragmentIsFound(lower, p.model, i, j, Trim(q));
    ModelArmIsSubstring(lower, p.model, Trim(q));
  }
}
