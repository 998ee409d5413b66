/**
 * Merchant resolution for a request: the slug the routing layer forwarded in
 * `x-merchant-slug`, then the merchant row with that slug.
 */
module Merchants {
  import opened Wrappers
  import opened Text
  import Middleware

  datatype Merchant = Merchant(id: string, slug: string, name: string, tenantId: Option<string>)

  /** Why a merchant could not be resolved: no slug on the request, or no merchant for it (each a thrown error). */
  datatype MerchantError = SlugNotProvided | MerchantNotFound(slug: string)

  /**
   * The forwarded slug: absent when the header is missing, empty or white space only;
   * otherwise the header value as it is, not trimmed.
   */
  function SlugFromHeaders(headers: map<string, string>): (r: Option<string>)
    ensures r.Some? <==> Middleware.SlugHeader in headers && !Blank(headers[Middleware.SlugHeader])
    ensures r.Some? ==> r.value == headers[Middleware.SlugHeader]
  {
    if Middleware.SlugHeader in headers then
      var slug := headers[Middleware.SlugHeader];
      TrimEmptyIffBlank(slug);
      if slug != [] && |Trim(slug)| > 0 then Some(slug) else None
    else None
  }

  /** The rows of the merchants table whose slug is exactly `slug`, in table order. */
  function RowsWithSlug(rows: seq<Merchant>, slug: string): (ms: seq<Merchant>)
    ensures forall m :: m in ms <==> m in rows && m.slug == slug
    ensures |ms| <= |rows|
    ensures (forall i :: 0 <= i < |rows| ==> rows[i].slug != slug) ==> ms == []
  {
    if rows == [] then []
    else (if rows[0].slug == slug then [rows[0]] else []) + RowsWithSlug(rows[1..], slug)
  }

  /** The filter keeps every matching row as often as the table holds it, and no other row. */
  lemma {:induction false} RowsWithSlugCounts(rows: seq<Merchant>, slug: string)
    ensures forall m :: multiset(RowsWithSlug(rows, slug))[m] == if m.slug == slug then multiset(rows)[m] else 0
  {
    if rows != [] {
      assert rows == [rows[0]] + rows[1..];
      RowsWithSlugCounts(rows[1..], slug);
    }
  }

  /**
   * Lookup by slug with at-most-one-row semantics: the merchant when the query works and
   * exactly one row has the slug. Nothing when none does, when several do (the query then
   * fails), or when the query fails for any other reason: only the data is kept, the
   * error is dropped.
   */
  function MerchantBySlug(rows: seq<Merchant>, slug: string, lookupFails: bool): (r: Option<Merchant>)
    ensures r.Some? ==> r.value in rows && r.value.slug == slug
    ensures r.Some? <==> !lookupFails && |RowsWithSlug(rows, slug)| == 1
  {
    var ms := RowsWithSlug(rows, slug);
    if !lookupFails && |ms| == 1 then Some(ms[0]) else None
  }

  /** Slugs identify merchants: no two rows share one. */
  predicate UniqueSlugs(rows: seq<Merchant>) {
    forall i, j :: 0 <= i < j < |rows| ==> rows[i].slug != rows[j].slug
  }

  lemma {:induction false} RowsWithSlugUnique(rows: seq<Merchant>, slug: string)
    requires UniqueSlugs(rows)
    ensures |RowsWithSlug(rows, slug)| <= 1
  {
    if rows != [] {
      assert UniqueSlugs(rows[1..]) by {
        forall i, j | 0 <= i < j < |rows[1..]| ensures rows[1..][i].slug != rows[1..][j].slug {
          assert rows[1..][i] == rows[i + 1] && rows[1..][j] == rows[j + 1];
        }
      }
      RowsWithSlugUnique(rows[1..], slug);
      if rows[0].slug == slug {
        forall i | 0 <= i < |rows[1..]| ensures rows[1..][i].slug != slug {
          assert rows[1..][i] == rows[i + 1];
        }
      }
    }
  }

  /** With unique slugs, the lookup finds a merchant exactly when some row has the slug. */
  lemma MerchantFoundIffPresent(rows: seq<Merchant>, slug: string)
    requires UniqueSlugs(rows)
    ensures MerchantBySlug(rows, slug, false).Some? <==> exists m :: m in rows && m.slug == slug
  {
    RowsWithSlugUnique(rows, slug);
    var ms := RowsWithSlug(rows, slug);
    if exists m :: m in rows && m.slug == slug {
      var m :| m in rows && m.slug == slug;
      assert m in ms;
    }
  }

  /**
   * The merchant for the current request. No slug fails with `SlugNotProvided` without
   * consulting the table; a slug the lookup does not resolve (no row, several rows, or a
   * failed query) fails with `MerchantNotFound` naming it; a found merchant is the one row
   * holding the requested slug.
   */
  function RequireMerchant(headers: map<string, string>, rows: seq<Merchant>, lookupFails: bool)
    : (r: Result<Merchant, MerchantError>)
    ensures r == Failure(SlugNotProvided) <==> SlugFromHeaders(headers).None?
    ensures r.Failure? && r.error.MerchantNotFound? ==>
              SlugFromHeaders(headers) == Some(r.error.slug) && MerchantBySlug(rows, r.error.slug, lookupFails).None?
    ensures SlugFromHeaders(headers).Some? && MerchantBySlug(rows, SlugFromHeaders(headers).value, lookupFails).None? ==>
              r == Failure(MerchantNotFound(SlugFromHeaders(headers).value))
    ensures r.Success? ==>
              && r.value in rows && SlugFromHeaders(headers) == Some(r.value.slug)
              && MerchantBySlug(rows, r.value.slug, lookupFails) == Some(r.value)
              && |RowsWithSlug(rows, r.value.slug)| == 1
  {
    var slug := SlugFromHeaders(headers);
    if slug.None? then Failure(SlugNotProvided)
    else
      var m := MerchantBySlug(rows, slug.value, lookupFails);
      if m.None? then Failure(MerchantNotFound(slug.value)) else Success(m.value)
  }

  /** Without a slug the outcome does not depend on the merchants table: no lookup happens. */
  lemma NoSlugNoLookup(headers: map<string, string>, rows1: seq<Merchant>, fails1: bool,
                       rows2: seq<Merchant>, fails2: bool)
    requires SlugFromHeaders(headers).None?
    ensures RequireMerchant(headers, rows1, fails1) == RequireMerchant(headers, rows2, fails2)
  {
  }

  /**
   * Routing then resolution: after the request headers pass through the routing layer,
   * the slug read back is the one resolved from the host, provided it is not blank;
   * a blank or absent slug reads back as none, whatever slug header the client sent.
   */
  lemma ForwardedSlugReadBack(headers: map<string, string>, apex: string)
    ensures var slug := Middleware.SlugFromHost(
              if Middleware.HostHeader in headers then Some(headers[Middleware.HostHeader]) else None, apex);
            SlugFromHeaders(Middleware.Forward(headers, apex)) ==
              if slug.Some? && !Blank(slug.value) then slug else None
  {
  }

  /** A request to "{slug}.<apex>" resolves to the merchant holding that slug, when slugs are unique. */
  lemma SubdomainResolvesMerchant(headers: map<string, string>, apex: string, rows: seq<Merchant>, m: Merchant)
    requires IsLower(apex) && IsLower(m.slug) && !Blank(m.slug)
    requires Middleware.HostHeader in headers && headers[Middleware.HostHeader] == m.slug + "." + apex
    requires !Middleware.IsLocalDevHost(m.slug + "." + apex)
    requires UniqueSlugs(rows) && m in rows
    ensures RequireMerchant(Middleware.Forward(headers, apex), rows, false) == Success(m)
  {
    Middleware.ApexRoundTrip(m.slug, apex);
    ForwardedSlugReadBack(headers, apex);
    RowsWithSlugUnique(rows, m.slug);
    assert m in RowsWithSlug(rows, m.slug);
  }

  /**
   * A failed merchants query is indistinguishable from an unknown slug: even when the
   * merchant exists, the request fails with `MerchantNotFound`.
   */
  lemma LookupErrorReadsAsNotFound(headers: map<string, string>, rows: seq<Merchant>, m: Merchant)
    requires SlugFromHeaders(headers) == Some(m.slug) && m in rows
    ensures RequireMerchant(headers, rows, true) == Failure(MerchantNotFound(m.slug))
    ensures UniqueSlugs(rows) ==> RequireMerchant(headers, rows, false) == Success(m)
  {
    if UniqueSlugs(rows) {
      RowsWithSlugUnique(rows, m.slug);
      assert m in RowsWithSlug(rows, m.slug);
    }
  }

  /**
   * The slug that reaches the lookup through routing is always lower case, because the
   * host is lower-cased before the slug is cut from it while the lookup compares slugs
   * exactly. So a merchant whose slug holds an upper-case letter is never resolved
   * from a request that went through routing.
   */
  lemma RoutedMerchantHasLowerSlug(headers: map<string, string>, apex: string, rows: seq<Merchant>, lookupFails: bool)
    ensures var r := RequireMerchant(Middleware.Forward(headers, apex), rows, lookupFails);
            r.Success? ==> IsLower(r.value.slug)
  {
    var host := if Middleware.HostHeader in headers then Some(headers[Middleware.HostHeader]) else None;
    var slug := Middleware.SlugFromHost(host, apex);
    ForwardedSlugReadBack(headers, apex);
    if slug.Some? {
      LowerFacts(host.value);
      var h := Lower(host.value);
      assert h[..|slug.value|] == slug.value;
      assert forall i :: 0 <= i < |slug.value| ==> slug.value[i] == h[i];
    }
  }
}
