/**
 * Host-name routing: the request's `host` header is turned into a merchant slug,
 * which is forwarded to every downstream handler in the `x-merchant-slug` header.
 */
module Middleware {
  import opened Wrappers
  import opened Text

  /** The production apex used when no override is configured. */
  const DefaultApex: string := "merchantconsole.beachlifeapp.com"

  /** Local-development host patterns: `{slug}.lvh.me` and `{slug}.<ip>.nip.io`. */
  const LocalSuffix: string := ".lvh.me"
  const NipInfix: string := ".nip.io"

  /** Preview deployments: `{slug}.vercel.app`. */
  const PreviewSuffix: string := ".vercel.app"

  /** Header names, as the header map stores them (lower case). */
  const HostHeader: string := "host"
  const SlugHeader: string := "x-merchant-slug"

  /**
   * The base apex: the lower-cased override when one is configured and non-empty,
   * the production apex otherwise. It is never empty and never holds an upper-case letter.
   */
  function BaseApex(overrideApex: Option<string>): (apex: string)
    ensures apex != [] && IsLower(apex)
    ensures overrideApex.Some? && overrideApex.value != [] ==> apex == Lower(overrideApex.value)
    ensures overrideApex.None? || overrideApex.value == [] ==> apex == DefaultApex
  {
    LowerFacts(if overrideApex.Some? then overrideApex.value else []);
    if overrideApex.Some? && Lower(overrideApex.value) != [] then Lower(overrideApex.value)
    else DefaultApex
  }

  /** The local-development rule, tried before any apex rule. */
  predicate IsLocalDevHost(h: string) {
    EndsWith(h, LocalSuffix) || Contains(h, NipInfix)
  }

  /**
   * The slug for a host header, `None` for no slug. A missing or empty host has none;
   * whatever slug is found is a prefix of the lower-cased host.
   */
  function SlugFromHost(host: Option<string>, apex: string): (r: Option<string>)
    ensures host.None? || host.value == [] ==> r.None?
    ensures r.Some? ==> host.Some? && StartsWith(Lower(host.value), r.value)
  {
    if host.None? || host.value == [] then None
    else
      var h := Lower(host.value);
      if IsLocalDevHost(h) then Some(FirstLabel(h))
      else if h == apex then None
      else if EndsWith(h, "." + apex) then Some(h[..|h| - (|apex| + 1)])
      else if EndsWith(h, PreviewSuffix) then Some(FirstLabel(h))
      else None
  }

  /** Resolution ignores the case of the host. */
  lemma SlugIgnoresCase(host: string, apex: string)
    ensures SlugFromHost(Some(host), apex) == SlugFromHost(Some(Lower(host)), apex)
  {
    LowerFacts(host);
  }

  /** The local-development rule wins over every apex rule, whatever the apex. */
  lemma LocalDevRuleFirst(host: string, apex: string)
    requires IsLocalDevHost(Lower(host))
    ensures SlugFromHost(Some(host), apex) == Some(FirstLabel(Lower(host)))
    ensures '.' !in SlugFromHost(Some(host), apex).value
  {
    LowerFacts(host);
  }

  /** The bare apex, in any case, has no slug. */
  lemma BareApexHasNoSlug(host: string, apex: string)
    requires Lower(host) == apex && !IsLocalDevHost(apex)
    ensures SlugFromHost(Some(host), apex) == None
  {
    LowerFacts(host);
  }

  /** A host under the apex yields the whole prefix, dots included, and slug + "." + apex gives the host back. */
  lemma ApexSubdomainReconstructs(host: string, apex: string)
    requires !IsLocalDevHost(Lower(host)) && Lower(host) != apex && EndsWith(Lower(host), "." + apex)
    ensures SlugFromHost(Some(host), apex).Some?
    ensures SlugFromHost(Some(host), apex).value + "." + apex == Lower(host)
  {
    LowerFacts(host);
    var h := Lower(host);
    var n := |h| - (|apex| + 1);
    assert h == h[..n] + h[n..];
  }

  /** Round trip: a lower-case slug put in front of the apex is resolved back to itself. */
  lemma {:induction false} ApexRoundTrip(slug: string, apex: string)
    requires IsLower(slug) && IsLower(apex)
    requires !IsLocalDevHost(slug + "." + apex)
    ensures SlugFromHost(Some(slug + "." + apex), apex) == Some(slug)
  {
    var h := slug + "." + apex;
    assert IsLower(h) by {
      forall i | 0 <= i < |h| ensures !IsUpper(h[i]) {
        if i < |slug| { assert h[i] == slug[i]; }
        else if i == |slug| { assert h[i] == '.'; }
        else { assert h[i] == apex[i - |slug| - 1]; }
      }
    }
    LowerFacts(h);
    assert h[|h| - |"." + apex|..] == "." + apex;
    assert h != apex;
    assert h[..|h| - (|apex| + 1)] == slug;
  }

  /** A preview host not caught by an earlier rule yields its left-most label. */
  lemma PreviewHostFirstLabel(host: string, apex: string)
    requires !IsLocalDevHost(Lower(host)) && Lower(host) != apex && !EndsWith(Lower(host), "." + apex)
    requires EndsWith(Lower(host), PreviewSuffix)
    ensures SlugFromHost(Some(host), apex) == Some(FirstLabel(Lower(host)))
  {
    LowerFacts(host);
  }

  /** Every other host has no slug. */
  lemma OtherHostsHaveNoSlug(host: string, apex: string)
    requires !IsLocalDevHost(Lower(host)) && !EndsWith(Lower(host), "." + apex)
    requires !EndsWith(Lower(host), PreviewSuffix)
    ensures SlugFromHost(Some(host), apex) == None
  {
    LowerFacts(host);
  }

  /**
   * `endsWith(".lvh.me")` sees the port, so "foo.lvh.me:3000" does not take the
   * local-development rule and resolves to no slug under the production apex.
   */
  lemma LocalSuffixWithPortHasNoSlug(h: string)
    requires h == "foo.lvh.me:3000"
    ensures SlugFromHost(Some(h), DefaultApex) == None
  {
    assert IsLower(h);
    LowerFacts(h);
    assert !EndsWith(h, LocalSuffix) by {
      assert h[|h| - |LocalSuffix|..][0] == 'm' != LocalSuffix[0];
    }
    assert NipInfix[3] == 'p' && 'p' !in h;
    ContainedCharOccurs(h, NipInfix, 3);
    assert !EndsWith(h, "." + DefaultApex);
    assert !EndsWith(h, PreviewSuffix) by {
      assert |h| - |PreviewSuffix| == 4;
      assert h[4..][0] == 'l' != PreviewSuffix[0];
    }
    OtherHostsHaveNoSlug(h, DefaultApex);
  }

  /**
   * `includes(".nip.io")` does not care what follows the suffix, a port included:
   * "{slug}.127.0.0.1.nip.io:3000" resolves to its slug.
   */
  lemma NipHostYieldsFirstLabel(slug: string, rest: string, apex: string)
    requires '.' !in slug && Contains(Lower(rest), NipInfix)
    ensures SlugFromHost(Some(slug + "." + rest), apex) == Some(Lower(slug))
  {
    var host := slug + "." + rest;
    LowerConcat(slug + ".", rest);
    LowerConcat(slug, ".");
    assert Lower(".") == ".";
    ContainsAfterPrefix(Lower(slug) + ".", Lower(rest), NipInfix);
    assert '.' !in Lower(slug) by {
      forall i | 0 <= i < |slug| ensures Lower(slug)[i] != '.' {
        assert slug[i] != '.';
      }
    }
    FirstLabelOfDotted(Lower(slug), Lower(rest));
    LocalDevRuleFirst(host, apex);
  }

  /**
   * The request headers handed downstream: all incoming headers, with `x-merchant-slug`
   * set to the slug when it is non-empty and removed otherwise, so a client cannot smuggle one in.
   */
  function Forward(headers: map<string, string>, apex: string): (r: map<string, string>)
    ensures var slug := SlugFromHost(if HostHeader in headers then Some(headers[HostHeader]) else None, apex);
            && (SlugHeader in r <==> slug.Some? && slug.value != [])
            && (SlugHeader in r ==> r[SlugHeader] == slug.value)
    ensures forall k :: k in headers && k != SlugHeader ==> k in r && r[k] == headers[k]
    ensures forall k :: k in r && k != SlugHeader ==> k in headers
  {
    var slug := SlugFromHost(if HostHeader in headers then Some(headers[HostHeader]) else None, apex);
    if slug.Some? && slug.value != [] then headers[SlugHeader := slug.value]
    else headers - {SlugHeader}
  }
}
