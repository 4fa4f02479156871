/**
 * Affiliate link rewriting: a retailer URL gets the partner's query parameter,
 * every other URL is left exactly as it was.
 */
module AffiliateConfig {
  import opened Wrappers
  import opened JsString

  /** The partner identifiers per retailer. */
  datatype AffiliateIds = AffiliateIds(amazon: string, walmart: string, target: string)

  /** The configured identifiers; the Target one is configured but no rule reads it. */
  const AFFILIATE_IDS: AffiliateIds := AffiliateIds("silversage-20", "1234567", "example_id")

  /** One name-value entry of a URL's query, as `URLSearchParams` lists them. */
  datatype QueryPair = QueryPair(name: string, value: string)

  /** A parsed URL: its components, with the query as the ordered list of its pairs. */
  datatype Url = Url(
    scheme: string,
    hostname: string,
    port: string,
    path: string,
    query: seq<QueryPair>,
    fragment: Option<string>)

  /**
   * The URL parser (`new URL(s)`, `None` when it throws) and the URL
   * serialiser (`toString()`), which the host platform supplies.
   */
  datatype UrlCodec = UrlCodec(parse: string -> Option<Url>, serialize: Url -> string)

  /**
   * A URL that the parser produced, with any list of query pairs put in,
   * is read back as the same record once serialised.
   */
  ghost predicate RoundTrips(codec: UrlCodec) {
    forall s, q :: codec.parse(s).Some? ==>
      codec.parse(codec.serialize(codec.parse(s).value.(query := q))) == Some(codec.parse(s).value.(query := q))
  }

  /** A URL that the parser produced, with any list of query pairs put in, spells out its hostname once serialised. */
  ghost predicate ShowsHost(codec: UrlCodec) {
    forall s, q :: codec.parse(s).Some? ==>
      Contains(codec.serialize(codec.parse(s).value.(query := q)), codec.parse(s).value.hostname)
  }

  /** The values of the pairs named `name`, in order: `searchParams.getAll(name)`. */
  function ValuesOf(q: seq<QueryPair>, name: string): (vs: seq<string>)
    ensures |vs| <= |q|
  {
    if q == [] then []
    else (if q[0].name == name then [q[0].value] else []) + ValuesOf(q[1..], name)
  }

  /** The pairs not named `name`, in order. */
  function Others(q: seq<QueryPair>, name: string): (r: seq<QueryPair>)
    ensures forall i :: 0 <= i < |r| ==> r[i].name != name
  {
    if q == [] then []
    else (if q[0].name != name then [q[0]] else []) + Others(q[1..], name)
  }

  /** Unfolding `ValuesOf` and `Others` one pair at the front. */
  lemma PairsCons(p: QueryPair, t: seq<QueryPair>, name: string)
    ensures ValuesOf([p] + t, name) == (if p.name == name then [p.value] else []) + ValuesOf(t, name)
    ensures Others([p] + t, name) == (if p.name != name then [p] else []) + Others(t, name)
  {
    assert ([p] + t)[1..] == t;
  }

  /** Pairs of one name removed: no value of that name is left, and removing again changes nothing. */
  lemma {:induction false} OthersHasNoValues(q: seq<QueryPair>, name: string)
    ensures ValuesOf(Others(q, name), name) == []
    ensures Others(Others(q, name), name) == Others(q, name)
  {
    if q != [] {
      OthersHasNoValues(q[1..], name);
      if q[0].name != name {
        assert Others(q, name) == [q[0]] + Others(q[1..], name);
        PairsCons(q[0], Others(q[1..], name), name);
      } else {
        assert Others(q, name) == Others(q[1..], name);
      }
    }
  }

  /**
   * `searchParams.set(name, value)` (section 6.2 of the WHATWG URL Standard):
   * the first pair named `name` takes the new value and any later ones are
   * removed; with no such pair, a new pair is appended. Either way `name`
   * then has exactly the one value, and every other pair stays in order.
   */
  function SetParam(q: seq<QueryPair>, name: string, value: string): (r: seq<QueryPair>)
    ensures ValuesOf(r, name) == [value]
    ensures Others(r, name) == Others(q, name)
  {
    if q == [] then
      PairsCons(QueryPair(name, value), [], name);
      [QueryPair(name, value)]
    else if q[0].name == name then
      PairsCons(QueryPair(name, value), Others(q[1..], name), name);
      OthersHasNoValues(q[1..], name);
      [QueryPair(name, value)] + Others(q[1..], name)
    else
      PairsCons(q[0], SetParam(q[1..], name, value), name);
      [q[0]] + SetParam(q[1..], name, value)
  }

  /** When `name` is present, `set` puts the pair where its first occurrence was and leaves the pairs before it alone. */
  lemma {:induction false} SetParamAtFirst(q: seq<QueryPair>, name: string, value: string, i: nat)
    requires i < |q| && q[i].name == name
    requires forall j :: 0 <= j < i ==> q[j].name != name
    ensures var r := SetParam(q, name, value);
      i < |r| && r[..i] == q[..i] && r[i] == QueryPair(name, value)
  {
    if i > 0 {
      var t := q[1..];
      assert q[0].name != name;
      assert forall j :: 0 <= j < i - 1 ==> t[j].name != name by {
        forall j | 0 <= j < i - 1 ensures t[j].name != name {
          assert t[j] == q[j + 1];
        }
      }
      assert t[i - 1] == q[i];
      SetParamAtFirst(t, name, value, i - 1);
      var rt := SetParam(t, name, value);
      var r := SetParam(q, name, value);
      assert r == [q[0]] + rt;
      assert r[..i] == [q[0]] + rt[..i - 1];
      assert q[..i] == [q[0]] + t[..i - 1];
      assert r[i] == rt[i - 1];
    } else {
      assert SetParam(q, name, value) == [QueryPair(name, value)] + Others(q[1..], name);
    }
  }

  /** When `name` is absent, `set` appends the pair at the end. */
  lemma {:induction false} SetParamAppends(q: seq<QueryPair>, name: string, value: string)
    requires forall j :: 0 <= j < |q| ==> q[j].name != name
    ensures SetParam(q, name, value) == q + [QueryPair(name, value)]
  {
    if q != [] {
      SetParamAppends(q[1..], name, value);
      assert q == [q[0]] + q[1..];
    }
  }

  /** Setting a parameter a second time to the same value changes nothing. */
  lemma {:induction false} SetParamIdempotent(q: seq<QueryPair>, name: string, value: string)
    ensures SetParam(SetParam(q, name, value), name, value) == SetParam(q, name, value)
  {
    if q == [] {
    } else if q[0].name == name {
      OthersUniform(Others(q[1..], name), name);
    } else {
      SetParamIdempotent(q[1..], name, value);
    }
  }

  /** A list none of whose pairs has that name keeps all of them. */
  lemma {:induction false} OthersUniform(q: seq<QueryPair>, name: string)
    requires forall i :: 0 <= i < |q| ==> q[i].name != name
    ensures Others(q, name) == q
  {
    if q != [] {
      OthersUniform(q[1..], name);
      assert q == [q[0]] + q[1..];
    }
  }

  /** The parameter a retailer's rule sets on URLs of its host; the Amazon rule is checked first. */
  function AffiliateParam(hostname: string): (p: Option<QueryPair>)
    ensures p.Some? <==> Contains(hostname, "amazon") || Contains(hostname, "walmart")
    ensures p.Some? ==> (p.value.name == "tag" <==> Contains(hostname, "amazon"))
    ensures p.Some? ==> p.value.value != ""
  {
    if Contains(hostname, "amazon") then Some(QueryPair("tag", AFFILIATE_IDS.amazon))
    else if Contains(hostname, "walmart") then Some(QueryPair("sourceid", AFFILIATE_IDS.walmart))
    else None
  }

  /** The parsed URL after its retailer's rule, if one applies. */
  function Rewrite(u: Url): (r: Option<Url>)
    ensures r.Some? <==> Contains(u.hostname, "amazon") || Contains(u.hostname, "walmart")
    ensures r.Some? ==> r.value == u.(query := r.value.query)
    ensures r.Some? ==> ValuesOf(r.value.query, AffiliateParam(u.hostname).value.name) == [AffiliateParam(u.hostname).value.value]
  {
    match AffiliateParam(u.hostname)
    case None => None
    case Some(p) => Some(u.(query := SetParam(u.query, p.name, p.value)))
  }

  /** `monetizeUrl(url)`: the serialised rewritten URL, or the input itself when it does not parse or no rule applies. */
  function MonetizeUrl(codec: UrlCodec, url: string): (r: string)
    ensures codec.parse(url).None? ==> r == url
    ensures r != url ==> codec.parse(url).Some? && Rewrite(codec.parse(url).value).Some?
  {
    match codec.parse(url)
    case None => url
    case Some(u) =>
      match Rewrite(u)
      case None => url
      case Some(v) => codec.serialize(v)
  }

  /** An unparseable URL comes back unchanged. */
  lemma MonetizeUnparseable(codec: UrlCodec, url: string)
    requires codec.parse(url).None?
    ensures MonetizeUrl(codec, url) == url
  {
  }

  /** A host matching neither retailer gets the exact input back, not a re-serialisation. */
  lemma MonetizeOtherHost(codec: UrlCodec, url: string, u: Url)
    requires codec.parse(url) == Some(u)
    requires !Contains(u.hostname, "amazon") && !Contains(u.hostname, "walmart")
    ensures MonetizeUrl(codec, url) == url
  {
  }

  /**
   * An Amazon URL comes back with `tag` set to the Amazon identifier and
   * nothing else changed: same components, same other pairs in the same
   * order, and in particular any `sourceid` untouched (the Walmart rule never
   * fires, even on a host that also contains "walmart").
   */
  lemma MonetizeAmazon(codec: UrlCodec, url: string, u: Url)
    requires RoundTrips(codec)
    requires codec.parse(url) == Some(u) && Contains(u.hostname, "amazon")
    ensures var m := codec.parse(MonetizeUrl(codec, url));
      && m.Some?
      && m.value == u.(query := m.value.query)
      && ValuesOf(m.value.query, "tag") == [AFFILIATE_IDS.amazon]
      && Others(m.value.query, "tag") == Others(u.query, "tag")
      && ValuesOf(m.value.query, "sourceid") == ValuesOf(u.query, "sourceid")
  {
    var q := SetParam(u.query, "tag", AFFILIATE_IDS.amazon);
    OthersKeepsValues(u.query, "tag", "sourceid");
    OthersKeepsValues(q, "tag", "sourceid");
  }

  /**
   * A Walmart URL (host without "amazon") comes back with `sourceid` set to
   * the Walmart identifier, everything else as it was.
   */
  lemma MonetizeWalmart(codec: UrlCodec, url: string, u: Url)
    requires RoundTrips(codec)
    requires codec.parse(url) == Some(u)
    requires !Contains(u.hostname, "amazon") && Contains(u.hostname, "walmart")
    ensures var m := codec.parse(MonetizeUrl(codec, url));
      && m.Some?
      && m.value == u.(query := m.value.query)
      && ValuesOf(m.value.query, "sourceid") == [AFFILIATE_IDS.walmart]
      && Others(m.value.query, "sourceid") == Others(u.query, "sourceid")
      && ValuesOf(m.value.query, "tag") == ValuesOf(u.query, "tag")
  {
    var q := SetParam(u.query, "sourceid", AFFILIATE_IDS.walmart);
    OthersKeepsValues(u.query, "sourceid", "tag");
    OthersKeepsValues(q, "sourceid", "tag");
  }

  /** Removing the pairs of one name keeps the values of every other name. */
  lemma {:induction false} OthersKeepsValues(q: seq<QueryPair>, name: string, other: string)
    requires name != other
    ensures ValuesOf(Others(q, name), other) == ValuesOf(q, other)
  {
    if q != [] {
      OthersKeepsValues(q[1..], name, other);
      if q[0].name != name {
        assert Others(q, name) == [q[0]] + Others(q[1..], name);
        PairsCons(q[0], Others(q[1..], name), other);
      } else {
        assert Others(q, name) == Others(q[1..], name);
      }
    }
  }

  /** Monetising a monetised URL gives the same URL: `set` overwrites instead of appending. */
  lemma MonetizeIdempotent(codec: UrlCodec, url: string)
    requires RoundTrips(codec)
    ensures MonetizeUrl(codec, MonetizeUrl(codec, url)) == MonetizeUrl(codec, url)
  {
    match codec.parse(url)
    case None =>
    case Some(u) =>
      match AffiliateParam(u.hostname)
      case None =>
      case Some(p) =>
        var v := u.(query := SetParam(u.query, p.name, p.value));
        assert codec.parse(codec.serialize(v)) == Some(v);
        SetParamIdempotent(u.query, p.name, p.value);
  }

  /** `isPreferredPartner(url)`: a substring test on the whole URL string, path and query included. */
  predicate IsPreferredPartner(url: string)
    ensures IsPreferredPartner(url) <==>
      exists i: nat :: OccursAt(url, "amazon", i) || OccursAt(url, "walmart", i)
  {
    ContainsIffOccurs(url, "amazon");
    ContainsIffOccurs(url, "walmart");
    Contains(url, "amazon") || Contains(url, "walmart")
  }

  /** A URL that a retailer rule rewrote is always a preferred partner. */
  lemma MonetizedIsPreferred(codec: UrlCodec, url: string, u: Url)
    requires ShowsHost(codec)
    requires codec.parse(url) == Some(u) && AffiliateParam(u.hostname).Some?
    ensures IsPreferredPartner(MonetizeUrl(codec, url))
  {
    var v := Rewrite(u).value;
    assert Contains(codec.serialize(v), v.hostname);
    if Contains(u.hostname, "amazon") {
      ContainsTransitive(codec.serialize(v), u.hostname, "amazon");
    } else {
      ContainsTransitive(codec.serialize(v), u.hostname, "walmart");
    }
  }

  /**
   * A URL on any other host that mentions a retailer anywhere (in its path,
   * say) is returned unchanged and still counts as preferred.
   */
  lemma PreferredWithoutRewrite(codec: UrlCodec, url: string, u: Url)
    requires codec.parse(url) == Some(u)
    requires !Contains(u.hostname, "amazon") && !Contains(u.hostname, "walmart")
    requires Contains(url, "amazon")
    ensures MonetizeUrl(codec, url) == url && IsPreferredPartner(MonetizeUrl(codec, url))
  {
  }
}
