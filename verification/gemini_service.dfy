/**
 * Post-processing of the hosted model's answers: code-fence stripping, the
 * holiday-context flag, locally derived product images, and the buying-option
 * pipeline (filter grounding chunks, monetise, rank partners first, keep 4).
 * The remote call itself is an input: its text, its grounding chunks, or its
 * failure.
 */
module GeminiService {
  import opened Wrappers
  import opened JsString
  import opened JsArray
  import opened Types
  import opened AffiliateConfig

  /** `r` is the slice `t[a..b]` of `t`. */
  predicate IsSliceAt(t: string, a: nat, b: nat, r: string) {
    a <= b <= |t| && r == t[a..b]
  }

  /** `.replace(/```$/, '')`: removes one fence at the very end, if there is one. */
  function StripTrailingFence(s: string): (r: string)
    ensures IsSliceAt(s, 0, |r|, r)
    ensures EndsWith(s, "```") ==> |r| == |s| - 3
    ensures !EndsWith(s, "```") ==> r == s
  {
    if EndsWith(s, "```") then s[..|s| - 3] else s
  }

  /**
   * The fence removal applied to already trimmed text: a leading "```json"
   * (tried first) or "```", then one trailing "```". The result is a slice of
   * the text it is given.
   */
  function StripFences(t: string): (r: string)
    ensures exists a: nat, b: nat :: IsSliceAt(t, a, b, r)
  {
    if StartsWith(t, "```json") then
      var r := StripTrailingFence(t[7..]);
      assert IsSliceAt(t, 7, 7 + |r|, r);
      r
    else if StartsWith(t, "```") then
      var r := StripTrailingFence(t[3..]);
      assert IsSliceAt(t, 3, 3 + |r|, r);
      r
    else
      assert IsSliceAt(t, 0, |t|, t);
      t
  }

  /**
   * `cleanJsonOutput(text)`: the trimmed text with its fences removed. The
   * result is a slice of the trimmed text, so never longer than the input,
   * and it is not trimmed again.
   */
  function CleanJsonOutput(text: string): (r: string)
    ensures exists a: nat, b: nat :: IsSliceAt(Trim(text), a, b, r)
    ensures |r| <= |text|
  {
    StripFences(Trim(text))
  }

  /** Text whose trimmed form opens with no fence comes back trimmed and otherwise untouched. */
  lemma CleanUnfenced(text: string)
    requires !StartsWith(Trim(text), "```")
    ensures CleanJsonOutput(text) == Trim(text)
  {
  }

  /** Text wrapped in fences is its own trim. */
  lemma FencedIsTrimmed(s: string)
    requires |s| >= 3 && s[0] == '`' && s[|s| - 1] == '`'
    ensures CleanJsonOutput(s) == StripFences(s)
  {
    TrimNoop(s);
  }

  /** A body wrapped in "```json" and "```" comes back exactly. */
  lemma CleanJsonFence(body: string)
    ensures CleanJsonOutput("```json" + body + "```") == body
  {
    var tail := body + "```";
    var s := "```json" + tail;
    assert s == "```json" + body + "```";
    FencedIsTrimmed(s);
    ConcatParts("```json", tail);
    ConcatParts(body, "```");
    assert StripFences(s) == StripTrailingFence(tail);
  }

  /** "```" followed by a string not starting with "json" does not start with "```json". */
  lemma NoJsonTag(body: string)
    requires !StartsWith(body, "json")
    ensures !StartsWith("```" + body + "```", "```json")
  {
    var s := "```" + body + "```";
    if |body| >= 4 {
      assert s[3..7] == body[..4];
    } else {
      assert s[3 + |body|] == '`' && "```json"[3 + |body|] != '`';
    }
  }

  /** A body wrapped in bare fences comes back exactly, unless it starts with "json". */
  lemma CleanPlainFence(body: string)
    requires !StartsWith(body, "json")
    ensures CleanJsonOutput("```" + body + "```") == body
  {
    var tail := body + "```";
    var s := "```" + tail;
    assert s == "```" + body + "```";
    FencedIsTrimmed(s);
    NoJsonTag(body);
    ConcatParts("```", tail);
    ConcatParts(body, "```");
    assert StripFences(s) == StripTrailingFence(tail);
  }

  /** Only one trailing fence is removed. */
  lemma CleanOneTrailingFence(body: string)
    ensures CleanJsonOutput("```json" + body + "``````") == body + "```"
  {
    var tail := (body + "```") + "```";
    var s := "```json" + tail;
    assert s == "```json" + body + "``````";
    FencedIsTrimmed(s);
    ConcatParts("```json", tail);
    ConcatParts(body + "```", "```");
    assert StripFences(s) == StripTrailingFence(tail);
  }

  /** What is left between the fences is not trimmed again. */
  lemma CleanNotRetrimmed(body: string)
    ensures CleanJsonOutput("```json\n" + body + "\n```") == "\n" + body + "\n"
  {
    var inner := "\n" + body + "\n";
    var tail := inner + "```";
    var s := "```json" + tail;
    assert s == "```json\n" + body + "\n```";
    FencedIsTrimmed(s);
    ConcatParts("```json", tail);
    ConcatParts(inner, "```");
    assert StripFences(s) == StripTrailingFence(tail);
  }

  /** A "```json" opening with no closing fence is removed on its own. */
  lemma CleanLeadingOnly(body: string)
    requires body != [] && !IsJsWhitespace(body[|body| - 1])
    requires !EndsWith(body, "```")
    ensures CleanJsonOutput("```json" + body) == body
  {
    TrimNoop("```json" + body);
    ConcatParts("```json", body);
  }

  /**
   * `isHolidayContext`: the category mentions "Holiday", or the ASCII
   * lower-cased query mentions "black friday" or "gift". A missing category
   * counts as no match.
   */
  predicate IsHolidayContext(query: string, category: Option<string>)
    ensures category == Some(CategoryName(Holiday)) ==> IsHolidayContext(query, category)
    ensures Contains(query, "gift") ==> IsHolidayContext(query, category)
  {
    PrefixContained(CategoryName(Holiday), "Holiday");
    assert ToLower("gift") == "gift";
    ContainsLowered(query, "gift");
    (category.Some? && Contains(category.value, "Holiday"))
    || Contains(ToLower(query), "black friday")
    || Contains(ToLower(query), "gift")
  }

  /** The holiday flag does not depend on the letter case of the query. */
  lemma HolidayIgnoresCase(query: string, category: Option<string>)
    ensures IsHolidayContext(query, category) == IsHolidayContext(ToLower(query), category)
  {
    ToLowerIdempotent(query);
  }

  /** A query mentioning "gift" or "black friday" in any letter case sets the flag, whatever the category. */
  lemma HolidayAnyCase(query: string, word: string, category: Option<string>)
    requires Contains(query, word)
    requires ToLower(word) == "gift" || ToLower(word) == "black friday"
    ensures IsHolidayContext(query, category)
  {
    ContainsLowered(query, word);
  }

  /** No category name but the gift guide's has the letter 'd', so none of them mentions "Holiday". */
  lemma OtherCategoryNotHoliday(c: Category)
    requires c != Holiday
    ensures !Contains(CategoryName(c), "Holiday")
  {
    var name := CategoryName(c);
    assert 'd' !in name;
    assert 'd' in "Holiday";
    MissingCharNotContained(name, "Holiday", 'd');
  }

  /** Of the catalogue's categories only the gift guide turns the flag on by itself. */
  lemma HolidayCategoryOnly(c: Category)
    ensures Contains(CategoryName(c), "Holiday") <==> c == Holiday
  {
    if c == Holiday {
      PrefixContained(CategoryName(c), "Holiday");
    } else {
      OtherCategoryNotHoliday(c);
    }
  }

  /** The picture address derived from an encoded product name. */
  function ImageUrlFor(encodedName: string): string {
    "https://picsum.photos/seed/" + encodedName + "/400/400"
  }

  /**
   * The product mapping: every product keeps all its fields but `imageUrl`,
   * which is overwritten with a picture derived from the name alone. The
   * name encoder (`encodeURIComponent`) may throw (`None`), and then the
   * whole mapping throws.
   */
  function WithImages(ps: seq<Product>, encode: string -> Option<string>): (r: Result<seq<Product>>)
    ensures r.Ok? <==> forall i :: 0 <= i < |ps| ==> encode(ps[i].name).Some?
    ensures r.Ok? ==> |r.value| == |ps|
    ensures r.Ok? ==> forall i :: 0 <= i < |ps| ==>
      r.value[i] == ps[i].(imageUrl := Some(ImageUrlFor(encode(ps[i].name).value)))
  {
    if ps == [] then Ok([])
    else
      match encode(ps[0].name)
      case None => Threw
      case Some(e) =>
        match WithImages(ps[1..], encode)
        case Threw => Threw
        case Ok(rest) => Ok([ps[0].(imageUrl := Some(ImageUrlFor(e)))] + rest)
  }

  /** Two products with the same name get the same picture, whatever else differs. */
  lemma ImageDependsOnlyOnName(ps: seq<Product>, encode: string -> Option<string>, i: nat, j: nat)
    requires WithImages(ps, encode).Ok?
    requires i < |ps| && j < |ps| && ps[i].name == ps[j].name
    ensures WithImages(ps, encode).value[i].imageUrl == WithImages(ps, encode).value[j].imageUrl
  {
  }

  /** The answer of a JSON-mode call: it failed, or it carries text that may be missing. */
  datatype TextResponse = TextFailed | TextAnswered(text: Option<string>)

  /**
   * `getCuratedProducts` after the call: no text or empty text gives [];
   * otherwise the cleaned text is parsed (`decode`: `JSON.parse` of an array
   * of product-shaped objects, `None` when it throws or the value is not an
   * array) and mapped to products with derived pictures (`WithImages`), which
   * throws when a name cannot be encoded. Every failure gives [].
   */
  function CuratedProducts(response: TextResponse, decode: string -> Option<seq<Product>>,
                           encode: string -> Option<string>): (r: seq<Product>)
    ensures response.TextFailed? ==> r == []
    ensures response.TextAnswered? && (response.text == None || response.text == Some("")) ==> r == []
    ensures response.TextAnswered? && response.text.Some? && response.text.value != "" ==>
      match decode(CleanJsonOutput(response.text.value))
      case None => r == []
      case Some(ps) =>
        && ((exists i :: 0 <= i < |ps| && encode(ps[i].name).None?) ==> r == [])
        && ((forall i :: 0 <= i < |ps| ==> encode(ps[i].name).Some?) ==>
              && |r| == |ps|
              && forall i :: 0 <= i < |ps| ==>
                   r[i] == ps[i].(imageUrl := Some(ImageUrlFor(encode(ps[i].name).value))))
  {
    match response
    case TextFailed => []
    case TextAnswered(None) => []
    case TextAnswered(Some(t)) =>
      if t == "" then []
      else
        match decode(CleanJsonOutput(t))
        case None => []
        case Some(ps) =>
          match WithImages(ps, encode)
          case Threw => []
          case Ok(r) => r
  }

  /**
   * A JSON body arrives the same whether it is sent bare or wrapped in a
   * "```json" fence, as long as it has no surrounding whitespace and does not
   * itself open with a fence.
   */
  lemma FencedEqualsBare(body: string, decode: string -> Option<seq<Product>>, encode: string -> Option<string>)
    requires body != "" && !IsJsWhitespace(body[0]) && !IsJsWhitespace(body[|body| - 1])
    requires !StartsWith(body, "```")
    ensures CuratedProducts(TextAnswered(Some("```json" + body + "```")), decode, encode)
         == CuratedProducts(TextAnswered(Some(body)), decode, encode)
  {
    CleanJsonFence(body);
    TrimNoop(body);
    CleanUnfenced(body);
  }

  /** The web source of a grounding chunk; either field may be missing. */
  datatype WebSource = WebSource(uri: Option<string>, title: Option<string>)

  /** A grounding chunk; its web source may be missing. */
  datatype GroundingChunk = GroundingChunk(web: Option<WebSource>)

  /** The answer of a search-grounded call: it failed, or it carries chunks that may be missing. */
  datatype GroundingResponse = SearchFailed | Grounded(chunks: Option<seq<GroundingChunk>>)

  /** `chunk.web?.uri && chunk.web?.title`: both present and non-empty (empty strings are falsy). */
  predicate Usable(ch: GroundingChunk) {
    && ch.web.Some?
    && ch.web.value.uri.Some? && ch.web.value.uri.value != ""
    && ch.web.value.title.Some? && ch.web.value.title.value != ""
  }

  /**
   * The option pushed for a usable chunk: its title, its monetised URL, and
   * as source the hostname of the raw URL with the first "www." removed.
   * Parsing the raw URL for its hostname throws when the URL does not parse.
   */
  function OptionFor(codec: UrlCodec, ch: GroundingChunk): (r: Result<BuyingOption>)
    requires Usable(ch)
    ensures r.Threw? <==> codec.parse(ch.web.value.uri.value).None?
    ensures r.Ok? ==> r.value.title == ch.web.value.title.value != ""
    ensures r.Ok? ==> r.value.url == MonetizeUrl(codec, ch.web.value.uri.value)
    ensures r.Ok? ==> r.value.source == ReplaceFirst(codec.parse(ch.web.value.uri.value).value.hostname, "www.", "")
  {
    var uri := ch.web.value.uri.value;
    match codec.parse(uri)
    case None => Threw
    case Some(u) => Ok(BuyingOption(ch.web.value.title.value, MonetizeUrl(codec, uri), ReplaceFirst(u.hostname, "www.", "")))
  }

  /** The options that the `forEach` loop has pushed after the chunks `cs`, or the exception it threw. */
  function Collected(codec: UrlCodec, cs: seq<GroundingChunk>): (r: Result<seq<BuyingOption>>)
    ensures r.Ok? ==> |r.value| <= |cs|
    ensures r.Ok? ==> forall k :: 0 <= k < |r.value| ==> r.value[k].title != ""
  {
    if cs == [] then Ok([])
    else
      var last := cs[|cs| - 1];
      match Collected(codec, cs[..|cs| - 1])
      case Threw => Threw
      case Ok(acc) =>
        if !Usable(last) then Ok(acc)
        else
          match OptionFor(codec, last)
          case Threw => Threw
          case Ok(o) => Ok(acc + [o])
  }

  /** Once the loop has thrown, later chunks do not matter. */
  lemma {:induction false} CollectedThrewStays(codec: UrlCodec, cs: seq<GroundingChunk>, n: nat)
    requires n <= |cs| && Collected(codec, cs[..n]).Threw?
    ensures Collected(codec, cs).Threw?
    decreases |cs| - n
  {
    if n < |cs| {
      assert cs[..n + 1][..n] == cs[..n];
      CollectedThrewStays(codec, cs, n + 1);
    } else {
      assert cs[..n] == cs;
    }
  }

  /** The raw URL of a usable chunk does not parse. */
  predicate Unparseable(codec: UrlCodec, ch: GroundingChunk) {
    Usable(ch) && codec.parse(ch.web.value.uri.value).None?
  }

  /**
   * The loop throws exactly when some usable chunk has an unparseable URL;
   * otherwise it yields one option per usable chunk, in chunk order.
   */
  lemma {:induction false} CollectedSpec(codec: UrlCodec, cs: seq<GroundingChunk>)
    ensures Collected(codec, cs).Threw? <==> exists k :: 0 <= k < |cs| && Unparseable(codec, cs[k])
    ensures Collected(codec, cs).Ok? ==>
      var us := Select(cs, Usable, true);
      && |Collected(codec, cs).value| == |us|
      && forall k :: 0 <= k < |us| ==> OptionFor(codec, us[k]) == Ok(Collected(codec, cs).value[k])
  {
    if cs != [] {
      var init, last := cs[..|cs| - 1], cs[|cs| - 1];
      CollectedSpec(codec, init);
      assert cs == init + [last];
      SelectAppend(init, [last], Usable, true);
      assert forall k :: 0 <= k < |init| ==> init[k] == cs[k];
      if Collected(codec, cs).Threw? && !Collected(codec, init).Threw? {
        assert Unparseable(codec, cs[|cs| - 1]);
      }
      if exists k :: 0 <= k < |cs| && Unparseable(codec, cs[k]) {
        var k :| 0 <= k < |cs| && Unparseable(codec, cs[k]);
        if k < |init| {
          assert Unparseable(codec, init[k]);
        }
      }
    }
  }

  /**
   * The `forEach` loop of `getBuyingOptions`: pushes an option for each usable
   * chunk, in order, and stops by throwing at the first usable chunk whose raw
   * URL does not parse.
   */
  method CollectOptions(codec: UrlCodec, chunks: seq<GroundingChunk>) returns (r: Result<seq<BuyingOption>>)
    ensures r == Collected(codec, chunks)
  {
    var options: seq<BuyingOption> := [];
    var i := 0;
    while i < |chunks|
      invariant 0 <= i <= |chunks|
      invariant Collected(codec, chunks[..i]) == Ok(options)
    {
      var chunk := chunks[i];
      assert chunks[..i + 1][..i] == chunks[..i];
      if Usable(chunk) {
        var rawUrl := chunk.web.value.uri.value;
        var monetized := MonetizeUrl(codec, rawUrl);
        match codec.parse(rawUrl)
        case None =>
          CollectedThrewStays(codec, chunks, i + 1);
          return Threw;
        case Some(u) =>
          options := options + [BuyingOption(chunk.web.value.title.value, monetized, ReplaceFirst(u.hostname, "www.", ""))];
      }
      i := i + 1;
    }
    assert chunks[..i] == chunks;
    r := Ok(options);
  }

  /** The ranking key: whether an option's (monetised) URL is a preferred partner. */
  predicate PreferredOption(o: BuyingOption) {
    IsPreferredPartner(o.url)
  }

  /** The sort and `slice(0, 4)` applied to the collected options. */
  function Ranked(options: seq<BuyingOption>): (r: seq<BuyingOption>)
    ensures |r| == if |options| < 4 then |options| else 4
    ensures forall i, j :: 0 <= i < j < |r| && PreferredOption(r[j]) ==> PreferredOption(r[i])
    ensures forall k :: 0 <= k < |r| ==> r[k] in options
  {
    TopPreferred(options, PreferredOption, 4);
    Take(SortByPreference(options, PreferredOption), 4)
  }

  /** `getBuyingOptions` after the call: [] on any failure, else the ranked options. */
  function BuyingOptionsFor(codec: UrlCodec, response: GroundingResponse): (r: seq<BuyingOption>)
    ensures |r| <= 4
    ensures forall i, j :: 0 <= i < j < |r| && PreferredOption(r[j]) ==> PreferredOption(r[i])
    ensures forall k :: 0 <= k < |r| ==> r[k].title != ""
    ensures response.SearchFailed? || response == Grounded(None) ==> r == []
  {
    match response
    case SearchFailed => []
    case Grounded(None) => []
    case Grounded(Some(chunks)) =>
      match Collected(codec, chunks)
      case Threw => []
      case Ok(options) => Ranked(options)
  }

  /**
   * `getBuyingOptions`: at most 4 options, every preferred one before every
   * other one, each group in chunk order.
   */
  method GetBuyingOptions(codec: UrlCodec, response: GroundingResponse) returns (r: seq<BuyingOption>)
    ensures r == BuyingOptionsFor(codec, response)
    ensures |r| <= 4
    ensures forall i, j :: 0 <= i < j < |r| && PreferredOption(r[j]) ==> PreferredOption(r[i])
  {
    match response
    case SearchFailed => return [];
    case Grounded(None) => return [];
    case Grounded(Some(chunks)) =>
      var collected := CollectOptions(codec, chunks);
      match collected
      case Threw => return [];
      case Ok(options) =>
        r := Ranked(options);
  }

  /** A single usable chunk whose URL does not parse empties the whole result. */
  lemma BadUriEmptiesResult(codec: UrlCodec, chunks: seq<GroundingChunk>, k: nat)
    requires k < |chunks| && Unparseable(codec, chunks[k])
    ensures BuyingOptionsFor(codec, Grounded(Some(chunks))) == []
  {
    CollectedSpec(codec, chunks);
  }

  /** With at least 4 preferred options, only preferred options are returned, the first 4 in chunk order. */
  lemma PreferredCrowdOut(options: seq<BuyingOption>)
    requires |Select(options, PreferredOption, true)| >= 4
    ensures Ranked(options) == Select(options, PreferredOption, true)[..4]
    ensures forall o :: o in Ranked(options) ==> PreferredOption(o)
  {
    SortedPrefix(options, PreferredOption, 4);
  }

  /** With fewer than 4 preferred options, all of them come first, then the earliest others. */
  lemma PreferredThenOthers(options: seq<BuyingOption>)
    requires |Select(options, PreferredOption, true)| < 4
    ensures Ranked(options) == Select(options, PreferredOption, true)
      + Take(Select(options, PreferredOption, false), 4 - |Select(options, PreferredOption, true)|)
  {
    SortedPrefix(options, PreferredOption, 4);
  }
}
