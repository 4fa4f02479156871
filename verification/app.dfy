/**
 * The storefront's search and price-lookup logic: how the query sent to the
 * product search is resolved, when a filter change re-runs the search, and
 * the sequence of state updates around each call. The React state is a
 * class whose fields the handlers update; the awaited service call splits a
 * handler into the part before the await and the part after it.
 */
module App {
  import opened Wrappers
  import opened JsString
  import opened Types
  import opened AffiliateConfig
  import opened GeminiService

  /** The category selector: every category, or one. */
  datatype ActiveCategory = All | Only(category: Category)

  /** The broad query used when the user typed nothing and no category is chosen. */
  const DEFAULT_QUERY: string := "best products for aging parents"

  /** The query a filter change sends while the gift guide is selected. */
  const HOLIDAY_REFRESH_QUERY: string := "Black Friday gifts for grandparents"

  /** `categoryFilter`: no filter for 'All', the chosen category otherwise. */
  function CategoryFilter(active: ActiveCategory): (f: Option<Category>)
    ensures f.None? <==> active == All
    ensures active.Only? ==> f == Some(active.category)
  {
    match active
    case All => None
    case Only(c) => Some(c)
  }

  /**
   * `actualQuery`: a typed query is sent as it is; an empty one becomes
   * "best <category> products", or the default query when there is no filter.
   */
  function ResolveQuery(query: string, filter: Option<Category>): (r: string)
    ensures r != ""
    ensures query != "" ==> r == query
  {
    if query != "" then query
    else
      match filter
      case Some(c) => "best " + CategoryName(c) + " products"
      case None => DEFAULT_QUERY
  }

  /** The display name of a filter, as `getCuratedProducts` receives it. */
  function FilterName(filter: Option<Category>): (name: Option<string>)
    ensures name.Some? <==> filter.Some?
    ensures name.Some? ==> name.value != ""
    ensures filter == Some(Holiday) <==> name.Some? && Contains(name.value, "Holiday")
  {
    match filter
    case None => None
    case Some(c) =>
      HolidayCategoryOnly(c);
      Some(CategoryName(c))
  }

  /** What `handleSearch` asks `getCuratedProducts` for. */
  datatype ProductRequest = ProductRequest(query: string, region: Region, category: Option<Category>, holidayContext: bool)

  /** The request `handleSearch(query)` makes with the current category and region. */
  function SearchRequest(query: string, active: ActiveCategory, region: Region): (req: ProductRequest)
    ensures req.query != "" && req.region == region
    ensures req.category == CategoryFilter(active)
  {
    var filter := CategoryFilter(active);
    var q := ResolveQuery(query, filter);
    ProductRequest(q, region, filter, IsHolidayContext(q, FilterName(filter)))
  }

  /** An empty query resolves to the category query, or to the default one under 'All'. */
  lemma EmptyQueryDefaults(active: ActiveCategory, region: Region)
    ensures active == All ==> SearchRequest("", active, region).query == DEFAULT_QUERY
    ensures active.Only? ==>
      SearchRequest("", active, region).query == "best " + CategoryName(active.category) + " products"
  {
  }

  /** The filter-change effect searches only when products are shown and no query is typed. */
  predicate ShouldRefresh(products: seq<Product>, searchQuery: string)
    ensures searchQuery != "" ==> !ShouldRefresh(products, searchQuery)
    ensures products == [] ==> !ShouldRefresh(products, searchQuery)
  {
    |products| > 0 && searchQuery == ""
  }

  /** The query the filter-change effect passes to `handleSearch`. */
  function RefreshQuery(active: ActiveCategory): (q: string)
    ensures q != "" <==> active == Only(Holiday)
  {
    if active == Only(Holiday) then HOLIDAY_REFRESH_QUERY else ""
  }

  /**
   * What a refresh finally asks for: the gift-guide query with the holiday
   * flag under the gift guide, the default query without a filter under
   * 'All', and the category query for any other category, where the category
   * itself does not set the holiday flag.
   */
  lemma RefreshRequestResolved(active: ActiveCategory, region: Region)
    ensures var req := SearchRequest(RefreshQuery(active), active, region);
      && (active == Only(Holiday) ==>
            req == ProductRequest(HOLIDAY_REFRESH_QUERY, region, Some(Holiday), true))
      && (active == All ==> req.query == DEFAULT_QUERY && req.category == None)
      && (active.Only? && active.category != Holiday ==>
            && req.query == "best " + CategoryName(active.category) + " products"
            && req.category == Some(active.category)
            && req.holidayContext == (Contains(ToLower(req.query), "black friday") || Contains(ToLower(req.query), "gift")))
  {
    match active
    case All =>
    case Only(c) =>
      HolidayCategoryOnly(c);
      if c == Holiday {
        PrefixContained(CategoryName(c), "Holiday");
      }
  }

  /** What `handleFindPrice` asks `getBuyingOptions` for. */
  datatype PriceRequest = PriceRequest(lookup: string, region: Region)

  /** The lookup string: brand, one space, name. */
  function LookupString(p: Product): (s: string)
    ensures StartsWith(s, p.brand) && EndsWith(s, p.name)
    ensures |s| == |p.brand| + 1 + |p.name| && s[|p.brand|] == ' '
  {
    p.brand + " " + p.name
  }

  /** The component's state. */
  class AppState {
    var region: Region
    var searchQuery: string
    var activeCategory: ActiveCategory
    var products: seq<Product>
    var loading: bool
    var selectedProduct: Option<Product>
    var buyingOptions: seq<BuyingOption>
    var findingOptions: bool

    /** The initial state of every `useState` hook. */
    constructor ()
      ensures region == US && searchQuery == "" && activeCategory == All
      ensures products == [] && !loading
      ensures selectedProduct == None && buyingOptions == [] && !findingOptions
    {
      region := US;
      searchQuery := "";
      activeCategory := All;
      products := [];
      loading := false;
      selectedProduct := None;
      buyingOptions := [];
      findingOptions := false;
    }

    /** The search box's change handler. */
    method SetSearchQuery(q: string)
      modifies this`searchQuery
      ensures searchQuery == q
    {
      searchQuery := q;
    }

    /** `handleSearch` up to the await: loading is set and the request is formed. */
    method BeginSearch(query: string) returns (request: ProductRequest)
      modifies this`loading
      ensures loading
      ensures request == SearchRequest(query, activeCategory, region)
    {
      loading := true;
      request := SearchRequest(query, activeCategory, region);
    }

    /** `handleSearch` after the await: results replace the products; loading ends either way. */
    method CompleteSearch(outcome: Result<seq<Product>>)
      modifies this`loading, this`products
      ensures !loading
      ensures products == if outcome.Ok? then outcome.value else old(products)
    {
      if outcome.Ok? {
        products := outcome.value;
      }
      loading := false;
    }

    /** `handleSearch(query)` with the service's answer as input; the service never throws. */
    method HandleSearch(query: string, response: TextResponse,
                        decode: string -> Option<seq<Product>>, encode: string -> Option<string>)
      returns (request: ProductRequest)
      modifies this`loading, this`products
      ensures request == SearchRequest(query, activeCategory, region)
      ensures products == CuratedProducts(response, decode, encode)
      ensures !loading
    {
      request := BeginSearch(query);
      var results := CuratedProducts(response, decode, encode);
      CompleteSearch(Ok(results));
    }

    /**
     * A region or category selection followed by the filter-change effect:
     * the effect runs only when a value changed, and then searches only when
     * products are shown and no query is typed.
     */
    method ChangeFilters(newRegion: Region, newCategory: ActiveCategory, response: TextResponse,
                         decode: string -> Option<seq<Product>>, encode: string -> Option<string>)
      returns (request: Option<ProductRequest>)
      modifies this`region, this`activeCategory, this`loading, this`products
      ensures region == newRegion && activeCategory == newCategory
      ensures request ==
        if (newRegion != old(region) || newCategory != old(activeCategory)) && ShouldRefresh(old(products), searchQuery)
        then Some(SearchRequest(RefreshQuery(newCategory), newCategory, newRegion))
        else None
      ensures request.Some? ==> products == CuratedProducts(response, decode, encode) && !loading
      ensures request.None? ==> products == old(products) && loading == old(loading)
    {
      var changed := newRegion != region || newCategory != activeCategory;
      region := newRegion;
      activeCategory := newCategory;
      if changed && ShouldRefresh(products, searchQuery) {
        var r := HandleSearch(RefreshQuery(activeCategory), response, decode, encode);
        request := Some(r);
      } else {
        request := None;
      }
    }

    /** `handleFindPrice` up to the await: the product is selected, the spinner on, old options cleared. */
    method BeginFindPrice(product: Product) returns (request: PriceRequest)
      modifies this`selectedProduct, this`findingOptions, this`buyingOptions
      ensures selectedProduct == Some(product) && findingOptions && buyingOptions == []
      ensures request == PriceRequest(LookupString(product), region)
    {
      selectedProduct := Some(product);
      findingOptions := true;
      buyingOptions := [];
      request := PriceRequest(LookupString(product), region);
    }

    /** `handleFindPrice` after the await: the options are shown; the spinner stops either way. */
    method CompleteFindPrice(outcome: Result<seq<BuyingOption>>)
      modifies this`findingOptions, this`buyingOptions
      ensures !findingOptions
      ensures buyingOptions == if outcome.Ok? then outcome.value else old(buyingOptions)
    {
      if outcome.Ok? {
        buyingOptions := outcome.value;
      }
      findingOptions := false;
    }

    /** `handleFindPrice(product)` with the grounded answer as input. */
    method HandleFindPrice(product: Product, codec: UrlCodec, response: GroundingResponse)
      returns (request: PriceRequest)
      modifies this`selectedProduct, this`findingOptions, this`buyingOptions
      ensures request == PriceRequest(LookupString(product), region)
      ensures selectedProduct == Some(product) && !findingOptions
      ensures buyingOptions == BuyingOptionsFor(codec, response) && |buyingOptions| <= 4
    {
      request := BeginFindPrice(product);
      var options := GetBuyingOptions(codec, response);
      CompleteFindPrice(Ok(options));
    }
  }
}
