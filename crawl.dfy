/** The page loop of `scrape_mercado_libre` (main.py): page URLs, the
    order in which a fetched page is judged terminal, and the accumulation
    of the items kept from each page. The network and the HTML parser are
    abstracted: the site is the sequence of outcomes of fetching pages
    1, 2, 3, ... */
module Crawl {
  import opened Text
  import opened Listings

  const BaseUrl := "https://listado.mercadolibre.com.ar/"
  const PageSize := 48

  /** The listing offset of page `page`: 1, 49, 97, ... */
  function Offset(page: nat): (r: int)
    requires page >= 1
    ensures r >= 1 && (r - 1) % PageSize == 0
  {
    (page - 1) * PageSize + 1
  }

  /** The URL fetched for page `page` of a search. */
  function PageUrl(term: string, page: nat): string
    requires page >= 1
  {
    BaseUrl + ReplaceAll(term, " ", "-") + "_Desde_" + NatToString(Offset(page))
  }

  /** The slug of a search term has its spaces turned into dashes and
      nothing else changed. */
  lemma SlugOfTerm(term: string)
    ensures |ReplaceAll(term, " ", "-")| == |term|
    ensures ' ' !in ReplaceAll(term, " ", "-")
    ensures forall k | 0 <= k < |term| ::
      ReplaceAll(term, " ", "-")[k] == if term[k] == ' ' then '-' else term[k]
  {
    ReplaceCharByChar(term, ' ', '-');
  }

  /** The URL is the base, the slug, `_Desde_` and the offset in decimal,
      and the offset denotes `(page - 1) * 48 + 1`. */
  lemma PageUrlShape(term: string, page: nat)
    requires page >= 1
    ensures PageUrl(term, page)
      == BaseUrl + ReplaceAll(term, " ", "-") + "_Desde_" + NatToString((page - 1) * 48 + 1)
    ensures var url := PageUrl(term, page);
      var tail := "_Desde_" + NatToString((page - 1) * 48 + 1);
      |url| >= |tail| && url[|url| - |tail|..] == tail
      && url[..|BaseUrl|] == BaseUrl
    ensures ParseInt(NatToString(Offset(page))) == Some((page - 1) * 48 + 1)
  {
    var slug := ReplaceAll(term, " ", "-");
    var num := NatToString(Offset(page));
    var tail := "_Desde_" + num;
    var url := PageUrl(term, page);
    assert Offset(page) == (page - 1) * 48 + 1;
    assert url == (BaseUrl + slug) + tail;
    assert url[|url| - |tail|..] == tail;
    assert url[..|BaseUrl|] == BaseUrl;
    ParseIntOfNatural(Offset(page));
  }

  /** Page 1 starts at offset 1 and page 2 at offset 49. */
  lemma FirstOffsets()
    ensures Offset(1) == 1 && Offset(2) == 49
    ensures NatToString(Offset(2)) == "49"
  {
  }

  /** Different pages have different URLs, so no page is fetched twice. */
  lemma PageUrlInjective(term: string, p: nat, q: nat)
    requires p >= 1 && q >= 1
    requires PageUrl(term, p) == PageUrl(term, q)
    ensures p == q
  {
    var head := BaseUrl + ReplaceAll(term, " ", "-") + "_Desde_";
    var a, b := NatToString(Offset(p)), NatToString(Offset(q));
    assert PageUrl(term, p) == head + a && PageUrl(term, q) == head + b;
    assert a == (head + a)[|head|..] && b == (head + b)[|head|..];
    ParseIntOfNatural(Offset(p));
    ParseIntOfNatural(Offset(q));
  }

  // ---------------------------------------------------------------------
  // Page outcomes
  // ---------------------------------------------------------------------

  /** A parsed results page: whether the "no results" message is present,
      and the item containers found, in page order. */
  datatype Page = Page(noResults: bool, items: seq<RawItem>)

  /** The outcome of requesting one page: a response with its status code
      and parsed body, or an exception raised by the request itself. */
  datatype FetchOutcome = Response(status: int, page: Page) | RequestFailed

  /** Why the loop ended. */
  datatype StopReason =
    | NotFound            // status 404
    | HttpError(status: int)  // raise_for_status: 4xx other than 404, 5xx
    | RequestError        // the request raised
    | NoResults           // the "no results" message
    | NoItems             // no item containers

  datatype PageStep = Stop(reason: StopReason) | Proceed(items: seq<RawItem>)

  /** `raise_for_status` raises for client and server errors. */
  predicate IsHttpError(status: int) {
    400 <= status < 600
  }

  /** What the loop does with one fetched page, checking in the source's
      order: 404, then an HTTP error status, then the "no results"
      message, then an empty item list. */
  function Judge(o: FetchOutcome): PageStep {
    match o
    case RequestFailed => Stop(RequestError)
    case Response(status, page) =>
      if status == 404 then Stop(NotFound)
      else if IsHttpError(status) then Stop(HttpError(status))
      else if page.noResults then Stop(NoResults)
      else if page.items == [] then Stop(NoItems)
      else Proceed(page.items)
  }

  /** The loop goes on exactly from a successful, non-empty page without
      the "no results" message, and a 404 wins over the "no results"
      message, which wins over an empty item list, whatever the body. */
  lemma JudgeOrder(o: FetchOutcome)
    ensures Judge(o).Proceed? <==>
      o.Response? && !IsHttpError(o.status) && !o.page.noResults && o.page.items != []
    ensures Judge(o).Proceed? ==> Judge(o).items == o.page.items
    ensures o.Response? && o.status == 404 ==> Judge(o) == Stop(NotFound)
    ensures o.Response? && o.status != 404 && IsHttpError(o.status) ==> Judge(o) == Stop(HttpError(o.status))
    ensures o.Response? && !IsHttpError(o.status) && o.page.noResults ==> Judge(o) == Stop(NoResults)
    ensures o.Response? && !IsHttpError(o.status) && !o.page.noResults && o.page.items == [] ==> Judge(o) == Stop(NoItems)
    ensures o.RequestFailed? ==> Judge(o) == Stop(RequestError)
  {
  }

  predicate IsTerminal(o: FetchOutcome) {
    Judge(o).Stop?
  }

  /** The items of a page the loop goes on from; none for a terminal page. */
  function PageItems(o: FetchOutcome): seq<RawItem> {
    match Judge(o)
    case Proceed(items) => items
    case Stop(_) => []
  }

  /** The index of the first terminal page. */
  function FirstStop(site: seq<FetchOutcome>): (n: nat)
    requires exists k | 0 <= k < |site| :: IsTerminal(site[k])
    ensures n < |site| && IsTerminal(site[n])
    ensures forall k | 0 <= k < n :: !IsTerminal(site[k])
  {
    if IsTerminal(site[0]) then 0
    else
      var k :| 0 <= k < |site| && IsTerminal(site[k]);
      assert IsTerminal(site[1..][k - 1]);
      1 + FirstStop(site[1..])
  }

  // ---------------------------------------------------------------------
  // Accumulated items
  // ---------------------------------------------------------------------

  /** The listings kept from one page, in page order: each item is
      normalised, and an item whose conversion raises is skipped. */
  function Kept(term: string, raws: seq<RawItem>): seq<Listing> {
    if raws == [] then []
    else
      var last := Normalize(term, raws[|raws| - 1]);
      Kept(term, raws[..|raws| - 1]) + (if last.Some? then [last.value] else [])
  }

  /** The number of items of a page that conversion rejects. */
  function Failing(term: string, raws: seq<RawItem>): nat {
    if raws == [] then 0
    else
      var last := Normalize(term, raws[|raws| - 1]);
      Failing(term, raws[..|raws| - 1]) + (if last.None? then 1 else 0)
  }

  /** The listings kept from a run of pages, page after page. */
  function Accumulated(term: string, pages: seq<FetchOutcome>): seq<Listing> {
    if pages == [] then []
    else Accumulated(term, pages[..|pages| - 1]) + Kept(term, PageItems(pages[|pages| - 1]))
  }

  /** Keeping items works item by item: it distributes over concatenation,
      so the kept items stay in page order. */
  lemma {:induction false} KeptAppend(term: string, a: seq<RawItem>, b: seq<RawItem>)
    ensures Kept(term, a + b) == Kept(term, a) + Kept(term, b)
    decreases |b|
  {
    if b == [] {
      assert a + b == a;
    } else {
      assert (a + b)[..|a + b| - 1] == a + b[..|b| - 1];
      assert (a + b)[|a + b| - 1] == b[|b| - 1];
      KeptAppend(term, a, b[..|b| - 1]);
    }
  }

  /** Exactly the failing items are lost: the page shrinks by their number. */
  lemma {:induction false} KeptCount(term: string, raws: seq<RawItem>)
    ensures |Kept(term, raws)| == |raws| - Failing(term, raws)
    ensures Failing(term, raws) <= |raws|
  {
    if raws != [] {
      KeptCount(term, raws[..|raws| - 1]);
    }
  }

  /** A kept listing is the normalisation of one of the page's items, and
      carries the crawl's search term. */
  lemma {:induction false} KeptFrom(term: string, raws: seq<RawItem>)
    ensures forall l | l in Kept(term, raws) ::
      Scraped(term, l)
      && exists i | 0 <= i < |raws| :: Normalize(term, raws[i]) == Some(l) && DrawnFrom(raws[i], l)
  {
    if raws != [] {
      var init := raws[..|raws| - 1];
      KeptFrom(term, init);
      forall l | l in Kept(term, raws)
        ensures Scraped(term, l)
          && exists i | 0 <= i < |raws| :: Normalize(term, raws[i]) == Some(l) && DrawnFrom(raws[i], l)
      {
        if l in Kept(term, init) {
          var i :| 0 <= i < |init| && Normalize(term, init[i]) == Some(l) && DrawnFrom(init[i], l);
          assert raws[i] == init[i];
        } else {
          assert Normalize(term, raws[|raws| - 1]) == Some(l);
          NormalizeFields(term, raws[|raws| - 1]);
        }
      }
    }
  }

  /** When every item of a page converts, all of them are kept. */
  lemma {:induction false} KeptAll(term: string, raws: seq<RawItem>)
    requires forall i {:trigger Normalize(term, raws[i])} | 0 <= i < |raws| :: Normalize(term, raws[i]).Some?
    ensures |Kept(term, raws)| == |raws|
    ensures forall i {:trigger Normalize(term, raws[i])} | 0 <= i < |raws| ::
      Normalize(term, raws[i]) == Some(Kept(term, raws)[i])
  {
    if raws != [] {
      var init := raws[..|raws| - 1];
      KeptAll(term, init);
      var last := Normalize(term, raws[|raws| - 1]);
      assert Kept(term, raws) == Kept(term, init) + [last.value];
      KeptAllStep(term, raws, Kept(term, init), last.value);
    }
  }

  /** The inductive step of `KeptAll`: one more converting item, one more
      listing in the same place. */
  lemma KeptAllStep(term: string, raws: seq<RawItem>, prev: seq<Listing>, l: Listing)
    requires raws != [] && |prev| == |raws| - 1
    requires forall i {:trigger Normalize(term, raws[..|raws| - 1][i])} | 0 <= i < |raws| - 1 ::
      Normalize(term, raws[..|raws| - 1][i]) == Some(prev[i])
    requires Normalize(term, raws[|raws| - 1]) == Some(l)
    ensures forall i {:trigger Normalize(term, raws[i])} | 0 <= i < |raws| ::
      Normalize(term, raws[i]) == Some((prev + [l])[i])
  {
    forall i | 0 <= i < |raws|
      ensures Normalize(term, raws[i]) == Some((prev + [l])[i])
    {
      if i < |raws| - 1 {
        assert raws[..|raws| - 1][i] == raws[i] && (prev + [l])[i] == prev[i];
      } else {
        assert (prev + [l])[i] == l;
      }
    }
  }

  /** Concatenation regrouped. A lemma of its own because the same step
      stated inline, next to the sequences it regroups, costs the solver
      far more. */
  lemma AppendAssoc<T>(x: seq<T>, y: seq<T>, z: seq<T>)
    ensures x + y + z == x + (y + z)
  {
  }

  /** Accumulation follows page order. */
  lemma {:induction false} AccumulatedAppend(term: string, a: seq<FetchOutcome>, b: seq<FetchOutcome>)
    ensures Accumulated(term, a + b) == Accumulated(term, a) + Accumulated(term, b)
    decreases |b|
  {
    if b == [] {
      assert a + b == a;
    } else {
      var b', x := b[..|b| - 1], b[|b| - 1];
      assert (a + b)[..|a + b| - 1] == a + b';
      assert (a + b)[|a + b| - 1] == x;
      AccumulatedAppend(term, a, b');
      AppendAssoc(Accumulated(term, a), Accumulated(term, b'), Kept(term, PageItems(x)));
    }
  }

  lemma AccumulatedStep(term: string, site: seq<FetchOutcome>, n: nat)
    requires n < |site|
    ensures Accumulated(term, site[..n + 1]) == Accumulated(term, site[..n]) + Kept(term, PageItems(site[n]))
  {
    assert site[..n + 1][..n] == site[..n];
  }

  /** Every accumulated listing carries the crawl's search term. */
  lemma {:induction false} AccumulatedTerm(term: string, pages: seq<FetchOutcome>)
    ensures forall l | l in Accumulated(term, pages) :: Scraped(term, l)
  {
    if pages != [] {
      AccumulatedTerm(term, pages[..|pages| - 1]);
      KeptFrom(term, PageItems(pages[|pages| - 1]));
    }
  }

  // ---------------------------------------------------------------------
  // The loop
  // ---------------------------------------------------------------------

  /** The URLs of pages 1 to `n`, in order. */
  function Requested(term: string, n: nat): seq<string> {
    if n == 0 then [] else Requested(term, n - 1) + [PageUrl(term, n)]
  }

  lemma {:induction false} RequestedAt(term: string, n: nat)
    ensures |Requested(term, n)| == n
    ensures forall k | 0 <= k < n :: Requested(term, n)[k] == PageUrl(term, k + 1)
  {
    if n > 0 {
      RequestedAt(term, n - 1);
    }
  }

  /** The inner loop: normalise each item of a page and keep the ones
      that convert. */
  method KeepItems(term: string, raws: seq<RawItem>) returns (kept: seq<Listing>)
    ensures kept == Kept(term, raws)
  {
    kept := [];
    for i := 0 to |raws|
      invariant kept == Kept(term, raws[..i])
    {
      assert raws[..i + 1][..i] == raws[..i];
      var item := Normalize(term, raws[i]);
      if item.Some? {
        kept := kept + [item.value];
      }
    }
    assert raws[..|raws|] == raws;
  }

  /** The `while True` loop: fetch page after page until one is terminal.
      Returns the listings kept, the URLs requested in order, and why the
      loop stopped. The source has no page limit, so the loop ends only
      because some page of the site is terminal. */
  method CrawlPages(term: string, site: seq<FetchOutcome>)
    returns (items: seq<Listing>, urls: seq<string>, reason: StopReason)
    requires exists k | 0 <= k < |site| :: IsTerminal(site[k])
    ensures |urls| == FirstStop(site) + 1
    ensures forall k | 0 <= k < |urls| :: urls[k] == PageUrl(term, k + 1)
    ensures reason == Judge(site[FirstStop(site)]).reason
    ensures items == Accumulated(term, site[..FirstStop(site)])
  {
    var stop := FirstStop(site);
    items, urls := [], [];
    var page := 1;
    while true
      invariant 1 <= page <= stop + 1
      invariant urls == Requested(term, page - 1)
      invariant items == Accumulated(term, site[..page - 1])
      decreases stop + 1 - page
    {
      urls := urls + [PageUrl(term, page)];
      var outcome := site[page - 1];
      var step := Judge(outcome);
      if step.Stop? {
        assert page - 1 == stop;
        reason := step.reason;
        RequestedAt(term, page);
        break;
      }
      assert !IsTerminal(outcome) && IsTerminal(site[stop]);
      assert page - 1 < stop;
      assert PageItems(outcome) == step.items;
      var kept := KeepItems(term, step.items);
      AccumulatedStep(term, site, page - 1);
      items := items + kept;
      page := page + 1;
    }
  }
}
