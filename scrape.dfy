/** `scrape_mercado_libre` as a whole, and the search path of the index
    view that calls it (main.py). */
module Scrape {
  import opened Text
  import opened Listings
  import opened Crawl
  import opened Store
  import opened Views
  import opened WebLog

  /** A scraped listing as the upsert loop stores it: tagged with the
      search term, the run's timestamp and that timestamp's date. */
  function Stamp(l: Listing, term: string, ts: Timestamp): Snapshot {
    Snapshot(l.(searchTerm := term), ts, DateStr(ts))
  }

  /** The records of one run, in result order. */
  function Stamped(items: seq<Listing>, term: string, ts: Timestamp): seq<Snapshot> {
    seq(|items|, k requires 0 <= k < |items| => Stamp(items[k], term, ts))
  }

  /** All records of a run share its timestamp and date, and each is filed
      under (term, its description, that date). */
  lemma RunSharesStamp(items: seq<Listing>, term: string, ts: Timestamp)
    ensures |Stamped(items, term, ts)| == |items|
    ensures forall k | 0 <= k < |items| ::
      var rec := Stamped(items, term, ts)[k];
      && rec.timestamp == ts && rec.dateStr == DateStr(ts)
      && rec.listing == items[k].(searchTerm := term)
      && KeyOf(rec) == Key(term, items[k].description, DateStr(ts))
  {
  }

  /** One more row of the run is one more upsert. */
  lemma PersistStep(docs: seq<Snapshot>, items: seq<Listing>, term: string, ts: Timestamp, i: nat)
    requires i < |items|
    ensures UpsertAll(docs, Stamped(items[..i + 1], term, ts))
         == Upserted(UpsertAll(docs, Stamped(items[..i], term, ts)),
                     KeyOf(Stamp(items[i], term, ts)), Stamp(items[i], term, ts))
  {
    var s := Stamped(items[..i + 1], term, ts);
    assert s[..i] == Stamped(items[..i], term, ts);
    assert s[i] == Stamp(items[i], term, ts);
  }

  /** The upsert loop: one `replace_one` per record, keyed on the record's
      search term, description and the run's date. */
  method Persist(store: Collection, items: seq<Listing>, term: string, ts: Timestamp)
    modifies store
    ensures store.docs == UpsertAll(old(store.docs), Stamped(items, term, ts))
  {
    var today := DateStr(ts);
    for i := 0 to |items|
      invariant store.docs == UpsertAll(old(store.docs), Stamped(items[..i], term, ts))
    {
      var rec := Snapshot(items[i].(searchTerm := term), ts, today);
      var filter := Key(term, rec.listing.description, today);
      PersistStep(old(store.docs), items, term, ts, i);
      store.ReplaceOne(filter, rec);
    }
    assert items[..|items|] == items;
  }

  /** The line printed before the request for page `page`. */
  function PageLine(term: string, page: nat): string
    requires page >= 1
  {
    "Scraping page " + NatToString(page) + ": " + PageUrl(term, page)
  }

  /** The page lines of pages 1 to `n`, in order. */
  function PageLines(term: string, n: nat): seq<string> {
    if n == 0 then [] else PageLines(term, n - 1) + [PageLine(term, n)]
  }

  /** A page line reaches the log as it is, and the line end `print`
      writes after it adds nothing: the line starts with a letter and ends
      with the last digit of the offset. */
  lemma PageLineLogged(logs: seq<string>, term: string, page: nat)
    requires page >= 1
    ensures Logged(Logged(logs, PageLine(term, page)), "\n") == logs + [PageLine(term, page)]
  {
    var line := PageLine(term, page);
    var num := NatToString(Offset(page));
    assert line == ("Scraping page " + NatToString(page) + ": " + BaseUrl + ReplaceAll(term, " ", "-") + "_Desde_") + num;
    assert line[0] == 'S' && line[|line| - 1] == num[|num| - 1];
    DigitNotSpace(num[|num| - 1]);
    assert !IsSpace(line[0]);
    assert Stripped(line) && !AllSpace(line);
    var r := Logged(logs, line);
    assert r == logs + [line];
    PrintAddsOneLine(logs, line);
  }

  /** The `print(f"Scraping page {page}: {url}")` of the page loop, for
      each URL the crawl requested, in order. */
  method AnnouncePages(logger: WebLogger, term: string, urls: seq<string>)
    requires logger.Valid()
    requires forall k | 0 <= k < |urls| :: urls[k] == PageUrl(term, k + 1)
    modifies logger
    ensures logger.logs == old(logger.logs) + PageLines(term, |urls|)
    ensures logger.Valid()
  {
    for k := 0 to |urls|
      invariant logger.Valid()
      invariant logger.logs == old(logger.logs) + PageLines(term, k)
    {
      var line := "Scraping page " + NatToString(k + 1) + ": " + urls[k];
      assert line == PageLine(term, k + 1);
      ghost var before := logger.logs;
      PageLineLogged(before, term, k + 1);
      logger.Write(line);
      logger.Write("\n");
      assert logger.logs == before + [line];
      assert PageLines(term, k + 1) == PageLines(term, k) + [line];
      AppendAssoc(old(logger.logs), PageLines(term, k), [line]);
    }
  }

  /** `scrape_mercado_libre(term)`: crawl, logging one line per page
      requested, then persist the results when there are any. The rows
      returned are the crawl's accumulated listings. */
  method ScrapeMercadoLibre(store: Collection, logger: WebLogger, term: string,
                            site: seq<FetchOutcome>, ts: Timestamp)
    returns (rows: seq<Listing>)
    requires exists k | 0 <= k < |site| :: IsTerminal(site[k])
    requires logger.Valid()
    modifies store, logger
    ensures rows == Accumulated(term, site[..FirstStop(site)])
    ensures rows == [] ==> store.docs == old(store.docs)
    ensures rows != [] ==> store.docs == UpsertAll(old(store.docs), Stamped(rows, term, ts))
    ensures logger.logs == old(logger.logs) + PageLines(term, FirstStop(site) + 1)
    ensures logger.Valid()
  {
    var urls, reason;
    rows, urls, reason := CrawlPages(term, site);
    AnnouncePages(logger, term, urls);
    if rows != [] {
      Persist(store, rows, term, ts);
    }
  }

  /** After a run, a listing's stored record for the run's date is the
      last row of the run with its description. */
  lemma ScrapeLatest(docs: seq<Snapshot>, items: seq<Listing>, term: string, ts: Timestamp, j: nat)
    requires KeysUnique(docs)
    requires j < |items|
    requires forall j' | j < j' < |items| :: items[j'].description != items[j].description
    ensures Stamp(items[j], term, ts) in UpsertAll(docs, Stamped(items, term, ts))
    ensures forall d | d in UpsertAll(docs, Stamped(items, term, ts)) &&
                       KeyOf(d) == Key(term, items[j].description, DateStr(ts)) ::
      d == Stamp(items[j], term, ts)
  {
    RunSharesStamp(items, term, ts);
    UpsertAllLatest(docs, Stamped(items, term, ts), j);
  }

  /** A run changes no record of another day: the price history of earlier
      days survives re-scraping. */
  lemma ScrapeKeepsOtherDays(docs: seq<Snapshot>, items: seq<Listing>, term: string, ts: Timestamp, i: nat)
    requires i < |docs| && docs[i].dateStr != DateStr(ts)
    ensures |UpsertAll(docs, Stamped(items, term, ts))| >= |docs|
    ensures UpsertAll(docs, Stamped(items, term, ts))[i] == docs[i]
  {
    RunSharesStamp(items, term, ts);
    UpsertAllOthers(docs, Stamped(items, term, ts), i);
  }

  /** The variation lookup of the index view runs after the run's records
      are stored, with `today` the run's date: today's records never serve
      as their own earlier price. */
  lemma VariationIgnoresRun(docs: seq<Snapshot>, items: seq<Listing>, term: string, ts: Timestamp,
                            t: string, desc: string)
    ensures PreviousPrice(UpsertAll(docs, Stamped(items, term, ts)), t, desc, DateStr(ts))
         == PreviousPrice(docs, t, desc, DateStr(ts))
  {
    RunSharesStamp(items, term, ts);
    LexIrreflexive(DateStr(ts));
    LatestBeforeUpsertAll(docs, Stamped(items, term, ts), t, desc, DateStr(ts));
  }

  /** The POST branch of the index view: clear the log, scrape, and tag
      each row with its price variation against the store, `today` being
      the date of the lookup. The log then holds the scrape's page lines. */
  method IndexSearch(store: Collection, logger: WebLogger, term: string, site: seq<FetchOutcome>,
                     ts: Timestamp, today: string)
    returns (rows: seq<Listing>, tags: seq<string>)
    requires exists k | 0 <= k < |site| :: IsTerminal(site[k])
    modifies store, logger
    ensures logger.logs == PageLines(term, FirstStop(site) + 1) && logger.Valid()
    ensures rows == Accumulated(term, site[..FirstStop(site)])
    ensures rows != [] ==> store.docs == UpsertAll(old(store.docs), Stamped(rows, term, ts))
    ensures rows == [] ==> store.docs == old(store.docs)
    ensures |tags| == |rows|
    ensures forall k | 0 <= k < |rows| ::
      tags[k] == Variation(rows[k].priceNum,
                           PreviousPrice(store.docs, rows[k].searchTerm, rows[k].description, today))
  {
    logger.Clear();
    rows := ScrapeMercadoLibre(store, logger, term, site, ts);
    // The scrape started from the cleared log.
    AppendAssoc([], [], PageLines(term, FirstStop(site) + 1));
    tags := PriceVariations(store.docs, rows, today);
  }
}
