/** The two views computed from the stored snapshots (main.py): the
    price-variation tag shown next to each freshly scraped row, and the
    per-listing price history. */
module Views {
  import opened Text
  import opened Listings
  import opened Store

  // ---------------------------------------------------------------------
  // Price variation
  // ---------------------------------------------------------------------

  const Up := "↑"
  const Down := "↓"
  const Same := "="
  const Unknown := ""

  /** A document of the listing (term, description) dated strictly before
      `today`: what the variation lookup's filter matches. */
  predicate PriorOf(d: Snapshot, term: string, desc: string, today: string) {
    d.listing.searchTerm == term && d.listing.description == desc && LexLess(d.dateStr, today)
  }

  /** `find_one(filter, sort=[('date_str', -1)])`: among the documents the
      filter matches, one with the greatest `date_str`, the first in
      collection order on a tie; `None` when nothing matches. */
  function LatestBefore(docs: seq<Snapshot>, term: string, desc: string, today: string)
    : Option<Snapshot>
  {
    if docs == [] then None
    else
      var rest := LatestBefore(docs[1..], term, desc, today);
      if !PriorOf(docs[0], term, desc, today) then rest
      else if rest.Some? && LexLess(docs[0].dateStr, rest.value.dateStr) then rest
      else Some(docs[0])
  }

  /** The lookup finds nothing exactly when no document of the listing is
      dated before `today`; otherwise it finds such a document whose date
      no other such document exceeds. */
  lemma {:induction false} LatestBeforeSpec(docs: seq<Snapshot>, term: string, desc: string, today: string)
    ensures var r := LatestBefore(docs, term, desc, today);
      && (r.None? <==> forall d | d in docs :: !PriorOf(d, term, desc, today))
      && (r.Some? ==> r.value in docs && PriorOf(r.value, term, desc, today))
      && (r.Some? ==>
            forall d | d in docs && PriorOf(d, term, desc, today) :: !LexLess(r.value.dateStr, d.dateStr))
  {
    if docs != [] {
      LatestBeforeSpec(docs[1..], term, desc, today);
      var rest := LatestBefore(docs[1..], term, desc, today);
      assert forall d | d in docs :: d == docs[0] || d in docs[1..];
      if !PriorOf(docs[0], term, desc, today) {
      } else if rest.Some? && LexLess(docs[0].dateStr, rest.value.dateStr) {
        LexAsymmetric(docs[0].dateStr, rest.value.dateStr);
      } else {
        if rest.Some? {
          forall d | d in docs[1..] && PriorOf(d, term, desc, today)
            ensures !LexLess(docs[0].dateStr, d.dateStr)
          {
            LexNotLessTransitive(docs[0].dateStr, rest.value.dateStr, d.dateStr);
          }
        }
        LexIrreflexive(docs[0].dateStr);
      }
    }
  }

  /** The `price_num` of the latest earlier snapshot, if there is one. */
  function PreviousPrice(docs: seq<Snapshot>, term: string, desc: string, today: string)
    : Option<int>
  {
    match LatestBefore(docs, term, desc, today)
    case Some(d) => Some(d.listing.priceNum)
    case None => None
  }

  /** The variation tag of a row whose price is `curr`, given the earlier
      price `prev`. */
  function Variation(curr: int, prev: Option<int>): (r: string)
    ensures r == Unknown <==> prev.None?
    ensures prev.Some? ==> (r == Up <==> curr > prev.value)
    ensures prev.Some? ==> (r == Down <==> curr < prev.value)
    ensures prev.Some? ==> (r == Same <==> curr == prev.value)
  {
    match prev
    case None => Unknown
    case Some(p) => if curr > p then Up else if curr < p then Down else Same
  }

  /** Swapping the two prices swaps rising and falling. */
  lemma VariationSwapped(a: int, b: int)
    ensures Variation(a, Some(b)) == Up <==> Variation(b, Some(a)) == Down
    ensures Variation(a, Some(b)) == Same <==> Variation(b, Some(a)) == Same
  {
  }

  /** The variation column: one tag per scraped row, in row order. */
  method PriceVariations(docs: seq<Snapshot>, rows: seq<Listing>, today: string)
    returns (tags: seq<string>)
    ensures |tags| == |rows|
    ensures forall k | 0 <= k < |rows| ::
      tags[k] == Variation(rows[k].priceNum,
                           PreviousPrice(docs, rows[k].searchTerm, rows[k].description, today))
  {
    tags := [];
    for i := 0 to |rows|
      invariant |tags| == i
      invariant forall k | 0 <= k < i ::
        tags[k] == Variation(rows[k].priceNum,
                             PreviousPrice(docs, rows[k].searchTerm, rows[k].description, today))
    {
      var row := rows[i];
      var prev := LatestBefore(docs, row.searchTerm, row.description, today);
      var prevPrice := if prev.Some? then Some(prev.value.listing.priceNum) else None;
      var variation: string;
      if prevPrice.None? {
        variation := Unknown;
      } else if row.priceNum > prevPrice.value {
        variation := Up;
      } else if row.priceNum < prevPrice.value {
        variation := Down;
      } else {
        variation := Same;
      }
      tags := tags + [variation];
    }
  }

  /** A price raised from 20000 yesterday to 22000 today is tagged as
      rising; with no earlier snapshot the tag is empty. */
  lemma VariationExample(l: Listing, t: Timestamp)
    requires l.searchTerm == "Toyota Corolla" && l.description == "Corolla"
    ensures var yesterday := Snapshot(l.(priceNum := 20000), t, "2024-05-01");
      var current := Snapshot(l.(priceNum := 22000), t, "2024-05-02");
      && PreviousPrice([yesterday, current], l.searchTerm, l.description, "2024-05-02") == Some(20000)
      && Variation(22000, PreviousPrice([yesterday, current], l.searchTerm, l.description, "2024-05-02")) == Up
      && Variation(22000, PreviousPrice([current], l.searchTerm, l.description, "2024-05-02")) == Unknown
  {
    var yesterday := Snapshot(l.(priceNum := 20000), t, "2024-05-01");
    var current := Snapshot(l.(priceNum := 22000), t, "2024-05-02");
    LexIrreflexive("2024-05-02");
    assert LexLess("2024-05-01", "2024-05-02");
    assert [yesterday, current][1..] == [current];
    assert [current][1..] == [];
    assert LatestBefore([current], l.searchTerm, l.description, "2024-05-02") == None;
    assert LatestBefore([yesterday, current], l.searchTerm, l.description, "2024-05-02") == Some(yesterday);
  }

  /** Upserting a document dated `today` or later leaves the variation
      lookup for `today` as it was: neither the new document nor the one it
      replaces is earlier than `today`, and the others keep their order. */
  lemma {:induction false} LatestBeforeUpserted(docs: seq<Snapshot>, doc: Snapshot,
                                                term: string, desc: string, today: string)
    requires !LexLess(doc.dateStr, today)
    ensures LatestBefore(Upserted(docs, KeyOf(doc), doc), term, desc, today)
         == LatestBefore(docs, term, desc, today)
  {
    if docs == [] {
      LatestBeforeSkip(doc, [], term, desc, today);
    } else if KeyOf(docs[0]) == KeyOf(doc) {
      LatestBeforeSkip(doc, docs[1..], term, desc, today);
      LatestBeforeSkip(docs[0], docs[1..], term, desc, today);
      assert docs == [docs[0]] + docs[1..];
    } else {
      LatestBeforeUpserted(docs[1..], doc, term, desc, today);
      LatestBeforeCons(docs[0], Upserted(docs[1..], KeyOf(doc), doc), docs[1..], term, desc, today);
      assert docs == [docs[0]] + docs[1..];
    }
  }

  /** A document not dated before `today` plays no part in the lookup. */
  lemma LatestBeforeSkip(x: Snapshot, rest: seq<Snapshot>, term: string, desc: string, today: string)
    requires !LexLess(x.dateStr, today)
    ensures LatestBefore([x] + rest, term, desc, today) == LatestBefore(rest, term, desc, today)
  {
    assert ([x] + rest)[1..] == rest;
  }

  lemma LatestBeforeCons(x: Snapshot, a: seq<Snapshot>, b: seq<Snapshot>,
                         term: string, desc: string, today: string)
    requires LatestBefore(a, term, desc, today) == LatestBefore(b, term, desc, today)
    ensures LatestBefore([x] + a, term, desc, today) == LatestBefore([x] + b, term, desc, today)
  {
    assert ([x] + a)[1..] == a;
    assert ([x] + b)[1..] == b;
  }

  /** The same for a whole run of upserts. */
  lemma {:induction false} LatestBeforeUpsertAll(docs: seq<Snapshot>, recs: seq<Snapshot>,
                                                 term: string, desc: string, today: string)
    requires forall k | 0 <= k < |recs| :: !LexLess(recs[k].dateStr, today)
    ensures LatestBefore(UpsertAll(docs, recs), term, desc, today)
         == LatestBefore(docs, term, desc, today)
  {
    if recs != [] {
      var init := recs[..|recs| - 1];
      LatestBeforeUpsertAll(docs, init, term, desc, today);
      LatestBeforeUpserted(UpsertAll(docs, init), recs[|recs| - 1], term, desc, today);
    }
  }

  // ---------------------------------------------------------------------
  // Price history
  // ---------------------------------------------------------------------

  /** One point of a listing's price history. */
  datatype HistoryPoint = HistoryPoint(date: string, avgPrice: int)

  /** A price the history files under a date. */
  datatype Entry = Entry(date: string, price: int)

  /** A document the history of (term, description) uses: one of that
      listing with a non-zero (truthy) `price_num`. */
  predicate Contributes(d: Snapshot, term: string, desc: string) {
    d.listing.searchTerm == term && d.listing.description == desc && d.listing.priceNum != 0
  }

  /** What the history loop files, in collection order: the date of each
      contributing document's timestamp, with its price. */
  function Entries(docs: seq<Snapshot>, term: string, desc: string): seq<Entry> {
    if docs == [] then []
    else
      var d := docs[|docs| - 1];
      Entries(docs[..|docs| - 1], term, desc)
        + (if Contributes(d, term, desc) then [Entry(DateStr(d.timestamp), d.listing.priceNum)] else [])
  }

  lemma EntriesStep(docs: seq<Snapshot>, i: nat, term: string, desc: string)
    requires i < |docs|
    ensures Entries(docs[..i + 1], term, desc) == Entries(docs[..i], term, desc)
      + (if Contributes(docs[i], term, desc)
         then [Entry(DateStr(docs[i].timestamp), docs[i].listing.priceNum)] else [])
  {
    assert docs[..i + 1][..i] == docs[..i];
  }

  /** Every filed price is non-zero and comes from a document of the
      listing, under the date of its timestamp. */
  lemma {:induction false} EntriesFrom(docs: seq<Snapshot>, term: string, desc: string)
    ensures forall e | e in Entries(docs, term, desc) ::
      e.price != 0 &&
      exists i | 0 <= i < |docs| ::
        Contributes(docs[i], term, desc) && e == Entry(DateStr(docs[i].timestamp), docs[i].listing.priceNum)
  {
    if docs != [] {
      var init := docs[..|docs| - 1];
      EntriesFrom(init, term, desc);
      forall e | e in Entries(docs, term, desc)
        ensures e.price != 0 &&
          exists i | 0 <= i < |docs| ::
            Contributes(docs[i], term, desc) && e == Entry(DateStr(docs[i].timestamp), docs[i].listing.priceNum)
      {
        if e in Entries(init, term, desc) {
          var i :| 0 <= i < |init| && Contributes(init[i], term, desc)
            && e == Entry(DateStr(init[i].timestamp), init[i].listing.priceNum);
          assert docs[i] == init[i];
        } else {
          assert docs[|docs| - 1] == docs[|init|];
        }
      }
    }
  }

  /** A document with price 0 files nothing. */
  lemma ZeroPriceIgnored(docs: seq<Snapshot>, d: Snapshot, term: string, desc: string)
    requires d.listing.priceNum == 0
    ensures Entries(docs + [d], term, desc) == Entries(docs, term, desc)
  {
    assert (docs + [d])[..|docs|] == docs;
  }

  /** The prices filed under `date`, in collection order. */
  function PricesOn(es: seq<Entry>, date: string): seq<int> {
    if es == [] then []
    else
      var e := es[|es| - 1];
      PricesOn(es[..|es| - 1], date) + (if e.date == date then [e.price] else [])
  }

  /** The dates with at least one filed price. */
  function Dates(es: seq<Entry>): set<string> {
    if es == [] then {} else Dates(es[..|es| - 1]) + {es[|es| - 1].date}
  }

  /** A date is in the history exactly when some price is filed under it. */
  lemma {:induction false} DatesHavePrices(es: seq<Entry>, date: string)
    ensures date in Dates(es) <==> |PricesOn(es, date)| > 0
  {
    if es != [] {
      DatesHavePrices(es[..|es| - 1], date);
    }
  }

  function Sum(s: seq<int>): int {
    if s == [] then 0 else Sum(s[..|s| - 1]) + s[|s| - 1]
  }

  /** The average is the floor of the mean: `sum // len` with a positive
      divisor, for which Dafny's `/` is floor division. */
  lemma FloorMean(s: seq<int>)
    requires |s| > 0
    ensures (Sum(s) / |s|) * |s| <= Sum(s) < (Sum(s) / |s| + 1) * |s|
  {
  }

  /** The dictionary `history_points` after the entries `es`:
      `setdefault(date, []).append(price)` for each. */
  function GroupsOf(es: seq<Entry>): map<string, seq<int>> {
    if es == [] then map[]
    else
      var groups := GroupsOf(es[..|es| - 1]);
      var e := es[|es| - 1];
      groups[e.date := (if e.date in groups then groups[e.date] else []) + [e.price]]
  }

  /** The dictionary's keys in insertion order. */
  function OrderOf(es: seq<Entry>): seq<string> {
    if es == [] then []
    else
      var e := es[|es| - 1];
      OrderOf(es[..|es| - 1]) + (if e.date in GroupsOf(es[..|es| - 1]) then [] else [e.date])
  }

  lemma GroupsOfAppend(es: seq<Entry>, e: Entry)
    ensures GroupsOf(es + [e]) == GroupsOf(es)[e.date :=
      (if e.date in GroupsOf(es) then GroupsOf(es)[e.date] else []) + [e.price]]
    ensures OrderOf(es + [e]) == OrderOf(es) + (if e.date in GroupsOf(es) then [] else [e.date])
  {
    assert (es + [e])[..|es|] == es;
  }

  /** The groups hold exactly the history's dates, each with its prices in
      order, none empty; the insertion order lists each key once. */
  lemma {:induction false} GroupsOfPrices(es: seq<Entry>)
    ensures GroupsOf(es).Keys == Dates(es)
    ensures forall date | date in GroupsOf(es) ::
      GroupsOf(es)[date] == PricesOn(es, date) && |GroupsOf(es)[date]| > 0
    ensures Distinct(OrderOf(es))
    ensures forall date :: date in OrderOf(es) <==> date in GroupsOf(es)
  {
    GroupsOfDates(es);
    OrderOfKeys(es);
  }

  lemma {:induction false} OrderOfKeys(es: seq<Entry>)
    ensures Distinct(OrderOf(es))
    ensures forall date :: date in OrderOf(es) <==> date in GroupsOf(es)
  {
    if es != [] {
      var init := es[..|es| - 1];
      OrderOfKeys(init);
      OrderStep(init, es[|es| - 1]);
      assert es == init + [es[|es| - 1]];
    }
  }

  lemma {:induction false} GroupsOfDates(es: seq<Entry>)
    ensures GroupsOf(es).Keys == Dates(es)
    ensures forall date | date in GroupsOf(es) ::
      GroupsOf(es)[date] == PricesOn(es, date) && |GroupsOf(es)[date]| > 0
  {
    if es != [] {
      var init := es[..|es| - 1];
      GroupsOfDates(init);
      var e := es[|es| - 1];
      if e.date !in GroupsOf(init) {
        DatesHavePrices(init, e.date);
      }
    }
  }

  /** One more entry extends the insertion order by its date exactly when
      the date is new, which keeps the order free of repeats. */
  lemma OrderStep(es: seq<Entry>, e: Entry)
    requires Distinct(OrderOf(es))
    requires forall date :: date in OrderOf(es) <==> date in GroupsOf(es)
    ensures Distinct(OrderOf(es + [e]))
    ensures forall date :: date in OrderOf(es + [e]) <==> date in GroupsOf(es + [e])
  {
    GroupsOfAppend(es, e);
  }

  /** Strictly increasing in string order (so also free of repeats). */
  predicate Ascending(s: seq<string>) {
    forall i, j | 0 <= i < j < |s| :: LexLess(s[i], s[j])
  }

  predicate Distinct(s: seq<string>) {
    forall i, j | 0 <= i < j < |s| :: s[i] != s[j]
  }

  /** Insert `x` into an ascending sequence at its place. */
  function Insert(x: string, s: seq<string>): (r: seq<string>)
    requires Ascending(s) && x !in s
    ensures Ascending(r)
    ensures multiset(r) == multiset(s) + multiset{x}
  {
    if s == [] then [x]
    else
      AscendingSplit(s);
      if LexLess(x, s[0]) then
        forall j | 0 <= j < |s| ensures LexLess(x, s[j]) {
          if j > 0 {
            LexTransitive(x, s[0], s[j]);
          }
        }
        AscendingCons(x, s);
        [x] + s
      else
        var rest := Insert(x, s[1..]);
        LexTotal(x, s[0]);
        HeadBelow(s[0], x, s[1..], rest);
        AscendingCons(s[0], rest);
        [s[0]] + rest
  }

  lemma AscendingSplit(s: seq<string>)
    requires Ascending(s) && s != []
    ensures s == [s[0]] + s[1..]
    ensures Ascending(s[1..])
    ensures forall j | 0 <= j < |s[1..]| :: LexLess(s[0], s[1..][j])
  {
  }

  lemma AscendingCons(h: string, s: seq<string>)
    requires Ascending(s)
    requires forall j | 0 <= j < |s| :: LexLess(h, s[j])
    ensures Ascending([h] + s)
  {
    var r := [h] + s;
    forall i, j | 0 <= i < j < |r| ensures LexLess(r[i], r[j]) {
      assert r[j] == s[j - 1];
      if i > 0 {
        assert r[i] == s[i - 1];
      }
    }
  }

  /** Everything `x` is inserted among stays above a head that is below `x`. */
  lemma HeadBelow(h: string, x: string, tail: seq<string>, rest: seq<string>)
    requires LexLess(h, x)
    requires forall j | 0 <= j < |tail| :: LexLess(h, tail[j])
    requires multiset(rest) == multiset(tail) + multiset{x}
    ensures forall j | 0 <= j < |rest| :: LexLess(h, rest[j])
  {
    forall j | 0 <= j < |rest| ensures LexLess(h, rest[j]) {
      assert rest[j] in multiset(rest);
      if rest[j] != x {
        assert rest[j] in multiset(tail);
        var k :| 0 <= k < |tail| && tail[k] == rest[j];
      }
    }
  }

  /** `sorted(...)` of distinct date strings. */
  function SortDates(s: seq<string>): (r: seq<string>)
    requires Distinct(s)
    ensures Ascending(r)
    ensures multiset(r) == multiset(s)
  {
    if s == [] then []
    else
      var init := s[..|s| - 1];
      var last := s[|s| - 1];
      assert s == init + [last];
      var sorted := SortDates(init);
      assert last !in init by {
        forall j | 0 <= j < |init| ensures init[j] != last {
          assert init[j] == s[j];
        }
      }
      assert last !in multiset(sorted);
      Insert(last, sorted)
  }

  /** One more document of the query result: a contributing one is one
      more `setdefault(date, []).append(price)`, any other changes nothing. */
  lemma GroupStep(docs: seq<Snapshot>, i: nat, term: string, desc: string)
    requires i < |docs|
    ensures var es := Entries(docs[..i], term, desc);
      var d := docs[i];
      var date := DateStr(d.timestamp);
      var groups := GroupsOf(es);
      && (Contributes(d, term, desc) ==>
            && GroupsOf(Entries(docs[..i + 1], term, desc))
               == groups[date := (if date in groups then groups[date] else []) + [d.listing.priceNum]]
            && OrderOf(Entries(docs[..i + 1], term, desc))
               == OrderOf(es) + (if date in groups then [] else [date]))
      && (!Contributes(d, term, desc) ==> Entries(docs[..i + 1], term, desc) == es)
  {
    EntriesStep(docs, i, term, desc);
    if Contributes(docs[i], term, desc) {
      GroupsOfAppend(Entries(docs[..i], term, desc), Entry(DateStr(docs[i].timestamp), docs[i].listing.priceNum));
    }
  }

  /** The grouping loop of the `/history` view over the documents the
      listing's query returns. */
  method GroupPrices(docs: seq<Snapshot>, term: string, desc: string)
    returns (groups: map<string, seq<int>>, order: seq<string>)
    ensures groups == GroupsOf(Entries(docs, term, desc))
    ensures order == OrderOf(Entries(docs, term, desc))
  {
    groups := map[];
    order := [];
    for i := 0 to |docs|
      invariant groups == GroupsOf(Entries(docs[..i], term, desc))
      invariant order == OrderOf(Entries(docs[..i], term, desc))
    {
      var doc := docs[i];
      GroupStep(docs, i, term, desc);
      if doc.listing.searchTerm == term && doc.listing.description == desc {
        var date := DateStr(doc.timestamp);
        var price := doc.listing.priceNum;
        if price != 0 {
          var prices := if date in groups then groups[date] else [];
          if date !in groups {
            order := order + [date];
          }
          groups := groups[date := prices + [price]];
        }
      }
    }
    assert docs[..|docs|] == docs;
  }

  /** The comprehension over the sorted groups: each date with the floor
      of the mean of its prices. */
  function Averages(groups: map<string, seq<int>>, dates: seq<string>): (r: seq<HistoryPoint>)
    requires forall j | 0 <= j < |dates| :: dates[j] in groups && |groups[dates[j]]| > 0
    ensures |r| == |dates|
    ensures forall j | 0 <= j < |dates| ::
      r[j].date == dates[j] && r[j].avgPrice == Sum(groups[dates[j]]) / |groups[dates[j]]|
  {
    seq(|dates|, j requires 0 <= j < |dates| =>
      HistoryPoint(dates[j], Sum(groups[dates[j]]) / |groups[dates[j]]|))
  }

  /** The `/history` view of one listing: for each date with a non-zero
      price, the integer floor of the mean price that day, dates ascending. */
  method History(docs: seq<Snapshot>, term: string, desc: string)
    returns (points: seq<HistoryPoint>)
    ensures var es := Entries(docs, term, desc);
      && (forall i, j | 0 <= i < j < |points| :: LexLess(points[i].date, points[j].date))
      && (forall k | 0 <= k < |points| :: points[k].date in Dates(es))
      && (forall date | date in Dates(es) :: exists k | 0 <= k < |points| :: points[k].date == date)
      && (forall k | 0 <= k < |points| ::
            |PricesOn(es, points[k].date)| > 0 &&
            points[k].avgPrice == Sum(PricesOn(es, points[k].date)) / |PricesOn(es, points[k].date)|)
  {
    var groups, order := GroupPrices(docs, term, desc);
    OrderDistinct(Entries(docs, term, desc));
    var dates := SortDates(order);
    SortedGroups(Entries(docs, term, desc), dates);
    points := Averages(groups, dates);
  }

  lemma OrderDistinct(es: seq<Entry>)
    ensures Distinct(OrderOf(es))
  {
    GroupsOfPrices(es);
  }

  /** The sorted keys of the groups are exactly the history's dates, each
      keyed to its prices. */
  lemma SortedGroups(es: seq<Entry>, dates: seq<string>)
    requires multiset(dates) == multiset(OrderOf(es))
    ensures forall j | 0 <= j < |dates| ::
      && dates[j] in GroupsOf(es) && dates[j] in Dates(es)
      && GroupsOf(es)[dates[j]] == PricesOn(es, dates[j]) && |PricesOn(es, dates[j])| > 0
    ensures forall date | date in Dates(es) :: exists k | 0 <= k < |dates| :: dates[k] == date
  {
    GroupsOfPrices(es);
    forall j | 0 <= j < |dates| ensures dates[j] in OrderOf(es) {
      assert dates[j] in multiset(dates);
    }
    forall date | date in Dates(es) ensures exists k | 0 <= k < |dates| :: dates[k] == date {
      assert date in multiset(OrderOf(es));
      assert date in multiset(dates);
    }
  }
}
