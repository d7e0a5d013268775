/** Per-item field extraction and normalisation of the scraper
    (main.py, the body of the inner `for item in items` loop). The HTML
    parser is not modelled: an item arrives as the texts its selectors
    found. */
module Listings {
  import opened Text

  /** The title anchor of an item: its text and its `href` attribute. */
  datatype TitleLink = TitleLink(text: string, href: Option<string>)

  /** What the selectors found inside one item container. `None` is an
      element that is absent; `details` holds the texts of the attribute
      list entries in page order. */
  datatype RawItem = RawItem(
    title: Option<TitleLink>,
    priceFraction: Option<string>,
    details: seq<string>,
    location: Option<string>)

  /** One listing as the scraper stores it. Scraped listings have no
      `uniqueId` and no `image`; the sample listings of the seed script
      carry both. */
  datatype Listing = Listing(
    uniqueId: Option<string>,
    image: Option<string>,
    description: string,
    price: string,
    priceNum: int,
    year: string,
    yearNum: int,
    kilometers: string,
    kilometersNum: int,
    location: string,
    link: string,
    searchTerm: string)

  const NoTitle := "No title"
  const NoLink := "#"
  const Missing := "N/A"
  const PricePrefix := "US$"

  /** The stripped text of an element, or `default` when the element is
      absent or its text is empty. */
  function TextOr(e: Option<string>, default: string): string {
    if e.Some? && e.value != "" then Strip(e.value) else default
  }

  /** `v` is what the scraper takes from an element whose text is `e`:
      the default when the element is absent or its text is empty, the
      text with its surrounding whitespace removed otherwise. */
  predicate TakenFrom(e: Option<string>, default: string, v: string) {
    && (e.None? || e.value == "" ==> v == default)
    && (e.Some? && e.value != "" ==> v == Strip(e.value))
  }

  /** The text taken from an element is the default for an absent or
      empty element and the stripped text otherwise; it has no surrounding
      whitespace whenever the default has none; with a non-empty default
      it is empty exactly when the element's text is whitespace only; and
      a text without surrounding whitespace is taken as it is. */
  lemma TextOrClean(e: Option<string>, default: string)
    ensures TakenFrom(e, default, TextOr(e, default))
    ensures var r := TextOr(e, default);
      && (Stripped(default) ==> Stripped(r))
      && (default != "" ==> (r == "" <==> e.Some? && e.value != "" && AllSpace(e.value)))
      && (e.Some? && e.value != "" && Stripped(e.value) ==> r == e.value)
  {
    if e.Some? && e.value != "" {
      StripEmpty(e.value);
    }
  }

  function TitleText(raw: RawItem): Option<string> {
    if raw.title.Some? then Some(raw.title.value.text) else None
  }

  /** The attribute list entry at position `i`, absent past the end. */
  function Entry(details: seq<string>, i: nat): Option<string> {
    if i < |details| then Some(details[i]) else None
  }

  /** The `href` of the title anchor, `#` without an anchor or an `href`. */
  function LinkOf(raw: RawItem): string {
    match raw.title
    case None => NoLink
    case Some(t) => match t.href case Some(h) => h case None => NoLink
  }

  /** The link is never made up: it is `#` or the anchor's own `href`, and
      an `href` that is present, whatever its text (even empty or `#`), is
      always the link. */
  lemma LinkOfSource(raw: RawItem)
    ensures LinkOf(raw) == NoLink || (raw.title.Some? && raw.title.value.href == Some(LinkOf(raw)))
    ensures raw.title.Some? && raw.title.value.href.Some? ==> LinkOf(raw) == raw.title.value.href.value
  {
  }

  /** The displayed price: `US$` in front of the stripped fraction text,
      `N/A` exactly when the fraction element is absent or empty. */
  function PriceDisplay(raw: RawItem): (r: string)
    ensures r == Missing || (|r| >= 3 && r[..3] == PricePrefix)
    ensures r == Missing <==> raw.priceFraction.None? || raw.priceFraction.value == ""
    ensures r != Missing ==> r[3..] == Strip(raw.priceFraction.value)
  {
    if raw.priceFraction.Some? && raw.priceFraction.value != "" then
      var r := PricePrefix + Strip(raw.priceFraction.value);
      assert r[0] != Missing[0];
      r
    else Missing
  }

  /** The displayed price has no surrounding whitespace. */
  lemma PriceDisplayClean(raw: RawItem)
    ensures Stripped(PriceDisplay(raw))
  {
    DefaultsStripped();
    if raw.priceFraction.Some? && raw.priceFraction.value != "" {
      var f := Strip(raw.priceFraction.value);
      var r := PricePrefix + f;
      assert r[0] == 'U';
      assert r[|r| - 1] == if f == [] then '$' else f[|f| - 1];
    }
  }

  /** The attribute list entry at position `i` (0 is the year, 1 the
      distance), `N/A` when the list is shorter or the entry is empty. */
  function Detail(raw: RawItem, i: nat): string {
    if i < |raw.details| && raw.details[i] != "" then Strip(raw.details[i]) else Missing
  }

  /** The year or distance text is `N/A` for a missing or empty entry and
      the stripped entry otherwise; it has no surrounding whitespace, and
      it is empty exactly when its entry exists and is whitespace only. */
  lemma DetailClean(raw: RawItem, i: nat)
    ensures TakenFrom(Entry(raw.details, i), Missing, Detail(raw, i))
    ensures Stripped(Detail(raw, i))
    ensures Detail(raw, i) == "" <==>
      i < |raw.details| && raw.details[i] != "" && AllSpace(raw.details[i])
  {
    DefaultsStripped();
    if i < |raw.details| && raw.details[i] != "" {
      StripEmpty(raw.details[i]);
    }
  }

  lemma DefaultsStripped()
    ensures Stripped(NoTitle) && Stripped(Missing)
  {
    assert NoTitle[0] == 'N' && NoTitle[|NoTitle| - 1] == 'e';
    assert Missing[0] == 'N' && Missing[|Missing| - 1] == 'A';
  }

  /** `price_num`: `int()` of the price with every `US$` and `.` removed,
      0 for `N/A`; `None` where `int()` raises. */
  function PriceNum(price: string): Option<int> {
    if price == Missing then Some(0)
    else ParseInt(Strip(ReplaceAll(ReplaceAll(price, PricePrefix, ""), ".", "")))
  }

  /** `year_num`: `int(year)`, 0 for `N/A`. */
  function YearNum(year: string): Option<int> {
    if year == Missing then Some(0) else ParseInt(year)
  }

  /** `kilometers_num`: `int()` of the distance with every `Km` and `.`
      removed, 0 for `N/A`. */
  function KilometersNum(km: string): Option<int> {
    if km == Missing then Some(0)
    else ParseInt(Strip(ReplaceAll(ReplaceAll(km, "Km", ""), ".", "")))
  }

  /** The numeric fields of a listing are the normaliser's reading of its
      display fields. */
  predicate Consistent(l: Listing) {
    && PriceNum(l.price) == Some(l.priceNum)
    && YearNum(l.year) == Some(l.yearNum)
    && KilometersNum(l.kilometers) == Some(l.kilometersNum)
  }

  /** One item of a results page, extracted and normalised for the search
      `term`; `None` when converting a numeric field raises, which makes
      the scraper skip the item. */
  function Normalize(term: string, raw: RawItem): Option<Listing>
  {
    var price := PriceDisplay(raw);
    var year := Detail(raw, 0);
    var km := Detail(raw, 1);
    var priceNum := PriceNum(price);
    var yearNum := YearNum(year);
    var kmNum := KilometersNum(km);
    if priceNum.None? || yearNum.None? || kmNum.None? then None
    else
      Some(Listing(
        None, None,
        TextOr(TitleText(raw), NoTitle),
        price, priceNum.value,
        year, yearNum.value,
        km, kmNum.value,
        TextOr(raw.location, Missing),
        LinkOf(raw),
        term))
  }

  /** What every listing the scraper keeps satisfies: it carries the
      search term, its numbers are the conversions of its display fields,
      it has no identifier and no image, and none of its text fields has
      surrounding whitespace. */
  predicate Scraped(term: string, l: Listing) {
    && l.searchTerm == term && Consistent(l)
    && l.uniqueId.None? && l.image.None?
    && Stripped(l.description) && Stripped(l.price) && Stripped(l.year)
    && Stripped(l.kilometers) && Stripped(l.location)
  }

  /** The title anchor is present with a text of whitespace only. */
  predicate BlankTitle(raw: RawItem) {
    raw.title.Some? && raw.title.value.text != "" && AllSpace(raw.title.value.text)
  }

  /** How a kept listing relates to its item: the link is the anchor's
      `href` when there is one and `#` otherwise; the description is the
      title text (`No title` without one), and it is empty exactly when
      that text is whitespace only; the location, year and distance are
      their elements' texts (`N/A` without one); and the price is `N/A`
      exactly when the fraction is absent or empty, and `US$` followed by
      the stripped fraction otherwise. */
  predicate DrawnFrom(raw: RawItem, l: Listing) {
    && (l.link == NoLink || (raw.title.Some? && raw.title.value.href == Some(l.link)))
    && (raw.title.Some? && raw.title.value.href.Some? ==> l.link == raw.title.value.href.value)
    && (l.description == "" <==> BlankTitle(raw))
    && TakenFrom(TitleText(raw), NoTitle, l.description)
    && TakenFrom(raw.location, Missing, l.location)
    && TakenFrom(Entry(raw.details, 0), Missing, l.year)
    && TakenFrom(Entry(raw.details, 1), Missing, l.kilometers)
    && (l.price == Missing <==> raw.priceFraction.None? || raw.priceFraction.value == "")
    && (l.price != Missing ==>
          (|l.price| >= 3 && l.price[..3] == PricePrefix && l.price[3..] == Strip(raw.priceFraction.value)))
  }

  /** `DrawnFrom` leaves no freedom: two listings drawn from one item
      agree on every text field and on the link. */
  lemma DrawnFromUnique(raw: RawItem, l: Listing, l': Listing)
    requires DrawnFrom(raw, l) && DrawnFrom(raw, l')
    ensures l.description == l'.description && l.location == l'.location
    ensures l.year == l'.year && l.kilometers == l'.kilometers
    ensures l.price == l'.price && l.link == l'.link
  {
    if l.price != Missing {
      assert l.price == l.price[..3] + l.price[3..];
      assert l'.price == l'.price[..3] + l'.price[3..];
    }
  }

  /** An item is kept exactly when its three numeric fields convert, and a
      kept listing is scraped for the term and drawn from the item. */
  lemma NormalizeFields(term: string, raw: RawItem)
    ensures var r := Normalize(term, raw);
      && (r.Some? <==>
        && PriceNum(PriceDisplay(raw)).Some?
        && YearNum(Detail(raw, 0)).Some?
        && KilometersNum(Detail(raw, 1)).Some?)
      && (r.Some? ==> Scraped(term, r.value) && DrawnFrom(raw, r.value))
  {
    var r := Normalize(term, raw);
    if r.Some? {
      BuiltClean(term, raw, r.value);
    }
  }

  /** A listing assembled the way `Normalize` assembles it is scraped for
      the term and drawn from the item. */
  lemma BuiltClean(term: string, raw: RawItem, l: Listing)
    requires l.searchTerm == term && l.uniqueId.None? && l.image.None?
    requires l.description == TextOr(TitleText(raw), NoTitle) && l.link == LinkOf(raw)
    requires l.price == PriceDisplay(raw) && l.location == TextOr(raw.location, Missing)
    requires l.year == Detail(raw, 0) && l.kilometers == Detail(raw, 1)
    requires Consistent(l)
    ensures Scraped(term, l) && DrawnFrom(raw, l)
  {
    DefaultsStripped();
    TextOrClean(raw.location, Missing);
    PriceDisplayClean(raw);
    DetailClean(raw, 0);
    DetailClean(raw, 1);
    TitleClean(raw);
    LinkOfSource(raw);
  }

  /** The description is `No title` without a title text and the stripped
      title text otherwise; it has no surrounding whitespace, and it is
      empty exactly when the title text is whitespace only. */
  lemma TitleClean(raw: RawItem)
    ensures raw.title.None? || raw.title.value.text == "" ==> TextOr(TitleText(raw), NoTitle) == NoTitle
    ensures raw.title.Some? && raw.title.value.text != "" ==>
      TextOr(TitleText(raw), NoTitle) == Strip(raw.title.value.text)
    ensures Stripped(TextOr(TitleText(raw), NoTitle))
    ensures TextOr(TitleText(raw), NoTitle) == "" <==> BlankTitle(raw)
  {
    DefaultsStripped();
    TextOrClean(TitleText(raw), NoTitle);
    if raw.title.Some? {
      assert TitleText(raw) == Some(raw.title.value.text);
    }
  }

  /** Only the first two attribute entries are read: entries after them
      change nothing. */
  lemma ExtraDetailsIgnored(term: string, raw: RawItem, extra: seq<string>)
    requires |raw.details| >= 2
    ensures Normalize(term, raw.(details := raw.details + extra)) == Normalize(term, raw)
  {
    var raw' := raw.(details := raw.details + extra);
    assert raw'.details[0] == raw.details[0] && raw'.details[1] == raw.details[1];
    assert Detail(raw', 0) == Detail(raw, 0) && Detail(raw', 1) == Detail(raw, 1);
    assert PriceDisplay(raw') == PriceDisplay(raw);
    assert TitleText(raw') == TitleText(raw) && LinkOf(raw') == LinkOf(raw);
  }

  /** A display field of `N/A` always converts, to 0. */
  lemma MissingIsZero(l: Listing)
    requires Consistent(l)
    ensures l.price == Missing ==> l.priceNum == 0
    ensures l.year == Missing ==> l.yearNum == 0
    ensures l.kilometers == Missing ==> l.kilometersNum == 0
  {
  }

  /** The converse does not hold: a price shown as `US$0` also converts
      to 0. */
  lemma ZeroNotOnlyMissing()
    ensures PricePrefix + "0" != Missing
    ensures PriceNum(PricePrefix + "0") == Some(0)
  {
    PriceOfDisplay(0);
    assert Thousands(0) == "0";
  }

  /** A price element whose text is only whitespace displays as `US$`,
      which `int()` rejects: the item is skipped. */
  lemma BlankPriceSkipsItem(term: string, raw: RawItem)
    requires raw.priceFraction.Some? && raw.priceFraction.value != ""
    requires AllSpace(raw.priceFraction.value)
    ensures PriceDisplay(raw) == PricePrefix
    ensures Normalize(term, raw).None?
  {
    StripEmpty(raw.priceFraction.value);
    assert PriceDisplay(raw) == PricePrefix + [];
    assert PricePrefix + [] == PricePrefix;
    PrefixAloneFails(PricePrefix);
    NormalizeFields(term, raw);
  }

  /** `int()` raises on the bare prefix. */
  lemma PrefixAloneFails(price: string)
    requires price == PricePrefix
    ensures PriceNum(price) == None
  {
    ReplaceAllLeading(PricePrefix, [], "");
    assert price + [] == price;
    assert ReplaceAll(price, PricePrefix, "") == [];
    ParseIntBlank(Strip(ReplaceAll([], ".", "")));
  }

  /** How the site prints a whole number: groups of three digits separated
      by `.` (22000 is shown as `22.000`). */
  function Thousands(n: nat): (r: string)
    ensures r != [] && IsDigit(r[0])
    ensures forall k | 0 <= k < |r| :: IsDigit(r[k]) || r[k] == '.'
  {
    if n < 1000 then NatToString(n)
    else Thousands(n / 1000) + "." + Padded(n % 1000, 3)
  }

  /** Removing the separators from `Thousands(n)` leaves digits that denote `n`. */
  lemma {:induction false} ThousandsDigits(n: nat)
    ensures AllDigits(ReplaceAll(Thousands(n), ".", ""))
    ensures |ReplaceAll(Thousands(n), ".", "")| > 0
    ensures DecimalValue(ReplaceAll(Thousands(n), ".", "")) == n
  {
    if n < 1000 {
      ReplaceAllNoMatch(NatToString(n), ".", "");
      DecimalValueOfString(n);
    } else {
      var hi := Thousands(n / 1000);
      var lo := Padded(n % 1000, 3);
      ThousandsDigits(n / 1000);
      var d := ReplaceAll(hi, ".", "");
      RemoveSeparator(hi, lo);
      NatToStringLength(n % 1000, 3);
      assert |lo| == 3;
      DecimalValueAppend(d, lo);
      PaddedDecimal(n % 1000, 3);
      assert Pow10(3) == 1000;
      assert DecimalValue(d + lo) == DecimalValue(d) * 1000 + DecimalValue(lo);
    }
  }

  lemma RemoveSeparator(hi: string, lo: string)
    requires AllDigits(lo)
    ensures ReplaceAll(hi + "." + lo, ".", "") == ReplaceAll(hi, ".", "") + lo
  {
    ReplaceCharAppend(hi + ".", lo, '.', "");
    ReplaceCharAppend(hi, ".", '.', "");
    ReplaceCharSingle('.', '.', "");
    ReplaceAllNoMatch(lo, ".", "");
    assert ReplaceAll(hi, ".", "") + "" == ReplaceAll(hi, ".", "");
  }

  /** The normaliser reads back what the site displays: a price shown as
      `US$` followed by `Thousands(n)` has `price_num` n. */
  lemma PriceOfDisplay(n: nat)
    ensures PriceNum(PricePrefix + Thousands(n)) == Some(n)
  {
    var t := Thousands(n);
    assert (PricePrefix + t)[..3] == PricePrefix;
    assert PricePrefix + t != Missing;
    ReplaceAllLeading(PricePrefix, t, "");
    ReplaceAllNoMatch(t, PricePrefix, "");
    assert ReplaceAll(PricePrefix + t, PricePrefix, "") == t;
    ThousandsDigits(n);
    var d := ReplaceAll(t, ".", "");
    ParseIntDigits(d);
    DigitNotSpace(d[0]);
    DigitNotSpace(d[|d| - 1]);
  }

  /** A distance shown as `Thousands(n)` followed by ` Km` has
      `kilometers_num` n. */
  lemma KilometersOfDisplay(n: nat)
    ensures KilometersNum(Thousands(n) + " Km") == Some(n)
  {
    var t := Thousands(n);
    var km := t + " Km";
    assert km[0] != 'N';
    UnitRemoved(t);
    ReplaceCharAppend(t, " ", '.', "");
    ReplaceCharSingle(' ', '.', "");
    ThousandsDigits(n);
    TrailingSpaceParsed(ReplaceAll(t, ".", ""));
  }

  /** Removing `Km` from `t Km` leaves the separating space. */
  lemma UnitRemoved(t: string)
    requires forall k | 0 <= k < |t| :: t[k] != 'K'
    ensures ReplaceAll(t + " Km", "Km", "") == t + " "
  {
    ReplaceAllSkip(t, " Km", "Km", "");
    UnitAlone();
  }

  lemma UnitAlone()
    ensures ReplaceAll(" Km", "Km", "") == " "
  {
    var unit := "Km";
    assert ReplaceAll(unit, unit, "") == [] by {
      ReplaceAllLeading(unit, [], "");
      assert unit + [] == unit;
    }
    assert " Km" == " " + unit;
    ReplaceAllSkip(" ", unit, unit, "");
  }

  /** `int(d + ' ')` for a run of digits `d`. */
  lemma TrailingSpaceParsed(d: string)
    requires |d| > 0 && AllDigits(d)
    ensures ParseInt(Strip(d + " ")) == Some(DecimalValue(d))
  {
    var space := " ";
    assert AllSpace(space) by {
      assert IsSpace(space[0]);
    }
    StripAppended(d, space);
    DigitNotSpace(d[0]);
    DigitNotSpace(d[|d| - 1]);
    assert Strip(d) == d;
    ParseIntDigits(d);
  }

  /** A year shown as plain digits has `year_num` equal to that number. */
  lemma YearOfDisplay(n: nat)
    ensures YearNum(NatToString(n)) == Some(n)
  {
    var y := NatToString(n);
    assert y[0] != 'N';
    ParseIntOfNatural(n);
  }

  /** A listing whose display fields are written the way the site writes
      them, with the matching numbers, is consistent. */
  lemma DisplayedConsistent(l: Listing, price: nat, year: nat, km: nat)
    requires l.price == PricePrefix + Thousands(price) && l.priceNum == price
    requires l.year == NatToString(year) && l.yearNum == year
    requires l.kilometers == Thousands(km) + " Km" && l.kilometersNum == km
    ensures Consistent(l)
  {
    PriceOfDisplay(price);
    YearOfDisplay(year);
    KilometersOfDisplay(km);
  }
}
