/** The store reset of seed_data.py: three sample listings, and
    `recreate_database`, which empties the collection and inserts a
    stamped copy of each. */
module Seed {
  import opened Text
  import opened Listings
  import opened Store

  /** `SAMPLE_CARS`. */
  const SampleCars: seq<Listing> := [Corolla, Ranger, Golf]

  /** The first sample. */
  const Corolla: Listing := Listing(
    Some("MLA123456"),
    Some("https://http2.mlstatic.com/D_NQ_NP_888888-MLA88888888888_122022-W.jpg"),
    "Toyota Corolla 1.8 Xei Pack Cvt",
    "US$22.000", 22000,
    "2019", 2019,
    "45.000 Km", 45000,
    "Palermo, Capital Federal",
    "https://auto.mercadolibre.com.ar/MLA-123456-toyota-corolla",
    "Toyota Corolla")

  /** The second sample. */
  const Ranger: Listing := Listing(
    Some("MLA654321"),
    Some("https://http2.mlstatic.com/D_NQ_NP_999999-MLA99999999999_122022-W.jpg"),
    "Ford Ranger 3.2 Limited 4x4 At",
    "US$35.000", 35000,
    "2021", 2021,
    "20.000 Km", 20000,
    "Córdoba, Córdoba",
    "https://auto.mercadolibre.com.ar/MLA-654321-ford-ranger",
    "Ford Ranger")

  /** The third sample. */
  const Golf: Listing := Listing(
    Some("MLA789012"),
    Some("https://http2.mlstatic.com/D_NQ_NP_777777-MLA77777777777_122022-W.jpg"),
    "Volkswagen Golf 1.4 Tsi Highline",
    "US$24.500", 24500,
    "2018", 2018,
    "55.000 Km", 55000,
    "San Isidro, Gba Norte",
    "https://auto.mercadolibre.com.ar/MLA-789012-volkswagen-golf",
    "Volkswagen Golf")

  /** A copy of a sample with the reset's timestamp and date added. */
  function Seeded(car: Listing, ts: Timestamp): Snapshot {
    Snapshot(car, ts, DateStr(ts))
  }

  /** `recreate_database(collection)`: delete every document, then insert
      one stamped copy per sample, in order; returns how many were
      inserted. */
  method RecreateDatabase(store: Collection, ts: Timestamp) returns (n: nat)
    modifies store
    ensures |store.docs| == |SampleCars| == n == 3
    ensures forall k | 0 <= k < |SampleCars| :: store.docs[k] == Seeded(SampleCars[k], ts)
  {
    store.DeleteMany();
    var today := DateStr(ts);
    var records: seq<Snapshot> := [];
    for i := 0 to |SampleCars|
      invariant |records| == i
      invariant forall k | 0 <= k < i :: records[k] == Seeded(SampleCars[k], ts)
    {
      var record := Snapshot(SampleCars[i], ts, today);
      records := records + [record];
    }
    if records != [] {
      store.InsertMany(records);
    }
    n := |records|;
  }

  lemma TwoDigits(n: nat)
    requires 10 <= n < 100
    ensures NatToString(n) == [DigitChar(n / 10), DigitChar(n % 10)]
  {
  }

  lemma ThreeDigits(n: nat)
    requires 100 <= n < 1000
    ensures NatToString(n) == [DigitChar(n / 100), DigitChar(n / 10 % 10), DigitChar(n % 10)]
  {
    TwoDigits(n / 10);
  }

  lemma FourDigits(n: nat)
    requires 1000 <= n < 10000
    ensures NatToString(n) ==
      [DigitChar(n / 1000), DigitChar(n / 100 % 10), DigitChar(n / 10 % 10), DigitChar(n % 10)]
  {
    ThreeDigits(n / 10);
  }

  /** A whole number of thousands that the site shows as two digits, a dot
      and three zeros. */
  lemma ThousandsOfRound(n: nat)
    requires 10 <= n < 100
    ensures Thousands(n * 1000) == [DigitChar(n / 10), DigitChar(n % 10)] + ".000"
  {
    var m := n * 1000;
    assert m / 1000 == n && m % 1000 == 0;
    assert Thousands(m) == Thousands(n) + "." + Padded(0, 3);
    TwoDigits(n);
    ZeroField();
  }

  lemma ZeroField()
    ensures Padded(0, 3) == "000"
  {
    assert NatToString(0) == "0";
    assert Zeros(2) == "00" by {
      assert Zeros(1) == "0";
    }
  }

  lemma ThousandsOf24500()
    ensures Thousands(24500) == "24.500"
  {
    TwoDigits(24);
    ThreeDigits(500);
    assert Padded(500, 3) == "500";
  }

  /** Every sample's numeric fields are what the scraper's normaliser
      reads from its display fields. */
  lemma SamplesConsistent()
    ensures forall k | 0 <= k < |SampleCars| :: Consistent(SampleCars[k])
  {
    forall k | 0 <= k < |SampleCars| ensures Consistent(SampleCars[k]) {
      if k == 0 {
        assert SampleCars[k] == Corolla;
        CorollaConsistent();
      } else if k == 1 {
        assert SampleCars[k] == Ranger;
        RangerConsistent();
      } else {
        assert SampleCars[k] == Golf;
        GolfConsistent();
      }
    }
  }

  lemma CorollaConsistent()
    ensures Consistent(Corolla)
  {
    CorollaPrice();
    CorollaYear();
    CorollaKilometers();
  }

  lemma CorollaPrice()
    ensures PriceNum(Corolla.price) == Some(22000)
  {
    assert Thousands(22000) == "22.000" by {
      ThousandsOfRound(22);
    }
    PriceShown(Corolla.price, 22000);
  }

  lemma CorollaYear()
    ensures YearNum(Corolla.year) == Some(2019)
  {
    FourDigits(2019);
    YearShown(Corolla.year, 2019);
  }

  lemma CorollaKilometers()
    ensures KilometersNum(Corolla.kilometers) == Some(45000)
  {
    assert Thousands(45000) == "45.000" by {
      ThousandsOfRound(45);
    }
    assert Corolla.kilometers == "45.000" + " Km";
    KilometersShown(Corolla.kilometers, 45000);
  }

  lemma RangerConsistent()
    ensures Consistent(Ranger)
  {
    RangerPrice();
    RangerYear();
    RangerKilometers();
  }

  lemma RangerPrice()
    ensures PriceNum(Ranger.price) == Some(35000)
  {
    assert Thousands(35000) == "35.000" by {
      ThousandsOfRound(35);
    }
    PriceShown(Ranger.price, 35000);
  }

  lemma RangerYear()
    ensures YearNum(Ranger.year) == Some(2021)
  {
    FourDigits(2021);
    YearShown(Ranger.year, 2021);
  }

  lemma RangerKilometers()
    ensures KilometersNum(Ranger.kilometers) == Some(20000)
  {
    assert Thousands(20000) == "20.000" by {
      ThousandsOfRound(20);
    }
    assert Ranger.kilometers == "20.000" + " Km";
    KilometersShown(Ranger.kilometers, 20000);
  }

  lemma GolfConsistent()
    ensures Consistent(Golf)
  {
    GolfPrice();
    GolfYear();
    GolfKilometers();
  }

  lemma GolfPrice()
    ensures PriceNum(Golf.price) == Some(24500)
  {
    assert Thousands(24500) == "24.500" by {
      ThousandsOf24500();
    }
    PriceShown(Golf.price, 24500);
  }

  lemma GolfYear()
    ensures YearNum(Golf.year) == Some(2018)
  {
    FourDigits(2018);
    YearShown(Golf.year, 2018);
  }

  lemma GolfKilometers()
    ensures KilometersNum(Golf.kilometers) == Some(55000)
  {
    assert Thousands(55000) == "55.000" by {
      ThousandsOfRound(55);
    }
    assert Golf.kilometers == "55.000" + " Km";
    KilometersShown(Golf.kilometers, 55000);
  }

  // The three display conversions, each applied to a text that is only
  // known to equal the display form.

  lemma PriceShown(s: string, n: nat)
    requires s == PricePrefix + Thousands(n)
    ensures PriceNum(s) == Some(n)
  {
    PriceOfDisplay(n);
  }

  lemma YearShown(s: string, n: nat)
    requires s == NatToString(n)
    ensures YearNum(s) == Some(n)
  {
    YearOfDisplay(n);
  }

  lemma KilometersShown(s: string, n: nat)
    requires s == Thousands(n) + " Km"
    ensures KilometersNum(s) == Some(n)
  {
    KilometersOfDisplay(n);
  }

  /** The samples have distinct descriptions, so after a reset every
      document has its own upsert key. */
  lemma SeededKeysUnique(docs: seq<Snapshot>, ts: Timestamp)
    requires |docs| == |SampleCars|
    requires forall k | 0 <= k < |SampleCars| :: docs[k] == Seeded(SampleCars[k], ts)
    ensures KeysUnique(docs)
    ensures forall k | 0 <= k < |docs| :: docs[k].timestamp == ts && docs[k].dateStr == DateStr(ts)
  {
    assert Corolla.description[0] != Ranger.description[0];
    assert Corolla.description[0] != Golf.description[0];
    assert Ranger.description[0] != Golf.description[0];
  }

  /** Two resets leave the same listings in the same order, whatever the
      store held before; only the timestamps differ. */
  lemma ResetTwice(first: seq<Snapshot>, second: seq<Snapshot>, ts1: Timestamp, ts2: Timestamp)
    requires |first| == |SampleCars| && |second| == |SampleCars|
    requires forall k | 0 <= k < |SampleCars| :: first[k] == Seeded(SampleCars[k], ts1)
    requires forall k | 0 <= k < |SampleCars| :: second[k] == Seeded(SampleCars[k], ts2)
    ensures |first| == |second|
    ensures forall k | 0 <= k < |first| :: first[k].listing == second[k].listing
    ensures ts1 == ts2 ==> first == second
  {
  }
}
