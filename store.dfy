/** The snapshot collection (the `cars` collection of the document store)
    as a sequence of documents, with the one write the scraper performs:
    `replace_one(filter, doc, upsert=True)` keyed on
    (search_term, description, date_str). */
module Store {
  import opened Text
  import opened Listings

  /** A UTC timestamp as `datetime.utcnow()` returns it. */
  datatype Timestamp = Timestamp(
    year: nat, month: nat, day: nat,
    hour: nat, minute: nat, second: nat, microsecond: nat)

  predicate ValidTimestamp(t: Timestamp) {
    && 1 <= t.year <= 9999 && 1 <= t.month <= 12 && 1 <= t.day <= 31
    && t.hour < 24 && t.minute < 60 && t.second < 60 && t.microsecond < 1000000
  }

  /** `timestamp.strftime('%Y-%m-%d')`. */
  function DateStr(t: Timestamp): string {
    Padded(t.year, 4) + "-" + Padded(t.month, 2) + "-" + Padded(t.day, 2)
  }

  /** A valid timestamp's date is ten characters, `YYYY-MM-DD`. */
  lemma DateStrShape(t: Timestamp)
    requires ValidTimestamp(t)
    ensures var r := DateStr(t); |r| == 10 && r[4] == '-' && r[7] == '-'
  {
    NatToStringLength(t.year, 4);
    NatToStringLength(t.month, 2);
    NatToStringLength(t.day, 2);
  }

  /** The date string reads back as the timestamp's calendar day. */
  lemma DateStrFields(t: Timestamp)
    requires ValidTimestamp(t)
    ensures ParseInt(DateStr(t)[..4]) == Some(t.year)
    ensures ParseInt(DateStr(t)[5..7]) == Some(t.month)
    ensures ParseInt(DateStr(t)[8..]) == Some(t.day)
  {
    var r := DateStr(t);
    NatToStringLength(t.year, 4);
    NatToStringLength(t.month, 2);
    NatToStringLength(t.day, 2);
    assert r[..4] == Padded(t.year, 4);
    assert r[5..7] == Padded(t.month, 2);
    assert r[8..] == Padded(t.day, 2);
    PaddedValue(t.year, 4);
    PaddedValue(t.month, 2);
    PaddedValue(t.day, 2);
  }

  predicate SameDay(a: Timestamp, b: Timestamp) {
    a.year == b.year && a.month == b.month && a.day == b.day
  }

  /** Two timestamps have the same date string exactly when they fall on
      the same calendar day. */
  lemma DateStrSameDay(a: Timestamp, b: Timestamp)
    requires ValidTimestamp(a) && ValidTimestamp(b)
    ensures DateStr(a) == DateStr(b) <==> SameDay(a, b)
  {
    DateStrFields(a);
    DateStrFields(b);
  }

  /** Chronological order of calendar days. */
  predicate DayBefore(a: Timestamp, b: Timestamp) {
    a.year < b.year
    || (a.year == b.year && (a.month < b.month || (a.month == b.month && a.day < b.day)))
  }

  /** Comparing date strings with `<` compares the days they stand for. */
  lemma DateStrOrder(a: Timestamp, b: Timestamp)
    requires ValidTimestamp(a) && ValidTimestamp(b)
    ensures LexLess(DateStr(a), DateStr(b)) <==> DayBefore(a, b)
  {
    NatToStringLength(a.year, 4);
    NatToStringLength(a.month, 2);
    NatToStringLength(a.day, 2);
    NatToStringLength(b.year, 4);
    NatToStringLength(b.month, 2);
    NatToStringLength(b.day, 2);
    var ya, ma, da := Padded(a.year, 4), Padded(a.month, 2), Padded(a.day, 2);
    var yb, mb, db := Padded(b.year, 4), Padded(b.month, 2), Padded(b.day, 2);
    LexFields(ya, ma, da, yb, mb, db);
    PaddedDecimal(a.year, 4);
    PaddedDecimal(b.year, 4);
    PaddedDecimal(a.month, 2);
    PaddedDecimal(b.month, 2);
    PaddedDecimal(a.day, 2);
    PaddedDecimal(b.day, 2);
    LexDigits(ya, yb);
    LexDigits(ma, mb);
    LexDigits(da, db);
  }

  /** `Y-M-D` strings with fields of fixed widths compare field by field. */
  lemma LexFields(ya: string, ma: string, da: string, yb: string, mb: string, db: string)
    requires |ya| == |yb| && |ma| == |mb|
    ensures LexLess(ya + "-" + ma + "-" + da, yb + "-" + mb + "-" + db) <==>
      LexLess(ya, yb) || (ya == yb && (LexLess(ma, mb) || (ma == mb && LexLess(da, db))))
  {
    assert ya + "-" + ma + "-" + da == ya + ("-" + (ma + ("-" + da)));
    assert yb + "-" + mb + "-" + db == yb + ("-" + (mb + ("-" + db)));
    LexConcat(ya, "-" + (ma + ("-" + da)), yb, "-" + (mb + ("-" + db)));
    LexConcat("-", ma + ("-" + da), "-", mb + ("-" + db));
    LexConcat(ma, "-" + da, mb, "-" + db);
    LexConcat("-", da, "-", db);
    LexIrreflexive(ya);
    LexIrreflexive(ma);
  }

  // ---------------------------------------------------------------------
  // Documents and the upsert
  // ---------------------------------------------------------------------

  /** One stored document: a listing stamped with the run's timestamp and
      its date string. */
  datatype Snapshot = Snapshot(listing: Listing, timestamp: Timestamp, dateStr: string)

  /** The filter of the scraper's `replace_one`. */
  datatype Key = Key(searchTerm: string, description: string, dateStr: string)

  function KeyOf(d: Snapshot): Key {
    Key(d.listing.searchTerm, d.listing.description, d.dateStr)
  }

  predicate HasKey(docs: seq<Snapshot>, k: Key) {
    exists i | 0 <= i < |docs| :: KeyOf(docs[i]) == k
  }

  /** At most one document per key. */
  predicate KeysUnique(docs: seq<Snapshot>) {
    forall i, j | 0 <= i < j < |docs| :: KeyOf(docs[i]) != KeyOf(docs[j])
  }

  /** `m` is the position of the first document matching `k`. */
  predicate FirstWith(docs: seq<Snapshot>, k: Key, m: nat) {
    m < |docs| && KeyOf(docs[m]) == k && forall i | 0 <= i < m :: KeyOf(docs[i]) != k
  }

  /** `replace_one(filter, doc, upsert=True)`: the first document matching
      the filter is replaced by `doc`; without a match `doc` is inserted. */
  function Upserted(docs: seq<Snapshot>, filter: Key, doc: Snapshot): (r: seq<Snapshot>)
    ensures HasKey(docs, filter) ==> exists m: nat | FirstWith(docs, filter, m) :: r == docs[m := doc]
    ensures HasKey(docs, filter) ==> |r| == |docs|
    ensures !HasKey(docs, filter) ==> r == docs + [doc]
    ensures doc in r
    ensures forall i | 0 <= i < |docs| && KeyOf(docs[i]) != filter :: r[i] == docs[i]
    ensures forall d | d in r :: d == doc || d in docs
  {
    if docs == [] then [doc]
    else if KeyOf(docs[0]) == filter then
      assert FirstWith(docs, filter, 0);
      assert [doc] + docs[1..] == docs[0 := doc];
      [doc] + docs[1..]
    else
      HasKeyTail(docs, filter);
      var rest := Upserted(docs[1..], filter, doc);
      UpsertedCons(docs, rest, filter, doc);
      UpsertedFirst(docs, rest, filter, doc);
      [docs[0]] + rest
  }

  /** The recursive case of the upsert replaces the first match of the
      whole sequence when the tail's upsert replaces the tail's first. */
  lemma UpsertedFirst(docs: seq<Snapshot>, rest: seq<Snapshot>, filter: Key, doc: Snapshot)
    requires docs != [] && KeyOf(docs[0]) != filter
    requires HasKey(docs[1..], filter) ==>
      exists m: nat | FirstWith(docs[1..], filter, m) :: rest == docs[1..][m := doc]
    ensures HasKey(docs, filter) ==>
      exists m: nat | FirstWith(docs, filter, m) :: [docs[0]] + rest == docs[m := doc]
  {
    if HasKey(docs, filter) {
      HasKeyTail(docs, filter);
      var m: nat :| FirstWith(docs[1..], filter, m) && rest == docs[1..][m := doc];
      forall i | 0 <= i < m + 1 ensures KeyOf(docs[i]) != filter {
        if i > 0 {
          assert docs[i] == docs[1..][i - 1];
        }
      }
      assert FirstWith(docs, filter, m + 1);
      assert [docs[0]] + rest == docs[m + 1 := doc];
    }
  }

  lemma HasKeyTail(docs: seq<Snapshot>, k: Key)
    requires docs != [] && KeyOf(docs[0]) != k
    ensures HasKey(docs, k) <==> HasKey(docs[1..], k)
  {
    if HasKey(docs[1..], k) {
      var i :| 0 <= i < |docs[1..]| && KeyOf(docs[1..][i]) == k;
      assert KeyOf(docs[i + 1]) == k;
    }
    if HasKey(docs, k) {
      var i :| 0 <= i < |docs| && KeyOf(docs[i]) == k;
      assert KeyOf(docs[1..][i - 1]) == k;
    }
  }

  /** The recursive case of the upsert: the untouched head in front of the
      tail's upsert. */
  lemma UpsertedCons(docs: seq<Snapshot>, rest: seq<Snapshot>, filter: Key, doc: Snapshot)
    requires docs != [] && KeyOf(docs[0]) != filter
    requires |rest| >= |docs[1..]|
    requires forall i | 0 <= i < |docs[1..]| && KeyOf(docs[1..][i]) != filter :: rest[i] == docs[1..][i]
    ensures forall i | 0 <= i < |docs| && KeyOf(docs[i]) != filter :: ([docs[0]] + rest)[i] == docs[i]
  {
    var r := [docs[0]] + rest;
    forall i | 0 <= i < |docs| && KeyOf(docs[i]) != filter ensures r[i] == docs[i] {
      if i > 0 {
        assert docs[i] == docs[1..][i - 1];
      }
    }
  }

  /** Upserting a document under its own key keeps the keys unique, and
      afterwards that document is the only one with its key. */
  lemma {:induction false} UpsertedUnique(docs: seq<Snapshot>, doc: Snapshot)
    requires KeysUnique(docs)
    ensures KeysUnique(Upserted(docs, KeyOf(doc), doc))
    ensures forall d | d in Upserted(docs, KeyOf(doc), doc) && KeyOf(d) == KeyOf(doc) :: d == doc
  {
    var k := KeyOf(doc);
    if docs != [] {
      TailUnique(docs);
      if KeyOf(docs[0]) == k {
        assert Upserted(docs, k, doc) == [doc] + docs[1..];
        ConsUnique(doc, docs[1..]);
      } else {
        UpsertedUnique(docs[1..], doc);
        var rest := Upserted(docs[1..], k, doc);
        assert Upserted(docs, k, doc) == [docs[0]] + rest;
        assert forall d | d in rest :: d == doc || d in docs[1..];
        ConsUnique(docs[0], rest);
      }
    }
  }

  lemma TailUnique(docs: seq<Snapshot>)
    requires docs != [] && KeysUnique(docs)
    ensures KeysUnique(docs[1..])
    ensures forall d | d in docs[1..] :: KeyOf(d) != KeyOf(docs[0])
  {
    var t := docs[1..];
    forall i, j | 0 <= i < j < |t| ensures KeyOf(t[i]) != KeyOf(t[j]) {
      assert t[i] == docs[i + 1] && t[j] == docs[j + 1];
    }
    forall d | d in t ensures KeyOf(d) != KeyOf(docs[0]) {
      var j :| 0 <= j < |t| && t[j] == d;
      assert docs[j + 1] == d;
    }
  }

  lemma ConsUnique(x: Snapshot, rest: seq<Snapshot>)
    requires KeysUnique(rest)
    requires forall d | d in rest :: KeyOf(d) != KeyOf(x)
    ensures KeysUnique([x] + rest)
  {
    var r := [x] + rest;
    forall i, j | 0 <= i < j < |r| ensures KeyOf(r[i]) != KeyOf(r[j]) {
      assert r[j] == rest[j - 1];
      if i > 0 {
        assert r[i] == rest[i - 1];
      }
    }
  }

  /** Upserting twice under one key leaves what the second upsert alone
      leaves: only the latest values survive. */
  lemma {:induction false} UpsertedTwice(docs: seq<Snapshot>, first: Snapshot, second: Snapshot)
    requires KeyOf(first) == KeyOf(second)
    ensures Upserted(Upserted(docs, KeyOf(first), first), KeyOf(second), second)
         == Upserted(docs, KeyOf(second), second)
  {
    var k := KeyOf(first);
    if docs != [] && KeyOf(docs[0]) != k {
      UpsertedTwice(docs[1..], first, second);
    }
  }

  /** The documents after a run's upserts, in the order they were issued. */
  function UpsertAll(docs: seq<Snapshot>, recs: seq<Snapshot>): seq<Snapshot> {
    if recs == [] then docs
    else
      var last := recs[|recs| - 1];
      Upserted(UpsertAll(docs, recs[..|recs| - 1]), KeyOf(last), last)
  }

  /** Upserting each document under its own key keeps the collection free of
      duplicate keys. */
  lemma {:induction false} UpsertAllUnique(docs: seq<Snapshot>, recs: seq<Snapshot>)
    requires KeysUnique(docs)
    ensures KeysUnique(UpsertAll(docs, recs))
  {
    if recs != [] {
      UpsertAllUnique(docs, recs[..|recs| - 1]);
      UpsertedUnique(UpsertAll(docs, recs[..|recs| - 1]), recs[|recs| - 1]);
    }
  }

  /** The document left under a key is the last incoming one with that key. */
  lemma {:induction false} UpsertAllLatest(docs: seq<Snapshot>, recs: seq<Snapshot>, j: nat)
    requires KeysUnique(docs)
    requires j < |recs|
    requires forall j' | j < j' < |recs| :: KeyOf(recs[j']) != KeyOf(recs[j])
    ensures recs[j] in UpsertAll(docs, recs)
    ensures forall d | d in UpsertAll(docs, recs) && KeyOf(d) == KeyOf(recs[j]) :: d == recs[j]
  {
    var init := recs[..|recs| - 1];
    var last := recs[|recs| - 1];
    UpsertAllUnique(docs, init);
    if j == |recs| - 1 {
      UpsertedUnique(UpsertAll(docs, init), last);
    } else {
      UpsertAllLatest(docs, init, j);
      assert init[j] == recs[j];
      assert KeyOf(last) != KeyOf(recs[j]);
      UpsertedKeepsOther(UpsertAll(docs, init), KeyOf(last), last, recs[j]);
    }
  }

  /** A document under another key survives an upsert. */
  lemma UpsertedKeepsOther(docs: seq<Snapshot>, filter: Key, doc: Snapshot, x: Snapshot)
    requires x in docs && KeyOf(x) != filter
    ensures x in Upserted(docs, filter, doc)
  {
    var i :| 0 <= i < |docs| && docs[i] == x;
    assert Upserted(docs, filter, doc)[i] == x;
  }

  /** A document whose key no incoming document has keeps its place and
      its contents. */
  lemma {:induction false} UpsertAllOthers(docs: seq<Snapshot>, recs: seq<Snapshot>, i: nat)
    requires i < |docs|
    requires forall j | 0 <= j < |recs| :: KeyOf(recs[j]) != KeyOf(docs[i])
    ensures |UpsertAll(docs, recs)| >= |docs|
    ensures UpsertAll(docs, recs)[i] == docs[i]
  {
    if recs != [] {
      UpsertAllOthers(docs, recs[..|recs| - 1], i);
    }
  }

  /** A run adds at most one document per incoming document. */
  lemma {:induction false} UpsertAllSize(docs: seq<Snapshot>, recs: seq<Snapshot>)
    ensures |docs| <= |UpsertAll(docs, recs)| <= |docs| + |recs|
  {
    if recs != [] {
      UpsertAllSize(docs, recs[..|recs| - 1]);
    }
  }

  /** The collection, updated in place by the scraper and the seed script. */
  class Collection {
    var docs: seq<Snapshot>

    constructor ()
      ensures docs == []
    {
      docs := [];
    }

    /** `replace_one(filter, doc, upsert=True)`. */
    method ReplaceOne(filter: Key, doc: Snapshot)
      modifies this
      ensures docs == Upserted(old(docs), filter, doc)
    {
      docs := Upserted(docs, filter, doc);
    }

    /** `delete_many({})`: the empty filter matches every document. */
    method DeleteMany()
      modifies this
      ensures docs == []
    {
      docs := [];
    }

    /** `insert_many(batch)`: the batch is appended in order. */
    method InsertMany(batch: seq<Snapshot>)
      modifies this
      ensures docs == old(docs) + batch
    {
      docs := docs + batch;
    }
  }
}
