/** What one page yields for one account: the text of every hook and the
    valuation table, a JavaScript object from year to an object of valuation
    attributes (index.js:41-71). */
module Snapshots {
  import opened Values

  /** The attributes of a valuation row. The source keys each year's object
      by their names, `AttrText`. */
  datatype AttrName = Year | MarketValue | TaxableLand | TaxableImprovement | ExemptLand | ExemptImprovement

  function AttrText(a: AttrName): string {
    match a
    case Year => "year"
    case MarketValue => "market-value"
    case TaxableLand => "taxable-land"
    case TaxableImprovement => "taxable-improvement"
    case ExemptLand => "exempt-land"
    case ExemptImprovement => "exempt-improvement"
  }

  /** The valuation attributes in the order of the page's table columns; the
      first names the year column and is the row's key (index.js:16-23). */
  const ValuationAttrNames: seq<AttrName> :=
    [Year, MarketValue, TaxableLand, TaxableImprovement, ExemptLand, ExemptImprovement]

  /** The number of table columns read from a row. */
  const ColumnCount: nat := 6

  /** The table column an attribute is read from. */
  function ColumnIndex(a: AttrName): (i: nat)
    ensures i < ColumnCount && ValuationAttrNames[i] == a
  {
    match a
    case Year => 0
    case MarketValue => 1
    case TaxableLand => 2
    case TaxableImprovement => 3
    case ExemptLand => 4
    case ExemptImprovement => 5
  }

  lemma ValuationAttrNamesShape()
    ensures |ValuationAttrNames| == ColumnCount
    ensures ValuationAttrNames[0] == Year && Year !in ValuationAttrNames[1..]
    ensures forall i :: 0 <= i < ColumnCount ==> ColumnIndex(ValuationAttrNames[i]) == i
  {
  }

  /** No two attributes share a text, so the object keys they make are
      distinct. */
  lemma AttrTextsDistinct(a: AttrName, b: AttrName)
    ensures AttrText(a) == AttrText(b) <==> a == b
  {
  }

  /** One year's valuation attributes, by attribute name. */
  type Attrs = map<AttrName, Value>

  /** `attrs[name]`: `undefined` when the property is absent. */
  function Get(attrs: Attrs, name: AttrName): Value {
    if name in attrs then attrs[name] else Undefined
  }

  /** An object keyed by year, as its entries in `Object.keys` order. Years
      are integer keys, which JavaScript enumerates in ascending order. */
  type YearTable = seq<(nat, Attrs)>

  predicate Ascending(t: YearTable) {
    forall i, j :: 0 <= i < j < |t| ==> t[i].0 < t[j].0
  }

  function Years(t: YearTable): set<nat> {
    set i | 0 <= i < |t| :: t[i].0
  }

  /** `t[year]`: the attributes stored under `year`, if any. */
  function Lookup(t: YearTable, year: nat): (r: Option<Attrs>)
    ensures r.Some? <==> year in Years(t)
  {
    if t == [] then None
    else if t[0].0 == year then Some(t[0].1)
    else
      var r := Lookup(t[1..], year);
      assert Years(t) == {t[0].0} + Years(t[1..]);
      r
  }

  /** In a table without repeated years, the lookup of an entry's year finds
      that entry. */
  lemma {:induction false} LookupEntry(t: YearTable, k: nat)
    requires Ascending(t) && k < |t|
    ensures Lookup(t, t[k].0) == Some(t[k].1)
  {
    if k > 0 {
      LookupEntry(t[1..], k - 1);
    }
  }

  /** `t[year] = attrs`: an existing year keeps its place and gets the new
      attributes; a new year goes where the ascending key order puts it. */
  function Put(t: YearTable, year: nat, attrs: Attrs): (r: YearTable)
    ensures (year, attrs) in r
    ensures forall e :: e in t && e.0 != year ==> e in r
    ensures |t| <= |r| <= |t| + 1
  {
    if t == [] then [(year, attrs)]
    else if t[0].0 == year then [(year, attrs)] + t[1..]
    else if year < t[0].0 then [(year, attrs)] + t
    else [t[0]] + Put(t[1..], year, attrs)
  }

  /** After the assignment the year reads back the new attributes and every
      other year reads as before. */
  lemma {:induction false} PutLookup(t: YearTable, year: nat, attrs: Attrs, other: nat)
    ensures Lookup(Put(t, year, attrs), year) == Some(attrs)
    ensures other != year ==> Lookup(Put(t, year, attrs), other) == Lookup(t, other)
  {
    if t != [] && t[0].0 != year && year >= t[0].0 {
      PutLookup(t[1..], year, attrs, other);
    }
  }

  lemma {:induction false} PutYears(t: YearTable, year: nat, attrs: Attrs)
    ensures Years(Put(t, year, attrs)) == Years(t) + {year}
  {
    var r := Put(t, year, attrs);
    forall y ensures y in Years(r) <==> y in Years(t) + {year} {
      PutLookup(t, year, attrs, y);
    }
  }

  /** The assignment keeps the keys in ascending order, and so never
      repeats a year. */
  lemma {:induction false} PutAscending(t: YearTable, year: nat, attrs: Attrs)
    requires Ascending(t)
    ensures Ascending(Put(t, year, attrs))
  {
    if t == [] {
    } else if t[0].0 == year {
      AscendingCons((year, attrs), t[1..]);
    } else if year < t[0].0 {
      AscendingCons((year, attrs), t);
    } else {
      var rest := Put(t[1..], year, attrs);
      PutAscending(t[1..], year, attrs);
      PutAbove(t, year, attrs);
      AscendingCons(t[0], rest);
    }
  }

  /** The assignment grows the table only for a year it does not hold. */
  lemma {:induction false} PutLength(t: YearTable, year: nat, attrs: Attrs)
    requires Ascending(t)
    ensures |Put(t, year, attrs)| == if year in Years(t) then |t| else |t| + 1
  {
    if t != [] {
      assert Years(t) == {t[0].0} + Years(t[1..]);
      if t[0].0 != year && year >= t[0].0 {
        PutLength(t[1..], year, attrs);
      } else if year < t[0].0 {
        assert year !in Years(t);
      }
    }
  }

  /** An entry below every entry of an ascending table can go in front. */
  lemma AscendingCons(e: (nat, Attrs), t: YearTable)
    requires Ascending(t)
    requires forall j :: 0 <= j < |t| ==> e.0 < t[j].0
    ensures Ascending([e] + t)
  {
    var r := [e] + t;
    forall i, j | 0 <= i < j < |r| ensures r[i].0 < r[j].0 {
      assert r[j] == t[j - 1];
      if i > 0 {
        assert r[i] == t[i - 1];
      }
    }
  }

  /** Assigning a later year leaves the first entry below all the others. */
  lemma PutAbove(t: YearTable, year: nat, attrs: Attrs)
    requires Ascending(t) && t != [] && year > t[0].0
    ensures forall j :: 0 <= j < |Put(t[1..], year, attrs)| ==> t[0].0 < Put(t[1..], year, attrs)[j].0
  {
    var rest := Put(t[1..], year, attrs);
    PutYears(t[1..], year, attrs);
    forall j | 0 <= j < |rest| ensures t[0].0 < rest[j].0 {
      assert rest[j].0 in Years(rest);
    }
  }

  /** The text of every hook, and the valuation table. */
  datatype Snapshot = Snapshot(fields: map<string, string>, valuations: YearTable)

  /** `vals[hook]`: the hook's text, or `undefined` when the snapshot lacks it. */
  function Field(s: Snapshot, hook: string): Value {
    if hook in s.fields then Str(s.fields[hook]) else Undefined
  }
}
