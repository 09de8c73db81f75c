/** The reading of pages and their comparison together, and two worked
    accounts. */
module Scenarios {
  import opened Values
  import opened Snapshots
  import opened Extract
  import opened Diff
  import opened DiffProperties

  /** Two reads of the same page, compared without transforms, report
      nothing exactly when no compared valuation cell reads as `NaN`. */
  lemma SamePageNoRecords(account: string, page: Page, hooks: seq<string>)
    requires ExtractSpec(page, hooks).Ok?
    ensures var s := ExtractSpec(page, hooks).value;
            DiffSpec(account, hooks, map[], s, s) == Ok([]) <==> ComparedNaNFree(s.valuations)
  {
    ExtractedSnapshotShape(page, hooks);
    SelfDiffEmpty(account, hooks, ExtractSpec(page, hooks).value);
  }

  /** One differing hook and equal valuations: exactly one record, keyed by
      the hook, carrying both texts. */
  lemma OwnerNameDiffers()
    ensures var year := map[MarketValue := Num(Decimal(1000, []))];
            var ais := Snapshot(map["owner-name" := "A SMITH"], [(2020, year)]);
            var opa := Snapshot(map["owner-name" := "A. Smith"], [(2020, year)]);
            DiffSpec("100", ["owner-name"], map[], ais, opa)
              == Ok([Record("100", "owner-name", Str("A SMITH"), Str("A. Smith"), false)])
  {
    var year := map[MarketValue := Num(Decimal(1000, []))];
    var t := [(2020, year)];
    var ais := Snapshot(map["owner-name" := "A SMITH"], t);
    var opa := Snapshot(map["owner-name" := "A. Smith"], t);
    assert "A SMITH" != "A. Smith" by {
      assert "A SMITH"[1] != "A. Smith"[1];
    }
    assert FieldDiffers("owner-name", map[], ais, opa);
    assert ["owner-name"][1..] == [];
    assert FieldDiffs("100", ["owner-name"], map[], ais, opa)
        == [Record("100", "owner-name", Str("A SMITH"), Str("A. Smith"), false)];
    AttrDiffsSelf("100", 2020, year, ComparedNames);
    assert AttrDiffs("100", 2020, year, year, ComparedNames) == [];
    assert Lookup(t, 2020) == Some(year);
    assert t[1..] == [];
    assert YearDiffs("100", t, t) == Ok([]);
  }

  /** A year that only the OPA site has is not reported as a difference:
      reading its AIS attributes fails, and the account yields no records. */
  lemma NewOpaYearFails()
    ensures var ais := Snapshot(map[], [(2020, map[MarketValue := Num(Decimal(1000, []))])]);
            var opa := Snapshot(map[], [(2020, map[MarketValue := Num(Decimal(1000, []))]),
                                        (2021, map[MarketValue := Num(Decimal(1200, []))])]);
            DiffSpec("100", [], map[], ais, opa) == Err(MissingAisYear(2021))
  {
    var ais := Snapshot(map[], [(2020, map[MarketValue := Num(Decimal(1000, []))])]);
    var opa := Snapshot(map[], [(2020, map[MarketValue := Num(Decimal(1000, []))]),
                                (2021, map[MarketValue := Num(Decimal(1200, []))])]);
    assert Lookup(ais.valuations, 2021) == None;
    assert Lookup(ais.valuations, 2020).Some?;
    YearDiffsFirstMissing("100", opa.valuations, ais.valuations, 1);
  }
}
