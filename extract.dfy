/** The reading of one rendered page into a snapshot (`getValuesFromPage`,
    index.js:41-71), with the document abstracted to the text of each hook
    element and the valuation table as rows of cell texts. */
module Extract {
  import opened Values
  import opened Currency
  import opened Snapshots

  /** A rendered page: the text of each `[data-hook=...]` element present,
      and the rows of the valuation table when that element is present. Each
      cell is the text the source reads from the cell's second child. */
  datatype Page = Page(hookTexts: map<string, string>, valuationRows: Option<seq<seq<string>>>)

  /** Why reading a page stops. The first three are the `TypeError`s the
      browser raises on a missing element or cell; the last marks a year
      cell whose text is outside what the model converts. */
  datatype ExtractError =
    | MissingHook(hook: string)
    | MissingValuationTable
    | ShortRow(row: nat)
    | UnmodelledYear(row: nat)

  /** The first hook, in hook order, that the page lacks. */
  function FirstMissingHook(hooks: seq<string>, texts: map<string, string>): (r: Option<string>)
    ensures r.None? <==> forall i :: 0 <= i < |hooks| ==> hooks[i] in texts
    ensures r.Some? ==> r.value in hooks && r.value !in texts
  {
    if hooks == [] then None
    else if hooks[0] !in texts then Some(hooks[0])
    else FirstMissingHook(hooks[1..], texts)
  }

  lemma {:induction false} FirstMissingHookAt(hooks: seq<string>, texts: map<string, string>, i: nat)
    requires i < |hooks| && hooks[i] !in texts
    requires forall j :: 0 <= j < i ==> hooks[j] in texts
    ensures FirstMissingHook(hooks, texts) == Some(hooks[i])
  {
    if i > 0 {
      FirstMissingHookAt(hooks[1..], texts, i - 1);
    }
  }

  /** `Number(text)` for the year cell. Only digit strings are converted
      (the empty string is 0, as in JavaScript); other text is left to the
      caller as an error. */
  function ParseYear(text: string): (r: Option<nat>)
    ensures r.Some? <==> AllDigits(text)
    ensures r.Some? ==> r.value == DigitsValue(text)
    ensures text == "" ==> r == Some(0)
  {
    if AllDigits(text) then Some(DigitsValue(text)) else None
  }

  /** A year written in decimal is read back as that year. */
  lemma ParseYearReadsBack(year: nat)
    ensures ParseYear(NatText(year)) == Some(year)
  {
    NatTextValue(year);
  }

  /** The attributes read from columns 1 up to, not including, `i`, each
      cell's currency text read as a number (index.js:59-65). */
  function RowAttrsUpTo(row: seq<string>, i: nat): Attrs
    requires 1 <= i <= |row| && i <= ColumnCount
  {
    map a | a in ValuationAttrNames && 1 <= ColumnIndex(a) < i :: CurrencyNumber(row[ColumnIndex(a)])
  }

  function RowAttrs(row: seq<string>): (r: Attrs)
    requires |row| >= ColumnCount
    ensures Year !in r
    ensures forall a :: a in r ==> r[a].Num? || r[a].NaN?
  {
    RowAttrsUpTo(row, ColumnCount)
  }

  /** The keys of every year's attributes: all valuation attributes but the
      year. */
  const AttrKeys: set<AttrName> := set a | a in ValuationAttrNames && a != Year

  lemma RowAttrsUpToExact(row: seq<string>, i: nat)
    requires 1 <= i <= |row| && i <= ColumnCount
    ensures RowAttrsUpTo(row, i).Keys == set j | 1 <= j < i :: ValuationAttrNames[j]
    ensures forall j :: 1 <= j < i ==> RowAttrsUpTo(row, i)[ValuationAttrNames[j]] == CurrencyNumber(row[j])
  {
    ValuationAttrNamesShape();
    var keys := set j | 1 <= j < i :: ValuationAttrNames[j];
    forall a | a in RowAttrsUpTo(row, i) ensures a in keys {
      assert ValuationAttrNames[ColumnIndex(a)] == a;
    }
  }

  /** Reading column `i` adds its attribute to those of the earlier columns. */
  lemma RowAttrsUpToStep(row: seq<string>, i: nat)
    requires 1 <= i < |row| && i < ColumnCount
    ensures RowAttrsUpTo(row, i)[ValuationAttrNames[i] := CurrencyNumber(row[i])] == RowAttrsUpTo(row, i + 1)
  {
    ValuationAttrNamesShape();
  }

  /** A full row gives exactly the attribute names after the year, each
      mapped to the number read from its own column. */
  lemma RowAttrsExact(row: seq<string>)
    requires |row| >= ColumnCount
    ensures RowAttrs(row).Keys == AttrKeys
    ensures forall j :: 1 <= j < ColumnCount ==> RowAttrs(row)[ValuationAttrNames[j]] == CurrencyNumber(row[j])
  {
    RowAttrsUpToExact(row, ColumnCount);
  }

  /** One table row read as a year and its attributes, or the reason it
      cannot be: cells are read in column order, the year first. */
  function ReadRow(row: seq<string>, index: nat): (r: Result<(nat, Attrs), ExtractError>)
    ensures r.Ok? <==> Readable(row)
    ensures r.Ok? ==> r.value == (DigitsValue(row[0]), RowAttrs(row))
    ensures r.Err? ==> r.error == ShortRow(index) || r.error == UnmodelledYear(index)
  {
    if |row| == 0 then Err(ShortRow(index))
    else match ParseYear(row[0])
      case None => Err(UnmodelledYear(index))
      case Some(year) =>
        if |row| < ColumnCount then Err(ShortRow(index))
        else Ok((year, RowAttrs(row)))
  }

  /** The valuation table after the rows have been assigned in order. */
  function TableOf(rows: seq<seq<string>>): (r: Result<YearTable, ExtractError>)
    ensures r.Ok? ==> |r.value| <= |rows|
    ensures r.Err? ==> (r.error.ShortRow? || r.error.UnmodelledYear?) && r.error.row < |rows|
    decreases |rows|
  {
    if rows == [] then Ok([])
    else match TableOf(rows[..|rows| - 1])
      case Err(e) => Err(e)
      case Ok(t) =>
        match ReadRow(rows[|rows| - 1], |rows| - 1)
        case Err(e) => Err(e)
        case Ok(entry) => Ok(Put(t, entry.0, entry.1))
  }

  /** An error in a prefix of the rows is the error of the whole table. */
  lemma {:induction false} TableOfErrPersists(rows: seq<seq<string>>, k: nat)
    requires k <= |rows| && TableOf(rows[..k]).Err?
    ensures TableOf(rows) == TableOf(rows[..k])
    decreases |rows| - k
  {
    if k < |rows| {
      assert rows[..k + 1][..k] == rows[..k];
      TableOfErrPersists(rows, k + 1);
    } else {
      assert rows[..k] == rows;
    }
  }

  /** A row can be read exactly when its year cell is all digits and it has
      a cell for every column. */
  predicate Readable(row: seq<string>) {
    |row| >= ColumnCount && AllDigits(row[0])
  }

  /** The last row decides whether a table read so far stays read. */
  lemma TableOfStep(rows: seq<seq<string>>)
    requires rows != []
    ensures TableOf(rows).Ok? <==> TableOf(rows[..|rows| - 1]).Ok? && Readable(rows[|rows| - 1])
  {
  }

  lemma ReadableSnoc(init: seq<seq<string>>, last: seq<string>)
    ensures (forall k :: 0 <= k < |init + [last]| ==> Readable((init + [last])[k]))
        <==> (forall k :: 0 <= k < |init| ==> Readable(init[k])) && Readable(last)
  {
    assert forall k :: 0 <= k < |init| ==> (init + [last])[k] == init[k];
    assert (init + [last])[|init|] == last;
  }

  /** The table is read exactly when every row is readable. */
  lemma {:induction false} TableOfOkIff(rows: seq<seq<string>>)
    ensures TableOf(rows).Ok? <==> forall k :: 0 <= k < |rows| ==> Readable(rows[k])
  {
    if rows != [] {
      var init := rows[..|rows| - 1];
      TableOfOkIff(init);
      TableOfStep(rows);
      assert rows == init + [rows[|rows| - 1]];
      ReadableSnoc(init, rows[|rows| - 1]);
    }
  }

  /** The table's years ascend, so none is repeated. */
  lemma {:induction false} TableOfAscending(rows: seq<seq<string>>)
    requires TableOf(rows).Ok?
    ensures Ascending(TableOf(rows).value)
  {
    if rows != [] {
      var init := rows[..|rows| - 1];
      var entry := ReadRow(rows[|rows| - 1], |rows| - 1).value;
      TableOfAscending(init);
      PutAscending(TableOf(init).value, entry.0, entry.1);
    }
  }

  /** The year a row's first cell gives, if any. */
  function YearCell(row: seq<string>): Option<nat> {
    if |row| == 0 then None else ParseYear(row[0])
  }

  /** The years the rows' first cells give. */
  function RowYears(rows: seq<seq<string>>): set<nat> {
    set k | 0 <= k < |rows| && YearCell(rows[k]).Some? :: YearCell(rows[k]).value
  }

  /** The table holds the years of the rows and no others. */
  lemma {:induction false} TableOfYears(rows: seq<seq<string>>)
    requires TableOf(rows).Ok?
    ensures Years(TableOf(rows).value) == RowYears(rows)
  {
    if rows != [] {
      var init := rows[..|rows| - 1];
      var last := |rows| - 1;
      var entry := ReadRow(rows[last], last).value;
      TableOfYears(init);
      PutYears(TableOf(init).value, entry.0, entry.1);
      RowYearsSnoc(rows);
    }
  }

  lemma RowYearsSnoc(rows: seq<seq<string>>)
    requires rows != [] && YearCell(rows[|rows| - 1]).Some?
    ensures RowYears(rows) == RowYears(rows[..|rows| - 1]) + {YearCell(rows[|rows| - 1]).value}
  {
    var init := rows[..|rows| - 1];
    var last := |rows| - 1;
    forall y | y in RowYears(rows) ensures y in RowYears(init) + {YearCell(rows[last]).value} {
      var k :| 0 <= k < |rows| && YearCell(rows[k]).Some? && YearCell(rows[k]).value == y;
      if k < last {
        assert init[k] == rows[k];
      }
    }
    forall y | y in RowYears(init) ensures y in RowYears(rows) {
      var k :| 0 <= k < |init| && YearCell(init[k]).Some? && YearCell(init[k]).value == y;
      assert rows[k] == init[k];
    }
  }

  /** Each year of the table holds exactly the attributes after the year. */
  lemma {:induction false} TableOfAttrKeys(rows: seq<seq<string>>)
    requires TableOf(rows).Ok?
    ensures forall i :: 0 <= i < |TableOf(rows).value| ==> TableOf(rows).value[i].1.Keys == AttrKeys
  {
    if rows != [] {
      var init := rows[..|rows| - 1];
      var last := |rows| - 1;
      var t := TableOf(init).value;
      var entry := ReadRow(rows[last], last).value;
      TableOfAttrKeys(init);
      RowAttrsExact(rows[last]);
      var r := Put(t, entry.0, entry.1);
      forall i | 0 <= i < |r| ensures r[i].1.Keys == AttrKeys {
        PutEntry(t, entry.0, entry.1, i);
      }
    }
  }

  /** Every entry after an assignment is an old entry or the new one. */
  lemma {:induction false} PutEntry(t: YearTable, year: nat, attrs: Attrs, i: nat)
    requires i < |Put(t, year, attrs)|
    ensures Put(t, year, attrs)[i] == (year, attrs) || Put(t, year, attrs)[i] in t
  {
    if t != [] && t[0].0 != year && year >= t[0].0 && i > 0 {
      PutEntry(t[1..], year, attrs, i - 1);
    }
  }

  /** A year holds the attributes of the LAST row that carries it: a later
      row with the same year overwrites an earlier one. */
  lemma {:induction false} TableOfLastRowWins(rows: seq<seq<string>>, k: nat)
    requires TableOf(rows).Ok? && k < |rows|
    requires ReadRow(rows[k], k).Ok?
    requires forall j :: k < j < |rows| && ReadRow(rows[j], j).Ok? ==>
               ReadRow(rows[j], j).value.0 != ReadRow(rows[k], k).value.0
    ensures Lookup(TableOf(rows).value, ReadRow(rows[k], k).value.0) == Some(RowAttrs(rows[k]))
  {
    var last := |rows| - 1;
    var init := rows[..last];
    var t := TableOf(init).value;
    var entry := ReadRow(rows[last], last).value;
    assert TableOf(rows).value == Put(t, entry.0, entry.1);
    var year := ReadRow(rows[k], k).value.0;
    PutLookup(t, entry.0, entry.1, year);
    if k < last {
      forall j | k < j < |init| && ReadRow(init[j], j).Ok? ensures ReadRow(init[j], j).value.0 != year {
        assert init[j] == rows[j];
      }
      assert init[k] == rows[k];
      TableOfLastRowWins(init, k);
      assert entry.0 != year;
      assert Lookup(t, year) == Some(RowAttrs(rows[k]));
    } else {
      assert k == last;
      assert ReadRow(rows[k], k) == ReadRow(rows[last], last);
    }
  }

  /** The whole reading of a page: hooks first, in hook order, then the
      valuation table row by row. */
  function ExtractSpec(page: Page, hooks: seq<string>): (r: Result<Snapshot, ExtractError>)
    ensures (exists i :: 0 <= i < |hooks| && hooks[i] !in page.hookTexts) ==> r.Err? && r.error.MissingHook?
    ensures r.Err? && r.error.MissingHook? ==> r.error.hook in hooks && r.error.hook !in page.hookTexts
    ensures r.Ok? ==> page.valuationRows.Some? && TableOf(page.valuationRows.value) == Ok(r.value.valuations)
  {
    match FirstMissingHook(hooks, page.hookTexts)
    case Some(h) => Err(MissingHook(h))
    case None =>
      match page.valuationRows
      case None => Err(MissingValuationTable)
      case Some(rows) =>
        match TableOf(rows)
        case Err(e) => Err(e)
        case Ok(t) =>
          Ok(Snapshot(map h | h in hooks && h in page.hookTexts :: page.hookTexts[h], t))
  }

  /** A snapshot read from a page has the text of exactly the hooks, and a
      valuation table whose years ascend and whose entries hold exactly the
      attributes after the year. */
  lemma ExtractedSnapshotShape(page: Page, hooks: seq<string>)
    requires ExtractSpec(page, hooks).Ok?
    ensures ExtractSpec(page, hooks).value.fields.Keys == set i | 0 <= i < |hooks| :: hooks[i]
    ensures forall h :: h in hooks ==> Field(ExtractSpec(page, hooks).value, h) == Str(page.hookTexts[h])
    ensures Ascending(ExtractSpec(page, hooks).value.valuations)
    ensures forall i :: 0 <= i < |ExtractSpec(page, hooks).value.valuations| ==>
              ExtractSpec(page, hooks).value.valuations[i].1.Keys == AttrKeys
  {
    TableOfAscending(page.valuationRows.value);
    TableOfAttrKeys(page.valuationRows.value);
  }

  /** One row of the valuation table: the year cell, then the attribute
      cells in column order (index.js:55-66). */
  method ReadValuationRow(row: seq<string>, index: nat) returns (r: Result<(nat, Attrs), ExtractError>)
    ensures r == ReadRow(row, index)
  {
    if |row| == 0 {
      return Err(ShortRow(index));
    }
    var year := ParseYear(row[0]);
    if year.None? {
      return Err(UnmodelledYear(index));
    }
    var attrs: Attrs := map[];
    for i := 1 to ColumnCount
      invariant i <= |row|
      invariant attrs == RowAttrsUpTo(row, i)
    {
      if i >= |row| {
        return Err(ShortRow(index));
      }
      RowAttrsUpToStep(row, i);
      attrs := attrs[ValuationAttrNames[i] := CurrencyNumber(row[i])];
    }
    r := Ok((year.value, attrs));
  }

  /** The hook loop of `getValuesFromPage` (index.js:44-47): the text of
      each hook in order, stopping at the first the page lacks. */
  method ReadHooks(page: Page, hooks: seq<string>) returns (missing: Option<string>, vals: map<string, string>)
    ensures missing == FirstMissingHook(hooks, page.hookTexts)
    ensures missing.None? ==> vals == map h | h in hooks && h in page.hookTexts :: page.hookTexts[h]
  {
    vals := map[];
    for i := 0 to |hooks|
      invariant forall j :: 0 <= j < i ==> hooks[j] in page.hookTexts
      invariant vals == map h | h in hooks[..i] && h in page.hookTexts :: page.hookTexts[h]
    {
      var hook := hooks[i];
      if hook !in page.hookTexts {
        FirstMissingHookAt(hooks, page.hookTexts, i);
        return Some(hook), vals;
      }
      assert hooks[..i + 1] == hooks[..i] + [hook];
      vals := vals[hook := page.hookTexts[hook]];
    }
    assert hooks[..|hooks|] == hooks;
    missing := None;
  }

  /** The row loop of `getValuesFromPage` (index.js:53-67): each row read
      and assigned under its year, in row order. */
  method ReadValuationTable(rows: seq<seq<string>>) returns (r: Result<YearTable, ExtractError>)
    ensures r == TableOf(rows)
  {
    var valuations: YearTable := [];
    for k := 0 to |rows|
      invariant TableOf(rows[..k]) == Ok(valuations)
    {
      var row := rows[k];
      assert rows[..k + 1][..k] == rows[..k];
      var entry := ReadValuationRow(row, k);
      if entry.Err? {
        TableOfErrPersists(rows, k + 1);
        return Err(entry.error);
      }
      valuations := Put(valuations, entry.value.0, entry.value.1);
    }
    assert rows[..|rows|] == rows;
    r := Ok(valuations);
  }

  /** `getValuesFromPage`: reads every hook's text, then every row of the
      valuation table with its columns in declared order. */
  method GetValuesFromPage(page: Page, hooks: seq<string>) returns (r: Result<Snapshot, ExtractError>)
    ensures r == ExtractSpec(page, hooks)
  {
    var missing, vals := ReadHooks(page, hooks);
    if missing.Some? {
      return Err(MissingHook(missing.value));
    }
    if page.valuationRows.None? {
      return Err(MissingValuationTable);
    }
    var table := ReadValuationTable(page.valuationRows.value);
    if table.Err? {
      return Err(table.error);
    }
    r := Ok(Snapshot(vals, table.value));
  }
}
