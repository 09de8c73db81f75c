# property-dom-compare, modelled in Dafny

The program compares two property websites account by account: the
AIS-backed site and the OPA-backed site. For each account it reads the same
page from both. From each page it takes the text of every "hook" field and
a valuation table (year → market value, taxable land, …). It then reports
every field and every year-attribute on which the two sites disagree, one
CSV line per disagreement.

This project models the comparison and formatting logic of `index.js`:

- `values.dfy` (module `Values`): the JavaScript values involved
  (`undefined`, strings, numbers, `NaN`). It also holds strict equality
  `===` and the text that `join` writes for each value. Numbers are exact
  non-negative decimals.
- `currency.dfy` (`Currency`): the currency clean-up of a valuation cell.
  Every character other than a digit or `.` is removed, then the rest goes
  through `Number`.
- `snapshots.dfy` (`Snapshots`): what one page yields. The valuation object
  is modelled with JavaScript's key order: integer keys ascend, and
  assigning to an existing key keeps its place.
- `extract.dfy` (`Extract`): `getValuesFromPage`, with the DOM replaced by
  the text of each hook element and the table's rows of cell texts. Each
  loop is proved equal to a specification function: `ReadHooks` to
  `FirstMissingHook` and the map of hook texts, `ReadValuationRow` to
  `ReadRow`, `ReadValuationTable` to `TableOf`, and the whole
  `GetValuesFromPage` to `ExtractSpec`.
- `diff.dfy` (`Diff`): `diffValues`, as imperative loops
  (`DiffFields`, `DiffYear`, `DiffYears`, `DiffValues`). They are proved equal to the
  specification function `DiffSpec`.
- `diff_properties.dfy` (`DiffProperties`): what `DiffSpec` promises. It
  covers the field rule, the valuation rule, ordering, the count bound, the
  missing-year failure, AIS-only years and reflexivity.
- `output.dfy` (`Output`): the header line and `writeDiffs`.
- `scenarios.dfy` (`Scenarios`): reading and comparing together, and two
  worked accounts.

Where the code's behaviour differs from its evident intent, the model
follows the code:

- OPA year missing on the AIS side: a year only the OPA site has would
  evidently be meant as a difference. The code reads an attribute of `undefined`
  (index.js:120-126) and raises a `TypeError`, so the account produces no
  records. The model returns `Err(MissingAisYear(year))` naming the first
  such year (`MissingAisYearRule`, `NewOpaYearFails`).
- Year order: the loop runs over the OPA object's keys, and
  `Object.keys` lists integer keys in ascending order, whatever order the
  rows came in. The model keeps the table sorted by year (`PutAscending`).
- `NaN`: a cell such as `1.2.3` cleans to a string `Number` reads as `NaN`,
  and `NaN !== NaN`. So comparing a snapshot with itself is empty only when
  no compared cell is `NaN` (`SelfDiffEmpty`). This holds of the values as
  the page computes them; the transfer out of the browser is taken as the
  identity (see "Left out").

The six valuation attributes are an enumeration, `AttrName`. `AttrText`
gives each one's name as the source spells it (index.js:16-23), and
`ValuationKey` uses that text to build the record key `name-year`.

Parameters: the hook list and the transform table come from modules that
are not part of this model (`./hooks`, `./transforms`). The hook list is a
sequence of keys. The transform table is a map from hook to an optional
function per site.

## Model

| member | source | states |
|---|---|---|
| `Values.NatTextValue` | index.js:132 | the decimal text written for a year reads back as that year |
| `Values.DigitsOfText` | index.js:63 | the digits of a fraction's text are the fraction's digits |
| `Values.CanonSameValue` | index.js:127 | numbers with the same canonical spelling (trailing zeros dropped) have the same exact value |
| `Values.CanonicalSameValue` | index.js:127 | two canonical decimals with the same exact value are the same decimal |
| `Values.SameValueCanon` | index.js:127 | numbers with the same exact value have the same canonical spelling, the converse of `CanonSameValue` |
| `Values.StrictEq` | index.js:103 | `===` is false whenever either side is `NaN`, and between values of different types |
| `Values.StrictEqNumbers` | index.js:127 | two numbers are strictly equal exactly when they have the same exact value |
| `Values.DigitsValue` | index.js:57 | a string of `k` digits reads as a number below 10^k |
| `Values.DecimalText` | index.js:148 | `String(x)` of a number is non-empty, starts with a digit, holds only digits and `.`, and has a `.` exactly when a fraction remains after dropping trailing zeros |
| `Values.ValueText` | index.js:148 | `join` writes nothing for `undefined`, and a number as digits and `.` only |
| `Values.BoolText` | index.js:148 | a flag's text is non-empty and holds neither `,` nor a newline, so it stays one cell of one line |
| `Values.BoolTextDistinct` | index.js:148 | the two flags are written differently, so a line's flag can be read back |
| `Values.StrictEqReflexive` | index.js:103 | a value is strictly equal to itself exactly when it is not `NaN` |
| `Values.IndexOfAfter` | index.js:63 | the first point of `a.b`, where `a` has none, is at position `\|a\|` |
| `Currency.Clean` | index.js:63 | the cleaned string holds only digits and `.` and is no longer than the input |
| `Currency.CleanAppend` | index.js:63 | cleaning a concatenation concatenates the cleaned parts, so kept characters keep their order |
| `Currency.CleanKeepsKept` | index.js:63 | a string of digits and points is left unchanged |
| `Currency.CleanIdempotent` | index.js:63 | cleaning twice is cleaning once |
| `Currency.CleanMembers` | index.js:63 | a character survives exactly when it is a digit or `.` and occurs in the input |
| `Currency.CurrencyNumber` | index.js:63 | a currency cell reads as a number in canonical form or as `NaN`, never as text or `undefined` |
| `Currency.NumberOf` | index.js:63 | `Number` of a digits-and-points string is a number in canonical form or `NaN` |
| `Currency.NumberOfNaNIff` | index.js:63 | `Number` gives `NaN` exactly for a lone `.` or two or more points |
| `Currency.CurrencyNaNIff` | index.js:63 | a cell reads as `NaN` exactly when its cleaned text is `.` or has two or more points |
| `Currency.NoDigitsReadsZero` | index.js:63 | a cell with no digit and no point cleans to `''` and reads as 0 |
| `Currency.CurrencyInteger` | index.js:63 | a cell whose kept characters are all digits reads as the integer they spell |
| `Currency.NumberOfPointText` | index.js:63 | `Number` reads `w.f` of two digit strings as the decimal with those parts |
| `Currency.NumberOfDecimalText` | index.js:63 | `Number` reads the text of a number back as that number |
| `Currency.CurrencyReadsBackText` | index.js:63 | a number's text, with a currency sign in front, reads back as that number |
| `Snapshots.ValuationAttrNamesShape` | index.js:16-23 | six attributes, each at its own column; the first is `year` and does not recur |
| `Snapshots.ColumnIndex` | index.js:16-23 | each attribute has one column below six, and that column names it |
| `Snapshots.AttrTextsDistinct` | index.js:16-23 | two attributes have the same name text only when they are the same attribute |
| `Snapshots.Lookup` | index.js:120 | a year is found exactly when it is one of the table's keys |
| `Snapshots.Put` | index.js:66 | `valuations[year] = attrs` leaves the new entry in the table, keeps every entry of another year, and grows it by at most one |
| `Snapshots.LookupEntry` | index.js:119-120 | in a table without repeated years, looking up an entry's year finds that entry |
| `Snapshots.PutLookup` | index.js:66 | after `valuations[year] = attrs` the year reads `attrs` and every other year reads as before |
| `Snapshots.PutYears` | index.js:66 | the assignment adds exactly `year` to the keys |
| `Snapshots.PutAscending` | index.js:66 | the assignment keeps the keys ascending, which is the `Object.keys` order of integer keys |
| `Snapshots.PutLength` | index.js:66 | the assignment adds an entry only for a year the table lacks |
| `Snapshots.AscendingCons` | index.js:66 | an entry below all the others can go first |
| `Snapshots.PutAbove` | index.js:66 | assigning a later year keeps the first entry below the rest |
| `Extract.FirstMissingHook` | index.js:45-47 | no hook is missing exactly when every hook has an element; otherwise it names a hook that has none |
| `Extract.FirstMissingHookAt` | index.js:45-47 | the reported hook is the first missing one in hook order |
| `Extract.ParseYear` | index.js:57 | a year cell converts exactly when it is all digits, to the number its digits spell; the empty text is year 0 |
| `Extract.ParseYearReadsBack` | index.js:57 | a year written in decimal reads back as that year |
| `Extract.RowAttrs` | index.js:59-65 | a row's attributes never include `year`, and each reads as a number or `NaN` |
| `Extract.RowAttrsUpToExact` | index.js:59-65 | after column `i` the attributes hold exactly the names of columns 1 to `i`-1, each with its own cell's number |
| `Extract.RowAttrsUpToStep` | index.js:59-65 | reading column `i` adds exactly its attribute to those already read |
| `Extract.RowAttrsExact` | index.js:59-65 | a full row gives exactly the attribute names after `year`, each mapped to its column's currency number |
| `Extract.TableOfErrPersists` | index.js:54-67 | an error raised in an earlier row is the error of the whole table |
| `Extract.TableOf` | index.js:54-67 | the table has at most one entry per row, and a failure names one of the rows |
| `Extract.ReadRow` | index.js:55-66 | a row is read exactly when its year cell is all digits and it has six cells, to the year its digits spell and the row's attributes; a failure names the row |
| `Extract.TableOfStep` | index.js:54-67 | a table read so far stays read exactly when its next row is readable |
| `Extract.TableOfOkIff` | index.js:54-67 | the table is read exactly when every row is readable |
| `Extract.TableOfAscending` | index.js:54-67 | the table's years ascend, none repeated |
| `Extract.TableOfYears` | index.js:54-67 | the table's years are exactly the years of the rows |
| `Extract.RowYearsSnoc` | index.js:54-66 | adding a row adds its year to the rows' years |
| `Extract.TableOfAttrKeys` | index.js:55-66 | every year holds exactly the attribute keys after `year` |
| `Extract.PutEntry` | index.js:66 | every entry after an assignment is an old entry or the assigned one |
| `Extract.TableOfLastRowWins` | index.js:66 | a year holds the attributes of the last row with that year: later rows overwrite earlier ones |
| `Extract.ExtractedSnapshotShape` | index.js:41-71 | a snapshot read from a page has the text of exactly the hooks, ascending years, and full attribute sets |
| `Extract.ExtractSpec` | index.js:41-71 | a missing hook fails the read before the table is looked at, and the error names a listed hook the page lacks; a read snapshot holds the table its rows give |
| `Extract.ReadValuationRow` | index.js:55-66 | the year cell, then the column loop, compute the row's entry, errors included |
| `Extract.ReadHooks` | index.js:44-47 | the hook loop stops at the first hook the page lacks, and otherwise collects the text of every hook |
| `Extract.ReadValuationTable` | index.js:53-67 | the row loop computes the table, or the error of the first row that cannot be read |
| `Extract.GetValuesFromPage` | index.js:41-71 | the hook loop and the row and column loops compute the specification, errors included |
| `Diff.FieldDiffsAppend` | index.js:95-112 | records of earlier hooks come before records of later hooks |
| `Diff.AttrDiffsAppend` | index.js:122-136 | within a year, records follow the attribute order |
| `Diff.YearDiffsAppend` | index.js:118-137 | records of earlier OPA years come first; the first failure is the result |
| `Diff.AttrDiffsSnoc` | index.js:122-136 | one more attribute adds its record at the end exactly when its values differ |
| `Diff.YearDiffsSnoc` | index.js:118-136 | one more OPA year with an AIS entry adds that year's records at the end |
| `Diff.YearDiffsStopsAt` | index.js:119-126 | an OPA year the AIS table lacks fails the whole comparison with that year |
| `Diff.DiffFields` | index.js:95-112 | the hook loop, with transforms applied per side, computes the hook records |
| `Diff.DiffYear` | index.js:122-136 | the attribute loop over indices 1 to 5 computes one year's records |
| `Diff.DiffYears` | index.js:114-137 | the year loop computes the valuation records, or fails at the first missing AIS year |
| `Diff.DiffValues` | index.js:93-140 | `diffValues` computes `DiffSpec`: hook records, then valuation records, or the missing-year error |
| `Diff.AisValue` | index.js:96-101 | a hook without an AIS transform is compared by its raw AIS field |
| `Diff.OpaValue` | index.js:96-101 | a hook without an OPA transform is compared by its raw OPA field |
| `Diff.FieldDiffs` | index.js:95-111 | every hook record belongs to the account compared |
| `Diff.ValuationKey` | index.js:132 | the key is the attribute's name, `-`, then digits that spell the year |
| `Diff.AttrDiffs` | index.js:122-135 | every valuation record of a year belongs to the account compared |
| `Diff.YearDiffs` | index.js:118-137 | a failure names a year the OPA table has and the AIS table lacks; on success every record belongs to the account |
| `Diff.DiffSpec` | index.js:93-140 | the whole comparison fails only with a year the OPA table has and the AIS table lacks; on success every record belongs to the account |
| `DiffProperties.FieldDiffsSound` | index.js:95-111 | every hook record has a listed hook as key, carries the transformed values, has `valuation = false`, and its values differ |
| `DiffProperties.FieldDiffsCount` | index.js:95-111 | a hook is reported once per listing when its transformed values differ, and never when they are equal |
| `DiffProperties.FieldDiffsUnflagged` | index.js:104-110 | hook records have `valuation = false` |
| `DiffProperties.FieldDiffsLength` | index.js:95 | at most one hook record per hook |
| `DiffProperties.FieldDiffsSameFields` | index.js:96-97 | hook records depend only on the fields, not on the valuation table |
| `DiffProperties.FieldDiffsSelf` | index.js:103 | without transforms a snapshot's fields all equal themselves |
| `DiffProperties.AttrDiffsSound` | index.js:122-135 | every record of a year is an attribute whose two values differ, keyed `attr-year`, with `valuation = true` |
| `DiffProperties.AttrDiffsDiffer` | index.js:127-135 | every record of a year has `valuation = true` and two values that differ |
| `DiffProperties.AttrDiffsComplete` | index.js:127-135 | an attribute's record is present exactly when its two values differ |
| `DiffProperties.AttrDiffsLength` | index.js:122 | at most one record per compared attribute |
| `DiffProperties.AttrDiffsIgnoreOthers` | index.js:122-126 | attributes not in the compared list do not affect the records |
| `DiffProperties.YearAttributeNeverCompared` | index.js:122 | the `year` attribute (index 0) is never compared |
| `DiffProperties.AttrDiffsSelf` | index.js:127 | a year compared with itself gives no records exactly when no compared value is `NaN` |
| `DiffProperties.YearDiffsOkIff` | index.js:118-126 | the valuation comparison succeeds exactly when every OPA year is an AIS year |
| `DiffProperties.YearDiffsFirstMissing` | index.js:118-126 | on failure, the error names the first OPA year missing from the AIS table |
| `DiffProperties.YearDiffsDiffer` | index.js:118-135 | every valuation record has `valuation = true` and two values that differ |
| `DiffProperties.YearDiffsSound` | index.js:118-135 | every valuation record is an attribute after `year` of an OPA year, keyed `attr-year`, whose values differ |
| `DiffProperties.YearDiffsComplete` | index.js:118-135 | for each OPA year and attribute 1..5, a record exists exactly when the AIS and OPA values differ |
| `DiffProperties.YearDiffsHas` | index.js:118-135 | a differing attribute of an OPA year is reported |
| `DiffProperties.YearDiffsLength` | index.js:118-122 | at most 5 valuation records per OPA year |
| `DiffProperties.YearDiffsSameLookups` | index.js:120 | only the AIS entries of OPA years matter |
| `DiffProperties.YearDiffsSelf` | index.js:118-127 | a table compared with itself gives no records exactly when no compared value is `NaN` |
| `DiffProperties.FieldRule` | index.js:95-111 | in the whole output, a hook's record is present exactly when its transformed values differ |
| `DiffProperties.ValuationRule` | index.js:118-135 | in the whole output, an OPA year's attribute record is present exactly when its values differ |
| `DiffProperties.DiffRecordsInOrder` | index.js:95-137 | all hook records come before all valuation records |
| `DiffProperties.DiffRecordsSound` | index.js:95-137 | every output record is a differing hook or a differing attribute of an OPA year, and nothing else |
| `DiffProperties.DiffCountBound` | index.js:95-122 | the output has at most `\|hooks\| + 5 * \|OPA years\|` records |
| `DiffProperties.MissingAisYearRule` | index.js:118-126 | the comparison fails exactly when an OPA year is missing on the AIS side, and names the first such year |
| `DiffProperties.AisOnlyYearIgnored` | index.js:118-120 | a year only the AIS site has changes nothing |
| `DiffProperties.SelfDiffEmpty` | index.js:95-137 | a snapshot compared with itself without transforms gives no records exactly when no compared valuation is `NaN` |
| `Output.HeaderText` | index.js:25-32 | the header line is the five column names in order, separated by commas, ended by a newline |
| `Output.WriteDiffs` | index.js:142-151 | one line per record, in input order; each is the five fields in column order, joined by `,`, ended by `\n` |
| `Output.ReadColumns` | index.js:144-147 | the column loop collects the record's value under each output column, in column order |
| `Output.Cells` | index.js:145-146 | a line has one cell per output column, each the record's value under that column |
| `Output.Header` | index.js:32 | the header is one line ended by a newline |
| `Output.Join` | index.js:148 | a join starts with its first part |
| `Output.Split` | index.js:148 | the reader-side inverse of the join, used to state `LineReadsBack`: splitting yields at least one piece |
| `Output.SplitJoin` | index.js:148 | splitting a join recovers the parts when no part holds the separator |
| `Output.JoinNoNewline` | index.js:148 | a join holds no newline when no part does |
| `Output.LineReadsBack` | index.js:142-150 | a line is exactly one line and splits back into its five fields when no field holds `,` or a newline |
| `Output.SplitAt` | index.js:148 | for the reader-side split used by `LineReadsBack`: a separator after a piece without one ends that piece |
| `Output.SplitCount` | index.js:148 | for the reader-side split used by `LineReadsBack`: `k` separators split into `k + 1` pieces |
| `Output.JoinSeparatorCount` | index.js:148 | joining `n` parts inserts at least `n - 1` separators |
| `Output.JoinSeparatorCountWith` | index.js:148 | a join holds its inserted separators plus those inside any one part |
| `Output.CommaInCellShiftsColumns` | index.js:148 | with no quoting, a comma inside a field makes the line split into more than five columns |
| `Scenarios.SamePageNoRecords` | index.js:41-71 | two reads of one page, compared, report nothing exactly when no compared cell reads as `NaN` |
| `Scenarios.OwnerNameDiffers` | index.js:95-111 | `owner-name` differing (`A SMITH` vs `A. Smith`) with equal valuations gives exactly one record |
| `Scenarios.NewOpaYearFails` | index.js:118-126 | an OPA-only year 2021 makes the comparison fail with that year instead of reporting a record |

## Left out

- The driver `compareAccountAtIndex` / `compareNextAccount` (index.js:153-200) is not modelled. This covers account iteration, the `maxAccounts` cut-off, the duplicate skip, skip-on-error and closing the browser. It chains promise callbacks and uses a thrown `'finished'` string as control flow. Its duplicate check indexes the diff array by account and does not return after recursing. Its behaviour depends on completion order.
- Browser automation is not modelled: `scrapeOpa`, `scrapeAis`, Nightmare's `goto`/`wait`/`evaluate`, and the two URLs (index.js:36, 73-91). This is external I/O.
- DOM access is replaced by a `Page` value (index.js:46, 52-61): the text of each hook element, and the table's rows of cell texts. Each cell is the text of its second child.
- Output I/O is not modelled: `process.stdout.write`, `console.log` and `console.error` (index.js:32, 51, 149, 183, 188). `WriteDiffs` returns the lines it would write.
- Setup is not modelled: CLI parsing with `minimist`, `util.shuffle` and the `accounts` list (index.js:5-6, 11-14, 34).
- The contents of `./hooks` and `./transforms` are not part of this model. They are parameters. A transform is a total, pure function on the model's values; a transform that throws is not modelled.
- Numbers are exact non-negative decimals. The model does not capture binary floating-point rounding (more than about 15 significant digits) or negative numbers. The currency clean-up removes signs, so the core never produces negative numbers.
- `Values.DecimalText`: JavaScript's `String(x)` switches to exponent notation for non-zero numbers below 1e-6 (`1e-7`) and for numbers of 1e21 or more. The model always writes the whole part and the fraction digits (`0.0000001`). Only the text of such values in the output lines differs; the comparison itself is unaffected.
- The result of `getValuesFromPage` crosses Nightmare's `evaluate` (index.js:40, 80, 90), which serialises it from the browser to Node. The model takes this transfer as the identity. Serialising turns `NaN` into `null`, and `null === null` holds, so on the Node side a cell that reads as `NaN` on both sites is not reported, and `join` writes nothing for it. The statements about `NaN` (`Currency.CurrencyNaNIff`, `DiffProperties.AttrDiffsSelf`, `DiffProperties.YearDiffsSelf`, `DiffProperties.SelfDiffEmpty`, `Scenarios.SamePageNoRecords`) are about the values as the page computes them.
- A hook named `valuations` would collide with `vals.valuations` (index.js:68). The model keeps fields and table apart.
- Accounts are modelled as their text.
- `Extract.ParseYear`: only digit-only year text is converted. Other text (spaces, signs, decimals, exponents) is left as the model error `UnmodelledYear`, where JavaScript would produce some number or a `NaN` key.
- `Snapshots.Put`: all years are ordered numerically. JavaScript orders keys of 4294967295 and above in insertion order.
