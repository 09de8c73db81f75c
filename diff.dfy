/** The comparison of the two snapshots of one account (`diffValues`,
    index.js:93-140): the AIS-backed site's against the OPA-backed site's. */
module Diff {
  import opened Values
  import opened Snapshots

  /** One discrepancy: the account, the hook or `attribute-year` key, the two
      values compared, and whether it comes from the valuation table. */
  datatype Record = Record(account: string, key: string, ais: Value, opa: Value, valuation: bool)

  /** The optional per-site transforms of one hook; the table of them is
      defined elsewhere and is a parameter here. */
  datatype Transform = Transform(ais: Option<Value -> Value>, opa: Option<Value -> Value>)

  type Transforms = map<string, Transform>

  datatype DiffError =
    /** The OPA table has a year the AIS table lacks: reading an attribute of
        the missing year's `undefined` raises a `TypeError`. */
    | MissingAisYear(year: nat)

  /** A hook's AIS value after its AIS transform, if it has one. */
  function AisValue(transforms: Transforms, hook: string, ais: Snapshot): (r: Value)
    ensures (hook !in transforms || transforms[hook].ais.None?) ==> r == Field(ais, hook)
  {
    var raw := Field(ais, hook);
    if hook in transforms && transforms[hook].ais.Some? then transforms[hook].ais.value(raw) else raw
  }

  /** A hook's OPA value after its OPA transform, if it has one: `AisValue`
      with the other side's field and transform (index.js:96-101 treat the
      two sides alike). */
  function OpaValue(transforms: Transforms, hook: string, opa: Snapshot): (r: Value)
    ensures (hook !in transforms || transforms[hook].opa.None?) ==> r == Field(opa, hook)
  {
    var raw := Field(opa, hook);
    if hook in transforms && transforms[hook].opa.Some? then transforms[hook].opa.value(raw) else raw
  }

  /** The record that reports a hook. */
  function FieldRecord(account: string, hook: string, transforms: Transforms, ais: Snapshot, opa: Snapshot): Record {
    Record(account, hook, AisValue(transforms, hook, ais), OpaValue(transforms, hook, opa), false)
  }

  predicate FieldDiffers(hook: string, transforms: Transforms, ais: Snapshot, opa: Snapshot) {
    !StrictEq(AisValue(transforms, hook, ais), OpaValue(transforms, hook, opa))
  }

  /** The records of the hooks, in hook order. */
  function FieldDiffs(account: string, hooks: seq<string>, transforms: Transforms, ais: Snapshot, opa: Snapshot): (r: seq<Record>)
    ensures forall i :: 0 <= i < |r| ==> r[i].account == account
  {
    if hooks == [] then []
    else
      (if FieldDiffers(hooks[0], transforms, ais, opa) then [FieldRecord(account, hooks[0], transforms, ais, opa)] else [])
      + FieldDiffs(account, hooks[1..], transforms, ais, opa)
  }

  /** The key of a valuation record: `attribute-year`. */
  function ValuationKey(name: AttrName, year: nat): (key: string)
    ensures |key| > |AttrText(name)| + 1
    ensures key[..|AttrText(name)| + 1] == AttrText(name) + "-"
    ensures AllDigits(key[|AttrText(name)| + 1..])
    ensures DigitsValue(key[|AttrText(name)| + 1..]) == year
  {
    var key := AttrText(name) + "-" + NatText(year);
    assert key[|AttrText(name)| + 1..] == NatText(year);
    NatTextValue(year);
    key
  }

  /** The record that reports one attribute of one year. */
  function ValuationRecord(account: string, year: nat, name: AttrName, aisAttrs: Attrs, opaAttrs: Attrs): Record {
    Record(account, ValuationKey(name, year), Get(aisAttrs, name), Get(opaAttrs, name), true)
  }

  /** The record of one attribute of one year, if its values differ. */
  function AttrDiff(account: string, year: nat, aisAttrs: Attrs, opaAttrs: Attrs, name: AttrName): seq<Record> {
    if StrictEq(Get(aisAttrs, name), Get(opaAttrs, name)) then []
    else [ValuationRecord(account, year, name, aisAttrs, opaAttrs)]
  }

  /** The records of one year's attributes `names`, in that order. */
  function AttrDiffs(account: string, year: nat, aisAttrs: Attrs, opaAttrs: Attrs, names: seq<AttrName>): (r: seq<Record>)
    ensures forall i :: 0 <= i < |r| ==> r[i].account == account
  {
    if names == [] then []
    else AttrDiff(account, year, aisAttrs, opaAttrs, names[0]) + AttrDiffs(account, year, aisAttrs, opaAttrs, names[1..])
  }

  /** The attributes compared: every valuation attribute after the year. */
  const ComparedNames: seq<AttrName> := ValuationAttrNames[1..]

  /** The records of the OPA years `opaT`, in their order, each year's
      attributes looked up in the AIS table `aisT`. */
  function YearDiffs(account: string, opaT: YearTable, aisT: YearTable): (r: Result<seq<Record>, DiffError>)
    ensures r.Err? ==> r.error.year in Years(opaT) && r.error.year !in Years(aisT)
    ensures r.Ok? ==> forall i :: 0 <= i < |r.value| ==> r.value[i].account == account
  {
    if opaT == [] then Ok([])
    else match Lookup(aisT, opaT[0].0)
      case None => Err(MissingAisYear(opaT[0].0))
      case Some(aisAttrs) =>
        match YearDiffs(account, opaT[1..], aisT)
        case Err(e) => Err(e)
        case Ok(rest) => Ok(AttrDiffs(account, opaT[0].0, aisAttrs, opaT[0].1, ComparedNames) + rest)
  }

  /** The whole comparison: hook records, then valuation records. */
  function DiffSpec(account: string, hooks: seq<string>, transforms: Transforms, ais: Snapshot, opa: Snapshot): (r: Result<seq<Record>, DiffError>)
    ensures r.Err? ==> r.error.year in Years(opa.valuations) && r.error.year !in Years(ais.valuations)
    ensures r.Ok? ==> forall i :: 0 <= i < |r.value| ==> r.value[i].account == account
  {
    match YearDiffs(account, opa.valuations, ais.valuations)
    case Err(e) => Err(e)
    case Ok(v) => Ok(FieldDiffs(account, hooks, transforms, ais, opa) + v)
  }

  // ---------------------------------------------------------------------
  // Ordering: the records of a concatenation are the concatenation of the
  // records, so earlier hooks, years and attributes report first.

  lemma {:induction false} FieldDiffsAppend(account: string, h1: seq<string>, h2: seq<string>, transforms: Transforms, ais: Snapshot, opa: Snapshot)
    ensures FieldDiffs(account, h1 + h2, transforms, ais, opa)
         == FieldDiffs(account, h1, transforms, ais, opa) + FieldDiffs(account, h2, transforms, ais, opa)
  {
    if h1 == [] {
      assert h1 + h2 == h2;
    } else {
      assert (h1 + h2)[1..] == h1[1..] + h2;
      FieldDiffsAppend(account, h1[1..], h2, transforms, ais, opa);
    }
  }

  lemma {:induction false} AttrDiffsAppend(account: string, year: nat, aisAttrs: Attrs, opaAttrs: Attrs, n1: seq<AttrName>, n2: seq<AttrName>)
    ensures AttrDiffs(account, year, aisAttrs, opaAttrs, n1 + n2)
         == AttrDiffs(account, year, aisAttrs, opaAttrs, n1) + AttrDiffs(account, year, aisAttrs, opaAttrs, n2)
  {
    if n1 == [] {
      assert n1 + n2 == n2;
    } else {
      var head := AttrDiff(account, year, aisAttrs, opaAttrs, n1[0]);
      var rest := AttrDiffs(account, year, aisAttrs, opaAttrs, n1[1..]);
      var tail := AttrDiffs(account, year, aisAttrs, opaAttrs, n2);
      assert (n1 + n2)[0] == n1[0] && (n1 + n2)[1..] == n1[1..] + n2;
      calc {
        AttrDiffs(account, year, aisAttrs, opaAttrs, n1 + n2);
        head + AttrDiffs(account, year, aisAttrs, opaAttrs, n1[1..] + n2);
        { AttrDiffsAppend(account, year, aisAttrs, opaAttrs, n1[1..], n2); }
        head + (rest + tail);
        (head + rest) + tail;
      }
    }
  }

  /** One more attribute adds its record, when its two values differ, at
      the end. */
  lemma AttrDiffsSnoc(account: string, year: nat, aisAttrs: Attrs, opaAttrs: Attrs, names: seq<AttrName>, name: AttrName)
    ensures AttrDiffs(account, year, aisAttrs, opaAttrs, names + [name])
         == AttrDiffs(account, year, aisAttrs, opaAttrs, names)
            + if StrictEq(Get(aisAttrs, name), Get(opaAttrs, name)) then []
              else [Record(account, ValuationKey(name, year), Get(aisAttrs, name), Get(opaAttrs, name), true)]
  {
    AttrDiffsAppend(account, year, aisAttrs, opaAttrs, names, [name]);
    assert [name][1..] == [];
    assert AttrDiffs(account, year, aisAttrs, opaAttrs, [name]) == AttrDiff(account, year, aisAttrs, opaAttrs, name) + [];
  }

  /** Two results in sequence: the first error, or both record lists. */
  function AndThen(a: Result<seq<Record>, DiffError>, b: Result<seq<Record>, DiffError>): Result<seq<Record>, DiffError> {
    match a
    case Err(e) => Err(e)
    case Ok(x) => (match b case Err(e) => Err(e) case Ok(y) => Ok(x + y))
  }

  lemma {:induction false} YearDiffsAppend(account: string, t1: YearTable, t2: YearTable, aisT: YearTable)
    ensures YearDiffs(account, t1 + t2, aisT) == AndThen(YearDiffs(account, t1, aisT), YearDiffs(account, t2, aisT))
  {
    if t1 == [] {
      assert t1 + t2 == t2;
      match YearDiffs(account, t2, aisT)
      case Err(e) =>
      case Ok(y) => assert [] + y == y;
    } else {
      assert (t1 + t2)[1..] == t1[1..] + t2;
      assert (t1 + t2)[0] == t1[0];
      YearDiffsAppend(account, t1[1..], t2, aisT);
      match Lookup(aisT, t1[0].0)
      case None =>
      case Some(a) =>
        var head := AttrDiffs(account, t1[0].0, a, t1[0].1, ComparedNames);
        match YearDiffs(account, t1[1..], aisT)
        case Err(e) =>
        case Ok(x) =>
          match YearDiffs(account, t2, aisT)
          case Err(e) =>
          case Ok(y) => assert head + (x + y) == (head + x) + y;
    }
  }

  // ---------------------------------------------------------------------
  // The algorithm as the source runs it.

  /** The hook loop of `diffValues` (index.js:95-112): each hook's two
      values, transformed where a transform exists, are compared and a
      record is pushed when they differ. */
  method DiffFields(account: string, hooks: seq<string>, transforms: Transforms, ais: Snapshot, opa: Snapshot)
    returns (diffs: seq<Record>)
    ensures diffs == FieldDiffs(account, hooks, transforms, ais, opa)
  {
    diffs := [];
    for i := 0 to |hooks|
      invariant diffs == FieldDiffs(account, hooks[..i], transforms, ais, opa)
    {
      var hook := hooks[i];
      var aisVal := Field(ais, hook);
      var opaVal := Field(opa, hook);
      if hook in transforms {
        var t := transforms[hook];
        if t.ais.Some? { aisVal := t.ais.value(aisVal); }
        if t.opa.Some? { opaVal := t.opa.value(opaVal); }
      }
      FieldDiffsAppend(account, hooks[..i], [hook], transforms, ais, opa);
      assert hooks[..i + 1] == hooks[..i] + [hook];
      if !StrictEq(aisVal, opaVal) {
        diffs := diffs + [Record(account, hook, aisVal, opaVal, false)];
      }
    }
    assert hooks[..|hooks|] == hooks;
  }

  /** One more OPA year that the AIS table holds adds its records at the
      end. */
  lemma YearDiffsSnoc(account: string, t: YearTable, entry: (nat, Attrs), aisT: YearTable, a: Attrs)
    requires YearDiffs(account, t, aisT).Ok? && Lookup(aisT, entry.0) == Some(a)
    ensures YearDiffs(account, t + [entry], aisT)
         == Ok(YearDiffs(account, t, aisT).value + AttrDiffs(account, entry.0, a, entry.1, ComparedNames))
  {
    YearDiffsAppend(account, t, [entry], aisT);
    assert [entry][1..] == [];
    var x := AttrDiffs(account, entry.0, a, entry.1, ComparedNames);
    assert YearDiffs(account, [entry], aisT) == Ok(x + []);
    assert x + [] == x;
  }

  /** An OPA year that the AIS table lacks fails the comparison of every
      table that goes on from there. */
  lemma YearDiffsStopsAt(account: string, t: YearTable, k: nat, aisT: YearTable)
    requires k < |t| && YearDiffs(account, t[..k], aisT).Ok? && Lookup(aisT, t[k].0).None?
    ensures YearDiffs(account, t, aisT) == Err(MissingAisYear(t[k].0))
  {
    assert t == t[..k] + t[k..];
    YearDiffsAppend(account, t[..k], t[k..], aisT);
    assert t[k..][0] == t[k];
  }

  /** The attribute loop of `diffValues` for one year (index.js:122-136):
      every attribute after the year, in declared order. */
  method DiffYear(account: string, year: nat, aisValuation: Attrs, opaValuation: Attrs)
    returns (diffs: seq<Record>)
    ensures diffs == AttrDiffs(account, year, aisValuation, opaValuation, ComparedNames)
  {
    diffs := [];
    for i := 1 to |ValuationAttrNames|
      invariant diffs == AttrDiffs(account, year, aisValuation, opaValuation, ValuationAttrNames[1..i])
    {
      var name := ValuationAttrNames[i];
      var opaAttr := Get(opaValuation, name);
      var aisAttr := Get(aisValuation, name);
      AttrDiffsSnoc(account, year, aisValuation, opaValuation, ValuationAttrNames[1..i], name);
      assert ValuationAttrNames[1..i + 1] == ValuationAttrNames[1..i] + [name];
      if !StrictEq(aisAttr, opaAttr) {
        diffs := diffs + [Record(account, ValuationKey(name, year), aisAttr, opaAttr, true)];
      }
    }
    assert ValuationAttrNames[1..|ValuationAttrNames|] == ComparedNames;
  }

  /** The year loop of `diffValues` (index.js:114-137): every OPA year in
      key order; an OPA year missing from the AIS table ends the loop with
      an error. */
  method DiffYears(account: string, opaValuations: YearTable, aisValuations: YearTable)
    returns (r: Result<seq<Record>, DiffError>)
    ensures r == YearDiffs(account, opaValuations, aisValuations)
  {
    var valuationDiffs: seq<Record> := [];
    assert opaValuations[..0] == [];
    for k := 0 to |opaValuations|
      invariant YearDiffs(account, opaValuations[..k], aisValuations) == Ok(valuationDiffs)
    {
      var year := opaValuations[k].0;
      var opaValuation := opaValuations[k].1;
      var aisLookup := Lookup(aisValuations, year);
      if aisLookup.None? {
        YearDiffsStopsAt(account, opaValuations, k, aisValuations);
        return Err(MissingAisYear(year));
      }
      YearDiffsSnoc(account, opaValuations[..k], opaValuations[k], aisValuations, aisLookup.value);
      assert opaValuations[..k + 1] == opaValuations[..k] + [opaValuations[k]];
      var yearDiffs := DiffYear(account, year, aisLookup.value, opaValuation);
      valuationDiffs := valuationDiffs + yearDiffs;
    }
    assert opaValuations[..|opaValuations|] == opaValuations;
    r := Ok(valuationDiffs);
  }

  /** `diffValues`: the hook records, then for every OPA year in key order
      the records of its attributes; an OPA year missing from the AIS table
      ends the comparison with an error and no records. */
  method DiffValues(account: string, hooks: seq<string>, transforms: Transforms, ais: Snapshot, opa: Snapshot)
    returns (r: Result<seq<Record>, DiffError>)
    ensures r == DiffSpec(account, hooks, transforms, ais, opa)
  {
    var fields := DiffFields(account, hooks, transforms, ais, opa);
    var valuations := DiffYears(account, opa.valuations, ais.valuations);
    if valuations.Err? {
      return Err(valuations.error);
    }
    r := Ok(fields + valuations.value);
  }
}
