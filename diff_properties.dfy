/** What the comparison promises: which records it emits and in what order,
    how many, when it fails, and that a snapshot agrees with itself. */
module DiffProperties {
  import opened Values
  import opened Snapshots
  import opened Diff

  // ---------------------------------------------------------------------
  // Hooks.

  /** Every hook record reports a hook whose two transformed values are not
      strictly equal, and carries those values. */
  lemma {:induction false} FieldDiffsSound(account: string, hooks: seq<string>, transforms: Transforms, ais: Snapshot, opa: Snapshot)
    ensures forall r :: r in FieldDiffs(account, hooks, transforms, ais, opa) ==>
              r.key in hooks && r == FieldRecord(account, r.key, transforms, ais, opa) && FieldDiffers(r.key, transforms, ais, opa)
  {
    if hooks != [] {
      FieldDiffsSound(account, hooks[1..], transforms, ais, opa);
    }
  }

  /** Each hook is reported as many times as it is listed when its values
      differ, and never when they are equal. */
  lemma {:induction false} FieldDiffsCount(account: string, hooks: seq<string>, transforms: Transforms, ais: Snapshot, opa: Snapshot, hook: string)
    ensures multiset(FieldDiffs(account, hooks, transforms, ais, opa))[FieldRecord(account, hook, transforms, ais, opa)]
         == if FieldDiffers(hook, transforms, ais, opa) then multiset(hooks)[hook] else 0
  {
    if hooks != [] {
      FieldDiffsCount(account, hooks[1..], transforms, ais, opa, hook);
      assert hooks == [hooks[0]] + hooks[1..];
    }
  }

  lemma FieldDiffsLength(account: string, hooks: seq<string>, transforms: Transforms, ais: Snapshot, opa: Snapshot)
    ensures |FieldDiffs(account, hooks, transforms, ais, opa)| <= |hooks|
  {
    if hooks != [] {
      FieldDiffsLength(account, hooks[1..], transforms, ais, opa);
    }
  }

  /** Hook records are never marked as valuation records. */
  lemma {:induction false} FieldDiffsUnflagged(account: string, hooks: seq<string>, transforms: Transforms, ais: Snapshot, opa: Snapshot)
    ensures forall r :: r in FieldDiffs(account, hooks, transforms, ais, opa) ==> !r.valuation
  {
    if hooks != [] {
      FieldDiffsUnflagged(account, hooks[1..], transforms, ais, opa);
    }
  }

  // ---------------------------------------------------------------------
  // One year's attributes.

  lemma {:induction false} AttrDiffsSound(account: string, year: nat, aisAttrs: Attrs, opaAttrs: Attrs, names: seq<AttrName>)
    ensures forall r :: r in AttrDiffs(account, year, aisAttrs, opaAttrs, names) ==>
              exists n :: n in names && r == ValuationRecord(account, year, n, aisAttrs, opaAttrs)
                          && !StrictEq(Get(aisAttrs, n), Get(opaAttrs, n))
  {
    if names != [] {
      AttrDiffsSound(account, year, aisAttrs, opaAttrs, names[1..]);
    }
  }

  /** A year's records are valuation records whose two values differ. */
  lemma {:induction false} AttrDiffsDiffer(account: string, year: nat, aisAttrs: Attrs, opaAttrs: Attrs, names: seq<AttrName>)
    ensures forall r :: r in AttrDiffs(account, year, aisAttrs, opaAttrs, names) ==> r.valuation && !StrictEq(r.ais, r.opa)
  {
    if names != [] {
      AttrDiffsDiffer(account, year, aisAttrs, opaAttrs, names[1..]);
    }
  }

  lemma {:induction false} AttrDiffsComplete(account: string, year: nat, aisAttrs: Attrs, opaAttrs: Attrs, names: seq<AttrName>, n: AttrName)
    requires n in names
    ensures ValuationRecord(account, year, n, aisAttrs, opaAttrs) in AttrDiffs(account, year, aisAttrs, opaAttrs, names)
        <==> !StrictEq(Get(aisAttrs, n), Get(opaAttrs, n))
  {
    AttrDiffsSound(account, year, aisAttrs, opaAttrs, names);
    if names[0] != n {
      AttrDiffsComplete(account, year, aisAttrs, opaAttrs, names[1..], n);
    }
  }

  lemma AttrDiffsLength(account: string, year: nat, aisAttrs: Attrs, opaAttrs: Attrs, names: seq<AttrName>)
    ensures |AttrDiffs(account, year, aisAttrs, opaAttrs, names)| <= |names|
  {
    if names != [] {
      AttrDiffsLength(account, year, aisAttrs, opaAttrs, names[1..]);
    }
  }

  /** The value of an attribute that is not compared does not matter. */
  lemma {:induction false} AttrDiffsIgnoreOthers(account: string, year: nat, aisAttrs: Attrs, opaAttrs: Attrs, names: seq<AttrName>, other: AttrName, x: Value, y: Value)
    requires other !in names
    ensures AttrDiffs(account, year, aisAttrs[other := x], opaAttrs[other := y], names)
         == AttrDiffs(account, year, aisAttrs, opaAttrs, names)
  {
    if names != [] {
      AttrDiffsIgnoreOthers(account, year, aisAttrs, opaAttrs, names[1..], other, x, y);
    }
  }

  /** The year column (attribute 0) is never compared: whatever either side
      stores under `year`, a year's records are the same. */
  lemma YearAttributeNeverCompared(account: string, year: nat, aisAttrs: Attrs, opaAttrs: Attrs, x: Value, y: Value)
    ensures AttrDiffs(account, year, aisAttrs[Year := x], opaAttrs[Year := y], ComparedNames)
         == AttrDiffs(account, year, aisAttrs, opaAttrs, ComparedNames)
  {
    ValuationAttrNamesShape();
    AttrDiffsIgnoreOthers(account, year, aisAttrs, opaAttrs, ComparedNames, Year, x, y);
  }

  // ---------------------------------------------------------------------
  // The valuation table.

  /** The AIS attributes of an OPA year; empty when the AIS table lacks it. */
  function AisAttrs(aisT: YearTable, year: nat): Attrs {
    match Lookup(aisT, year)
    case Some(a) => a
    case None => map[]
  }

  /** The comparison of the tables succeeds exactly when every OPA year is
      also an AIS year. */
  lemma {:induction false} YearDiffsOkIff(account: string, opaT: YearTable, aisT: YearTable)
    ensures YearDiffs(account, opaT, aisT).Ok? <==> forall k :: 0 <= k < |opaT| ==> opaT[k].0 in Years(aisT)
  {
    if opaT != [] {
      YearDiffsOkIff(account, opaT[1..], aisT);
      assert forall k :: 1 <= k < |opaT| ==> opaT[k] == opaT[1..][k - 1];
    }
  }

  /** A failed comparison names the first OPA year, in key order, that the
      AIS table lacks. */
  lemma {:induction false} YearDiffsFirstMissing(account: string, opaT: YearTable, aisT: YearTable, k: nat)
    requires k < |opaT| && opaT[k].0 !in Years(aisT)
    requires forall j :: 0 <= j < k ==> opaT[j].0 in Years(aisT)
    ensures YearDiffs(account, opaT, aisT) == Err(MissingAisYear(opaT[k].0))
  {
    if k > 0 {
      YearDiffsFirstMissing(account, opaT[1..], aisT, k - 1);
    }
  }

  /** Valuation records are marked as such, and their two values differ. */
  lemma {:induction false} YearDiffsDiffer(account: string, opaT: YearTable, aisT: YearTable)
    requires YearDiffs(account, opaT, aisT).Ok?
    ensures forall r :: r in YearDiffs(account, opaT, aisT).value ==> r.valuation && !StrictEq(r.ais, r.opa)
  {
    if opaT != [] {
      YearDiffsDiffer(account, opaT[1..], aisT);
      AttrDiffsDiffer(account, opaT[0].0, AisAttrs(aisT, opaT[0].0), opaT[0].1, ComparedNames);
    }
  }

  /** Every valuation record reports an attribute after the year, of an OPA
      year, whose AIS and OPA values are not strictly equal. */
  lemma {:induction false} YearDiffsSound(account: string, opaT: YearTable, aisT: YearTable)
    requires YearDiffs(account, opaT, aisT).Ok?
    ensures forall r :: r in YearDiffs(account, opaT, aisT).value ==>
              exists k, n :: 0 <= k < |opaT| && n in ComparedNames
                && r == ValuationRecord(account, opaT[k].0, n, AisAttrs(aisT, opaT[k].0), opaT[k].1)
                && !StrictEq(r.ais, r.opa)
  {
    forall r | r in YearDiffs(account, opaT, aisT).value
      ensures exists k, n :: 0 <= k < |opaT| && n in ComparedNames
                && r == ValuationRecord(account, opaT[k].0, n, AisAttrs(aisT, opaT[k].0), opaT[k].1)
                && !StrictEq(r.ais, r.opa)
    {
      YearDiffsSoundAt(account, opaT, aisT, r);
    }
  }

  lemma {:induction false} YearDiffsSoundAt(account: string, opaT: YearTable, aisT: YearTable, r: Record)
    requires YearDiffs(account, opaT, aisT).Ok? && r in YearDiffs(account, opaT, aisT).value
    ensures exists k, n :: 0 <= k < |opaT| && n in ComparedNames
              && r == ValuationRecord(account, opaT[k].0, n, AisAttrs(aisT, opaT[k].0), opaT[k].1)
              && !StrictEq(r.ais, r.opa)
  {
    assert opaT != [];
    var y := opaT[0].0;
    var a := AisAttrs(aisT, y);
    var rest := YearDiffs(account, opaT[1..], aisT).value;
    var here := AttrDiffs(account, y, a, opaT[0].1, ComparedNames);
    assert YearDiffs(account, opaT, aisT).value == here + rest;
    if r in rest {
      YearDiffsSoundAt(account, opaT[1..], aisT, r);
      var k, n :| 0 <= k < |opaT[1..]| && n in ComparedNames
              && r == ValuationRecord(account, opaT[1..][k].0, n, AisAttrs(aisT, opaT[1..][k].0), opaT[1..][k].1)
              && !StrictEq(r.ais, r.opa);
      YearDiffsSoundShift(account, opaT, aisT, r, k, n);
    } else {
      YearDiffsSoundHead(account, opaT, aisT, r);
    }
  }

  lemma YearDiffsSoundShift(account: string, opaT: YearTable, aisT: YearTable, r: Record, k: nat, n: AttrName)
    requires k < |opaT| - 1 && n in ComparedNames
    requires r == ValuationRecord(account, opaT[1..][k].0, n, AisAttrs(aisT, opaT[1..][k].0), opaT[1..][k].1)
    requires !StrictEq(r.ais, r.opa)
    ensures exists k, n :: 0 <= k < |opaT| && n in ComparedNames
              && r == ValuationRecord(account, opaT[k].0, n, AisAttrs(aisT, opaT[k].0), opaT[k].1)
              && !StrictEq(r.ais, r.opa)
  {
    assert opaT[1..][k] == opaT[k + 1];
  }

  lemma YearDiffsSoundHead(account: string, opaT: YearTable, aisT: YearTable, r: Record)
    requires opaT != []
    requires r in AttrDiffs(account, opaT[0].0, AisAttrs(aisT, opaT[0].0), opaT[0].1, ComparedNames)
    ensures exists k, n :: 0 <= k < |opaT| && n in ComparedNames
              && r == ValuationRecord(account, opaT[k].0, n, AisAttrs(aisT, opaT[k].0), opaT[k].1)
              && !StrictEq(r.ais, r.opa)
  {
    var a := AisAttrs(aisT, opaT[0].0);
    AttrDiffsSound(account, opaT[0].0, a, opaT[0].1, ComparedNames);
    var n :| n in ComparedNames && r == ValuationRecord(account, opaT[0].0, n, a, opaT[0].1)
             && !StrictEq(Get(a, n), Get(opaT[0].1, n));
    assert 0 < |opaT|;
  }

  /** For every OPA year and every attribute after the year there is a
      record exactly when the two values are not strictly equal. */
  lemma YearDiffsComplete(account: string, opaT: YearTable, aisT: YearTable, k: nat, n: AttrName)
    requires YearDiffs(account, opaT, aisT).Ok? && k < |opaT| && n in ComparedNames
    ensures ValuationRecord(account, opaT[k].0, n, AisAttrs(aisT, opaT[k].0), opaT[k].1) in YearDiffs(account, opaT, aisT).value
        <==> !StrictEq(Get(AisAttrs(aisT, opaT[k].0), n), Get(opaT[k].1, n))
  {
    YearDiffsDiffer(account, opaT, aisT);
    if !StrictEq(Get(AisAttrs(aisT, opaT[k].0), n), Get(opaT[k].1, n)) {
      YearDiffsHas(account, opaT, aisT, k, n);
    }
  }

  /** A differing attribute of an OPA year is reported. */
  lemma {:induction false} YearDiffsHas(account: string, opaT: YearTable, aisT: YearTable, k: nat, n: AttrName)
    requires YearDiffs(account, opaT, aisT).Ok? && k < |opaT| && n in ComparedNames
    requires !StrictEq(Get(AisAttrs(aisT, opaT[k].0), n), Get(opaT[k].1, n))
    ensures ValuationRecord(account, opaT[k].0, n, AisAttrs(aisT, opaT[k].0), opaT[k].1) in YearDiffs(account, opaT, aisT).value
  {
    var head := AttrDiffs(account, opaT[0].0, AisAttrs(aisT, opaT[0].0), opaT[0].1, ComparedNames);
    var rest := YearDiffs(account, opaT[1..], aisT).value;
    assert YearDiffs(account, opaT, aisT).value == head + rest;
    if k == 0 {
      AttrDiffsComplete(account, opaT[0].0, AisAttrs(aisT, opaT[0].0), opaT[0].1, ComparedNames, n);
    } else {
      assert opaT[1..][k - 1] == opaT[k];
      YearDiffsHas(account, opaT[1..], aisT, k - 1, n);
    }
  }

  lemma {:induction false} YearDiffsLength(account: string, opaT: YearTable, aisT: YearTable)
    requires YearDiffs(account, opaT, aisT).Ok?
    ensures |YearDiffs(account, opaT, aisT).value| <= (ColumnCount - 1) * |opaT|
  {
    if opaT != [] {
      YearDiffsLength(account, opaT[1..], aisT);
      AttrDiffsLength(account, opaT[0].0, AisAttrs(aisT, opaT[0].0), opaT[0].1, ComparedNames);
    }
  }

  /** Only the AIS lookups of the OPA years matter. */
  lemma {:induction false} YearDiffsSameLookups(account: string, opaT: YearTable, ais1: YearTable, ais2: YearTable)
    requires forall k :: 0 <= k < |opaT| ==> Lookup(ais1, opaT[k].0) == Lookup(ais2, opaT[k].0)
    ensures YearDiffs(account, opaT, ais1) == YearDiffs(account, opaT, ais2)
  {
    if opaT != [] {
      assert forall k :: 1 <= k < |opaT| ==> opaT[k] == opaT[1..][k - 1];
      YearDiffsSameLookups(account, opaT[1..], ais1, ais2);
    }
  }

  /** The compared attributes of a table hold no `NaN`. */
  predicate ComparedNaNFree(t: YearTable) {
    forall k, n :: 0 <= k < |t| && n in ComparedNames ==> !Get(t[k].1, n).NaN?
  }

  lemma {:induction false} AttrDiffsSelf(account: string, year: nat, attrs: Attrs, names: seq<AttrName>)
    ensures AttrDiffs(account, year, attrs, attrs, names) == [] <==> forall n :: n in names ==> !Get(attrs, n).NaN?
  {
    if names != [] {
      AttrDiffsSelf(account, year, attrs, names[1..]);
    }
  }

  lemma {:induction false} YearDiffsSelf(account: string, opaT: YearTable, aisT: YearTable)
    requires forall k :: 0 <= k < |opaT| ==> Lookup(aisT, opaT[k].0) == Some(opaT[k].1)
    ensures YearDiffs(account, opaT, aisT) == Ok([]) <==> ComparedNaNFree(opaT)
  {
    if opaT != [] {
      assert forall k :: 1 <= k < |opaT| ==> opaT[k] == opaT[1..][k - 1];
      YearDiffsSelf(account, opaT[1..], aisT);
      AttrDiffsSelf(account, opaT[0].0, opaT[0].1, ComparedNames);
      if ComparedNaNFree(opaT[1..]) && forall n :: n in ComparedNames ==> !Get(opaT[0].1, n).NaN? {
        forall k, n | 0 <= k < |opaT| && n in ComparedNames ensures !Get(opaT[k].1, n).NaN? {
          if k > 0 {
            assert opaT[k] == opaT[1..][k - 1];
          }
        }
      }
      if ComparedNaNFree(opaT) {
        assert forall n :: n in ComparedNames ==> !Get(opaT[0].1, n).NaN?;
        forall k, n | 0 <= k < |opaT[1..]| && n in ComparedNames ensures !Get(opaT[1..][k].1, n).NaN? {
          assert opaT[1..][k] == opaT[k + 1];
        }
      }
    }
  }

  // ---------------------------------------------------------------------
  // The whole comparison.

  /** A hook is reported exactly when its transformed values differ, with
      those values, as a non-valuation record keyed by the hook. */
  lemma FieldRule(account: string, hooks: seq<string>, transforms: Transforms, ais: Snapshot, opa: Snapshot, hook: string)
    requires DiffSpec(account, hooks, transforms, ais, opa).Ok? && hook in hooks
    ensures FieldRecord(account, hook, transforms, ais, opa) in DiffSpec(account, hooks, transforms, ais, opa).value
        <==> FieldDiffers(hook, transforms, ais, opa)
  {
    FieldDiffsCount(account, hooks, transforms, ais, opa, hook);
    var v := YearDiffs(account, opa.valuations, ais.valuations).value;
    YearDiffsSound(account, opa.valuations, ais.valuations);
    assert FieldRecord(account, hook, transforms, ais, opa) !in v;
    assert hook in multiset(hooks);
  }

  /** An attribute after the year of an OPA year is reported exactly when
      its AIS and OPA values differ, keyed `attribute-year`. */
  lemma ValuationRule(account: string, hooks: seq<string>, transforms: Transforms, ais: Snapshot, opa: Snapshot, k: nat, n: AttrName)
    requires DiffSpec(account, hooks, transforms, ais, opa).Ok?
    requires k < |opa.valuations| && n in ComparedNames
    ensures ValuationRecord(account, opa.valuations[k].0, n, AisAttrs(ais.valuations, opa.valuations[k].0), opa.valuations[k].1)
              in DiffSpec(account, hooks, transforms, ais, opa).value
        <==> !StrictEq(Get(AisAttrs(ais.valuations, opa.valuations[k].0), n), Get(opa.valuations[k].1, n))
  {
    YearDiffsComplete(account, opa.valuations, ais.valuations, k, n);
    FieldDiffsSound(account, hooks, transforms, ais, opa);
  }

  /** The hook records come first, the valuation records after them. */
  lemma DiffRecordsInOrder(account: string, hooks: seq<string>, transforms: Transforms, ais: Snapshot, opa: Snapshot)
    requires DiffSpec(account, hooks, transforms, ais, opa).Ok?
    ensures forall p :: 0 <= p < |DiffSpec(account, hooks, transforms, ais, opa).value| ==>
              (DiffSpec(account, hooks, transforms, ais, opa).value[p].valuation
               <==> p >= |FieldDiffs(account, hooks, transforms, ais, opa)|)
  {
    var f := FieldDiffs(account, hooks, transforms, ais, opa);
    var v := YearDiffs(account, opa.valuations, ais.valuations).value;
    var out := DiffSpec(account, hooks, transforms, ais, opa).value;
    FieldDiffsUnflagged(account, hooks, transforms, ais, opa);
    YearDiffsDiffer(account, opa.valuations, ais.valuations);
    forall p | 0 <= p < |out| ensures out[p].valuation <==> p >= |f| {
      if p < |f| {
        assert out[p] == f[p] && f[p] in f;
      } else {
        assert out[p] == v[p - |f|] && v[p - |f|] in v;
      }
    }
  }

  /** Every record is a hook record or a valuation record as the two rules
      describe them: nothing else is ever reported. */
  lemma DiffRecordsSound(account: string, hooks: seq<string>, transforms: Transforms, ais: Snapshot, opa: Snapshot, r: Record)
    requires DiffSpec(account, hooks, transforms, ais, opa).Ok?
    requires r in DiffSpec(account, hooks, transforms, ais, opa).value
    ensures !r.valuation ==> r.key in hooks && r == FieldRecord(account, r.key, transforms, ais, opa)
                             && FieldDiffers(r.key, transforms, ais, opa)
    ensures r.valuation ==>
              !StrictEq(r.ais, r.opa) &&
              exists k, n :: 0 <= k < |opa.valuations| && n in ComparedNames
                && r == ValuationRecord(account, opa.valuations[k].0, n, AisAttrs(ais.valuations, opa.valuations[k].0), opa.valuations[k].1)
  {
    FieldDiffsSound(account, hooks, transforms, ais, opa);
    YearDiffsSound(account, opa.valuations, ais.valuations);
  }

  /** At most one record per hook and per attribute after the year of every
      OPA year; AIS years play no part in the count. */
  lemma DiffCountBound(account: string, hooks: seq<string>, transforms: Transforms, ais: Snapshot, opa: Snapshot)
    requires DiffSpec(account, hooks, transforms, ais, opa).Ok?
    ensures |DiffSpec(account, hooks, transforms, ais, opa).value| <= |hooks| + (ColumnCount - 1) * |opa.valuations|
  {
    FieldDiffsLength(account, hooks, transforms, ais, opa);
    YearDiffsLength(account, opa.valuations, ais.valuations);
  }

  /** The comparison fails exactly when an OPA year is missing from the AIS
      table, and then names the first such year; it emits nothing. */
  lemma MissingAisYearRule(account: string, hooks: seq<string>, transforms: Transforms, ais: Snapshot, opa: Snapshot)
    ensures DiffSpec(account, hooks, transforms, ais, opa).Err?
        <==> exists k :: 0 <= k < |opa.valuations| && opa.valuations[k].0 !in Years(ais.valuations)
    ensures forall k :: 0 <= k < |opa.valuations| && opa.valuations[k].0 !in Years(ais.valuations)
                        && (forall j :: 0 <= j < k ==> opa.valuations[j].0 in Years(ais.valuations)) ==>
              DiffSpec(account, hooks, transforms, ais, opa) == Err(MissingAisYear(opa.valuations[k].0))
  {
    YearDiffsOkIff(account, opa.valuations, ais.valuations);
    forall k | 0 <= k < |opa.valuations| && opa.valuations[k].0 !in Years(ais.valuations)
               && (forall j :: 0 <= j < k ==> opa.valuations[j].0 in Years(ais.valuations))
      ensures DiffSpec(account, hooks, transforms, ais, opa) == Err(MissingAisYear(opa.valuations[k].0))
    {
      YearDiffsFirstMissing(account, opa.valuations, ais.valuations, k);
    }
  }

  /** A year that only the AIS site has changes nothing. */
  lemma AisOnlyYearIgnored(account: string, hooks: seq<string>, transforms: Transforms, ais: Snapshot, opa: Snapshot, year: nat, attrs: Attrs)
    requires year !in Years(opa.valuations)
    ensures DiffSpec(account, hooks, transforms, Snapshot(ais.fields, Put(ais.valuations, year, attrs)), opa)
         == DiffSpec(account, hooks, transforms, ais, opa)
  {
    var ais2 := Snapshot(ais.fields, Put(ais.valuations, year, attrs));
    forall k | 0 <= k < |opa.valuations| ensures Lookup(ais2.valuations, opa.valuations[k].0) == Lookup(ais.valuations, opa.valuations[k].0) {
      PutLookup(ais.valuations, year, attrs, opa.valuations[k].0);
    }
    YearDiffsSameLookups(account, opa.valuations, ais2.valuations, ais.valuations);
    assert forall h :: Field(ais2, h) == Field(ais, h);
    FieldDiffsSameFields(account, hooks, transforms, ais2, ais, opa);
  }

  lemma {:induction false} FieldDiffsSameFields(account: string, hooks: seq<string>, transforms: Transforms, ais1: Snapshot, ais2: Snapshot, opa: Snapshot)
    requires ais1.fields == ais2.fields
    ensures FieldDiffs(account, hooks, transforms, ais1, opa) == FieldDiffs(account, hooks, transforms, ais2, opa)
  {
    if hooks != [] {
      FieldDiffsSameFields(account, hooks[1..], transforms, ais1, ais2, opa);
    }
  }

  lemma {:induction false} FieldDiffsSelf(account: string, hooks: seq<string>, s: Snapshot)
    ensures FieldDiffs(account, hooks, map[], s, s) == []
  {
    if hooks != [] {
      FieldDiffsSelf(account, hooks[1..], s);
    }
  }

  /** Comparing a snapshot with itself, without transforms, reports nothing
      exactly when none of its compared valuation attributes is `NaN` (a
      cell such as `1.2.3` reads as `NaN`, which is unequal to itself). */
  lemma SelfDiffEmpty(account: string, hooks: seq<string>, s: Snapshot)
    requires Ascending(s.valuations)
    ensures DiffSpec(account, hooks, map[], s, s) == Ok([]) <==> ComparedNaNFree(s.valuations)
  {
    forall k | 0 <= k < |s.valuations| ensures Lookup(s.valuations, s.valuations[k].0) == Some(s.valuations[k].1) {
      LookupEntry(s.valuations, k);
    }
    YearDiffsSelf(account, s.valuations, s.valuations);
    FieldDiffsSelf(account, hooks, s);
    match YearDiffs(account, s.valuations, s.valuations)
    case Err(e) =>
    case Ok(v) => assert [] + v == v;
  }
}
