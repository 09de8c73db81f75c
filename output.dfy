/** The output stream: a header line of column names, then one
    comma-separated line per record (index.js:25-32, 142-151). Nothing is
    quoted or escaped. */
module Output {
  import opened Values
  import opened Diff

  /** The output columns, in order (index.js:25-31). */
  const OutCols: seq<string> := ["account", "key", "ais", "opa", "valuation"]

  /** `parts.join(sep)`. */
  function Join(parts: seq<string>, sep: string): (r: string)
    ensures |parts| > 0 ==> |parts[0]| <= |r| && r[..|parts[0]|] == parts[0]
  {
    if |parts| == 0 then ""
    else if |parts| == 1 then parts[0]
    else parts[0] + sep + Join(parts[1..], sep)
  }

  /** `s.split(sep)` for a one-character separator: the pieces between the
      separators, so that `k` separators give `k + 1` pieces. */
  function Split(s: string, sep: char): (pieces: seq<string>)
    ensures |pieces| >= 1
    decreases |s|
  {
    if sep !in s then [s]
    else
      var i := IndexOf(s, sep);
      [s[..i]] + Split(s[i + 1..], sep)
  }

  /** The header line. */
  function Header(): (r: string)
    ensures |r| > 0 && r[|r| - 1] == '\n'
  {
    Join(OutCols, ",") + "\n"
  }

  /** `diff[col]` as `join` writes it: the record's field of that name, and
      nothing for a name the record lacks, which reads as `undefined`. */
  function Column(d: Record, col: string): string {
    if col == "account" then d.account
    else if col == "key" then d.key
    else if col == "ais" then ValueText(d.ais)
    else if col == "opa" then ValueText(d.opa)
    else if col == "valuation" then BoolText(d.valuation)
    else ""
  }

  /** The cells of a record's line, in column order. */
  function Cells(d: Record): (r: seq<string>)
    ensures |r| == |OutCols|
    ensures forall j :: 0 <= j < |OutCols| ==> r[j] == Column(d, OutCols[j])
  {
    [d.account, d.key, ValueText(d.ais), ValueText(d.opa), BoolText(d.valuation)]
  }

  /** The column loop of `writeDiffs` (index.js:144-147): the record's value
      under each output column, in column order. */
  method ReadColumns(diff: Record) returns (vals: seq<string>)
    ensures vals == Cells(diff)
  {
    vals := [];
    for c := 0 to |OutCols|
      invariant |vals| == c
      invariant forall j :: 0 <= j < c ==> vals[j] == Column(diff, OutCols[j])
    {
      vals := vals + [Column(diff, OutCols[c])];
    }
  }

  /** `writeDiffs`: for each record, in order, the line made of its columns
      joined by `,` and ended by a newline (index.js:142-151). The lines are
      returned, in the order they are written. */
  method WriteDiffs(diffs: seq<Record>) returns (lines: seq<string>)
    ensures |lines| == |diffs|
    ensures forall i :: 0 <= i < |diffs| ==> lines[i] == Join(Cells(diffs[i]), ",") + "\n"
  {
    lines := [];
    for i := 0 to |diffs|
      invariant |lines| == i
      invariant forall j :: 0 <= j < i ==> lines[j] == Join(Cells(diffs[j]), ",") + "\n"
    {
      var vals := ReadColumns(diffs[i]);
      var outRow := Join(vals, ",") + "\n";
      lines := lines + [outRow];
    }
  }

  /** The header names the five columns in order, separated by commas. */
  lemma HeaderText()
    ensures Header() == OutCols[0] + "," + OutCols[1] + "," + OutCols[2] + "," + OutCols[3] + "," + OutCols[4] + "\n"
  {
  }

  /** Splitting a join on its separator gives back the parts, provided no
      part contains the separator. */
  lemma {:induction false} SplitJoin(parts: seq<string>, sep: char)
    requires |parts| >= 1
    requires forall i :: 0 <= i < |parts| ==> sep !in parts[i]
    ensures Split(Join(parts, [sep]), sep) == parts
  {
    if |parts| > 1 {
      var rest := Join(parts[1..], [sep]);
      assert Join(parts, [sep]) == parts[0] + [sep] + rest;
      SplitJoin(parts[1..], sep);
      SplitAt(parts[0], sep, rest);
      assert parts == [parts[0]] + parts[1..];
    }
  }

  /** A separator after a piece without one ends that piece. */
  lemma SplitAt(a: string, sep: char, b: string)
    requires sep !in a
    ensures Split(a + [sep] + b, sep) == [a] + Split(b, sep)
  {
    var s := a + [sep] + b;
    IndexOfAfter(a, sep, b);
    assert s[|a|] == sep;
    assert s[..|a|] == a;
    assert s[|a| + 1..] == b;
  }

  /** A join holds no newline when no part does. */
  lemma {:induction false} JoinNoNewline(parts: seq<string>)
    requires forall i :: 0 <= i < |parts| ==> '\n' !in parts[i]
    ensures '\n' !in Join(parts, ",")
  {
    if |parts| > 1 {
      JoinNoNewline(parts[1..]);
    }
  }

  /** A line reads back as the record's five cells, provided no cell holds
      a comma or a newline: the line is exactly one line, and splitting it
      on commas gives the cells in column order. */
  lemma LineReadsBack(d: Record)
    requires forall i :: 0 <= i < |Cells(d)| ==> ',' !in Cells(d)[i] && '\n' !in Cells(d)[i]
    ensures var line := Join(Cells(d), ",") + "\n";
            line[|line| - 1] == '\n' && '\n' !in line[..|line| - 1]
            && Split(line[..|line| - 1], ',') == [d.account, d.key, ValueText(d.ais), ValueText(d.opa), BoolText(d.valuation)]
  {
    var body := Join(Cells(d), ",");
    JoinNoNewline(Cells(d));
    SplitJoin(Cells(d), ',');
    assert (body + "\n")[..|body|] == body;
  }

  /** Splitting on the separator gives one more piece than there are
      separators. */
  lemma {:induction false} SplitCount(s: string, sep: char)
    ensures |Split(s, sep)| == multiset(s)[sep] + 1
    decreases |s|
  {
    if sep in s {
      var i := IndexOf(s, sep);
      SplitCount(s[i + 1..], sep);
      assert s == s[..i] + [sep] + s[i + 1..];
      assert multiset(s[..i])[sep] == 0;
    } else {
      assert multiset(s)[sep] == 0;
    }
  }

  lemma {:induction false} JoinSeparatorCount(parts: seq<string>, sep: char)
    requires |parts| >= 1
    ensures multiset(Join(parts, [sep]))[sep] >= |parts| - 1
  {
    if |parts| > 1 {
      JoinSeparatorCount(parts[1..], sep);
      var rest := Join(parts[1..], [sep]);
      assert multiset(parts[0] + [sep] + rest) == multiset(parts[0]) + multiset([sep]) + multiset(rest);
    }
  }

  /** Because nothing is quoted, a comma inside a cell (an owner name such
      as `SMITH, JOHN`) makes the line split into more than the five
      columns. */
  lemma CommaInCellShiftsColumns(d: Record, c: nat)
    requires c < |Cells(d)| && ',' in Cells(d)[c]
    ensures |Split(Join(Cells(d), ",") , ',')| > |OutCols|
  {
    SplitCount(Join(Cells(d), ","), ',');
    JoinSeparatorCountWith(Cells(d), ',', c);
  }

  /** The separators of a join plus those inside the part `c`. */
  lemma {:induction false} JoinSeparatorCountWith(parts: seq<string>, sep: char, c: nat)
    requires c < |parts|
    ensures multiset(Join(parts, [sep]))[sep] >= |parts| - 1 + multiset(parts[c])[sep]
  {
    if |parts| > 1 {
      var rest := Join(parts[1..], [sep]);
      assert multiset(parts[0] + [sep] + rest) == multiset(parts[0]) + multiset([sep]) + multiset(rest);
      if c > 0 {
        JoinSeparatorCountWith(parts[1..], sep, c - 1);
      } else {
        JoinSeparatorCount(parts[1..], sep);
      }
    }
  }
}
