/**
 * The rule evaluator (`applyMapping` and `splitName`): every source row
 * becomes one output row holding exactly the template headers, each cell
 * computed from that header's rule.
 */
module Evaluator {
  import opened Wrappers
  import opened Text
  import opened Types

  // ----- splitName ------------------------------------------------------------

  /**
   * splitName: the trimmed full name is read as "Last, First" when it holds
   * a comma (segments 0 and 1 of a split at every comma, each trimmed), and
   * is otherwise cut at its last space, the first name taking everything
   * before it. A name without a space is all first name.
   */
  function SplitFullName(full: string, part: Part): (r: string)
    ensures IsTrimmed(r)
  {
    var s := Trim(full);
    TrimSpec(full);
    if s == "" then ""
    else if ',' in s then
      SplitOnSpec(s, ',');
      var segs := SplitOn(s, ',');
      TrimSpec(segs[0]);
      TrimSpec(segs[1]);
      if part == First then Trim(segs[1]) else Trim(segs[0])
    else
      match LastIndexOf(s, ' ')
      case None => if part == First then s else ""
      case Some(idx) =>
        TrimSpec(s[..idx]);
        TrimSpec(s[idx + 1..]);
        if part == First then Trim(s[..idx]) else Trim(s[idx + 1..])
  }

  /** A name that is empty once trimmed gives the empty string for either part. */
  lemma SplitBlankName(full: string, part: Part)
    requires AllWhitespace(full)
    ensures SplitFullName(full, part) == ""
  {
    TrimEmptyIff(full);
  }

  /**
   * "Last, First": with a comma, the last name is the first comma-separated
   * segment and the first name the second, both trimmed; neither holds a
   * comma, and anything after a second comma is dropped.
   */
  lemma SplitAtComma(full: string)
    requires ',' in Trim(full)
    ensures var segs := SplitOn(Trim(full), ',');
      |segs| >= 2
      && SplitFullName(full, Last) == Trim(segs[0])
      && SplitFullName(full, First) == Trim(segs[1])
    ensures ',' !in SplitFullName(full, First) && ',' !in SplitFullName(full, Last)
  {
    var s := Trim(full);
    SplitOnSpec(s, ',');
    TrimKeepsOut(SplitOn(s, ',')[0], ',');
    TrimKeepsOut(SplitOn(s, ',')[1], ',');
  }

  /**
   * Without a comma, a name with a space is split at its last space: the
   * first name is what precedes it, trimmed (middle names included), and
   * the last name what follows it, trimmed, which holds no space.
   */
  lemma SplitAtLastSpace(full: string)
    requires ',' !in Trim(full) && ' ' in Trim(full)
    ensures exists a, b :: (Trim(full) == a + " " + b && ' ' !in b
      && SplitFullName(full, First) == Trim(a) && SplitFullName(full, Last) == Trim(b))
    ensures ' ' !in SplitFullName(full, Last)
  {
    var s := Trim(full);
    var idx := LastIndexOf(s, ' ').value;
    var a, b := s[..idx], s[idx + 1..];
    assert s == a + " " + b;
    assert SplitFullName(full, First) == Trim(a);
    assert SplitFullName(full, Last) == Trim(b);
    TrimKeepsOut(b, ' ');
  }

  /** Without a comma or a space, the whole trimmed name is the first name and the last name is empty. */
  lemma SplitSingleWord(full: string)
    requires ',' !in Trim(full) && ' ' !in Trim(full)
    ensures SplitFullName(full, First) == Trim(full)
    ensures SplitFullName(full, Last) == ""
  {
  }

  /** "Doe, Jane" names Jane Doe. */
  lemma SplitDoeJane()
    ensures SplitFullName("Doe, Jane", First) == "Jane"
    ensures SplitFullName("Doe, Jane", Last) == "Doe"
  {
    var s := "Doe, Jane";
    assert TrimLo(s, 0) == 0;
    assert TrimHi(s, 0, |s|) == |s|;
    assert Trim(s) == s;
    assert s[..3] == "Doe" && s[4..] == " Jane";
    SplitOnOne(s, ',', 3);
    assert Trim("Doe") == "Doe";
    assert TrimLo(" Jane", 0) == 1;
    assert Trim(" Jane") == "Jane";
  }

  /** "Smith" is a first name only. */
  lemma SplitSmith()
    ensures SplitFullName("Smith", First) == "Smith"
    ensures SplitFullName("Smith", Last) == ""
  {
    assert TrimLo("Smith", 0) == 0;
    assert TrimHi("Smith", 0, 5) == 5;
    assert Trim("Smith") == "Smith";
    SplitSingleWord("Smith");
  }

  // ----- concat ---------------------------------------------------------------

  /** The trimmed values of the `sources` cells, in order, with the empty ones dropped. */
  function ConcatValues(row: Row, sources: seq<string>): (vs: seq<string>)
    ensures |vs| <= |sources|
    decreases |sources|
  {
    if sources == [] then []
    else
      var rest := ConcatValues(row, sources[..|sources| - 1]);
      var v := Trim(CellOf(row, sources[|sources| - 1]));
      if v == "" then rest else rest + [v]
  }

  /** Every concatenated value is non-empty and trimmed. */
  lemma {:induction false} ConcatValuesTrimmed(row: Row, sources: seq<string>)
    ensures forall i :: 0 <= i < |ConcatValues(row, sources)| ==>
      ConcatValues(row, sources)[i] != [] && IsTrimmed(ConcatValues(row, sources)[i])
    decreases |sources|
  {
    if sources != [] {
      ConcatValuesTrimmed(row, sources[..|sources| - 1]);
      TrimSpec(CellOf(row, sources[|sources| - 1]));
    }
  }

  /** The trimmed cells of `sources`, in order. */
  function TrimmedCells(row: Row, sources: seq<string>): (cs: seq<string>)
    ensures |cs| == |sources|
  {
    seq(|sources|, k requires 0 <= k < |sources| => Trim(CellOf(row, sources[k])))
  }

  /** `filter((v) => v.length > 0)`. */
  function DropEmpty(xs: seq<string>): (ys: seq<string>)
    ensures forall v :: v in ys <==> v in xs && v != []
    decreases |xs|
  {
    if xs == [] then []
    else
      var rest := DropEmpty(xs[..|xs| - 1]);
      assert xs == xs[..|xs| - 1] + [xs[|xs| - 1]];
      if xs[|xs| - 1] == [] then rest else rest + [xs[|xs| - 1]]
  }

  /** The concatenated values are the source's map-then-filter: trim every cell, keep the non-empty ones. */
  lemma {:induction false} ConcatValuesMapFilter(row: Row, sources: seq<string>)
    ensures ConcatValues(row, sources) == DropEmpty(TrimmedCells(row, sources))
    decreases |sources|
  {
    if sources != [] {
      var init := sources[..|sources| - 1];
      ConcatValuesMapFilter(row, init);
      var cs := TrimmedCells(row, sources);
      assert TrimmedCells(row, init) == cs[..|cs| - 1];
    }
  }

  /** Nothing is concatenated exactly when every source cell is blank. */
  lemma {:induction false} ConcatValuesEmptyIff(row: Row, sources: seq<string>)
    ensures ConcatValues(row, sources) == [] <==>
      forall k :: 0 <= k < |sources| ==> AllWhitespace(CellOf(row, sources[k]))
    decreases |sources|
  {
    if sources != [] {
      var init := sources[..|sources| - 1];
      ConcatValuesEmptyIff(row, init);
      TrimEmptyIff(CellOf(row, sources[|sources| - 1]));
      assert forall k :: 0 <= k < |init| ==> init[k] == sources[k];
    }
  }

  /**
   * The concat cell: the non-empty trimmed values joined with the separator,
   * a single space when none is set. It carries no separator at either end:
   * it is trimmed, and it is empty exactly when every source cell is blank.
   */
  function ConcatCell(row: Row, sources: seq<string>, separator: Option<string>): (r: string)
    ensures IsTrimmed(r)
    ensures r == "" <==> forall k :: 0 <= k < |sources| ==> AllWhitespace(CellOf(row, sources[k]))
  {
    ConcatValuesTrimmed(row, sources);
    ConcatValuesEmptyIff(row, sources);
    JoinTrimmed(ConcatValues(row, sources), separator.GetOr(" "));
    Join(ConcatValues(row, sources), separator.GetOr(" "))
  }

  /**
   * One more source: a blank cell changes nothing, and a non-blank one is
   * appended after a single separator (or stands alone when nothing came
   * before it).
   */
  lemma ConcatCellAppend(row: Row, sources: seq<string>, s: string, separator: Option<string>)
    ensures var v := Trim(CellOf(row, s));
      var before := ConcatCell(row, sources, separator);
      ConcatCell(row, sources + [s], separator) ==
        if v == "" then before
        else if ConcatValues(row, sources) == [] then v
        else before + separator.GetOr(" ") + v
  {
    assert (sources + [s])[..|sources|] == sources;
    JoinAppend(ConcatValues(row, sources), Trim(CellOf(row, s)), separator.GetOr(" "));
  }

  /** Concatenating "  Jo " with an empty cell gives exactly "Jo". */
  lemma ConcatJo()
    ensures ConcatCell(map["First" := "  Jo ", "Last" := ""], ["First", "Last"], None) == "Jo"
  {
    var row := map["First" := "  Jo ", "Last" := ""];
    assert CellOf(row, "First") == "  Jo ";
    assert CellOf(row, "Last") == "";
    assert TrimLo("  Jo ", 0) == 2;
    assert TrimHi("  Jo ", 2, 5) == 4;
    assert Trim("  Jo ") == "Jo";
    assert Trim("") == "";
    assert ["First", "Last"][..1] == ["First"];
    assert ConcatValues(row, ["First"]) == ["Jo"];
    assert ConcatValues(row, ["First", "Last"]) == ["Jo"];
  }

  // ----- applyMapping ---------------------------------------------------------

  /** One output cell: the `switch (rule.kind)` of applyMapping. */
  function EvalCell(rule: RuleKind, row: Row): (r: string)
    ensures rule.NoSource? ==> r == ""
    ensures rule.Direct? ==> r == CellOf(row, rule.source)
    ensures rule.SplitName? || rule.Concat? ==> IsTrimmed(r)
    ensures rule.Concat? ==> (r == "" <==> forall k :: 0 <= k < |rule.sources| ==> AllWhitespace(CellOf(row, rule.sources[k])))
  {
    match rule
    case NoSource => ""
    case Direct(source) => CellOf(row, source)
    case SplitName(source, part) => SplitFullName(CellOf(row, source), part)
    case Concat(sources, separator) => ConcatCell(row, sources, separator)
  }

  /** One output row: exactly the template headers, each evaluated by its rule (none when absent). */
  function EvalRow(mapping: Mapping, templateHeaders: seq<string>, row: Row): (out: Row)
    ensures out.Keys == set t | t in templateHeaders
  {
    map t | t in templateHeaders :: EvalCell(RuleFor(mapping, t), row)
  }

  /** applyMapping: one output row per source row, in order. */
  function EvalRows(mapping: Mapping, templateHeaders: seq<string>, rows: seq<Row>): (out: seq<Row>)
    ensures |out| == |rows|
    ensures forall i :: 0 <= i < |out| ==> out[i].Keys == set t | t in templateHeaders
  {
    seq(|rows|, i requires 0 <= i < |rows| => EvalRow(mapping, templateHeaders, rows[i]))
  }

  /**
   * applyMapping, as the source computes it: for each row an output object
   * filled one template header at a time.
   */
  method ApplyMapping(mapping: Mapping, templateHeaders: seq<string>, sourceRows: seq<Row>) returns (out: seq<Row>)
    ensures out == EvalRows(mapping, templateHeaders, sourceRows)
  {
    out := [];
    for i := 0 to |sourceRows|
      invariant out == EvalRows(mapping, templateHeaders, sourceRows[..i])
    {
      var row := sourceRows[i];
      var o: Row := map[];
      for j := 0 to |templateHeaders|
        invariant o == EvalRow(mapping, templateHeaders[..j], row)
      {
        EvalRowExtend(mapping, templateHeaders, row, j);
        var target := templateHeaders[j];
        var rule := RuleFor(mapping, target);
        match rule {
          case NoSource => o := o[target := ""];
          case Direct(source) => o := o[target := CellOf(row, source)];
          case SplitName(source, part) => o := o[target := SplitFullName(CellOf(row, source), part)];
          case Concat(sources, separator) =>
            var sep := separator.GetOr(" ");
            o := o[target := Join(ConcatValues(row, sources), sep)];
        }
      }
      assert templateHeaders[..|templateHeaders|] == templateHeaders;
      assert sourceRows[..i + 1] == sourceRows[..i] + [row];
      out := out + [o];
    }
    assert sourceRows[..|sourceRows|] == sourceRows;
  }

  /** One more template header adds its own cell to the partial output row. */
  lemma EvalRowExtend(mapping: Mapping, templateHeaders: seq<string>, row: Row, n: nat)
    requires n < |templateHeaders|
    ensures EvalRow(mapping, templateHeaders[..n + 1], row)
      == EvalRow(mapping, templateHeaders[..n], row)[templateHeaders[n] := EvalCell(RuleFor(mapping, templateHeaders[n]), row)]
  {
    assert templateHeaders[..n + 1] == templateHeaders[..n] + [templateHeaders[n]];
  }

  /** A template header without a rule, or with a none rule, gives the empty string. */
  lemma AbsentRuleEmpty(mapping: Mapping, templateHeaders: seq<string>, row: Row, t: string)
    requires t in templateHeaders && (t !in mapping || mapping[t].kind == NoSource)
    ensures EvalRow(mapping, templateHeaders, row)[t] == ""
  {
  }

  /** A direct rule copies its source cell, or gives "" when the row has no such key. */
  lemma DirectCopies(mapping: Mapping, templateHeaders: seq<string>, row: Row, t: string)
    requires t in templateHeaders && t in mapping && mapping[t].kind.Direct?
    ensures var src := mapping[t].kind.source;
      EvalRow(mapping, templateHeaders, row)[t] == if src in row then row[src] else ""
  {
  }

  /** Two mappings agree on rule shapes for every target. */
  predicate SameKinds(m: Mapping, m': Mapping) {
    m.Keys == m'.Keys && forall t :: t in m ==> m[t].kind == m'[t].kind
  }

  /** Provenance never affects evaluation: mappings that differ only in `origin` give the same rows. */
  lemma OriginIrrelevant(m: Mapping, m': Mapping, templateHeaders: seq<string>, rows: seq<Row>)
    requires SameKinds(m, m')
    ensures EvalRows(m, templateHeaders, rows) == EvalRows(m', templateHeaders, rows)
  {
    forall i | 0 <= i < |rows|
      ensures EvalRow(m, templateHeaders, rows[i]) == EvalRow(m', templateHeaders, rows[i])
    {
      forall t | t in templateHeaders ensures RuleFor(m, t) == RuleFor(m', t) { }
    }
  }
}
