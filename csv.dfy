/**
 * The CSV helpers around the parser: completing a parse (dropping empty
 * rows, inferring headers, blanking missing cells) and projecting rows to
 * header order for export.
 */
module Csv {
  import opened Wrappers
  import opened Text
  import opened Types
  import opened Evaluator

  /**
   * A row as the parser delivers it: its entries in key order, a missing or
   * null value as None.
   */
  type RawRow = seq<(string, Option<string>)>

  // ----- inferHeadersFromRows -------------------------------------------------

  /** The keys of a row, in order. */
  function KeysOf(row: RawRow): (ks: seq<string>)
    ensures |ks| == |row|
  {
    seq(|row|, i requires 0 <= i < |row| => row[i].0)
  }

  /** The keys of every row, row after row. */
  function AllKeys(rows: seq<RawRow>): seq<string>
    decreases |rows|
  {
    if rows == [] then [] else AllKeys(rows[..|rows| - 1]) + KeysOf(rows[|rows| - 1])
  }

  /** An insertion-ordered set: the elements of `xs`, each at its first occurrence. */
  function Dedup(xs: seq<string>): (r: seq<string>)
    ensures forall x :: x in r <==> x in xs
    ensures NoDuplicates(r) && |r| <= |xs|
    decreases |xs|
  {
    if xs == [] then []
    else
      var init, x := xs[..|xs| - 1], xs[|xs| - 1];
      assert xs == init + [x];
      var d := Dedup(init);
      if x in d then d else d + [x]
  }

  /** The position of the first occurrence of `x`. */
  function FirstIndex(xs: seq<string>, x: string): (k: nat)
    requires x in xs
    ensures k < |xs| && xs[k] == x
    ensures forall j :: 0 <= j < k ==> xs[j] != x
    decreases |xs|
  {
    if xs[0] == x then 0
    else
      assert x in xs[1..] by { var i :| 0 <= i < |xs| && xs[i] == x; assert xs[1..][i - 1] == x; }
      var k := FirstIndex(xs[1..], x);
      assert forall j :: 1 <= j < k + 1 ==> xs[j] == xs[1..][j - 1];
      k + 1
  }

  /**
   * Deduplication keeps every element once and nothing else, in the order
   * of first occurrence.
   */
  lemma {:induction false} DedupSpec(xs: seq<string>)
    ensures NoDuplicates(Dedup(xs))
    ensures forall x :: x in Dedup(xs) <==> x in xs
    ensures forall i, j :: 0 <= i < j < |Dedup(xs)| ==> FirstIndex(xs, Dedup(xs)[i]) < FirstIndex(xs, Dedup(xs)[j])
    decreases |xs|
  {
    if xs != [] {
      var init := xs[..|xs| - 1];
      assert xs == init + [xs[|xs| - 1]];
      DedupSpec(init);
      DedupSnoc(init, xs[|xs| - 1]);
    }
  }

  /** The step of DedupSpec: appending one element to a list whose deduplication is known good. */
  lemma DedupSnoc(init: seq<string>, x: string)
    requires NoDuplicates(Dedup(init))
    requires forall y :: y in Dedup(init) <==> y in init
    requires forall i, j :: 0 <= i < j < |Dedup(init)| ==> FirstIndex(init, Dedup(init)[i]) < FirstIndex(init, Dedup(init)[j])
    ensures var xs := init + [x];
      NoDuplicates(Dedup(xs))
      && (forall y :: y in Dedup(xs) <==> y in xs)
      && forall i, j :: 0 <= i < j < |Dedup(xs)| ==> FirstIndex(xs, Dedup(xs)[i]) < FirstIndex(xs, Dedup(xs)[j])
  {
    var xs := init + [x];
    var d := Dedup(init);
    assert xs[..|xs| - 1] == init;
    forall y | y in init ensures FirstIndex(xs, y) == FirstIndex(init, y) {
      FirstIndexPrefix(init, [x], y);
    }
    if x !in d {
      assert Dedup(xs) == d + [x];
      assert FirstIndex(xs, x) == |init| by { assert xs[..|init|] == init; }
      FreshAppended(init, x);
    } else {
      assert Dedup(xs) == d;
    }
  }

  /** The order claim of DedupSnoc when the appended element is new. */
  lemma FreshAppended(init: seq<string>, x: string)
    requires x !in Dedup(init) && NoDuplicates(Dedup(init))
    requires forall y :: y in Dedup(init) <==> y in init
    requires forall i, j :: 0 <= i < j < |Dedup(init)| ==> FirstIndex(init, Dedup(init)[i]) < FirstIndex(init, Dedup(init)[j])
    requires forall y :: y in init ==> FirstIndex(init + [x], y) == FirstIndex(init, y)
    requires FirstIndex(init + [x], x) == |init|
    ensures var e := Dedup(init) + [x];
      forall i, j :: 0 <= i < j < |e| ==> e[i] != e[j] && FirstIndex(init + [x], e[i]) < FirstIndex(init + [x], e[j])
  {
    var d := Dedup(init);
    var e := d + [x];
    forall i, j | 0 <= i < j < |e| ensures e[i] != e[j] && FirstIndex(init + [x], e[i]) < FirstIndex(init + [x], e[j]) {
      assert e[i] == d[i];
      if j < |d| {
        assert e[j] == d[j];
      }
    }
  }

  /** The first occurrence of an element of a prefix lies in that prefix. */
  lemma FirstIndexPrefix(xs: seq<string>, ys: seq<string>, x: string)
    requires x in xs
    ensures FirstIndex(xs + ys, x) == FirstIndex(xs, x)
  {
    var k := FirstIndex(xs, x);
    assert forall j :: 0 <= j < |xs| ==> (xs + ys)[j] == xs[j];
  }

  /**
   * inferHeadersFromRows, as the source computes it: every key of every row
   * is added to an insertion-ordered set.
   */
  method InferHeadersFromRows(rows: seq<RawRow>) returns (headers: seq<string>)
    ensures headers == Dedup(AllKeys(rows))
  {
    var seen: set<string> := {};
    headers := [];
    for i := 0 to |rows|
      invariant headers == Dedup(AllKeys(rows[..i]))
      invariant seen == set h | h in headers
    {
      var row := rows[i];
      ghost var before := AllKeys(rows[..i]);
      AllKeysStep(rows, i);
      assert before + KeysOf(row)[..0] == before;
      for j := 0 to |row|
        invariant headers == Dedup(before + KeysOf(row)[..j])
        invariant seen == set h | h in headers
      {
        var k := row[j].0;
        DedupStep(before, KeysOf(row), j);
        if k !in seen {
          SetOfSnoc(headers, k);
          seen := seen + {k};
          headers := headers + [k];
        }
      }
      assert KeysOf(row)[..|row|] == KeysOf(row);
    }
    assert rows[..|rows|] == rows;
  }

  lemma AllKeysStep(rows: seq<RawRow>, i: nat)
    requires i < |rows|
    ensures AllKeys(rows[..i + 1]) == AllKeys(rows[..i]) + KeysOf(rows[i])
  {
    assert rows[..i + 1][..i] == rows[..i];
  }

  lemma DedupStep(before: seq<string>, ks: seq<string>, j: nat)
    requires j < |ks|
    ensures var d := Dedup(before + ks[..j]);
      Dedup(before + ks[..j + 1]) == if ks[j] in d then d else d + [ks[j]]
  {
    var xs := before + ks[..j + 1];
    assert xs[..|xs| - 1] == before + ks[..j];
  }

  lemma SetOfSnoc(xs: seq<string>, x: string)
    ensures (set h | h in xs + [x]) == (set h | h in xs) + {x}
  {
  }

  /** The inferred headers are exactly the keys that occur in some row, each once. */
  lemma InferredHeadersSpec(rows: seq<RawRow>)
    ensures NoDuplicates(Dedup(AllKeys(rows)))
    ensures forall i, k :: 0 <= i < |rows| && k in KeysOf(rows[i]) ==> k in Dedup(AllKeys(rows))
    ensures forall h :: h in Dedup(AllKeys(rows)) ==> exists i :: 0 <= i < |rows| && h in KeysOf(rows[i])
  {
    DedupSpec(AllKeys(rows));
    AllKeysSpec(rows);
  }

  /** A key occurs in the concatenated keys exactly when it is a key of some row. */
  lemma {:induction false} AllKeysSpec(rows: seq<RawRow>)
    ensures forall k :: k in AllKeys(rows) <==> exists i :: 0 <= i < |rows| && k in KeysOf(rows[i])
    decreases |rows|
  {
    if rows != [] {
      var init := rows[..|rows| - 1];
      AllKeysSpec(init);
      forall k ensures k in AllKeys(rows) <==> exists i :: 0 <= i < |rows| && k in KeysOf(rows[i]) {
        if k in AllKeys(init) {
          var i :| 0 <= i < |init| && k in KeysOf(init[i]);
          assert rows[i] == init[i];
        }
        if exists i :: 0 <= i < |rows| && k in KeysOf(rows[i]) {
          var i :| 0 <= i < |rows| && k in KeysOf(rows[i]);
          if i < |init| { assert rows[i] == init[i]; }
        }
      }
    }
  }

  // ----- cleanUndefinedToEmpty ------------------------------------------------

  /** A row as an object: later entries for the same key overwrite earlier ones, a missing value reads as "". */
  function CleanRow(row: RawRow): (out: Row)
    ensures out.Keys == set i | 0 <= i < |row| :: row[i].0
    decreases |row|
  {
    if row == [] then map[]
    else
      var init := row[..|row| - 1];
      var e := row[|row| - 1];
      var out := CleanRow(init)[e.0 := e.1.GetOr("")];
      assert forall i :: 0 <= i < |init| ==> init[i] == row[i];
      out
  }

  /** Keys are distinct, as in a JavaScript object. */
  predicate DistinctKeys(row: RawRow) {
    forall i, j :: 0 <= i < j < |row| ==> row[i].0 != row[j].0
  }

  /** Cleaning keeps each value and turns each missing one into "". */
  lemma {:induction false} CleanRowValues(row: RawRow)
    requires DistinctKeys(row)
    ensures forall i :: 0 <= i < |row| ==> CleanRow(row)[row[i].0] == row[i].1.GetOr("")
    decreases |row|
  {
    if row != [] {
      var init := row[..|row| - 1];
      assert DistinctKeys(init) by {
        forall i, j | 0 <= i < j < |init| ensures init[i].0 != init[j].0 {
          assert init[i] == row[i] && init[j] == row[j];
        }
      }
      CleanRowValues(init);
      forall i | 0 <= i < |row| ensures CleanRow(row)[row[i].0] == row[i].1.GetOr("") {
        if i < |init| {
          assert init[i] == row[i];
        }
      }
    }
  }

  /** cleanUndefinedToEmpty, as the source computes it: one assignment per entry. */
  method CleanUndefinedToEmpty(row: RawRow) returns (out: Row)
    ensures out == CleanRow(row)
  {
    out := map[];
    for i := 0 to |row|
      invariant out == CleanRow(row[..i])
    {
      var (k, v) := row[i];
      assert row[..i + 1][..i] == row[..i];
      out := out[k := if v.None? then "" else v.value];
    }
    assert row[..|row|] == row;
  }

  // ----- Parse completion -----------------------------------------------------

  /** `filter(Boolean)`: the rows the parser delivered, without the missing ones. */
  function PresentRows(data: seq<Option<RawRow>>): (rows: seq<RawRow>)
    ensures |rows| <= |data|
    ensures forall r :: r in rows <==> Some(r) in data
    decreases |data|
  {
    if data == [] then []
    else
      var rest := PresentRows(data[..|data| - 1]);
      assert data == data[..|data| - 1] + [data[|data| - 1]];
      match data[|data| - 1]
      case None => rest
      case Some(r) => rest + [r]
  }

  /**
   * Filtering works piece by piece, so it keeps the delivered rows in their
   * order: a missing row contributes nothing and a present one itself.
   */
  lemma {:induction false} PresentRowsAppend(d: seq<Option<RawRow>>, e: seq<Option<RawRow>>)
    ensures PresentRows(d + e) == PresentRows(d) + PresentRows(e)
    ensures PresentRows([None]) == []
    ensures forall r: RawRow :: PresentRows([Some(r)]) == [r]
    decreases |e|
  {
    var none: seq<Option<RawRow>> := [None];
    assert none[..0] == [];
    forall r: RawRow ensures PresentRows([Some(r)]) == [r] {
      assert [Some(r)][..0] == [];
    }
    if e == [] {
      assert d + e == d;
    } else {
      var init := e[..|e| - 1];
      PresentRowsAppend(d, init);
      assert (d + e)[..|d + e| - 1] == d + init;
      assert (d + e)[|d + e| - 1] == e[|e| - 1];
    }
  }

  /**
   * The parse result: the parser's field list when it reports one, the
   * inferred headers otherwise, and every present row cleaned.
   */
  function ParseResult(data: seq<Option<RawRow>>, fields: Option<seq<string>>): (p: ParsedCsv)
    ensures |p.rows| == |PresentRows(data)|
    ensures fields.Some? ==> p.headers == fields.value
    ensures forall i :: 0 <= i < |p.rows| ==> p.rows[i] == CleanRow(PresentRows(data)[i])
  {
    var rows := PresentRows(data);
    ParsedCsv(fields.GetOr(Dedup(AllKeys(rows))),
              seq(|rows|, i requires 0 <= i < |rows| => CleanRow(rows[i])))
  }

  /** Without a field list, every key of every present row is a header, once. */
  lemma ParseHeadersInferred(data: seq<Option<RawRow>>)
    ensures var p := ParseResult(data, None);
      NoDuplicates(p.headers)
      && forall r, k :: Some(r) in data && k in KeysOf(r) ==> k in p.headers
  {
    var rows := PresentRows(data);
    InferredHeadersSpec(rows);
    forall r, k | Some(r) in data && k in KeysOf(r) ensures k in Dedup(AllKeys(rows)) {
      var i :| 0 <= i < |rows| && rows[i] == r;
    }
  }

  /** Parse completion, as the source performs it once the parser is done. */
  method CompleteParse(data: seq<Option<RawRow>>, fields: Option<seq<string>>) returns (p: ParsedCsv)
    ensures p == ParseResult(data, fields)
  {
    var rows := PresentRows(data);
    var headers: seq<string>;
    if fields.Some? {
      headers := fields.value;
    } else {
      headers := InferHeadersFromRows(rows);
    }
    var cleaned: seq<Row> := [];
    for i := 0 to |rows|
      invariant cleaned == seq(i, j requires 0 <= j < i => CleanRow(rows[j]))
    {
      var c := CleanUndefinedToEmpty(rows[i]);
      cleaned := cleaned + [c];
    }
    p := ParsedCsv(headers, cleaned);
  }

  // ----- Export projection ----------------------------------------------------

  /** The row projection in unparseCsv: each row as its cells in header order, "" for a missing key. */
  function Project(headers: seq<string>, rows: seq<Row>): (cells: seq<seq<string>>)
    ensures |cells| == |rows|
    ensures forall i :: 0 <= i < |rows| ==> |cells[i]| == |headers|
  {
    seq(|rows|, i requires 0 <= i < |rows| =>
      seq(|headers|, j requires 0 <= j < |headers| => CellOf(rows[i], headers[j])))
  }

  /**
   * Exported cells are the evaluated rule values: every template header is a
   * key of every mapped row, so the "" fallback of the projection never fires.
   */
  lemma ExportedCells(mapping: Mapping, templateHeaders: seq<string>, rows: seq<Row>)
    ensures var cells := Project(templateHeaders, EvalRows(mapping, templateHeaders, rows));
      forall i, j :: 0 <= i < |rows| && 0 <= j < |templateHeaders| ==>
        cells[i][j] == EvalCell(RuleFor(mapping, templateHeaders[j]), rows[i])
  {
  }
}
