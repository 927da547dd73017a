/**
 * The mapper screen's state: the loaded template and data files and the
 * current mapping, with one method per handler that changes them.
 */
module App {
  import opened Wrappers
  import opened Types
  import opened AutoMapper
  import opened Evaluator
  import opened Editing
  import opened SaveFile
  import opened Csv

  /** How many mapped rows the preview table shows. */
  const PreviewLimit: nat := 20

  /** The first `n` elements, or all of them when there are fewer (`slice(0, n)`). */
  function Take<T>(xs: seq<T>, n: nat): (ys: seq<T>)
    ensures |ys| == if |xs| < n then |xs| else n
    ensures ys <= xs
  {
    if |xs| <= n then xs else xs[..n]
  }

  class MapperScreen {
    var templateCsv: Option<ParsedCsv>
    var dataCsv: Option<ParsedCsv>
    var mapping: Mapping

    /** Nothing loaded, nothing mapped. */
    constructor()
      ensures templateCsv == None && dataCsv == None && mapping == map[]
    {
      templateCsv := None;
      dataCsv := None;
      mapping := map[];
    }

    /** `templateCsv?.headers ?? []`. */
    function TemplateHeaders(): seq<string>
      reads this
    {
      if templateCsv.Some? then templateCsv.value.headers else []
    }

    /** `dataCsv?.headers ?? []`. */
    function SourceHeaders(): seq<string>
      reads this
    {
      if dataCsv.Some? then dataCsv.value.headers else []
    }

    /**
     * The initialisation effect: once both files are loaded, the auto-mapping
     * is merged under the current mapping, so that no existing rule changes.
     */
    method Seed()
      modifies this
      ensures templateCsv == old(templateCsv) && dataCsv == old(dataCsv)
      ensures templateCsv.Some? && dataCsv.Some? ==>
        mapping == Merge(AutoMapping(templateCsv.value.headers, dataCsv.value.headers), old(mapping))
      ensures !(templateCsv.Some? && dataCsv.Some?) ==> mapping == old(mapping)
      ensures forall t :: t in old(mapping) ==> t in mapping && mapping[t] == old(mapping)[t]
    {
      if templateCsv.Some? && dataCsv.Some? {
        var auto := AutoMap(templateCsv.value.headers, dataCsv.value.headers);
        mapping := Merge(auto, mapping);
      }
    }

    /** A template file was parsed; the effect then seeds the mapping. */
    method SelectTemplate(csv: ParsedCsv)
      modifies this
      ensures templateCsv == Some(csv) && dataCsv == old(dataCsv)
      ensures dataCsv.Some? ==> mapping == Merge(AutoMapping(csv.headers, dataCsv.value.headers), old(mapping))
      ensures dataCsv.None? ==> mapping == old(mapping)
    {
      templateCsv := Some(csv);
      Seed();
    }

    /** A data file was parsed; the effect then seeds the mapping. */
    method SelectData(csv: ParsedCsv)
      modifies this
      ensures dataCsv == Some(csv) && templateCsv == old(templateCsv)
      ensures templateCsv.Some? ==> mapping == Merge(AutoMapping(templateCsv.value.headers, csv.headers), old(mapping))
      ensures templateCsv.None? ==> mapping == old(mapping)
    {
      dataCsv := Some(csv);
      Seed();
    }

    /** updateRule: the target's rule is replaced and nothing else changes. */
    method UpdateRule(target: string, rule: Rule)
      modifies this
      ensures templateCsv == old(templateCsv) && dataCsv == old(dataCsv)
      ensures mapping == WithRule(old(mapping), target, rule)
    {
      mapping := mapping[target := rule];
    }

    /** Deleting a source chip of a concat rule. */
    method RemoveConcatSource(target: string, s: string)
      requires ConcatOrAbsent(mapping, target)
      modifies this
      ensures templateCsv == old(templateCsv) && dataCsv == old(dataCsv)
      ensures mapping == WithoutSource(old(mapping), target, s)
    {
      var r := if target in mapping then mapping[target] else Plain(Concat([], None));
      var next := Rule(Concat(RemoveAll(r.kind.sources, s), r.kind.separator), r.origin);
      mapping := mapping[target := next];
    }

    /** Choosing a source in a concat rule's "Add source" selector. */
    method AddConcatSource(target: string, val: string)
      requires ConcatOrAbsent(mapping, target)
      modifies this
      ensures templateCsv == old(templateCsv) && dataCsv == old(dataCsv)
      ensures mapping == WithSource(old(mapping), target, val)
    {
      if val == "" {
        return;
      }
      var r := if target in mapping then mapping[target] else Plain(Concat([], None));
      var present := val in r.kind.sources;
      var next := Rule(Concat(if present then r.kind.sources else r.kind.sources + [val], r.kind.separator), r.origin);
      mapping := mapping[target := next];
    }

    /** Typing in a concat rule's separator field. */
    method SetConcatSeparator(target: string, sep: string)
      requires ConcatOrAbsent(mapping, target)
      modifies this
      ensures templateCsv == old(templateCsv) && dataCsv == old(dataCsv)
      ensures mapping == WithSeparator(old(mapping), target, sep)
    {
      var r := if target in mapping then mapping[target] else Plain(Concat([], None));
      mapping := mapping[target := Rule(Concat(r.kind.sources, Some(sep)), r.origin)];
    }

    /** The rule-kind selector: the target gets the chosen kind's default rule. */
    method SelectKind(target: string, tag: KindTag)
      modifies this
      ensures templateCsv == old(templateCsv) && dataCsv == old(dataCsv)
      ensures mapping == WithRule(old(mapping), target, Plain(DefaultRule(tag, target, old(SourceHeaders()))))
    {
      var kind := DefaultRule(tag, target, SourceHeaders());
      UpdateRule(target, Plain(kind));
    }

    /** The source selector of a none or direct rule. */
    method SelectDirectSource(target: string, val: string)
      modifies this
      ensures templateCsv == old(templateCsv) && dataCsv == old(dataCsv)
      ensures mapping == WithRule(old(mapping), target, Plain(DirectChoice(val)))
    {
      if val == "" {
        UpdateRule(target, Plain(NoSource));
      } else {
        UpdateRule(target, Plain(Direct(val)));
      }
    }

    /** The source selector of a split-name rule. */
    method SelectSplitSource(target: string, val: string)
      modifies this
      ensures templateCsv == old(templateCsv) && dataCsv == old(dataCsv)
      ensures mapping == WithRule(old(mapping), target, Plain(SplitSourceChoice(old(mapping), target, val)))
    {
      var kind := SplitSourceChoice(mapping, target, val);
      UpdateRule(target, Plain(kind));
    }

    /** The part selector of a split-name rule. */
    method SelectSplitPart(target: string, part: Part)
      requires RuleFor(mapping, target).SplitName?
      modifies this
      ensures templateCsv == old(templateCsv) && dataCsv == old(dataCsv)
      ensures mapping == WithRule(old(mapping), target, Plain(SplitPartChoice(old(mapping), target, part)))
    {
      var kind := SplitPartChoice(mapping, target, part);
      UpdateRule(target, Plain(kind));
    }

    /**
     * Loading a save file: a document that failed to parse (None) or that is
     * not an object leaves the mapping alone; otherwise the mapping is
     * replaced by the loaded entries, filtered to the template's headers
     * when a template is loaded.
     */
    method LoadSave(parsed: Option<Json>)
      modifies this
      ensures templateCsv == old(templateCsv) && dataCsv == old(dataCsv)
      ensures parsed.None? ==> mapping == old(mapping)
      ensures parsed.Some? ==>
        var allowed := if templateCsv.Some? then Some(templateCsv.value.headers) else None;
        mapping == LoadMapping(parsed.value, allowed).GetOr(old(mapping))
    {
      if parsed.None? {
        return;
      }
      var allowed := if templateCsv.Some? then Some(templateCsv.value.headers) else None;
      var next := LoadSaveFile(parsed.value, allowed);
      if next.Some? {
        mapping := next.value;
      }
    }

    /** The save button's payload. */
    method Save() returns (payload: Json)
      ensures payload == SavePayload(TemplateHeaders(), SourceHeaders(), mapping)
    {
      payload := SavePayload(TemplateHeaders(), SourceHeaders(), mapping);
    }

    /** The preview table: the first mapped rows, or none until both files are loaded. */
    method Preview() returns (rows: seq<Row>)
      ensures templateCsv.Some? && dataCsv.Some? ==>
        rows == Take(EvalRows(mapping, templateCsv.value.headers, dataCsv.value.rows), PreviewLimit)
      ensures !(templateCsv.Some? && dataCsv.Some?) ==> rows == []
      ensures |rows| <= PreviewLimit
    {
      if templateCsv.None? || dataCsv.None? {
        return [];
      }
      var all := ApplyMapping(mapping, templateCsv.value.headers, dataCsv.value.rows);
      rows := Take(all, PreviewLimit);
    }

    /** Export: the mapped rows' cells in template-header order, once both files are loaded. */
    method Export() returns (cells: Option<seq<seq<string>>>)
      ensures templateCsv.Some? && dataCsv.Some? ==>
        cells == Some(Project(templateCsv.value.headers, EvalRows(mapping, templateCsv.value.headers, dataCsv.value.rows)))
      ensures !(templateCsv.Some? && dataCsv.Some?) ==> cells.None?
    {
      if templateCsv.None? || dataCsv.None? {
        return None;
      }
      var rows := ApplyMapping(mapping, templateCsv.value.headers, dataCsv.value.rows);
      cells := Some(Project(templateCsv.value.headers, rows));
    }
  }
}
