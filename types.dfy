/**
 * The data model shared by the auto-mapper, the rule evaluator and the
 * mapping editor: rows, parsed tables and the four-kind mapping rule.
 */
module Types {
  import opened Wrappers

  /** A row (`RowObject`): header name to cell text. */
  type Row = map<string, string>

  /** A parsed CSV (`ParsedCsv`): its header list and its data rows. */
  datatype ParsedCsv = ParsedCsv(headers: seq<string>, rows: seq<Row>)

  /** The name component a split-name rule extracts. */
  datatype Part = First | Last

  /** Optional provenance of a rule (`MappingProvenance.origin`). */
  datatype Origin = Auto | Manual

  /** The closed union of rule shapes, one constructor per `kind` tag. */
  datatype RuleKind =
    | NoSource                                              // kind 'none'
    | Direct(source: string)                                // kind 'direct'
    | SplitName(source: string, part: Part)                 // kind 'split_name'
    | Concat(sources: seq<string>, separator: Option<string>)  // kind 'concat'

  /** `MappingRule`: a rule shape together with its optional provenance. */
  datatype Rule = Rule(kind: RuleKind, origin: Option<Origin>)

  /** `Mapping`: target (template) header to its rule. */
  type Mapping = map<string, Rule>

  /** A rule literal as the source writes one: without provenance. */
  function Plain(kind: RuleKind): Rule {
    Rule(kind, None)
  }

  /** `mapping[target] || { kind: 'none' }`: a target without an entry reads as none. */
  function RuleFor(m: Mapping, target: string): RuleKind {
    if target in m then m[target].kind else NoSource
  }

  /** `row[key] ?? ''`: a missing cell reads as the empty string. */
  function CellOf(row: Row, key: string): string {
    if key in row then row[key] else ""
  }
}
