/**
 * The mapping edits the mapper screen makes: seeding from the auto-mapper,
 * replacing one rule, editing a concat rule's sources and separator,
 * switching a rule's kind, and the helpers those edits use.
 */
module Editing {
  import opened Wrappers
  import opened Text
  import opened Types
  import opened Evaluator

  // ----- Seeding and single-rule replacement ----------------------------------

  /**
   * `{ ...auto, ...prev }`: every earlier entry survives, and the auto-mapped
   * rules fill only the targets that had none.
   */
  function Merge(auto: Mapping, prev: Mapping): (m: Mapping)
    ensures m.Keys == auto.Keys + prev.Keys
    ensures forall k :: k in prev ==> m[k] == prev[k]
    ensures forall k :: k in auto && k !in prev ==> m[k] == auto[k]
  {
    auto + prev
  }

  /** Seeding again with the same auto-mapping changes nothing. */
  lemma MergeIdempotent(auto: Mapping, prev: Mapping)
    ensures Merge(auto, Merge(auto, prev)) == Merge(auto, prev)
  {
  }

  /** A rule the user set survives every later seeding. */
  lemma MergeKeepsEdit(auto: Mapping, prev: Mapping, target: string, rule: Rule)
    ensures Merge(auto, WithRule(prev, target, rule))[target] == rule
  {
  }

  /** `{ ...m, [target]: rule }`: exactly the target's rule is replaced. */
  function WithRule(m: Mapping, target: string, rule: Rule): (m': Mapping)
    ensures m'.Keys == m.Keys + {target}
    ensures m'[target] == rule
    ensures forall k :: k in m && k != target ==> m'[k] == m[k]
  {
    m[target := rule]
  }

  // ----- Concat edits ---------------------------------------------------------

  /**
   * The concat handlers read `r.sources` of the target's rule, which exists
   * only on a concat rule or on the stand-in for a missing one.
   */
  predicate ConcatOrAbsent(m: Mapping, target: string) {
    target !in m || m[target].kind.Concat?
  }

  /** `m[target] || { kind: 'concat', sources: [] }`. */
  function ConcatBase(m: Mapping, target: string): (r: Rule)
    requires ConcatOrAbsent(m, target)
    ensures r.kind.Concat?
  {
    if target in m then m[target] else Plain(Concat([], None))
  }

  /** `xs.filter((x) => x !== s)`. */
  function RemoveAll(xs: seq<string>, s: string): (ys: seq<string>)
    ensures forall x :: x in ys <==> x in xs && x != s
    ensures |ys| <= |xs|
    decreases |xs|
  {
    if xs == [] then []
    else
      var rest := RemoveAll(xs[..|xs| - 1], s);
      assert xs == xs[..|xs| - 1] + [xs[|xs| - 1]];
      if xs[|xs| - 1] == s then rest else rest + [xs[|xs| - 1]]
  }

  /**
   * Filtering works piece by piece, so the kept sources stay in their order:
   * the removed source contributes nothing and any other source itself.
   */
  lemma {:induction false} RemoveAllAppend(xs: seq<string>, ys: seq<string>, s: string)
    ensures RemoveAll(xs + ys, s) == RemoveAll(xs, s) + RemoveAll(ys, s)
    ensures forall x :: RemoveAll([x], s) == if x == s then [] else [x]
    decreases |ys|
  {
    forall x ensures RemoveAll([x], s) == if x == s then [] else [x] {
      assert [x][..0] == [];
    }
    if ys == [] {
      assert xs + ys == xs;
    } else {
      var init := ys[..|ys| - 1];
      RemoveAllAppend(xs, init, s);
      assert (xs + ys)[..|xs + ys| - 1] == xs + init;
      assert (xs + ys)[|xs + ys| - 1] == ys[|ys| - 1];
    }
  }

  /** Removing a source that is not there leaves the list as it is. */
  lemma {:induction false} RemoveAllAbsent(xs: seq<string>, s: string)
    requires s !in xs
    ensures RemoveAll(xs, s) == xs
    decreases |xs|
  {
    if xs != [] {
      var init := xs[..|xs| - 1];
      assert xs == init + [xs[|xs| - 1]];
      RemoveAllAbsent(init, s);
    }
  }

  /** Removing a source keeps the others in order, so it never introduces a repeat. */
  lemma {:induction false} RemoveAllNoDuplicates(xs: seq<string>, s: string)
    requires NoDuplicates(xs)
    ensures NoDuplicates(RemoveAll(xs, s))
    decreases |xs|
  {
    if xs != [] {
      var init := xs[..|xs| - 1];
      assert NoDuplicates(init) by {
        forall i, j | 0 <= i < j < |init| ensures init[i] != init[j] {
          assert init[i] == xs[i] && init[j] == xs[j];
        }
      }
      RemoveAllNoDuplicates(init, s);
      assert xs[|xs| - 1] !in init by {
        forall i | 0 <= i < |init| ensures init[i] != xs[|xs| - 1] {
          assert init[i] == xs[i];
        }
      }
    }
  }

  /**
   * The chip's delete handler: every occurrence of `s` leaves the target's
   * sources, the separator and provenance stay, and nothing else changes.
   */
  function WithoutSource(m: Mapping, target: string, s: string): (m': Mapping)
    requires ConcatOrAbsent(m, target)
    ensures var r := ConcatBase(m, target);
      m'.Keys == m.Keys + {target}
      && m'[target].kind.Concat?
      && (forall x :: x in m'[target].kind.sources <==> x in r.kind.sources && x != s)
      && m'[target].kind.separator == r.kind.separator
      && m'[target].origin == r.origin
    ensures forall k :: k in m && k != target ==> m'[k] == m[k]
  {
    var r := ConcatBase(m, target);
    m[target := Rule(Concat(RemoveAll(r.kind.sources, s), r.kind.separator), r.origin)]
  }

  /**
   * The add-source handler: the empty choice changes nothing; otherwise the
   * target becomes a concat rule whose sources are the old ones, followed by
   * `val` unless it was already there, with separator and provenance kept.
   */
  function WithSource(m: Mapping, target: string, val: string): (m': Mapping)
    requires ConcatOrAbsent(m, target)
    ensures val == "" ==> m' == m
    ensures val != "" ==>
      var r := ConcatBase(m, target);
      m'.Keys == m.Keys + {target}
      && m'[target].kind.Concat?
      && val in m'[target].kind.sources
      && (val in r.kind.sources ==> m'[target].kind.sources == r.kind.sources)
      && (val !in r.kind.sources ==> m'[target].kind.sources == r.kind.sources + [val])
      && m'[target].kind.separator == r.kind.separator
      && m'[target].origin == r.origin
      && (forall k :: k in m && k != target ==> m'[k] == m[k])
  {
    if val == "" then m
    else
      var r := ConcatBase(m, target);
      var srcs := r.kind.sources;
      m[target := Rule(Concat(if val in srcs then srcs else srcs + [val], r.kind.separator), r.origin)]
  }

  /** Adding a source never creates a repeated source. */
  lemma WithSourceNoDuplicates(m: Mapping, target: string, val: string)
    requires ConcatOrAbsent(m, target) && NoDuplicates(ConcatBase(m, target).kind.sources)
    ensures target in WithSource(m, target, val) ==> NoDuplicates(RuleFor(WithSource(m, target, val), target).sources)
  {
    var srcs := ConcatBase(m, target).kind.sources;
    if val != "" && val !in srcs {
      var ys := srcs + [val];
      forall i, j | 0 <= i < j < |ys| ensures ys[i] != ys[j] {
        if j == |srcs| { assert ys[i] == srcs[i]; }
        else { assert ys[i] == srcs[i] && ys[j] == srcs[j]; }
      }
    }
  }

  /** Adding a source and removing it again is the same as removing it. */
  lemma WithSourceThenWithout(m: Mapping, target: string, val: string)
    requires ConcatOrAbsent(m, target)
    ensures ConcatOrAbsent(WithSource(m, target, val), target)
    ensures WithoutSource(WithSource(m, target, val), target, val) == WithoutSource(m, target, val)
  {
    var srcs := ConcatBase(m, target).kind.sources;
    if val != "" {
      if val !in srcs {
        assert (srcs + [val])[..|srcs|] == srcs;
      }
    }
  }

  /** The separator field: only the target's separator changes, and the rule becomes concat. */
  function WithSeparator(m: Mapping, target: string, sep: string): (m': Mapping)
    requires ConcatOrAbsent(m, target)
    ensures m'.Keys == m.Keys + {target}
    ensures forall k :: k in m && k != target ==> m'[k] == m[k]
    ensures m'[target].kind.Concat? && m'[target].kind.separator == Some(sep)
    ensures m'[target].kind.sources == ConcatBase(m, target).kind.sources
    ensures m'[target].origin == ConcatBase(m, target).origin
  {
    var r := ConcatBase(m, target);
    m[target := Rule(Concat(r.kind.sources, Some(sep)), r.origin)]
  }

  /** A separator that is set, even to the empty string, is the one the evaluator joins with. */
  lemma SeparatorUsed(m: Mapping, target: string, sep: string, row: Row)
    requires ConcatOrAbsent(m, target)
    ensures var r := WithSeparator(m, target, sep)[target].kind;
      EvalCell(r, row) == Join(ConcatValues(row, r.sources), sep)
  {
  }

  // ----- Helpers --------------------------------------------------------------

  /** guessPart: "first" if the target mentions it, else "last" if it mentions that, else "first". */
  function GuessPart(target: string): (p: Part)
    ensures p == Last <==> !Contains(ToLower(target), "first") && Contains(ToLower(target), "last")
  {
    var t := ToLower(target);
    if Contains(t, "first") then First
    else if Contains(t, "last") then Last
    else First
  }

  /** Whether a header qualifies as the default name column. */
  predicate MentionsName(h: string) {
    ToLower(h) == "name" || Contains(ToLower(h), "name")
  }

  /** The index of the first header from `i` on that mentions "name". */
  function FirstNameColumnFrom(headers: seq<string>, i: nat): (r: Option<nat>)
    ensures r.Some? ==> (i <= r.value < |headers| && MentionsName(headers[r.value])
      && forall j :: i <= j < r.value ==> !MentionsName(headers[j]))
    ensures r.None? ==> forall j :: i <= j < |headers| ==> !MentionsName(headers[j])
    decreases |headers| - i
  {
    if i >= |headers| then None
    else if MentionsName(headers[i]) then Some(i)
    else FirstNameColumnFrom(headers, i + 1)
  }

  /**
   * findDefaultNameColumn: the first header whose lower-case form contains
   * "name"; the result is one of the headers, and there is none exactly when
   * no header mentions "name".
   */
  function FindDefaultNameColumn(headers: seq<string>): (r: Option<string>)
    ensures r.Some? ==> r.value in headers && Contains(ToLower(r.value), "name")
    ensures r.None? <==> forall h :: h in headers ==> !Contains(ToLower(h), "name")
    ensures r.Some? ==> exists k :: (0 <= k < |headers| && r.value == headers[k]
      && forall j :: 0 <= j < k ==> !Contains(ToLower(headers[j]), "name"))
  {
    match FirstNameColumnFrom(headers, 0)
    case None => None
    case Some(k) => Some(headers[k])
  }

  /** isRuleMatched: a rule counts as matched when it names a non-empty source, or any source for concat. */
  function IsRuleMatched(rule: RuleKind): (matched: bool)
    ensures rule.NoSource? ==> !matched
    ensures rule.Direct? || rule.SplitName? ==> (matched <==> rule.source != "")
    ensures rule.Concat? ==> (matched <==> rule.sources != [])
  {
    match rule
    case NoSource => false
    case Direct(source) => source != ""
    case SplitName(source, _) => source != ""
    case Concat(sources, _) => |sources| > 0
  }

  /** An unmatched rule can only produce empty cells, for rows without an empty-named column. */
  lemma UnmatchedIsBlank(rule: RuleKind, row: Row)
    requires !IsRuleMatched(rule) && "" !in row
    ensures EvalCell(rule, row) == ""
  {
    if rule.SplitName? {
      assert AllWhitespace(CellOf(row, rule.source));
      SplitBlankName(CellOf(row, rule.source), rule.part);
    }
  }

  // ----- Choosing a rule kind and its sources ---------------------------------

  /** The four entries of the rule-kind selector. */
  datatype KindTag = NoneTag | DirectTag | SplitNameTag | ConcatTag

  function TagOf(rule: RuleKind): KindTag {
    match rule
    case NoSource => NoneTag
    case Direct(_) => DirectTag
    case SplitName(_, _) => SplitNameTag
    case Concat(_, _) => ConcatTag
  }

  /**
   * The rule a kind switch installs: direct takes the first source header,
   * split_name the default name column (or else the first header) with the
   * guessed part, and concat starts empty with a single-space separator.
   */
  function DefaultRule(tag: KindTag, target: string, sourceHeaders: seq<string>): (r: RuleKind)
    ensures TagOf(r) == tag
    ensures (r.Direct? || r.SplitName?) ==> (if sourceHeaders == [] then r.source == "" else r.source in sourceHeaders)
    ensures r.Direct? && sourceHeaders != [] ==> r.source == sourceHeaders[0]
    ensures r.SplitName? ==> r.part == GuessPart(target)
    ensures r.SplitName? && FindDefaultNameColumn(sourceHeaders).Some? ==> r.source == FindDefaultNameColumn(sourceHeaders).value
    ensures r.SplitName? && FindDefaultNameColumn(sourceHeaders).None? && sourceHeaders != [] ==> r.source == sourceHeaders[0]
    ensures r.Concat? ==> r.sources == [] && r.separator == Some(" ")
  {
    var first := if sourceHeaders == [] then "" else sourceHeaders[0];
    match tag
    case NoneTag => NoSource
    case DirectTag => Direct(first)
    case SplitNameTag =>
      SplitName(FindDefaultNameColumn(sourceHeaders).GetOr(first), GuessPart(target))
    case ConcatTag => Concat([], Some(" "))
  }

  /** A freshly chosen concat rule is unmatched and a freshly chosen direct rule is matched when there is a non-empty first source header. */
  lemma DefaultRuleMatched(target: string, sourceHeaders: seq<string>)
    ensures !IsRuleMatched(DefaultRule(ConcatTag, target, sourceHeaders))
    ensures !IsRuleMatched(DefaultRule(NoneTag, target, sourceHeaders))
    ensures IsRuleMatched(DefaultRule(DirectTag, target, sourceHeaders)) <==> sourceHeaders != [] && sourceHeaders[0] != ""
  {
  }

  /** The direct source selector: the empty choice means none. */
  function DirectChoice(val: string): (r: RuleKind)
    ensures IsRuleMatched(r) <==> val != ""
    ensures r.Direct? ==> r.source == val
  {
    if val == "" then NoSource else Direct(val)
  }

  /** The split-name source selector keeps the rule's part, guessing it from the target when the rule has none. */
  function SplitSourceChoice(m: Mapping, target: string, val: string): (r: RuleKind)
    ensures r.SplitName? && r.source == val
    ensures RuleFor(m, target).SplitName? ==> r.part == RuleFor(m, target).part
    ensures !RuleFor(m, target).SplitName? ==> r.part == GuessPart(target)
  {
    var existing := RuleFor(m, target);
    SplitName(val, if existing.SplitName? then existing.part else GuessPart(target))
  }

  /** The split-name part selector keeps the rule's source. */
  function SplitPartChoice(m: Mapping, target: string, part: Part): (r: RuleKind)
    requires RuleFor(m, target).SplitName?
    ensures r.SplitName? && r.part == part && r.source == RuleFor(m, target).source
  {
    SplitName(RuleFor(m, target).source, part)
  }
}
