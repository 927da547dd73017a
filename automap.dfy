/**
 * The auto-mapper (`autoMap`): for every template header, a rule chosen by
 * four tiers tried in order — a case-insensitive exact match, an exact match
 * of normalised forms, a first/last split of a "name" column, and a fuzzy
 * match on token similarity accepted at a score of at least 0.6.
 */
module AutoMapper {
  import opened Wrappers
  import opened Text
  import opened Types
  import opened Normalize
  import opened Similarity

  /** The three tiers that take the first qualifying source header. */
  datatype Tier = ExactTier | NormalizedTier | NameColumnTier

  /** Whether `source` qualifies for `target` in the given tier. */
  predicate Qualifies(tier: Tier, target: string, source: string) {
    match tier
    case ExactTier => ToLower(source) == ToLower(target)
    case NormalizedTier => NormalizeHeader(source) == NormalizeHeader(target)
    case NameColumnTier => NormalizeHeader(source) == "name" || ToLower(source) == "name"
  }

  /** `Array.prototype.find` over `sources[i..]`, as an index: the first source that qualifies. */
  function FirstQualifying(tier: Tier, target: string, sources: seq<string>, i: nat): (r: Option<nat>)
    ensures r.Some? ==> (i <= r.value < |sources| && Qualifies(tier, target, sources[r.value])
      && forall j :: i <= j < r.value ==> !Qualifies(tier, target, sources[j]))
    ensures r.None? ==> forall j :: i <= j < |sources| ==> !Qualifies(tier, target, sources[j])
    decreases |sources| - i
  {
    if i >= |sources| then None
    else if Qualifies(tier, target, sources[i]) then Some(i)
    else FirstQualifying(tier, target, sources, i + 1)
  }

  /** The token-set similarity of a target header and a source header. */
  function FuzzyScore(target: string, source: string): real {
    Jaccard(Tokens(target), Tokens(source))
  }

  /** The fuzzy scores of all sources against `target`, in source order. */
  function Scores(target: string, sources: seq<string>): (r: seq<real>)
    ensures |r| == |sources|
  {
    seq(|sources|, i requires 0 <= i < |sources| => FuzzyScore(target, sources[i]))
  }

  /** Score `k` is the greatest, and every score before it is strictly less. */
  predicate IsFirstBest(scores: seq<real>, k: nat) {
    k < |scores|
    && (forall j :: 0 <= j < |scores| ==> scores[j] <= scores[k])
    && (forall j :: 0 <= j < k ==> scores[j] < scores[k])
  }

  /**
   * The index the fuzzy loop keeps after its first `n` scores: a later
   * score replaces the best so far only when it is strictly higher.
   */
  function BestAmong(scores: seq<real>, n: nat): (r: Option<nat>)
    requires n <= |scores|
    ensures n == 0 <==> r.None?
    ensures r.Some? ==> IsFirstBest(scores[..n], r.value)
  {
    if n == 0 then None
    else
      var b := BestAmong(scores, n - 1);
      assert forall j :: 0 <= j < n - 1 ==> scores[..n - 1][j] == scores[..n][j];
      if b.None? || scores[n - 1] > scores[b.value] then Some(n - 1)
      else b
  }

  /** At most one index is the first best. */
  lemma FirstBestUnique(scores: seq<real>, k: nat, k': nat)
    requires IsFirstBest(scores, k) && IsFirstBest(scores, k')
    ensures k == k'
  {
    assert scores[k] <= scores[k'] && scores[k'] <= scores[k];
  }

  /** The best fuzzy candidate over all sources. */
  function BestFuzzy(target: string, sources: seq<string>): Option<nat> {
    BestAmong(Scores(target, sources), |sources|)
  }

  /** The fuzzy tier: the best candidate when it scores at least 0.6, otherwise none. */
  function FuzzyKind(target: string, sources: seq<string>): (r: RuleKind)
    ensures r == NoSource || (r.Direct? && r.source in sources)
    ensures sources == [] ==> r == NoSource
  {
    match BestFuzzy(target, sources)
    case Some(k) => if Scores(target, sources)[k] >= 0.6 then Direct(sources[k]) else NoSource
    case None => NoSource
  }

  /** The rule shape `autoMap` gives one target header. */
  function AutoKind(target: string, sources: seq<string>): (r: RuleKind)
    ensures !r.Concat?
    ensures (r.Direct? || r.SplitName?) ==> r.source in sources
    ensures r.SplitName? ==> NormalizeHeader(target) == "firstname" || NormalizeHeader(target) == "lastname"
    ensures r.SplitName? ==> (r.part == First <==> NormalizeHeader(target) == "firstname")
  {
    var tNorm := NormalizeHeader(target);
    match FirstQualifying(ExactTier, target, sources, 0)
    case Some(k) => Direct(sources[k])
    case None =>
      match FirstQualifying(NormalizedTier, target, sources, 0)
      case Some(k) => Direct(sources[k])
      case None =>
        var nameCol := FirstQualifying(NameColumnTier, target, sources, 0);
        if (tNorm == "firstname" || tNorm == "lastname") && nameCol.Some? then
          SplitName(sources[nameCol.value], if tNorm == "firstname" then First else Last)
        else FuzzyKind(target, sources)
  }

  /** The whole mapping `autoMap` returns: one rule, without provenance, per template header. */
  function AutoMapping(templateHeaders: seq<string>, sources: seq<string>): (m: Mapping)
    ensures m.Keys == set t | t in templateHeaders
    ensures forall t :: t in m ==> m[t].origin == None && !m[t].kind.Concat?
    ensures forall t :: t in m && (m[t].kind.Direct? || m[t].kind.SplitName?) ==> m[t].kind.source in sources
  {
    map t | t in templateHeaders :: Plain(AutoKind(t, sources))
  }

  /**
   * autoMap, as the source computes it: one pass over the template headers,
   * each taking the first tier that applies, with the fuzzy tier tracking
   * the best candidate seen so far.
   */
  method AutoMap(templateHeaders: seq<string>, sourceHeaders: seq<string>) returns (mapping: Mapping)
    ensures mapping == AutoMapping(templateHeaders, sourceHeaders)
    ensures mapping.Keys == set t | t in templateHeaders
  {
    mapping := map[];
    for n := 0 to |templateHeaders|
      invariant mapping == AutoMapping(templateHeaders[..n], sourceHeaders)
    {
      var target := templateHeaders[n];
      AutoMappingExtend(templateHeaders, sourceHeaders, n);
      var tNorm := NormalizeHeader(target);
      var tToks := Tokens(target);

      var exact := FirstQualifying(ExactTier, target, sourceHeaders, 0);
      if exact.Some? {
        mapping := mapping[target := Plain(Direct(sourceHeaders[exact.value]))];
        continue;
      }

      var exactNorm := FirstQualifying(NormalizedTier, target, sourceHeaders, 0);
      if exactNorm.Some? {
        mapping := mapping[target := Plain(Direct(sourceHeaders[exactNorm.value]))];
        continue;
      }

      if tNorm == "firstname" || tNorm == "lastname" {
        var nameCol := FirstQualifying(NameColumnTier, target, sourceHeaders, 0);
        if nameCol.Some? {
          var part := if tNorm == "firstname" then First else Last;
          mapping := mapping[target := Plain(SplitName(sourceHeaders[nameCol.value], part))];
          continue;
        }
      }

      var best := FuzzyBest(target, tToks, sourceHeaders);
      if best.Some? && best.value.1 >= 0.6 {
        mapping := mapping[target := Plain(Direct(best.value.0))];
      } else {
        mapping := mapping[target := Plain(NoSource)];
      }
    }
    assert templateHeaders[..|templateHeaders|] == templateHeaders;
  }

  /** One more template header adds (or overwrites) its own entry. */
  lemma AutoMappingExtend(templateHeaders: seq<string>, sources: seq<string>, n: nat)
    requires n < |templateHeaders|
    ensures AutoMapping(templateHeaders[..n + 1], sources)
      == AutoMapping(templateHeaders[..n], sources)[templateHeaders[n] := Plain(AutoKind(templateHeaders[n], sources))]
  {
    assert templateHeaders[..n + 1] == templateHeaders[..n] + [templateHeaders[n]];
  }

  /**
   * The fuzzy loop: every source is scored against the target's tokens, and
   * the best so far is replaced only by a strictly higher score, so the
   * first source with the greatest score is kept.
   */
  method FuzzyBest(target: string, tToks: set<string>, sourceHeaders: seq<string>) returns (best: Option<(string, real)>)
    requires tToks == Tokens(target)
    ensures best == match BestFuzzy(target, sourceHeaders)
      case None => None
      case Some(k) => Some((sourceHeaders[k], Scores(target, sourceHeaders)[k]))
  {
    ghost var scores := Scores(target, sourceHeaders);
    best := None;
    for i := 0 to |sourceHeaders|
      invariant best == match BestAmong(scores, i)
        case None => None
        case Some(k) => Some((sourceHeaders[k], scores[k]))
    {
      var score := Jaccard(tToks, Tokens(sourceHeaders[i]));
      assert score == scores[i];
      if best.None? || score > best.value.1 {
        best := Some((sourceHeaders[i], score));
      }
    }
  }

  /** With no source headers at all, every target is left unmapped. */
  lemma NoSourcesNoRule(target: string)
    ensures AutoKind(target, []) == NoSource
  {
  }

  /** Tier 1: the earliest case-insensitive raw match is taken, whatever the later tiers would say. */
  lemma ExactMatchWins(target: string, sources: seq<string>, k: nat)
    requires k < |sources| && Qualifies(ExactTier, target, sources[k])
    requires forall j :: 0 <= j < k ==> !Qualifies(ExactTier, target, sources[j])
    ensures AutoKind(target, sources) == Direct(sources[k])
  {
  }

  /** Tier 2: without a raw match, the earliest normalised match is taken. */
  lemma NormalizedMatchWins(target: string, sources: seq<string>, k: nat)
    requires forall j :: 0 <= j < |sources| ==> !Qualifies(ExactTier, target, sources[j])
    requires k < |sources| && Qualifies(NormalizedTier, target, sources[k])
    requires forall j :: 0 <= j < k ==> !Qualifies(NormalizedTier, target, sources[j])
    ensures AutoKind(target, sources) == Direct(sources[k])
  {
  }

  /**
   * Tier 3: without a raw or normalised match, a first- or last-name target
   * splits the earliest "name" column.
   */
  lemma NameSplitWins(target: string, sources: seq<string>, k: nat)
    requires forall j :: 0 <= j < |sources| ==> !Qualifies(ExactTier, target, sources[j])
    requires forall j :: 0 <= j < |sources| ==> !Qualifies(NormalizedTier, target, sources[j])
    requires NormalizeHeader(target) == "firstname" || NormalizeHeader(target) == "lastname"
    requires k < |sources| && Qualifies(NameColumnTier, target, sources[k])
    requires forall j :: 0 <= j < k ==> !Qualifies(NameColumnTier, target, sources[j])
    ensures AutoKind(target, sources)
      == SplitName(sources[k], if NormalizeHeader(target) == "firstname" then First else Last)
  {
    var exact := FirstQualifying(ExactTier, target, sources, 0);
    var exactNorm := FirstQualifying(NormalizedTier, target, sources, 0);
    var nameCol := FirstQualifying(NameColumnTier, target, sources, 0);
    assert exact.None? && exactNorm.None?;
    assert nameCol == Some(k);
  }

  /** Tier 4: when no earlier tier applies, the fuzzy tier decides. */
  lemma FuzzyTierDecides(target: string, sources: seq<string>)
    requires forall j :: 0 <= j < |sources| ==> !Qualifies(ExactTier, target, sources[j])
    requires forall j :: 0 <= j < |sources| ==> !Qualifies(NormalizedTier, target, sources[j])
    requires (NormalizeHeader(target) != "firstname" && NormalizeHeader(target) != "lastname")
      || forall j :: 0 <= j < |sources| ==> !Qualifies(NameColumnTier, target, sources[j])
    ensures AutoKind(target, sources) == FuzzyKind(target, sources)
  {
  }

  /**
   * The fuzzy tier takes the first source with the greatest score, and maps
   * to it exactly when that score is at least 0.6.
   */
  lemma FuzzyKindSpec(target: string, sources: seq<string>)
    ensures sources != [] ==> exists k :: IsFirstBest(Scores(target, sources), k)
    ensures forall k: nat :: IsFirstBest(Scores(target, sources), k) ==>
      FuzzyKind(target, sources) == if Scores(target, sources)[k] >= 0.6 then Direct(sources[k]) else NoSource
  {
    var scores := Scores(target, sources);
    assert scores[..|sources|] == scores;
    var b := BestFuzzy(target, sources);
    forall k: nat | IsFirstBest(scores, k)
      ensures FuzzyKind(target, sources) == if scores[k] >= 0.6 then Direct(sources[k]) else NoSource
    {
      FirstBestUnique(scores, b.value, k);
    }
  }

  /** The 0.6 acceptance test is the exact rational comparison 5 * |A ∩ B| >= 3 * |A ∪ B|. */
  lemma FuzzyAcceptance(target: string, source: string)
    ensures FuzzyScore(target, source) >= 0.6 <==>
      var a, b := Tokens(target), Tokens(source);
      |a + b| > 0 && 5 * |a * b| >= 3 * |a + b|
  {
    JaccardThreshold(Tokens(target), Tokens(source));
  }

  /** A "FirstName" target takes the first part of a "Name" column. */
  lemma FirstNameFromNameColumn()
    ensures AutoKind("FirstName", ["Name"]) == SplitName("Name", First)
  {
    assert ToLower("Name") == "name" && ToLower("FirstName") == "firstname";
    NormalizeName();
    NormalizeFirstName();
    assert FirstQualifying(ExactTier, "FirstName", ["Name"], 0) == None;
    assert FirstQualifying(NormalizedTier, "FirstName", ["Name"], 0) == None;
    assert FirstQualifying(NameColumnTier, "FirstName", ["Name"], 0) == Some(0);
  }

  /** A "LastName" target takes the last part of a "Name" column. */
  lemma LastNameFromNameColumn()
    ensures AutoKind("LastName", ["Name"]) == SplitName("Name", Last)
  {
    assert ToLower("Name") == "name" && ToLower("LastName") == "lastname";
    NormalizeName();
    NormalizeLastName();
    assert FirstQualifying(ExactTier, "LastName", ["Name"], 0) == None;
    assert FirstQualifying(NormalizedTier, "LastName", ["Name"], 0) == None;
    assert FirstQualifying(NameColumnTier, "LastName", ["Name"], 0) == Some(0);
  }

  /** "Email" against "email_address" scores 1/2, below the threshold, so it stays unmapped. */
  lemma EmailNotMatchedToEmailAddress()
    ensures AutoKind("Email", ["email_address"]) == NoSource
  {
    assert ToLower("Email") == "email" && ToLower("email_address") == "email_address";
    NormalizeEmail();
    NormalizeEmailAddress();
    EmailAgainstEmailAddress();
    assert FirstQualifying(ExactTier, "Email", ["email_address"], 0) == None;
    assert FirstQualifying(NormalizedTier, "Email", ["email_address"], 0) == None;
    assert Scores("Email", ["email_address"])[0] == 0.5;
    assert BestFuzzy("Email", ["email_address"]) == Some(0);
  }
}
