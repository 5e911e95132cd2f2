/**
 * The ordered chain of substring tests that decides what one log line records.
 * The first test that succeeds decides; later tests are not consulted.
 */
module LineRules {
  import opened Results
  import opened Strings

  const ClickMarker := "Clicking on "
  const LinkFailMarker := "Failed to visit link"
  const SkinTimeoutMarker := "Timed out loading skin/"
  const ExtPageTimeoutMarker := "Timed out loading extension page"
  const TimeoutMarker := "Timed out loading "
  const RestartMarker := "Restarting browser"
  const StartMarker := "Starting new crawl"
  const FinishMarker := "Finished scan"

  /** What a log line records, by the first rule it satisfies. */
  datatype LineKind =
    | LinkClick
    | LinkFailure
    | ExtensionTimeout
    | SiteTimeout
    | Restart
    | CrawlStart
    | ScanFinish
    | Unmatched

  /** Both extension-page markers begin with the generic timeout marker, so they contain it. */
  lemma TimeoutMarkersNest(line: string)
    ensures Contains(line, SkinTimeoutMarker) || Contains(line, ExtPageTimeoutMarker) ==>
      Contains(line, TimeoutMarker)
  {
    assert SkinTimeoutMarker[..|TimeoutMarker|] == TimeoutMarker;
    assert ExtPageTimeoutMarker[..|TimeoutMarker|] == TimeoutMarker;
    ContainsPrefix(SkinTimeoutMarker, |TimeoutMarker|);
    ContainsPrefix(ExtPageTimeoutMarker, |TimeoutMarker|);
    if Contains(line, SkinTimeoutMarker) {
      ContainsTransitive(line, SkinTimeoutMarker, TimeoutMarker);
    }
    if Contains(line, ExtPageTimeoutMarker) {
      ContainsTransitive(line, ExtPageTimeoutMarker, TimeoutMarker);
    }
  }

  /**
   * The `if`/`elif` chain of the log parser, one branch per rule. A line is a timeout of
   * one kind or the other exactly when it holds the generic timeout marker and neither
   * marker checked before it.
   */
  function Classify(line: string): (k: LineKind)
    ensures k == ExtensionTimeout || k == SiteTimeout <==>
      Contains(line, TimeoutMarker) && !Contains(line, ClickMarker) && !Contains(line, LinkFailMarker)
  {
    TimeoutMarkersNest(line);
    if Contains(line, ClickMarker) then LinkClick
    else if Contains(line, LinkFailMarker) then LinkFailure
    else if Contains(line, SkinTimeoutMarker) || Contains(line, ExtPageTimeoutMarker) then ExtensionTimeout
    else if Contains(line, TimeoutMarker) then SiteTimeout
    else if Contains(line, RestartMarker) then Restart
    else if Contains(line, StartMarker) then CrawlStart
    else if Contains(line, FinishMarker) then ScanFinish
    else Unmatched
  }

  /** A rule: the line kind it assigns when the line contains any of its markers. */
  datatype Rule = Rule(markers: seq<string>, kind: LineKind)

  predicate Fires(rule: Rule, line: string) {
    exists m | m in rule.markers :: Contains(line, m)
  }

  /** The rules of the chain as a table, in the order they are tried. */
  const Rules: seq<Rule> := [
    Rule([ClickMarker], LinkClick),
    Rule([LinkFailMarker], LinkFailure),
    Rule([SkinTimeoutMarker, ExtPageTimeoutMarker], ExtensionTimeout),
    Rule([TimeoutMarker], SiteTimeout),
    Rule([RestartMarker], Restart),
    Rule([StartMarker], CrawlStart),
    Rule([FinishMarker], ScanFinish)
  ]

  /** Index of the first rule in `rules` that fires on `line`, if any. */
  function FirstFiring(rules: seq<Rule>, line: string): (r: Option<nat>)
    ensures r.None? <==> forall j | 0 <= j < |rules| :: !Fires(rules[j], line)
    ensures r.Some? ==>
      && r.value < |rules| && Fires(rules[r.value], line)
      && forall j | 0 <= j < r.value :: !Fires(rules[j], line)
    decreases |rules|
  {
    if rules == [] then None
    else if Fires(rules[0], line) then Some(0)
    else
      match FirstFiring(rules[1..], line)
      case None => None
      case Some(i) => Some(i + 1)
  }

  /** The kind the rule table assigns: that of the first rule that fires. */
  function TableKind(line: string): LineKind {
    match FirstFiring(Rules, line)
    case None => Unmatched
    case Some(i) => Rules[i].kind
  }

  /** What each rule of the table tests, spelled out. */
  lemma RulesFire(line: string)
    ensures Fires(Rules[0], line) <==> Contains(line, ClickMarker)
    ensures Fires(Rules[1], line) <==> Contains(line, LinkFailMarker)
    ensures Fires(Rules[2], line) <==> Contains(line, SkinTimeoutMarker) || Contains(line, ExtPageTimeoutMarker)
    ensures Fires(Rules[3], line) <==> Contains(line, TimeoutMarker)
    ensures Fires(Rules[4], line) <==> Contains(line, RestartMarker)
    ensures Fires(Rules[5], line) <==> Contains(line, StartMarker)
    ensures Fires(Rules[6], line) <==> Contains(line, FinishMarker)
  {
    assert Rules[2].markers[0] == SkinTimeoutMarker && Rules[2].markers[1] == ExtPageTimeoutMarker;
  }

  /** The first firing rule is the one before which none fires. */
  lemma FirstFiringAt(rules: seq<Rule>, line: string, i: nat)
    requires i < |rules| && Fires(rules[i], line)
    requires forall j | 0 <= j < i :: !Fires(rules[j], line)
    ensures FirstFiring(rules, line) == Some(i)
  {
  }

  /** The `if`/`elif` chain and the rule table agree on every line. */
  lemma ClassifyIsTable(line: string)
    ensures Classify(line) == TableKind(line)
  {
    RulesFire(line);
    if Contains(line, ClickMarker) {
      FirstFiringAt(Rules, line, 0);
    } else if Contains(line, LinkFailMarker) {
      FirstFiringAt(Rules, line, 1);
    } else if Contains(line, SkinTimeoutMarker) || Contains(line, ExtPageTimeoutMarker) {
      FirstFiringAt(Rules, line, 2);
    } else if Contains(line, TimeoutMarker) {
      FirstFiringAt(Rules, line, 3);
    } else if Contains(line, RestartMarker) {
      FirstFiringAt(Rules, line, 4);
    } else if Contains(line, StartMarker) {
      FirstFiringAt(Rules, line, 5);
    } else if Contains(line, FinishMarker) {
      FirstFiringAt(Rules, line, 6);
    } else {
      forall j | 0 <= j < |Rules|
        ensures !Fires(Rules[j], line)
      {
        assert j in {0, 1, 2, 3, 4, 5, 6};
      }
    }
  }

  /**
   * First match wins: a line gets the kind of rule `i` exactly when rule `i` fires on it
   * and no earlier rule does; it is unmatched exactly when no rule fires.
   */
  lemma ClassifyFirstRule(line: string, i: nat)
    requires i < |Rules|
    ensures Classify(line) == Rules[i].kind <==>
      Fires(Rules[i], line) && forall j | 0 <= j < i :: !Fires(Rules[j], line)
    ensures Classify(line) == Unmatched <==> forall j | 0 <= j < |Rules| :: !Fires(Rules[j], line)
  {
    ClassifyIsTable(line);
    TableKindFirstRule(line, i);
  }

  lemma TableKindFirstRule(line: string, i: nat)
    requires i < |Rules|
    ensures TableKind(line) == Rules[i].kind <==>
      Fires(Rules[i], line) && forall j | 0 <= j < i :: !Fires(Rules[j], line)
    ensures TableKind(line) == Unmatched <==> forall j | 0 <= j < |Rules| :: !Fires(Rules[j], line)
  {
    RuleKindsDistinct();
    var r := FirstFiring(Rules, line);
    if r.Some? {
      assert TableKind(line) == Rules[r.value].kind;
    }
  }

  /** Each rule assigns its own kind, and none assigns `Unmatched`. */
  lemma RuleKindsDistinct()
    ensures forall a, b | 0 <= a < b < |Rules| :: Rules[a].kind != Rules[b].kind
    ensures forall a | 0 <= a < |Rules| :: Rules[a].kind != Unmatched
  {
  }

  /**
   * The two extension-page markers both extend the generic timeout marker, so every
   * extension timeout would also satisfy the site-timeout rule; the earlier rule shadows it.
   * Site timeouts are exactly the generic timeouts that no earlier rule claims.
   */
  lemma ExtensionTimeoutShadowsSiteTimeout(line: string)
    ensures Classify(line) == ExtensionTimeout ==> Contains(line, TimeoutMarker)
    ensures Contains(line, SkinTimeoutMarker) || Contains(line, ExtPageTimeoutMarker) ==>
      Classify(line) != SiteTimeout
    ensures Classify(line) == SiteTimeout <==>
      && Contains(line, TimeoutMarker)
      && !Contains(line, ClickMarker) && !Contains(line, LinkFailMarker)
      && !Contains(line, SkinTimeoutMarker) && !Contains(line, ExtPageTimeoutMarker)
  {
    TimeoutMarkersNest(line);
  }
}
