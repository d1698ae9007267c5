/**
  The library's session: the stored scan result, the run keyword that
  replaces it and returns the category counts, and the issues-log keyword
  that renders one category and then gates on violations.
 */
module AxeLibrary {

  import opened Wrappers
  import opened PyStrings
  import opened ScanResults
  import opened Report

  /** The library instance's state: no result until the first run. */
  datatype Session = Session(results: Option<ScanResult>)

  /** Why the issues-log keyword stops before anything is logged. */
  datatype AbortReason =
    | NoResult                         // the stored result is still None
    | UnknownCategory(key: string)     // the result has no such key
    | MissingLocator                   // the row loop met a node with no selector

  /** The gate run after the table is logged. */
  datatype Verdict = Passed | ViolationsFound

  /** What one issues-log call does: stop at the lookup or the row loop with
      nothing logged, or log the table and then apply the gate. */
  datatype LogOutcome =
    | Aborted(error: AbortReason)
    | Logged(table: seq<Row>, verdict: Verdict)

  /** What a run did up to storing the result: the driver lookup, `inject()`
      or `run()` raised, or the scan finished with a result. */
  datatype EngineOutcome = EngineRaised | Scanned(scan: ScanResult)

  /** What one run does: it returns the statistics dictionary, or it raises.
      Either way `session` is the library state the run leaves behind. */
  datatype RunOutcome =
    | Completed(session: Session, summary: Summary)
    | Raised(session: Session)

  /** A freshly constructed library holds no result, so an issues log
      issued before any run stops at the lookup, whatever the key. */
  function NewSession(): (s: Session)
    ensures s.results.None?
    ensures forall key :: AccessibilityIssuesLog(s, key).Aborted?
  {
    Session(None)
  }

  /** The run keyword. `engine` is what the driver lookup, injecting and
      running axe-core did, and `written` says whether writing the result
      file returned normally. The engine's result is stored before the file
      is written, so a failed write still replaces the stored result; a
      failure before that point leaves it as it was. The summary is computed from the new result and is
      returned only when nothing raised. */
  function RunAccessibilityTests(session: Session, engine: EngineOutcome, written: bool): (out: RunOutcome)
    ensures engine.EngineRaised? ==> out == Raised(session)
    ensures engine.Scanned? ==> out.session.results == Some(engine.scan)
    ensures out.Completed? <==> engine.Scanned? && written
    ensures out.Completed? ==> forall c: Category :: out.summary.Count(c) == |engine.scan.Get(c)|
  {
    match engine
    case EngineRaised => Raised(session)
    case Scanned(scan) =>
      if written then Completed(Session(Some(scan)), Summarize(scan))
      else Raised(Session(Some(scan)))
  }

  /** The issues-log keyword for the result key `key`. */
  function AccessibilityIssuesLog(session: Session, key: string): (out: LogOutcome)
    ensures session.results.None? ==> out == Aborted(NoResult)
    ensures session.results.Some? && ParseCategory(key).None? ==> out == Aborted(UnknownCategory(key))
    ensures
      (session.results.Some? && ParseCategory(key).Some?
       && !Locatable(session.results.value.Get(ParseCategory(key).value)))
      ==> out == Aborted(MissingLocator)
    ensures out.Logged? <==>
      session.results.Some? && ParseCategory(key).Some?
      && Locatable(session.results.value.Get(ParseCategory(key).value))
    ensures out.Logged? ==>
      var rules := session.results.value.Get(ParseCategory(key).value);
      && |out.table| == NodeCount(rules)
      && (forall k :: 0 <= k < |out.table| ==> out.table[k].id == k + 1)
      && (out.verdict == ViolationsFound <==> |session.results.value.violations| > 0)
  {
    match session.results
    case None => Aborted(NoResult)
    case Some(scan) =>
      match ParseCategory(key)
      case None => Aborted(UnknownCategory(key))
      case Some(c) =>
        var rules := scan.Get(c);
        if !Locatable(rules) then Aborted(MissingLocator)
        else
          SitesCount(rules);
          Logged(Render(rules, 1), if |scan.violations| > 0 then ViolationsFound else Passed)
  }

  /** Before any run there is nothing to look up, whatever the key. */
  lemma IssuesLogBeforeRun(key: string)
    ensures AccessibilityIssuesLog(NewSession(), key) == Aborted(NoResult)
  {
  }

  /** Row order and contents: node `j` of rule `i` of the chosen category is
      reported at position "nodes of the earlier rules plus `j`", numbered one
      more than its position, with its first selector, its markup and its
      rule's help text, each stripped. Nothing is re-sorted or dropped. */
  lemma IssuesLogRow(session: Session, key: string, i: nat, j: nat)
    requires AccessibilityIssuesLog(session, key).Logged?
    requires var rules := session.results.value.Get(ParseCategory(key).value);
      i < |rules| && j < |rules[i].nodes|
    ensures var rules := session.results.value.Get(ParseCategory(key).value);
      var table := AccessibilityIssuesLog(session, key).table;
      var k := NodeCount(rules[..i]) + j;
      && |rules[i].nodes[j].target| > 0
      && k < |table|
      && table[k] == Row(k + 1, Strip(rules[i].nodes[j].target[0]),
                         Strip(rules[i].nodes[j].html), Strip(rules[i].help))
  {
    var rules := session.results.value.Get(ParseCategory(key).value);
    SitesOrder(rules, i, j);
    SitesCount(rules);
  }

  /** No cell of a logged table has whitespace at either edge, so stripping
      any cell again leaves it unchanged. */
  lemma IssuesLogCellsStripped(session: Session, key: string)
    requires AccessibilityIssuesLog(session, key).Logged?
    ensures var table := AccessibilityIssuesLog(session, key).table;
      forall k :: 0 <= k < |table| ==>
        && NoEdgeSpace(table[k].locator) && Strip(table[k].locator) == table[k].locator
        && NoEdgeSpace(table[k].html) && Strip(table[k].html) == table[k].html
        && NoEdgeSpace(table[k].issue) && Strip(table[k].issue) == table[k].issue
  {
    var table := AccessibilityIssuesLog(session, key).table;
    forall k | 0 <= k < |table|
      ensures Strip(table[k].locator) == table[k].locator
      ensures Strip(table[k].html) == table[k].html
      ensures Strip(table[k].issue) == table[k].issue
    {
      StripFixpoint(table[k].locator);
      StripFixpoint(table[k].html);
      StripFixpoint(table[k].issue);
    }
  }

  /** The gate looks only at the violations list: whichever category is
      rendered from a stored result, the table is logged when every node
      has a selector, and the verdict is the same. */
  lemma GateIgnoresCategory(scan: ScanResult, c1: Category, c2: Category)
    requires Locatable(scan.Get(c1)) && Locatable(scan.Get(c2))
    ensures var out1 := AccessibilityIssuesLog(Session(Some(scan)), c1.Name());
      var out2 := AccessibilityIssuesLog(Session(Some(scan)), c2.Name());
      out1.Logged? && out2.Logged? && out1.verdict == out2.verdict
  {
  }

  /** Rendering reads only the chosen category and the violations count:
      two stored results that agree on those give the same outcome. */
  lemma IssuesLogReadsOnlyCategory(s1: Session, s2: Session, c: Category)
    requires s1.results.Some? && s2.results.Some?
    requires s1.results.value.Get(c) == s2.results.value.Get(c)
    requires |s1.results.value.violations| == |s2.results.value.violations|
    ensures AccessibilityIssuesLog(s1, c.Name()) == AccessibilityIssuesLog(s2, c.Name())
  {
  }

  /** A run whose engine step finished, followed by an issues log for any
      category: the lookup succeeds, the table has one row per node of that
      category in the new result, and the gate reads the new result's
      violations. This holds even when writing the result file raised. */
  lemma RunThenIssuesLog(session: Session, scan: ScanResult, written: bool, c: Category)
    ensures var out := AccessibilityIssuesLog(RunAccessibilityTests(session, Scanned(scan), written).session, c.Name());
      && (out.Aborted? ==> out.error == MissingLocator && !Locatable(scan.Get(c)))
      && (out.Logged? ==> |out.table| == NodeCount(scan.Get(c))
                          && (out.verdict == ViolationsFound <==> |scan.violations| > 0))
  {
  }

  /** A run whose engine step finished forgets the previous result: what it
      leaves behind and returns depends only on the engine's new value and
      on whether the file write succeeded. */
  lemma RunReplacesResult(s1: Session, s2: Session, scan: ScanResult, written: bool)
    ensures RunAccessibilityTests(s1, Scanned(scan), written) == RunAccessibilityTests(s2, Scanned(scan), written)
  {
  }

  /** A run that raised before storing a result (driver lookup, `inject()`
      or `run()`) leaves the stored result in place: every later issues log
      behaves as it would have before the run. */
  lemma EngineFailureKeepsResult(session: Session, written: bool, key: string)
    ensures var out := RunAccessibilityTests(session, EngineRaised, written);
      && out.Raised?
      && AccessibilityIssuesLog(out.session, key) == AccessibilityIssuesLog(session, key)
  {
  }

  /** A run whose file write raised returns no summary, yet the issues log
      afterwards reads the new result exactly as after a successful run. */
  lemma WriteFailureKeepsNewResult(session: Session, scan: ScanResult, key: string)
    ensures var failed := RunAccessibilityTests(session, Scanned(scan), false);
      var completed := RunAccessibilityTests(session, Scanned(scan), true);
      && failed.Raised? && completed.Completed?
      && AccessibilityIssuesLog(failed.session, key) == AccessibilityIssuesLog(completed.session, key)
  {
  }

  /** A single violation rule with a single node: the summary counts one
      violation, the table has exactly the one row that node yields, and the
      gate fails. */
  lemma SingleViolationScenario(rule: Rule, locator: string, html: string)
    requires rule.nodes == [Node([locator], html)]
    requires NoEdgeSpace(rule.help) && NoEdgeSpace(locator) && NoEdgeSpace(html)
    ensures var run := RunAccessibilityTests(NewSession(), Scanned(ScanResult([], [], [], [rule])), true);
      && run.Completed? && run.summary == Summary(0, 0, 0, 1)
      && AccessibilityIssuesLog(run.session, "violations")
         == Logged([Row(1, locator, html, rule.help)], ViolationsFound)
  {
    var scan := ScanResult([], [], [], [rule]);
    SingleNodeTable(rule, locator, html);
    ViolationsLog(scan);
  }

  /** The issues log for the key "violations" on a stored result. */
  lemma ViolationsLog(scan: ScanResult)
    ensures AccessibilityIssuesLog(Session(Some(scan)), "violations")
      == if !Locatable(scan.violations) then Aborted(MissingLocator)
         else Logged(Render(scan.violations, 1), if |scan.violations| > 0 then ViolationsFound else Passed)
  {
    assert ParseCategory("violations") == Some(Violations) by {
      assert Violations.Name() == "violations";
    }
  }

  /** The table for one rule with one node is that node's single row. */
  lemma SingleNodeTable(rule: Rule, locator: string, html: string)
    requires rule.nodes == [Node([locator], html)]
    requires NoEdgeSpace(rule.help) && NoEdgeSpace(locator) && NoEdgeSpace(html)
    ensures Locatable([rule])
    ensures Render([rule], 1) == [Row(1, locator, html, rule.help)]
  {
    var node := Node([locator], html);
    assert Sites([rule]) == [Site(rule, node)] by {
      assert [rule][1..] == [];
    }
    StripFixpoint(rule.help);
    StripFixpoint(locator);
    StripFixpoint(html);
    assert RowFor(1, Site(rule, node)) == Row(1, locator, html, rule.help);
  }

  /** An empty result: all counts are zero, every category renders an empty
      table, and the gate passes. */
  lemma EmptyScenario(c: Category)
    ensures var run := RunAccessibilityTests(NewSession(), Scanned(ScanResult([], [], [], [])), true);
      && run.Completed? && run.summary == Summary(0, 0, 0, 0)
      && AccessibilityIssuesLog(run.session, c.Name()) == Logged([], Passed)
  {
  }
}
