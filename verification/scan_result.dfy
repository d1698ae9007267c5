/**
  The structured result an accessibility scan returns, and the summary the
  library builds from it: four rule lists, one per result category.
 */
module ScanResults {

  import opened Wrappers

  /** One DOM element a rule reports on: its selector path (the first
      selector is the locator shown in the report) and its outer markup. */
  datatype Node = Node(target: seq<string>, html: string)

  /** One evaluated accessibility rule and the nodes it reports. */
  datatype Rule = Rule(id: string, help: string, nodes: seq<Node>)

  /** The four result categories. */
  datatype Category = Inapplicable | Incomplete | Passes | Violations {

    /** The key naming this category in the engine's result object. */
    function Name(): string {
      match this
      case Inapplicable => "inapplicable"
      case Incomplete => "incomplete"
      case Passes => "passes"
      case Violations => "violations"
    }
  }

  datatype ScanResult = ScanResult(
    inapplicable: seq<Rule>,
    incomplete: seq<Rule>,
    passes: seq<Rule>,
    violations: seq<Rule>)
  {
    /** The rule list stored under category `c`. */
    function Get(c: Category): seq<Rule> {
      match c
      case Inapplicable => inapplicable
      case Incomplete => incomplete
      case Passes => passes
      case Violations => violations
    }
  }

  /** Key lookup on the result object: a key names a category exactly when
      it is that category's name, and any other key is absent. */
  function ParseCategory(key: string): (r: Option<Category>)
    ensures forall c: Category :: r == Some(c) <==> key == c.Name()
  {
    if key == "inapplicable" then Some(Inapplicable)
    else if key == "incomplete" then Some(Incomplete)
    else if key == "passes" then Some(Passes)
    else if key == "violations" then Some(Violations)
    else None
  }

  /** The statistics dictionary returned by a run: one rule count per
      category, in the key order the library writes them. */
  datatype Summary = Summary(inapplicable: nat, incomplete: nat, passes: nat, violations: nat)
  {
    function Count(c: Category): nat {
      match c
      case Inapplicable => inapplicable
      case Incomplete => incomplete
      case Passes => passes
      case Violations => violations
    }
  }

  /** Each category's count is the length of that category's own rule list. */
  function Summarize(r: ScanResult): (s: Summary)
    ensures forall c: Category :: s.Count(c) == |r.Get(c)|
  {
    Summary(|r.inapplicable|, |r.incomplete|, |r.passes|, |r.violations|)
  }
}
