/**
  The issue report: one row per (rule, node) pair of a category, numbered
  from the counter value given at entry, each text cell stripped.
 */
module Report {

  import opened PyStrings
  import opened ScanResults

  /** One report row: the ID#, LOCATOR, HTML and ISSUE columns. */
  datatype Row = Row(id: nat, locator: string, html: string, issue: string)

  /** A node together with the rule that reported it. */
  datatype Site = Site(rule: Rule, node: Node)

  /** Sum over the rules of each rule's node count. */
  function NodeCount(rules: seq<Rule>): nat {
    if rules == [] then 0 else |rules[0].nodes| + NodeCount(rules[1..])
  }

  /** The (rule, node) pairs of one rule, in node order. */
  function RuleSites(rule: Rule): seq<Site> {
    seq(|rule.nodes|, j requires 0 <= j < |rule.nodes| => Site(rule, rule.nodes[j]))
  }

  /** The (rule, node) pairs in rule order, then node order within a rule. */
  function Sites(rules: seq<Rule>): seq<Site> {
    if rules == [] then [] else RuleSites(rules[0]) + Sites(rules[1..])
  }

  /** Every node of every rule has at least one selector, so its locator
      `target[0]` exists. */
  predicate Locatable(rules: seq<Rule>) {
    forall i, j :: 0 <= i < |rules| && 0 <= j < |rules[i].nodes| ==> |rules[i].nodes[j].target| > 0
  }

  /** The row reporting `site` under number `id`: the node's first selector,
      its markup and its rule's help text, each stripped. Every cell is a
      whitespace trim of its source with no edge whitespace left, which by
      `StripCharacterisation` makes it exactly the strip of that source; a
      cell with no edge whitespace is kept as it is. The length bounds
      follow from the trims and are kept for callers' convenience. */
  function RowFor(id: nat, site: Site): (r: Row)
    requires |site.node.target| > 0
    ensures r.id == id
    ensures NoEdgeSpace(r.locator) && |r.locator| <= |site.node.target[0]|
    ensures NoEdgeSpace(r.html) && |r.html| <= |site.node.html|
    ensures NoEdgeSpace(r.issue) && |r.issue| <= |site.rule.help|
    ensures NoEdgeSpace(site.node.target[0]) ==> r.locator == site.node.target[0]
    ensures NoEdgeSpace(site.node.html) ==> r.html == site.node.html
    ensures NoEdgeSpace(site.rule.help) ==> r.issue == site.rule.help
    ensures exists i :: TrimAt(site.node.target[0], r.locator, i)
    ensures exists i :: TrimAt(site.node.html, r.html, i)
    ensures exists i :: TrimAt(site.rule.help, r.issue, i)
  {
    StripIsTrim(site.node.target[0]);
    StripIsTrim(site.node.html);
    StripIsTrim(site.rule.help);
    StripFixpoint(site.node.target[0]);
    StripFixpoint(site.node.html);
    StripFixpoint(site.rule.help);
    Row(id, Strip(site.node.target[0]), Strip(site.node.html), Strip(site.rule.help))
  }

  /** The inner loop: the rows for `nodes`, all reported by `rule`, numbered
      from `id`. */
  function NodeRows(rule: Rule, nodes: seq<Node>, id: nat): (rows: seq<Row>)
    requires forall j :: 0 <= j < |nodes| ==> |nodes[j].target| > 0
    ensures |rows| == |nodes|
    ensures forall j :: 0 <= j < |nodes| ==> rows[j] == RowFor(id + j, Site(rule, nodes[j]))
  {
    if nodes == [] then []
    else
      var tail := NodeRows(rule, nodes[1..], id + 1);
      NodeRowsStep(rule, nodes, id, tail);
      [RowFor(id, Site(rule, nodes[0]))] + tail
  }

  /** The step of `NodeRows`: the first node's row followed by the rest's rows. */
  lemma {:induction false} NodeRowsStep(rule: Rule, nodes: seq<Node>, id: nat, tail: seq<Row>)
    requires |nodes| > 0 && forall j :: 0 <= j < |nodes| ==> |nodes[j].target| > 0
    requires |tail| == |nodes| - 1
    requires forall j :: 0 <= j < |tail| ==> tail[j] == RowFor(id + 1 + j, Site(rule, nodes[1..][j]))
    ensures var rows := [RowFor(id, Site(rule, nodes[0]))] + tail;
      forall j :: 0 <= j < |nodes| ==> rows[j] == RowFor(id + j, Site(rule, nodes[j]))
  {
    var rows := [RowFor(id, Site(rule, nodes[0]))] + tail;
    forall j | 0 <= j < |nodes| ensures rows[j] == RowFor(id + j, Site(rule, nodes[j])) {
      if j > 0 {
        assert rows[j] == tail[j - 1];
        assert nodes[1..][j - 1] == nodes[j];
      }
    }
  }

  /** The outer loop: the rows for `rules`, numbered from `id`. Row `k` reports
      the `k`-th (rule, node) pair under number `id + k`, so the counter after
      the last row is `id` plus the total node count. */
  function Render(rules: seq<Rule>, id: nat): (rows: seq<Row>)
    requires Locatable(rules)
    ensures |rows| == |Sites(rules)|
    ensures forall k :: 0 <= k < |rows| ==>
      |Sites(rules)[k].node.target| > 0 && rows[k] == RowFor(id + k, Sites(rules)[k])
  {
    if rules == [] then []
    else
      assert Locatable(rules[1..]) by {
        forall i, j | 0 <= i < |rules[1..]| && 0 <= j < |rules[1..][i].nodes|
          ensures |rules[1..][i].nodes[j].target| > 0
        {
          assert rules[1..][i] == rules[i + 1];
        }
      }
      var head := NodeRows(rules[0], rules[0].nodes, id);
      var tail := Render(rules[1..], id + |rules[0].nodes|);
      RenderConcat(rules, id, head, tail);
      head + tail
  }

  /** The step of `Render`: the head rule's rows followed by the rest's rows
      number and report every pair of `rules`. */
  lemma {:induction false} RenderConcat(rules: seq<Rule>, id: nat, head: seq<Row>, tail: seq<Row>)
    requires |rules| > 0
    requires |head| == |rules[0].nodes|
    requires forall j :: 0 <= j < |head| ==> |rules[0].nodes[j].target| > 0
    requires forall j :: 0 <= j < |head| ==> head[j] == RowFor(id + j, Site(rules[0], rules[0].nodes[j]))
    requires |tail| == |Sites(rules[1..])|
    requires forall k :: 0 <= k < |tail| ==>
      |Sites(rules[1..])[k].node.target| > 0 && tail[k] == RowFor(id + |head| + k, Sites(rules[1..])[k])
    ensures |head + tail| == |Sites(rules)|
    ensures forall k :: 0 <= k < |head + tail| ==>
      |Sites(rules)[k].node.target| > 0 && (head + tail)[k] == RowFor(id + k, Sites(rules)[k])
  {
    var s := Sites(rules);
    assert s == RuleSites(rules[0]) + Sites(rules[1..]);
    forall k | 0 <= k < |head + tail|
      ensures |s[k].node.target| > 0 && (head + tail)[k] == RowFor(id + k, s[k])
    {
      if k < |head| {
        assert s[k] == Site(rules[0], rules[0].nodes[k]);
      } else {
        assert s[k] == Sites(rules[1..])[k - |head|];
        assert (head + tail)[k] == tail[k - |head|];
      }
    }
  }

  /** One pair per node: there are exactly as many pairs as nodes. */
  lemma {:induction false} SitesCount(rules: seq<Rule>)
    ensures |Sites(rules)| == NodeCount(rules)
  {
    if rules != [] {
      SitesCount(rules[1..]);
    }
  }

  /** Node `j` of rule `i` is the pair at position "nodes of the earlier rules
      plus `j`": rules keep their order and nodes keep theirs within a rule. */
  lemma {:induction false} SitesOrder(rules: seq<Rule>, i: nat, j: nat)
    requires i < |rules| && j < |rules[i].nodes|
    ensures NodeCount(rules[..i]) + j < |Sites(rules)|
    ensures Sites(rules)[NodeCount(rules[..i]) + j] == Site(rules[i], rules[i].nodes[j])
  {
    SitesCount(rules);
    if i == 0 {
      assert rules[..0] == [];
    } else {
      var tail := rules[1..];
      SitesOrder(tail, i - 1, j);
      assert rules[..i][1..] == tail[..i - 1];
      var n0 := |rules[0].nodes|;
      assert NodeCount(rules[..i]) == n0 + NodeCount(tail[..i - 1]);
      SitesCount(tail);
    }
  }
}
