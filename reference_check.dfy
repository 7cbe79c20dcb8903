/** `jms_file_check`: which reference skeletons are usable, judged by whether
    every reference node name occurs exactly in the animation's node names. */
module ReferenceCheck {
  import opened Base
  import opened Assets

  /** The names of `names` missing from `known`, one entry per occurrence, in order. */
  function MissingNames(names: seq<string>, known: seq<string>): (r: seq<string>)
    ensures |r| <= |names|
    ensures forall x :: x in r ==> x in names && x !in known
    ensures r == [] <==> forall i :: 0 <= i < |names| ==> names[i] in known
  {
    if |names| == 0 then []
    else
      var pre := MissingNames(names[..|names| - 1], known);
      assert forall x :: x in names[..|names| - 1] ==> x in names;
      if names[|names| - 1] in known then pre else pre + [names[|names| - 1]]
  }

  /** Every occurrence of an absent name is listed, and no present name is. */
  lemma {:induction false} MissingNamesComplete(names: seq<string>, known: seq<string>)
    ensures forall x :: multiset(MissingNames(names, known))[x] == if x in known then 0 else multiset(names)[x]
  {
    if |names| > 0 {
      var init := names[..|names| - 1];
      MissingNamesComplete(init, known);
      assert names == init + [names[|names| - 1]];
    }
  }

  function MissingReports(names: seq<string>, known: seq<string>): (r: seq<Report>)
    ensures |r| == |MissingNames(names, known)|
    ensures forall i :: 0 <= i < |r| ==> r[i] == NodeNotInJma(MissingNames(names, known)[i])
  {
    var missing := MissingNames(names, known);
    seq(|missing|, i requires 0 <= i < |missing| => NodeNotInJma(missing[i]))
  }

  /** Some name of `names` is not among `known`. */
  predicate AnyMissing(names: seq<string>, known: seq<string>)
  {
    exists i :: 0 <= i < |names| && names[i] !in known
  }

  /** Collect node names into a fresh list, as the first loops of the check do. */
  method CollectNames(nodes: seq<Node>) returns (names: seq<string>)
    ensures names == NodeNames(nodes)
  {
    names := [];
    var i := 0;
    while i < |nodes|
      invariant 0 <= i <= |nodes|
      invariant names == NodeNames(nodes[..i])
    {
      names := names + [nodes[i].name];
      i := i + 1;
    }
    assert nodes[..i] == nodes;
  }

  /** Check each name against the animation, flagging and reporting every miss. */
  method CheckNames(names: seq<string>, known: seq<string>) returns (invalid: bool, reports: seq<Report>)
    ensures invalid <==> AnyMissing(names, known)
    ensures reports == MissingReports(names, known)
  {
    invalid := false;
    reports := [];
    var i := 0;
    while i < |names|
      invariant 0 <= i <= |names|
      invariant invalid <==> AnyMissing(names[..i], known)
      invariant reports == MissingReports(names[..i], known)
    {
      assert names[..i + 1][..i] == names[..i];
      if names[i] !in known {
        invalid := true;
        reports := reports + [NodeNotInJma(names[i])];
      }
      assert invalid <==> AnyMissing(names[..i + 1], known) by {
        if AnyMissing(names[..i], known) {
          var w :| 0 <= w < i && names[..i][w] !in known;
          assert names[..i + 1][w] !in known;
        }
      }
      i := i + 1;
    }
    assert names[..i] == names;
  }

  /** What `jms_file_check` returns, and the reports it gives. */
  datatype CheckResult = CheckResult(
    aNames: seq<string>, bNames: seq<string>, aInvalid: bool, bInvalid: bool, reports: seq<Report>)

  function FileCheck(a: Option<Reference>, b: Option<Reference>, jmaNames: seq<string>): CheckResult
  {
    if a.Some? && b.None? then
      var aNames := NodeNames(a.value.nodes);
      CheckResult(aNames, [], AnyMissing(aNames, jmaNames), false, MissingReports(aNames, jmaNames) + [RestFromReference])
    else if a.Some? && b.Some? then
      var aNames := NodeNames(a.value.nodes);
      var bNames := NodeNames(b.value.nodes);
      CheckResult(aNames, bNames, false, AnyMissing(aNames + bNames, jmaNames),
        MissingReports(aNames + bNames, jmaNames) + [RestFromReferences])
    else CheckResult([], [], false, false, [])
  }

  /** `jms_file_check`. With A alone, only A can be invalid; with A and B the two
      name lists are checked together and only B can be invalid; with no A (B alone
      included) nothing is checked or reported. */
  method JmsFileCheck(a: Option<Reference>, b: Option<Reference>, jmaNames: seq<string>)
    returns (aNames: seq<string>, bNames: seq<string>, aInvalid: bool, bInvalid: bool, reports: seq<Report>)
    ensures a.None? ==> aNames == [] && bNames == [] && !aInvalid && !bInvalid && reports == []
    ensures a.Some? && b.None? ==>
      aNames == NodeNames(a.value.nodes) && bNames == [] && !bInvalid &&
      (aInvalid <==> AnyMissing(aNames, jmaNames)) &&
      reports == MissingReports(aNames, jmaNames) + [RestFromReference]
    ensures a.Some? && b.Some? ==>
      aNames == NodeNames(a.value.nodes) && bNames == NodeNames(b.value.nodes) && !aInvalid &&
      (bInvalid <==> AnyMissing(aNames + bNames, jmaNames)) &&
      reports == MissingReports(aNames + bNames, jmaNames) + [RestFromReferences]
    ensures CheckResult(aNames, bNames, aInvalid, bInvalid, reports) == FileCheck(a, b, jmaNames)
  {
    aNames, aInvalid, bNames, bInvalid := [], false, [], false;
    reports := [];
    if a.Some? && b.None? {
      aNames := CollectNames(a.value.nodes);
      aInvalid, reports := CheckNames(aNames, jmaNames);
      reports := reports + [RestFromReference];
    } else if a.Some? && b.Some? {
      aNames := CollectNames(a.value.nodes);
      bNames := CollectNames(b.value.nodes);
      bInvalid, reports := CheckNames(aNames + bNames, jmaNames);
      reports := reports + [RestFromReferences];
    }
  }

  /** The reference is invalid exactly when at least one miss is reported. */
  lemma InvalidIffReported(names: seq<string>, known: seq<string>)
    ensures AnyMissing(names, known) <==> |MissingReports(names, known)| > 0
  {
    if AnyMissing(names, known) {
      var i :| 0 <= i < |names| && names[i] !in known;
      assert MissingNames(names, known) != [];
    }
  }

  /** Each reported name really is a reference name missing from the animation. */
  lemma ReportsNameMissingNodes(names: seq<string>, known: seq<string>, i: nat)
    requires i < |MissingReports(names, known)|
    ensures MissingReports(names, known)[i].NodeNotInJma?
    ensures MissingReports(names, known)[i].name in names
    ensures MissingReports(names, known)[i].name !in known
  {
    assert MissingNames(names, known)[i] in MissingNames(names, known);
  }
}
