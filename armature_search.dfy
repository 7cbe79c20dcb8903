/** The search of `build_scene` for an armature already in the scene that can
    take the animation, and the warnings about animation nodes that armature
    lacks. */
module ArmatureSearch {
  import opened Base
  import opened Assets
  import ReferenceCheck

  /** A scene object as the search sees it: whether it is an armature, whether
      the external `set_ignore` excludes it, and its bone names in order. */
  datatype SceneObject = SceneObject(isArmature: bool, ignored: bool, boneNames: seq<string>)

  /** The objects the search examines at all. */
  predicate Eligible(o: SceneObject)
  {
    o.isArmature && !o.ignored
  }

  /** `name` once per node of `nodeNames` that carries exactly that name. */
  function Occurrences(name: string, nodeNames: seq<string>): (r: seq<string>)
    ensures forall x :: x in r ==> x == name
  {
    if |nodeNames| == 0 then []
    else Occurrences(name, nodeNames[..|nodeNames| - 1]) + (if nodeNames[|nodeNames| - 1] == name then [name] else [])
  }

  /** The names the nested bone/node loop appends to `scene_nodes`: for every
      bone in order, its name once per node of the same name. */
  function Paired(boneNames: seq<string>, nodeNames: seq<string>): (r: seq<string>)
    ensures forall x :: x in r ==> x in boneNames && x in nodeNames
  {
    if |boneNames| == 0 then []
    else
      var last := boneNames[|boneNames| - 1];
      var pre := Paired(boneNames[..|boneNames| - 1], nodeNames);
      OccurrencesIn(last, nodeNames);
      assert forall x :: x in pre ==> x in boneNames;
      pre + Occurrences(last, nodeNames)
  }

  /** An occurrence of a name is a node name. */
  lemma {:induction false} OccurrencesIn(name: string, nodeNames: seq<string>)
    ensures forall x :: x in Occurrences(name, nodeNames) ==> x in nodeNames
  {
    if |nodeNames| > 0 {
      OccurrencesIn(name, nodeNames[..|nodeNames| - 1]);
      assert forall x :: x in nodeNames[..|nodeNames| - 1] ==> x in nodeNames;
    }
  }

  /** Whether an eligible armature can take the animation: for version 16390
      its bone count equals the node count, otherwise the number of (bone, node)
      pairs with equal names equals the node count. */
  predicate Good(o: SceneObject, version: int, nodeNames: seq<string>)
  {
    if version == 16390 then |o.boneNames| == |nodeNames|
    else |Paired(o.boneNames, nodeNames)| == |nodeNames|
  }

  /** The search state: the armature picked so far and `scene_nodes`. */
  datatype SearchState = SearchState(armature: Option<nat>, sceneNodes: seq<string>)

  /** The search over the first `k` scene objects. Once an armature is picked,
      later objects are skipped; every eligible object examined before (and
      including) it contributes its pairs to `scene_nodes` unless the version
      is 16390. */
  function Search(objects: seq<SceneObject>, version: int, nodeNames: seq<string>, k: nat): (r: SearchState)
    requires k <= |objects|
    ensures r.armature.Some? ==> r.armature.value < k
  {
    if k == 0 then SearchState(None, [])
    else
      var s := Search(objects, version, nodeNames, k - 1);
      var o := objects[k - 1];
      if s.armature.Some? || !Eligible(o) then s
      else
        var scene := if version == 16390 then s.sceneNodes else s.sceneNodes + Paired(o.boneNames, nodeNames);
        SearchState(if Good(o, version, nodeNames) then Some(k - 1) else None, scene)
  }

  /** Eligible and good: the objects the search would accept. */
  predicate Accepts(o: SceneObject, version: int, nodeNames: seq<string>)
  {
    Eligible(o) && Good(o, version, nodeNames)
  }

  /** The picked armature is the first object the search accepts. */
  lemma {:induction false} SearchPicksFirst(objects: seq<SceneObject>, version: int, nodeNames: seq<string>, k: nat)
    requires k <= |objects|
    ensures Search(objects, version, nodeNames, k).armature ==
      FirstIndex(objects[..k], o => Accepts(o, version, nodeNames))
  {
    if k > 0 {
      var accepts := o => Accepts(o, version, nodeNames);
      SearchPicksFirst(objects, version, nodeNames, k - 1);
      SearchExtend(objects[..k], accepts);
      assert objects[..k][..k - 1] == objects[..k - 1];
      assert objects[..k][k - 1] == objects[k - 1];
      var s := Search(objects, version, nodeNames, k - 1);
      if s.armature.None? {
        assert Search(objects, version, nodeNames, k).armature ==
          (if accepts(objects[k - 1]) then Some(k - 1) else None);
      }
    }
  }

  /** For version 16390 no names are collected, so no missing-node warning is
      ever given. */
  lemma {:induction false} LegacyCollectsNothing(objects: seq<SceneObject>, nodeNames: seq<string>, k: nat)
    requires k <= |objects|
    ensures Search(objects, 16390, nodeNames, k).sceneNodes == []
  {
    if k > 0 {
      LegacyCollectsNothing(objects, nodeNames, k - 1);
    }
  }

  /** Every collected name is both a bone name of an examined armature and a
      node name of the animation. */
  lemma {:induction false} CollectedAreNodeNames(objects: seq<SceneObject>, version: int, nodeNames: seq<string>, k: nat)
    requires k <= |objects|
    ensures forall x :: x in Search(objects, version, nodeNames, k).sceneNodes ==> x in nodeNames
  {
    if k > 0 {
      CollectedAreNodeNames(objects, version, nodeNames, k - 1);
    }
  }

  /** Bone names without repeats, as the host keeps them within one armature. */
  predicate UniqueBoneNames(boneNames: seq<string>)
  {
    forall i, j :: 0 <= i < j < |boneNames| ==> boneNames[i] != boneNames[j]
  }

  /** The pair count summed over the nodes instead of the bones: for each node,
      the number of bones carrying its name. */
  function Cover(boneNames: seq<string>, nodeNames: seq<string>): nat
  {
    if |nodeNames| == 0 then 0
    else Cover(boneNames, nodeNames[..|nodeNames| - 1]) + |Occurrences(nodeNames[|nodeNames| - 1], boneNames)|
  }

  lemma OccurrencesAppend(name: string, s: seq<string>, x: string)
    ensures |Occurrences(name, s + [x])| == |Occurrences(name, s)| + (if x == name then 1 else 0)
  {
    assert (s + [x])[..|s|] == s;
  }

  /** Adding a bone adds its occurrences among the nodes to the cover. */
  lemma {:induction false} CoverAppendBone(boneNames: seq<string>, b: string, nodeNames: seq<string>)
    ensures Cover(boneNames + [b], nodeNames) == Cover(boneNames, nodeNames) + |Occurrences(b, nodeNames)|
  {
    if |nodeNames| > 0 {
      var pre := nodeNames[..|nodeNames| - 1];
      var n := nodeNames[|nodeNames| - 1];
      CoverAppendBone(boneNames, b, pre);
      OccurrencesAppend(n, boneNames, b);
      OccurrencesAppend(b, pre, n);
      assert pre + [n] == nodeNames;
    }
  }

  /** Counting the pairs bone by bone or node by node gives the same number. */
  lemma {:induction false} PairedIsCover(boneNames: seq<string>, nodeNames: seq<string>)
    ensures |Paired(boneNames, nodeNames)| == Cover(boneNames, nodeNames)
  {
    if |boneNames| == 0 {
      CoverOfNoBones(nodeNames);
    } else {
      var pre := boneNames[..|boneNames| - 1];
      PairedIsCover(pre, nodeNames);
      CoverAppendBone(pre, boneNames[|boneNames| - 1], nodeNames);
      assert pre + [boneNames[|boneNames| - 1]] == boneNames;
    }
  }

  lemma {:induction false} CoverOfNoBones(nodeNames: seq<string>)
    ensures Cover([], nodeNames) == 0
  {
    if |nodeNames| > 0 {
      CoverOfNoBones(nodeNames[..|nodeNames| - 1]);
    }
  }

  /** With unique bone names a name occurs at most once, and once exactly when
      it is a bone name. */
  lemma {:induction false} UniqueOccurrence(name: string, boneNames: seq<string>)
    requires UniqueBoneNames(boneNames)
    ensures |Occurrences(name, boneNames)| == if name in boneNames then 1 else 0
  {
    if |boneNames| > 0 {
      var pre := boneNames[..|boneNames| - 1];
      assert UniqueBoneNames(pre);
      UniqueOccurrence(name, pre);
      assert boneNames == pre + [boneNames[|boneNames| - 1]];
      if boneNames[|boneNames| - 1] == name {
        assert name !in pre;
      }
    }
  }

  /** With unique bone names the cover counts the nodes whose name is a bone
      name, so it reaches the node count exactly when every node has a bone. */
  lemma {:induction false} CoverFull(boneNames: seq<string>, nodeNames: seq<string>)
    requires UniqueBoneNames(boneNames)
    ensures Cover(boneNames, nodeNames) <= |nodeNames|
    ensures Cover(boneNames, nodeNames) == |nodeNames| <==> forall k :: 0 <= k < |nodeNames| ==> nodeNames[k] in boneNames
  {
    if |nodeNames| > 0 {
      var pre := nodeNames[..|nodeNames| - 1];
      var n := nodeNames[|nodeNames| - 1];
      CoverFull(boneNames, pre);
      UniqueOccurrence(n, boneNames);
      if forall k :: 0 <= k < |nodeNames| ==> nodeNames[k] in boneNames {
        assert forall k :: 0 <= k < |pre| ==> pre[k] == nodeNames[k];
      }
    }
  }

  /** The pair count of `build_scene` as a coverage test: for an armature with
      unique bone names (as the host keeps them), it equals the node count
      exactly when every animation node name is one of its bone names. */
  lemma PairCountMeansCoverage(boneNames: seq<string>, nodeNames: seq<string>)
    requires UniqueBoneNames(boneNames)
    ensures |Paired(boneNames, nodeNames)| == |nodeNames| <==> forall k :: 0 <= k < |nodeNames| ==> nodeNames[k] in boneNames
  {
    PairedIsCover(boneNames, nodeNames);
    CoverFull(boneNames, nodeNames);
  }

  /** The nested loop of one armature: for every bone, for every node, append
      the bone name when the names are equal. */
  method PairNames(boneNames: seq<string>, nodeNames: seq<string>) returns (pairs: seq<string>, count: nat)
    ensures pairs == Paired(boneNames, nodeNames) && count == |pairs|
  {
    pairs := [];
    count := 0;
    var b := 0;
    while b < |boneNames|
      invariant 0 <= b <= |boneNames|
      invariant pairs == Paired(boneNames[..b], nodeNames) && count == |pairs|
    {
      assert boneNames[..b + 1][..b] == boneNames[..b];
      ghost var before := pairs;
      var n := 0;
      while n < |nodeNames|
        invariant 0 <= n <= |nodeNames|
        invariant pairs == before + Occurrences(boneNames[b], nodeNames[..n]) && count == |pairs|
      {
        assert nodeNames[..n + 1][..n] == nodeNames[..n];
        if boneNames[b] == nodeNames[n] {
          pairs := pairs + [boneNames[b]];
          count := count + 1;
        }
        n := n + 1;
      }
      assert nodeNames[..n] == nodeNames;
      b := b + 1;
    }
    assert boneNames[..b] == boneNames;
  }

  /** The loop over the scene objects. */
  method FindArmature(objects: seq<SceneObject>, version: int, nodeNames: seq<string>)
    returns (armature: Option<nat>, sceneNodes: seq<string>)
    ensures SearchState(armature, sceneNodes) == Search(objects, version, nodeNames, |objects|)
  {
    armature := None;
    sceneNodes := [];
    var i := 0;
    while i < |objects|
      invariant 0 <= i <= |objects|
      invariant SearchState(armature, sceneNodes) == Search(objects, version, nodeNames, i)
    {
      var o := objects[i];
      if armature.None? && o.isArmature && !o.ignored {
        var good := false;
        if version == 16390 {
          good := |o.boneNames| == |nodeNames|;
        } else {
          var pairs, count := PairNames(o.boneNames, nodeNames);
          sceneNodes := sceneNodes + pairs;
          good := count == |nodeNames|;
        }
        if good {
          armature := Some(i);
        }
      }
      i := i + 1;
    }
  }

  /** One warning per animation node name missing from `scene_nodes`, and none
      at all when `scene_nodes` is empty. */
  function ArmatureWarnings(sceneNodes: seq<string>, nodeNames: seq<string>): (r: seq<Report>)
    ensures |sceneNodes| == 0 ==> r == []
    ensures |sceneNodes| > 0 ==> |r| == |ReferenceCheck.MissingNames(nodeNames, sceneNodes)|
    ensures |sceneNodes| > 0 ==> forall i :: 0 <= i < |r| ==>
      r[i] == NodeNotInArmature(ReferenceCheck.MissingNames(nodeNames, sceneNodes)[i])
    ensures forall i :: 0 <= i < |r| ==>
      r[i].NodeNotInArmature? && r[i].name in nodeNames && r[i].name !in sceneNodes
  {
    if |sceneNodes| == 0 then []
    else
      var missing := ReferenceCheck.MissingNames(nodeNames, sceneNodes);
      assert forall i :: 0 <= i < |missing| ==> missing[i] in missing;
      seq(|missing|, i requires 0 <= i < |missing| => NodeNotInArmature(missing[i]))
  }

  /** The warning loop. */
  method WarnMissingNodes(sceneNodes: seq<string>, nodeNames: seq<string>) returns (reports: seq<Report>)
    ensures reports == ArmatureWarnings(sceneNodes, nodeNames)
  {
    reports := [];
    if |sceneNodes| > 0 {
      var i := 0;
      while i < |nodeNames|
        invariant 0 <= i <= |nodeNames|
        invariant reports == ArmatureWarnings(sceneNodes, nodeNames[..i])
      {
        assert nodeNames[..i + 1][..i] == nodeNames[..i];
        if nodeNames[i] !in sceneNodes {
          reports := reports + [NodeNotInArmature(nodeNames[i])];
        }
        i := i + 1;
      }
      assert nodeNames[..i] == nodeNames;
    }
  }
}
