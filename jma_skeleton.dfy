/** `generate_jma_skeleton`: the graph-driven builder. Each animation node becomes
    a bone under the node the animation's own graph (after the landmark
    override) names as its parent. When a valid reference A is given and no
    reference is invalid, the rest transform, length and `file_version` come
    from the matching reference node instead of the animation's first frame;
    `file_version` and `jms_node` then carry over from one node to the next. */
module JmaSkeleton {
  import opened Base
  import opened Transforms
  import opened Assets
  import opened Landmarks
  import JmsSkeleton

  /** The builder's arguments. `jmsThreshold` and `jmaThreshold` are the external
      `get_version_matrix_check("JMS")` and `get_version_matrix_check("JMA")`. */
  datatype JmaInputs = JmaInputs(
    jma: Animation,
    a: Option<Reference>, aInvalid: bool,
    b: Option<Reference>, bInvalid: bool,
    aNames: seq<string>, bNames: seq<string>,
    slots: Slots, fixRotations: bool,
    jmsThreshold: int, jmaThreshold: int)

  /** The reference lists are those of the given references, and the landmark
      slots are node indices. */
  predicate ValidSetup(inp: JmaInputs)
  {
    WellFormedAnimation(inp.jma) &&
    (inp.a.Some? ==> WellFormedReference(inp.a.value)) &&
    (inp.b.Some? ==> WellFormedReference(inp.b.value)) &&
    inp.aNames == (if inp.a.Some? then NodeNames(inp.a.value.nodes) else []) &&
    inp.bNames == (if inp.a.Some? && inp.b.Some? then NodeNames(inp.b.value.nodes) else []) &&
    SlotsWithin(inp.slots, |inp.jma.nodes|)
  }

  /** A valid setup whose animation has the first frame the builder reads. */
  predicate ValidInputs(inp: JmaInputs)
  {
    ValidSetup(inp) && |inp.jma.transforms| >= 1
  }

  /** References are consulted only with a valid A and no invalid reference. */
  predicate UsesReferences(inp: JmaInputs)
  {
    inp.a.Some? && !inp.aInvalid && !inp.bInvalid
  }

  /** The file type passed to the threshold lookup: "JMS" when a valid A is given. */
  function Threshold(inp: JmaInputs): int
  {
    if inp.a.Some? && !inp.aInvalid then inp.jmsThreshold else inp.jmaThreshold
  }

  /** A node is a root when its lower-cased name is part of the first node name of
      a given, valid reference. */
  predicate IsValidReferenceRoot(inp: JmaInputs, key: string)
    requires ValidInputs(inp)
  {
    (inp.a.Some? && !inp.aInvalid && IsRootOf(inp.a.value, key)) ||
    (inp.b.Some? && !inp.bInvalid && IsRootOf(inp.b.value, key))
  }

  /** The state carried across nodes: the bones, `file_version` and the last
      `jms_node` assigned (Python keeps it bound from earlier nodes). */
  datatype JmaState = JmaState(bones: seq<EditBone>, fileVersion: int, jmsNode: Option<Transform>)

  function InitialState(inp: JmaInputs): JmaState
  {
    JmaState([], inp.jma.version, None)
  }

  predicate Shaped(s: JmaState, k: nat)
  {
    |s.bones| == k
  }

  /** The parent of node `idx` in the graph after the landmark override, as a
      node index. */
  function GraphParent(inp: JmaInputs, idx: nat): (r: Option<nat>)
    requires ValidInputs(inp) && idx < |inp.jma.nodes|
    ensures r.Some? ==> r.value < |inp.jma.nodes|
    ensures r.None? <==> inp.jma.nodes[idx].parent.None? || inp.jma.nodes[idx].parent == Some(-1)
  {
    var node := inp.jma.nodes[idx];
    match OverrideParent(node.name, node.parent, inp.slots)
    case None => None
    case Some(p) =>
      Some(p as nat)
  }

  /** The parent bone of node `idx`: the first bone created under the parent
      node's name (the current bone included); the lookup fails when no such
      bone exists yet, and the host ignores a bone made its own parent. */
  function ResolvedParent(inp: JmaInputs, created: seq<string>, idx: nat): (r: Outcome<Option<nat>>)
    requires ValidInputs(inp) && idx < |inp.jma.nodes| && |created| == idx + 1
    ensures r.Done? && r.value.Some? ==> r.value.value < idx
    ensures r.Raised? <==> GraphParent(inp, idx).Some? && inp.jma.nodes[GraphParent(inp, idx).value].name !in created
  {
    match GraphParent(inp, idx)
    case None => Done(None)
    case Some(p) =>
      match BoneNamed(created, inp.jma.nodes[p].name)
      case None => Raised(UnknownParentBone(idx))
      case Some(j) => Done(if j == idx then None else Some(j))
  }

  /** Rest data of one node: the animation's own first frame, or, when the
      references are consulted, the winning reference match; an unmatched node
      reuses the previous node's `jms_node` and `file_version`. */
  datatype Source = Source(version: int, jmsNode: Option<Transform>, rest: Option<Transform>, tail: Length)

  function NodeSource(inp: JmaInputs, s: JmaState, idx: nat): (r: Source)
    requires ValidInputs(inp) && idx < |inp.jma.nodes|
  {
    if !UsesReferences(inp) then
      Source(s.fileVersion, s.jmsNode, Some(inp.jma.transforms[0][idx]), BoneDistance(JmaFile, idx))
    else
      match Winner(inp.aNames, inp.bNames, Lower(inp.jma.nodes[idx].name))
      case Some(m) =>
        var r := if m.file == JmsA then inp.a.value else inp.b.value;
        var t := r.transforms[0][m.index];
        Source(r.version, Some(t), Some(t), BoneDistance(m.file, m.index))
      case None => Source(s.fileVersion, s.jmsNode, s.jmsNode, BoneDistance(JmaFile, idx))
  }

  /** One iteration of the node loop. */
  function JmaStep(inp: JmaInputs, s: JmaState, idx: nat): (r: Outcome<JmaState>)
    requires ValidInputs(inp) && idx < |inp.jma.nodes| && Shaped(s, idx)
    ensures r.Done? ==> Shaped(r.value, idx + 1)
  {
    var name := inp.jma.nodes[idx].name;
    match ResolvedParent(inp, BoneNames(s.bones) + [name], idx)
    case Raised(c) => Raised(c)
    case Done(parent) =>
      var src := NodeSource(inp, s, idx);
      if src.rest.None? then Raised(UnboundRestTransform(idx))
      else Done(AddBone(inp, s, idx, src, parent))
  }

  /** The bone appended for node `idx` once its parent and source are known. */
  function AddBone(inp: JmaInputs, s: JmaState, idx: nat, src: Source, parent: Option<nat>): (r: JmaState)
    requires ValidInputs(inp) && idx < |inp.jma.nodes| && Shaped(s, idx) && src.rest.Some?
    requires parent.Some? ==> parent.value < idx
    ensures Shaped(r, idx + 1)
  {
    var name := inp.jma.nodes[idx].name;
    var isRoot := IsValidReferenceRoot(inp, Lower(name));
    var parentMatrix := if parent.Some? then Some(s.bones[parent.value].matrix) else None;
    var matrix := Place(inp.fixRotations, RestVersionGate(src.version, Threshold(inp), isRoot), parentMatrix, RestLocal(src.rest.value));
    JmaState(s.bones + [EditBone(name, parent, src.tail, matrix)], src.version, src.jmsNode)
  }

  /** The builder's state after the first `k` nodes, or the exception that stopped it. */
  function JmaRun(inp: JmaInputs, k: nat): (r: Outcome<JmaState>)
    requires ValidInputs(inp) && k <= |inp.jma.nodes|
    ensures r.Done? ==> Shaped(r.value, k)
  {
    if k == 0 then Done(InitialState(inp))
    else match JmaRun(inp, k - 1)
      case Raised(c) => Raised(c)
      case Done(s) => JmaStep(inp, s, k - 1)
  }

  lemma RunStep(inp: JmaInputs, k: nat, s: JmaState)
    requires ValidInputs(inp) && k < |inp.jma.nodes| && JmaRun(inp, k) == Done(s)
    ensures JmaRun(inp, k + 1) == JmaStep(inp, s, k)
  {
  }

  lemma {:induction false} RaisedPersists(inp: JmaInputs, k: nat, n: nat)
    requires ValidInputs(inp) && k <= n <= |inp.jma.nodes| && JmaRun(inp, k).Raised?
    ensures JmaRun(inp, n) == JmaRun(inp, k)
    decreases n - k
  {
    if k < n {
      RaisedPersists(inp, k, n - 1);
    }
  }

  function BonesOf(r: Outcome<JmaState>): Outcome<seq<EditBone>>
  {
    match r
    case Done(s) => Done(s.bones)
    case Raised(c) => Raised(c)
  }

  /** The parent assignment of node `idx`: the landmark override, then the
      lookup of the parent node's name among the created bones. */
  method ParentOf(inp: JmaInputs, created: seq<string>, idx: nat) returns (out: Outcome<Option<nat>>)
    requires ValidInputs(inp) && idx < |inp.jma.nodes| && |created| == idx + 1
    ensures out == ResolvedParent(inp, created, idx)
  {
    var node := inp.jma.nodes[idx];
    var parentIdx := node.parent;
    if parentIdx.Some? && parentIdx.value != -1 {
      parentIdx := OverrideParent(node.name, parentIdx, inp.slots);
      assert GraphParent(inp, idx) == Some(parentIdx.value as nat);
      var parentName := inp.jma.nodes[parentIdx.value].name;
      var j := BoneNamed(created, parentName);
      if j.None? {
        return Raised(UnknownParentBone(idx));
      }
      out := Done(if j.value == idx then None else j);
    } else {
      out := Done(None);
    }
  }

  /** The two reference loops of one node, run only when the references are
      consulted; `fileVersion` and `jmsNode` come in from the previous node. */
  method MatchRest(inp: JmaInputs, s: JmaState, idx: nat) returns (src: Source)
    requires ValidInputs(inp) && idx < |inp.jma.nodes|
    ensures src == NodeSource(inp, s, idx)
  {
    var fileVersion := s.fileVersion;
    var jmsNode := s.jmsNode;
    var boneDistance := BoneDistance(JmaFile, idx);
    var rest := Some(inp.jma.transforms[0][idx]);
    if inp.a.Some? && !inp.aInvalid && !inp.bInvalid {
      var key := Lower(inp.jma.nodes[idx].name);
      var aMatch := FindLastMatch(inp.aNames, key);
      if aMatch.Some? {
        fileVersion := inp.a.value.version;
        jmsNode := Some(inp.a.value.transforms[0][aMatch.value]);
        boneDistance := BoneDistance(JmsA, aMatch.value);
      }
      var bMatch := FindLastMatch(inp.bNames, key);
      if bMatch.Some? {
        fileVersion := inp.b.value.version;
        jmsNode := Some(inp.b.value.transforms[0][bMatch.value]);
        boneDistance := BoneDistance(JmsB, bMatch.value);
      }
      rest := jmsNode;
    }
    src := Source(fileVersion, jmsNode, rest, boneDistance);
  }

  /** The root test against the valid references. */
  method TestRoot(inp: JmaInputs, key: string) returns (isRoot: bool)
    requires ValidInputs(inp)
    ensures isRoot == IsValidReferenceRoot(inp, key)
  {
    isRoot := false;
    if inp.a.Some? && !inp.aInvalid && NameMatches(inp.a.value.nodes[0].name, key) {
      isRoot := true;
    }
    if inp.b.Some? && !inp.bInvalid && NameMatches(inp.b.value.nodes[0].name, key) {
      isRoot := true;
    }
  }

  /** Creates the bone of node `idx` under its parent and writes its rest matrix. */
  method AttachBone(inp: JmaInputs, s: JmaState, idx: nat, src: Source, parent: Option<nat>) returns (r: JmaState)
    requires ValidInputs(inp) && idx < |inp.jma.nodes| && Shaped(s, idx) && src.rest.Some?
    requires parent.Some? ==> parent.value < idx
    ensures r == AddBone(inp, s, idx, src, parent)
  {
    var name := inp.jma.nodes[idx].name;
    var isRoot := TestRoot(inp, Lower(name));
    var threshold := inp.jmaThreshold;
    if inp.a.Some? && !inp.aInvalid {
      threshold := inp.jmsThreshold;
    }
    var parentMatrix := if parent.Some? then Some(s.bones[parent.value].matrix) else None;
    var matrix := JmsSkeleton.PlaceBone(inp.fixRotations, src.version, threshold, isRoot, parentMatrix, src.rest.value);
    r := JmaState(s.bones + [EditBone(name, parent, src.tail, matrix)], src.version, src.jmsNode);
  }

  /** The body of the node loop for node `idx`. */
  method BuildBone(inp: JmaInputs, s: JmaState, createdBoneList: seq<string>, idx: nat)
    returns (out: Outcome<JmaState>, created: seq<string>)
    requires ValidInputs(inp) && idx < |inp.jma.nodes| && Shaped(s, idx)
    requires createdBoneList == BoneNames(s.bones)
    ensures out == JmaStep(inp, s, idx)
    ensures out.Done? ==> created == BoneNames(out.value.bones)
  {
    var name := inp.jma.nodes[idx].name;
    created := createdBoneList + [name];
    var parent := ParentOf(inp, created, idx);
    if parent.Raised? {
      return Raised(parent.crash), created;
    }
    var src := MatchRest(inp, s, idx);
    if src.rest.None? {
      return Raised(UnboundRestTransform(idx)), created;
    }
    var next := AttachBone(inp, s, idx, src, parent.value);
    BoneNamesAppend(s.bones, next.bones[idx]);
    assert next.bones == s.bones + [next.bones[idx]];
    out := Done(next);
  }

  /** The builder's result: it reads the first frame before any node, so an
      animation without frames fails at once. */
  function Build(inp: JmaInputs): (r: Outcome<seq<EditBone>>)
    requires ValidSetup(inp)
    ensures r.Done? ==> |r.value| == |inp.jma.nodes| && Hierarchy(inp.jma.nodes, r.value)
  {
    if |inp.jma.transforms| == 0 then Raised(NoFirstFrame)
    else
      var r := JmaRun(inp, |inp.jma.nodes|);
      if r.Done? then RunHierarchy(inp, |inp.jma.nodes|); BonesOf(r) else BonesOf(r)
  }

  /** `generate_jma_skeleton`: the bones of the new armature in creation order. */
  method GenerateJmaSkeleton(inp: JmaInputs) returns (out: Outcome<seq<EditBone>>)
    requires ValidSetup(inp)
    ensures out == Build(inp)
  {
    if |inp.jma.transforms| == 0 {
      return Raised(NoFirstFrame);
    }
    var createdBoneList: seq<string> := [];
    var state := InitialState(inp);
    var idx := 0;
    while idx < |inp.jma.nodes|
      invariant 0 <= idx <= |inp.jma.nodes|
      invariant JmaRun(inp, idx) == Done(state)
      invariant createdBoneList == BoneNames(state.bones)
    {
      var step;
      step, createdBoneList := BuildBone(inp, state, createdBoneList, idx);
      RunStep(inp, idx, state);
      if step.Raised? {
        RaisedPersists(inp, idx + 1, |inp.jma.nodes|);
        return Raised(step.crash);
      }
      state := step.value;
      idx := idx + 1;
    }
    out := Done(state.bones);
  }

  /** A completed step appends exactly one bone, named after the node, whose
      parent (if any) was created before it. */
  lemma StepAppends(inp: JmaInputs, s: JmaState, idx: nat)
    requires ValidInputs(inp) && idx < |inp.jma.nodes| && Shaped(s, idx)
    requires JmaStep(inp, s, idx).Done?
    ensures var r := JmaStep(inp, s, idx).value;
      r.bones[..idx] == s.bones && r.bones[idx].name == inp.jma.nodes[idx].name &&
      (r.bones[idx].parent.Some? ==> r.bones[idx].parent.value < idx)
  {
    var r := JmaStep(inp, s, idx).value;
    assert r.bones == s.bones + [r.bones[idx]];
  }

  /** After any completed prefix of the node loop, bone `i` belongs to node `i`
      and every bone's parent was created before it. */
  lemma {:induction false} RunHierarchy(inp: JmaInputs, k: nat)
    requires ValidInputs(inp) && k <= |inp.jma.nodes| && JmaRun(inp, k).Done?
    ensures Hierarchy(inp.jma.nodes, JmaRun(inp, k).value.bones)
  {
    if k > 0 {
      var prev := JmaRun(inp, k - 1).value;
      RunHierarchy(inp, k - 1);
      RunStep(inp, k - 1, prev);
      StepAppends(inp, prev, k - 1);
      PrefixHierarchy(inp.jma.nodes, prev.bones, JmaStep(inp, prev, k - 1).value.bones);
    }
  }

  /** With unique node names the bone parent is exactly the graph parent after
      the landmark override when that node comes earlier; a node that is its own
      parent gets none, and a parent that comes later makes the lookup fail. */
  lemma {:induction false} UniqueNamesFollowGraph(inp: JmaInputs, s: JmaState, idx: nat)
    requires ValidInputs(inp) && idx < |inp.jma.nodes| && Shaped(s, idx)
    requires Hierarchy(inp.jma.nodes, s.bones) && UniqueNames(inp.jma.nodes)
    requires GraphParent(inp, idx).Some?
    ensures var p := GraphParent(inp, idx).value;
      var out := ResolvedParent(inp, BoneNames(s.bones) + [inp.jma.nodes[idx].name], idx);
      (p < idx ==> out == Done(Some(p))) &&
      (p == idx ==> out == Done(None)) &&
      (p > idx ==> out == Raised(UnknownParentBone(idx)))
  {
    var p := GraphParent(inp, idx).value;
    var created := BoneNames(s.bones) + [inp.jma.nodes[idx].name];
    HierarchyNames(inp.jma.nodes, s.bones);
    assert created == NodeNames(inp.jma.nodes)[..idx + 1];
    var target := inp.jma.nodes[p].name;
    if p <= idx {
      assert created[p] == target;
      var j := BoneNamed(created, target);
      assert j.Some?;
      assert j.value == p;
    } else {
      assert target !in created by {
        forall q | 0 <= q < |created|
          ensures created[q] != target
        {
          assert created[q] == inp.jma.nodes[q].name;
        }
      }
    }
  }

  /** Without consulted references every bone takes the animation's first frame
      and its own length, and `file_version` stays the animation's version. */
  lemma {:induction false} NoReferencesKeepAnimation(inp: JmaInputs, k: nat)
    requires ValidInputs(inp) && k <= |inp.jma.nodes| && !UsesReferences(inp) && JmaRun(inp, k).Done?
    ensures var r := JmaRun(inp, k).value;
      r.fileVersion == inp.jma.version &&
      forall i :: 0 <= i < k ==> r.bones[i].tail == BoneDistance(JmaFile, i)
  {
    if k > 0 {
      var prev := JmaRun(inp, k - 1).value;
      NoReferencesKeepAnimation(inp, k - 1);
      RunStep(inp, k - 1, prev);
      StepAppends(inp, prev, k - 1);
      var r := JmaRun(inp, k).value;
      assert forall i :: 0 <= i < k - 1 ==> r.bones[i] == prev.bones[i] by {
        assert r.bones[..k - 1] == prev.bones;
      }
    }
  }

  /** Without consulted references a step fails only on its parent lookup. */
  lemma NoReferencesOnlyParentFails(inp: JmaInputs, s: JmaState, idx: nat)
    requires ValidInputs(inp) && idx < |inp.jma.nodes| && Shaped(s, idx) && !UsesReferences(inp)
    ensures JmaStep(inp, s, idx).Raised? <==>
      ResolvedParent(inp, BoneNames(s.bones) + [inp.jma.nodes[idx].name], idx).Raised?
  {
  }

  /** With the references consulted, a matched node takes version, rest transform
      and length from the one winning match, a B match beating any A match. */
  lemma MatchedNodeUsesWinner(inp: JmaInputs, s: JmaState, idx: nat, m: Match)
    requires ValidInputs(inp) && idx < |inp.jma.nodes| && Shaped(s, idx) && UsesReferences(inp)
    requires Winner(inp.aNames, inp.bNames, Lower(inp.jma.nodes[idx].name)) == Some(m)
    ensures m.file == JmsB <==> RefMatch(inp.bNames, Lower(inp.jma.nodes[idx].name)).Some?
    ensures JmaStep(inp, s, idx).Done? ==>
      var r := JmaStep(inp, s, idx).value;
      var ref := if m.file == JmsA then inp.a.value else inp.b.value;
      r.fileVersion == ref.version && r.jmsNode == Some(ref.transforms[0][m.index]) &&
      r.bones[idx].tail == BoneDistance(m.file, m.index)
  {
  }

  /** With the references consulted, an unmatched node reuses the previous
      node's `jms_node` and `file_version`, and fails when no earlier node ever
      matched. */
  lemma UnmatchedNodeReuses(inp: JmaInputs, s: JmaState, idx: nat)
    requires ValidInputs(inp) && idx < |inp.jma.nodes| && Shaped(s, idx) && UsesReferences(inp)
    requires Winner(inp.aNames, inp.bNames, Lower(inp.jma.nodes[idx].name)).None?
    requires ResolvedParent(inp, BoneNames(s.bones) + [inp.jma.nodes[idx].name], idx).Done?
    ensures JmaStep(inp, s, idx).Raised? <==> s.jmsNode.None?
    ensures JmaStep(inp, s, idx).Done? ==>
      var r := JmaStep(inp, s, idx).value;
      r.fileVersion == s.fileVersion && r.jmsNode == s.jmsNode &&
      r.bones[idx].tail == BoneDistance(JmaFile, idx)
  {
  }

  /** A root of a valid reference never uses its parent's matrix. */
  lemma RootNotComposed(inp: JmaInputs, s: JmaState, idx: nat)
    requires ValidInputs(inp) && idx < |inp.jma.nodes| && Shaped(s, idx)
    requires IsValidReferenceRoot(inp, Lower(inp.jma.nodes[idx].name))
    requires JmaStep(inp, s, idx).Done?
    ensures var rest := NodeSource(inp, s, idx).rest.value;
      JmaStep(inp, s, idx).value.bones[idx].matrix ==
        if inp.fixRotations then Compose(RestLocal(rest), RotZ(-90)) else RestLocal(rest)
  {
  }

  /** A non-root child whose carried version is below the threshold of the file
      type is placed against its parent's rest matrix. */
  lemma OldChildComposed(inp: JmaInputs, s: JmaState, idx: nat)
    requires ValidInputs(inp) && idx < |inp.jma.nodes| && Shaped(s, idx)
    requires !IsValidReferenceRoot(inp, Lower(inp.jma.nodes[idx].name))
    requires JmaStep(inp, s, idx).Done?
    requires JmaStep(inp, s, idx).value.fileVersion < Threshold(inp)
    requires JmaStep(inp, s, idx).value.bones[idx].parent.Some?
    ensures var r := JmaStep(inp, s, idx).value;
      var rest := NodeSource(inp, s, idx).rest.value;
      var p := s.bones[r.bones[idx].parent.value].matrix;
      r.bones[idx].matrix ==
        if inp.fixRotations then Compose(Compose(Compose(p, RotZ(90)), RestLocal(rest)), RotZ(-90))
        else Compose(p, RestLocal(rest))
  {
  }
}

