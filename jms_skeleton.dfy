/** `generate_jms_skeleton`: the reference-driven builder, used when the
    animation's own hierarchy cannot be trusted. Each animation node becomes a
    bone whose parent, rest transform, length and source version come from the
    reference node it matches, with the loop state (`file_version`,
    `r_hand_idx`, `is_fp_root_file_a`, the created bone names) carried from one
    node to the next exactly as the importer carries it. */
module JmsSkeleton {
  import opened Base
  import opened Transforms
  import opened Assets

  /** The builder's arguments. `threshold` is the external
      `get_version_matrix_check("JMS", game_version)`. Reference A is always
      present here; the name lists are the ones `jms_file_check` returned. */
  datatype JmsInputs = JmsInputs(
    jma: Animation, a: Reference, b: Option<Reference>,
    aNames: seq<string>, bNames: seq<string>,
    fixRotations: bool, threshold: int)

  predicate ValidInputs(inp: JmsInputs)
  {
    WellFormedReference(inp.a) && (inp.b.Some? ==> WellFormedReference(inp.b.value)) &&
    inp.aNames == NodeNames(inp.a.nodes) &&
    inp.bNames == (if inp.b.Some? then NodeNames(inp.b.value.nodes) else [])
  }

  /** The state carried across nodes. */
  datatype JmsState = JmsState(bones: seq<EditBone>, fileVersion: int, rHand: Option<nat>, fpRootA: bool)

  function InitialState(inp: JmsInputs): JmsState
  {
    JmsState([], inp.jma.version, None, false)
  }

  function Ref(inp: JmsInputs, f: FileId): Reference
    requires f == JmsA || (f == JmsB && inp.b.Some?)
  {
    if f == JmsA then inp.a else inp.b.value
  }

  /** The name of the parent of reference node `i`; a root's `-1` is a Python
      index and so names the reference's last node. */
  function ParentName(r: Reference, i: nat): string
    requires WellFormedReference(r) && i < |r.nodes|
  {
    r.nodes[PyIndex(|r.nodes|, r.nodes[i].parent.value)].name
  }

  predicate IsRightHand(key: string)
  {
    Contains(key, "r_hand") || Contains(key, "r hand")
  }

  /** The gun test is on the node name as written, not lower-cased. */
  predicate IsGunName(name: string)
  {
    Contains(name, "gun")
  }

  /** Where one node's rest data comes from after the two reference loops. */
  datatype Source = Source(version: int, parentName: Option<string>, rest: Option<Transform>, tail: Length)

  /** The winning match supplies version, parent name, rest transform and length
      together. Without a match the previous `file_version` is kept and the rest
      transform falls back to the first node of A (when `is_fp_root_file_a` is
      set) or of B, which does not exist when only A was given. */
  function NodeSource(inp: JmsInputs, fileVersion: int, fpRootA: bool, key: string): Source
    requires ValidInputs(inp)
  {
    match Winner(inp.aNames, inp.bNames, key)
    case Some(m) =>
      var r := Ref(inp, m.file);
      Source(r.version, Some(ParentName(r, m.index)), Some(r.transforms[0][m.index]), BoneDistance(m.file, m.index))
    case None =>
      var fallback :=
        if fpRootA then Some(inp.a.transforms[0][0])
        else if inp.b.Some? then Some(inp.b.value.transforms[0][0])
        else None;
      Source(fileVersion, None, fallback, DefaultLength)
  }

  /** Parent name resolution is case-sensitive: a created bone qualifies when its
      name is a substring of the parent name. */
  predicate NamePartOf(bone: string, parentName: string)
  {
    Contains(parentName, bone)
  }

  function LastNamePart(created: seq<string>, parentName: string): (r: Option<nat>)
    ensures r.Some? ==> r.value < |created| && NamePartOf(created[r.value], parentName)
    ensures r.Some? ==> forall j :: r.value < j < |created| ==> !NamePartOf(created[j], parentName)
    ensures r.None? <==> forall j :: 0 <= j < |created| ==> !NamePartOf(created[j], parentName)
  {
    if |created| == 0 then None
    else if NamePartOf(created[|created| - 1], parentName) then Some(|created| - 1)
    else LastNamePart(created[..|created| - 1], parentName)
  }

  /** The bone the loop over `created_bone_list` picks: bone 0 when there is no
      parent name, else the last created bone (the current one included) whose
      name is part of the parent name. */
  function ParentCandidate(created: seq<string>, parentName: Option<string>): (r: Option<nat>)
    ensures r.Some? ==> r.value < |created|
  {
    if parentName.None? then (if |created| > 0 then Some(0) else None)
    else LastNamePart(created, parentName.value)
  }

  /** The host refuses to make a bone its own parent; the new bone has no
      children yet, so that is the only cycle possible. */
  function SetParent(idx: nat, candidate: Option<nat>): Option<nat>
  {
    if candidate == Some(idx) then None else candidate
  }

  /** The candidate if there is one; otherwise a name containing `gun` goes to the
      right hand, and fails when no right hand has been seen. */
  function ChooseParent(name: string, idx: nat, candidate: Option<nat>, rHand: Option<nat>): (r: Outcome<Option<nat>>)
    ensures r.Done? && r.value.Some? ==> r.value.value != idx
    ensures r.Done? && r.value.Some? ==> r.value == candidate || (candidate.None? && r.value == rHand)
    ensures r.Raised? <==> candidate.None? && IsGunName(name) && rHand.None?
  {
    if candidate.Some? then Done(SetParent(idx, candidate))
    else if IsGunName(name) then
      (if rHand.None? then Raised(NoRightHand(idx)) else Done(SetParent(idx, rHand)))
    else Done(None)
  }

  predicate IsReferenceRoot(inp: JmsInputs, key: string)
    requires ValidInputs(inp)
  {
    IsRootOf(inp.a, key) || (inp.b.Some? && IsRootOf(inp.b.value, key))
  }

  /** The shape of the state after `k` nodes: one bone per node, and the right
      hand, if seen, among them. */
  predicate Shaped(s: JmsState, k: nat)
  {
    |s.bones| == k && (s.rHand.Some? ==> s.rHand.value < k)
  }

  /** One iteration of the node loop. */
  function JmsStep(inp: JmsInputs, s: JmsState, idx: nat): (r: Outcome<JmsState>)
    requires ValidInputs(inp) && idx < |inp.jma.nodes| && Shaped(s, idx)
    ensures r.Done? ==> Shaped(r.value, idx + 1)
  {
    var name := inp.jma.nodes[idx].name;
    var key := Lower(name);
    var rHand := if IsRightHand(key) then Some(idx) else s.rHand;
    var fp := s.fpRootA || (RefMatch(inp.aNames, key).Some? && NameMatches(inp.aNames[0], Lower(inp.jma.nodes[0].name)));
    StepFrom(inp, s, idx, NodeSource(inp, s.fileVersion, fp, key), rHand, fp)
  }

  /** The rest of the iteration once the reference source of the node is known. */
  function StepFrom(inp: JmsInputs, s: JmsState, idx: nat, src: Source, rHand: Option<nat>, fp: bool): (r: Outcome<JmsState>)
    requires ValidInputs(inp) && idx < |inp.jma.nodes| && Shaped(s, idx)
    requires rHand.Some? ==> rHand.value <= idx
    ensures r.Done? ==> Shaped(r.value, idx + 1)
  {
    if src.rest.None? then Raised(NoRestSource(idx))
    else
      var name := inp.jma.nodes[idx].name;
      var created := BoneNames(s.bones) + [name];
      match ChooseParent(name, idx, ParentCandidate(created, src.parentName), rHand)
      case Raised(c) => Raised(c)
      case Done(parent) => Done(AddBone(inp, s, idx, src, parent, rHand, fp))
  }

  /** The bone appended for node `idx` once its source and parent are known. */
  function AddBone(inp: JmsInputs, s: JmsState, idx: nat, src: Source, parent: Option<nat>, rHand: Option<nat>, fp: bool): (r: JmsState)
    requires ValidInputs(inp) && idx < |inp.jma.nodes| && Shaped(s, idx) && src.rest.Some?
    requires parent.Some? ==> parent.value < idx
    requires rHand.Some? ==> rHand.value <= idx
    ensures Shaped(r, idx + 1)
  {
    var name := inp.jma.nodes[idx].name;
    var isRoot := IsReferenceRoot(inp, Lower(name));
    var parentMatrix := if parent.Some? then Some(s.bones[parent.value].matrix) else None;
    var matrix := Place(inp.fixRotations, RestVersionGate(src.version, inp.threshold, isRoot), parentMatrix, RestLocal(src.rest.value));
    JmsState(s.bones + [EditBone(name, parent, src.tail, matrix)], src.version, rHand, fp)
  }

  /** The builder's state after the first `k` nodes, or the exception that stopped it. */
  function JmsRun(inp: JmsInputs, k: nat): (r: Outcome<JmsState>)
    requires ValidInputs(inp) && k <= |inp.jma.nodes|
    ensures r.Done? ==> Shaped(r.value, k)
    decreases k, 0
  {
    if k == 0 then Done(InitialState(inp)) else RunThrough(inp, k - 1)
  }

  /** The run up to and including node `idx`: the run before it, then its step. */
  function RunThrough(inp: JmsInputs, idx: nat): (r: Outcome<JmsState>)
    requires ValidInputs(inp) && idx < |inp.jma.nodes|
    ensures r.Done? ==> Shaped(r.value, idx + 1)
    decreases idx, 1
  {
    match JmsRun(inp, idx)
    case Raised(c) => Raised(c)
    case Done(s) => JmsStep(inp, s, idx)
  }

  /** One more node extends a completed run by one step. */
  lemma RunStep(inp: JmsInputs, k: nat, s: JmsState)
    requires ValidInputs(inp) && k < |inp.jma.nodes| && JmsRun(inp, k) == Done(s)
    ensures JmsRun(inp, k + 1) == JmsStep(inp, s, k)
  {
    assert JmsRun(inp, k + 1) == RunThrough(inp, k);
  }

  /** Once a node raises, the whole build raises the same exception. */
  lemma {:induction false} RaisedPersists(inp: JmsInputs, k: nat, n: nat)
    requires ValidInputs(inp) && k <= n <= |inp.jma.nodes| && JmsRun(inp, k).Raised?
    ensures JmsRun(inp, n) == JmsRun(inp, k)
    decreases n - k
  {
    if k < n {
      RaisedPersists(inp, k, n - 1);
    }
  }

  function BonesOf(r: Outcome<JmsState>): Outcome<seq<EditBone>>
  {
    match r
    case Done(s) => Done(s.bones)
    case Raised(c) => Raised(c)
  }

  /** The loop over the created bone names that picks the parent bone. */
  method FindParentBone(created: seq<string>, parentName: Option<string>) returns (parent: Option<nat>)
    ensures parent == ParentCandidate(created, parentName)
  {
    parent := None;
    var boneIdx := 0;
    while boneIdx < |created|
      invariant 0 <= boneIdx <= |created|
      invariant parentName.None? ==> parent == (if boneIdx > 0 then Some(0) else None)
      invariant parentName.Some? ==> parent == LastNamePart(created[..boneIdx], parentName.value)
    {
      if parentName.Some? {
        ghost var pre := created[..boneIdx + 1];
        assert pre[..boneIdx] == created[..boneIdx];
        var part := NamePartOf(created[boneIdx], parentName.value);
        if part {
          parent := Some(boneIdx);
        }
      } else {
        parent := Some(0);
      }
      boneIdx := boneIdx + 1;
    }
    assert created[..boneIdx] == created;
  }

  /** The two reference loops and the fallback of one node: the last A match,
      then the last B match overriding it, then the first-node fallback. */
  method MatchReferences(inp: JmsInputs, key: string, fileVersion: int, fpRootA: bool)
    returns (src: Source, fp: bool)
    requires ValidInputs(inp) && |inp.jma.nodes| > 0
    ensures fp == (fpRootA || (RefMatch(inp.aNames, key).Some? && NameMatches(inp.aNames[0], Lower(inp.jma.nodes[0].name))))
    ensures src == NodeSource(inp, fileVersion, fp, key)
  {
    fp := fpRootA;
    var version := fileVersion;
    var parentName: Option<string> := None;
    var rest: Option<Transform> := None;
    var tail := DefaultLength;
    var aMatch := FindLastMatch(inp.aNames, key);
    if aMatch.Some? {
      var aIdx := aMatch.value;
      if NameMatches(inp.aNames[0], Lower(inp.jma.nodes[0].name)) {
        fp := true;
      }
      version := inp.a.version;
      parentName := Some(ParentName(inp.a, aIdx));
      rest := Some(inp.a.transforms[0][aIdx]);
      tail := BoneDistance(JmsA, aIdx);
    }
    var bMatch := FindLastMatch(inp.bNames, key);
    if bMatch.Some? {
      var bIdx := bMatch.value;
      var b := inp.b.value;
      version := b.version;
      parentName := Some(ParentName(b, bIdx));
      rest := Some(b.transforms[0][bIdx]);
      tail := BoneDistance(JmsB, bIdx);
    }
    if rest.None? {
      if fp {
        rest := Some(inp.a.transforms[0][0]);
      } else if inp.b.Some? {
        rest := Some(inp.b.value.transforms[0][0]);
      }
    }
    src := Source(version, parentName, rest, tail);
  }

  /** The version gate and rotation fix of one bone's rest matrix. */
  method PlaceBone(fixRotations: bool, fileVersion: int, threshold: int, isRoot: bool, parent: Option<Mat>, rest: Transform)
    returns (matrix: Mat)
    ensures matrix == Place(fixRotations, RestVersionGate(fileVersion, threshold, isRoot), parent, RestLocal(rest))
  {
    var transformMatrix := RestLocal(rest);
    if fixRotations {
      if fileVersion < threshold && parent.Some? && !isRoot {
        transformMatrix := Compose(Compose(parent.value, RotZ(90)), transformMatrix);
      }
      matrix := Compose(transformMatrix, RotZ(-90));
    } else {
      if fileVersion < threshold && parent.Some? && !isRoot {
        transformMatrix := Compose(parent.value, transformMatrix);
      }
      matrix := transformMatrix;
    }
  }

  /** The parent assignment of one bone: the candidate, or for a `gun` bone
      without one the right hand, which must exist by then. */
  method ResolveParent(name: string, idx: nat, candidate: Option<nat>, rHand: Option<nat>)
    returns (out: Outcome<Option<nat>>)
    ensures out == ChooseParent(name, idx, candidate, rHand)
  {
    var parent: Option<nat> := None;
    if candidate.Some? {
      parent := SetParent(idx, candidate);
    } else if IsGunName(name) {
      if rHand.None? {
        return Raised(NoRightHand(idx));
      }
      parent := SetParent(idx, rHand);
    }
    out := Done(parent);
  }

  /** The root test against the first node of A and, when given, of B. */
  method TestRoot(inp: JmsInputs, key: string) returns (isRoot: bool)
    requires ValidInputs(inp)
    ensures isRoot == IsReferenceRoot(inp, key)
  {
    isRoot := false;
    if NameMatches(inp.a.nodes[0].name, key) {
      isRoot := true;
    }
    if inp.b.Some? && NameMatches(inp.b.value.nodes[0].name, key) {
      isRoot := true;
    }
  }

  /** Creates the bone of node `idx` under its resolved parent and writes its
      rest matrix. */
  method AttachBone(inp: JmsInputs, s: JmsState, idx: nat, src: Source, parent: Option<nat>, rHand: Option<nat>, fp: bool)
    returns (r: JmsState)
    requires ValidInputs(inp) && idx < |inp.jma.nodes| && Shaped(s, idx) && src.rest.Some?
    requires parent.Some? ==> parent.value < idx
    requires rHand.Some? ==> rHand.value <= idx
    ensures r == AddBone(inp, s, idx, src, parent, rHand, fp)
  {
    var name := inp.jma.nodes[idx].name;
    var isRoot := TestRoot(inp, Lower(name));
    var parentMatrix := if parent.Some? then Some(s.bones[parent.value].matrix) else None;
    var matrix := PlaceBone(inp.fixRotations, src.version, inp.threshold, isRoot, parentMatrix, src.rest.value);
    r := JmsState(s.bones + [EditBone(name, parent, src.tail, matrix)], src.version, rHand, fp);
  }

  /** The body of the node loop for node `idx`: creates the bone, matches it,
      resolves its parent and writes its matrix. */
  method BuildBone(inp: JmsInputs, s: JmsState, createdBoneList: seq<string>, idx: nat)
    returns (out: Outcome<JmsState>, created: seq<string>)
    requires ValidInputs(inp) && idx < |inp.jma.nodes| && Shaped(s, idx)
    requires createdBoneList == BoneNames(s.bones)
    ensures out == JmsStep(inp, s, idx)
    ensures out.Done? ==> created == BoneNames(out.value.bones)
  {
    var name := inp.jma.nodes[idx].name;
    created := createdBoneList + [name];
    var key := Lower(name);
    var rHand := s.rHand;
    if IsRightHand(key) {
      rHand := Some(idx);
    }
    var src, fp := MatchReferences(inp, key, s.fileVersion, s.fpRootA);
    out := FinishBone(inp, s, created, idx, src, rHand, fp);
  }

  /** The node loop body after reference matching: resolves the parent and
      attaches the bone. */
  method FinishBone(inp: JmsInputs, s: JmsState, created: seq<string>, idx: nat, src: Source, rHand: Option<nat>, fp: bool)
    returns (out: Outcome<JmsState>)
    requires ValidInputs(inp) && idx < |inp.jma.nodes| && Shaped(s, idx)
    requires rHand.Some? ==> rHand.value <= idx
    requires created == BoneNames(s.bones) + [inp.jma.nodes[idx].name]
    ensures out == StepFrom(inp, s, idx, src, rHand, fp)
    ensures out.Done? ==> created == BoneNames(out.value.bones)
  {
    var name := inp.jma.nodes[idx].name;
    if src.rest.None? {
      return Raised(NoRestSource(idx));
    }
    var candidate := FindParentBone(created, src.parentName);
    var parent := ResolveParent(name, idx, candidate, rHand);
    if parent.Raised? {
      return Raised(parent.crash);
    }
    var next := AttachBone(inp, s, idx, src, parent.value, rHand, fp);
    BoneNamesAppend(s.bones, next.bones[idx]);
    assert next.bones == s.bones + [next.bones[idx]];
    out := Done(next);
  }

  /** The builder's result: every node's bone, or the exception that stopped it. */
  function Build(inp: JmsInputs): (r: Outcome<seq<EditBone>>)
    requires ValidInputs(inp)
    ensures r.Done? ==> |r.value| == |inp.jma.nodes| && Hierarchy(inp.jma.nodes, r.value)
  {
    var r := JmsRun(inp, |inp.jma.nodes|);
    if r.Done? then RunHierarchy(inp, |inp.jma.nodes|); BonesOf(r) else BonesOf(r)
  }

  /** `generate_jms_skeleton`: the bones of the new armature in creation order. */
  method GenerateJmsSkeleton(inp: JmsInputs) returns (out: Outcome<seq<EditBone>>)
    requires ValidInputs(inp)
    ensures out == Build(inp)
  {
    var createdBoneList: seq<string> := [];
    // the armature's bones, `file_version`, `r_hand_idx` and `is_fp_root_file_a`
    var state := JmsState([], inp.jma.version, None, false);
    var idx := 0;
    while idx < |inp.jma.nodes|
      invariant idx <= |inp.jma.nodes|
      invariant JmsRun(inp, idx) == Done(state)
      invariant createdBoneList == BoneNames(state.bones)
    {
      var step;
      step, createdBoneList := BuildBone(inp, state, createdBoneList, idx);
      RunStep(inp, idx, state);
      if step.Raised? {
        RaisedPersists(inp, idx + 1, |inp.jma.nodes|);
        return Raised(step.crash);
      }
      state := step.value;
      idx := idx + 1;
    }
    out := Done(state.bones);
  }

  /** The right-hand test on an animation node name (it is lower-cased first). */
  predicate IsRightHandNode(name: string)
  {
    IsRightHand(Lower(name))
  }

  /** A completed step appends exactly one bone, named after the node, whose
      parent (if any) was created before it. */
  lemma StepAppends(inp: JmsInputs, s: JmsState, idx: nat)
    requires ValidInputs(inp) && idx < |inp.jma.nodes| && Shaped(s, idx)
    requires JmsStep(inp, s, idx).Done?
    ensures var r := JmsStep(inp, s, idx).value;
      r.bones[..idx] == s.bones && r.bones[idx].name == inp.jma.nodes[idx].name &&
      (r.bones[idx].parent.Some? ==> r.bones[idx].parent.value < idx)
  {
    var r := JmsStep(inp, s, idx).value;
    assert r.bones == s.bones + [r.bones[idx]];
  }

  /** After any completed prefix of the node loop, bone `i` belongs to node `i`
      and every bone's parent was created before it. */
  lemma {:induction false} RunHierarchy(inp: JmsInputs, k: nat)
    requires ValidInputs(inp) && k <= |inp.jma.nodes| && JmsRun(inp, k).Done?
    ensures Hierarchy(inp.jma.nodes, JmsRun(inp, k).value.bones)
  {
    if k > 0 {
      RunAppends(inp, k);
      RunHierarchy(inp, k - 1);
      PrefixHierarchy(inp.jma.nodes, JmsRun(inp, k - 1).value.bones, JmsRun(inp, k).value.bones);
    }
  }

  /** A completed run of `k` nodes extends the run of `k - 1` by one bone. */
  lemma RunAppends(inp: JmsInputs, k: nat)
    requires ValidInputs(inp) && 0 < k <= |inp.jma.nodes| && JmsRun(inp, k).Done?
    ensures JmsRun(inp, k - 1).Done?
    ensures var prev := JmsRun(inp, k - 1).value.bones;
      var bones := JmsRun(inp, k).value.bones;
      bones[..k - 1] == prev && bones[k - 1].name == inp.jma.nodes[k - 1].name &&
      (bones[k - 1].parent.Some? ==> bones[k - 1].parent.value < k - 1)
  {
    var prev := JmsRun(inp, k - 1).value;
    RunStep(inp, k - 1, prev);
    StepAppends(inp, prev, k - 1);
  }

  /** A completed node updates `r_hand_idx` exactly when its name names the right hand. */
  lemma RunRightHand(inp: JmsInputs, k: nat)
    requires ValidInputs(inp) && 0 < k <= |inp.jma.nodes| && JmsRun(inp, k).Done?
    ensures JmsRun(inp, k - 1).Done?
    ensures JmsRun(inp, k).value.rHand ==
      if IsRightHandNode(inp.jma.nodes[k - 1].name) then Some(k - 1) else JmsRun(inp, k - 1).value.rHand
  {
  }

  /** The last of the first `k` nodes whose lower-cased name contains `r_hand`
      or `r hand`. */
  function LastRightHand(nodes: seq<Node>, k: nat): Option<nat>
    requires k <= |nodes|
  {
    if k == 0 then None
    else if IsRightHandNode(nodes[k - 1].name) then Some(k - 1)
    else LastRightHand(nodes, k - 1)
  }

  /** `LastRightHand` is the last right-hand node, and unset when there is none. */
  lemma {:induction false} LastRightHandIsLast(nodes: seq<Node>, k: nat)
    requires k <= |nodes|
    ensures var h := LastRightHand(nodes, k);
      (h.Some? ==> h.value < k && IsRightHandNode(nodes[h.value].name) &&
                   forall j :: h.value < j < k ==> !IsRightHandNode(nodes[j].name)) &&
      (h.None? ==> forall j :: 0 <= j < k ==> !IsRightHandNode(nodes[j].name))
  {
    if k > 0 {
      LastRightHandIsLast(nodes, k - 1);
    }
  }

  /** `r_hand_idx` after `k` nodes is the last right-hand node among them. */
  lemma {:induction false} RightHandTracked(inp: JmsInputs, k: nat)
    requires ValidInputs(inp) && k <= |inp.jma.nodes| && JmsRun(inp, k).Done?
    ensures JmsRun(inp, k).value.rHand == LastRightHand(inp.jma.nodes, k)
  {
    if k > 0 {
      RunRightHand(inp, k);
      var before := JmsRun(inp, k - 1);
      RightHandTracked(inp, k - 1);
      assert before.value.rHand == LastRightHand(inp.jma.nodes, k - 1);
    }
  }

  /** When a reference node matches, the version carried on, the rest transform
      and the bone length all come from that one match, and a B match beats any
      A match. */
  lemma StepUsesWinner(inp: JmsInputs, s: JmsState, idx: nat, m: Match)
    requires ValidInputs(inp) && idx < |inp.jma.nodes| && Shaped(s, idx)
    requires Winner(inp.aNames, inp.bNames, Lower(inp.jma.nodes[idx].name)) == Some(m)
    ensures m.file == JmsB <==> RefMatch(inp.bNames, Lower(inp.jma.nodes[idx].name)).Some?
    ensures JmsStep(inp, s, idx).Done? ==>
      var r := JmsStep(inp, s, idx).value;
      r.fileVersion == Ref(inp, m.file).version && r.bones[idx].tail == BoneDistance(m.file, m.index) &&
      NodeSource(inp, s.fileVersion, r.fpRootA, Lower(inp.jma.nodes[idx].name)).rest ==
        Some(Ref(inp, m.file).transforms[0][m.index])
  {
  }

  /** An unmatched node keeps the `file_version` left by the previous node and
      gets the default length; its rest transform is the first node of A once
      A's root has been seen, else the first node of B, and without B the step
      fails. */
  lemma UnmatchedStep(inp: JmsInputs, s: JmsState, idx: nat)
    requires ValidInputs(inp) && idx < |inp.jma.nodes| && Shaped(s, idx)
    requires Winner(inp.aNames, inp.bNames, Lower(inp.jma.nodes[idx].name)).None?
    ensures JmsStep(inp, s, idx).Raised? <==> !s.fpRootA && inp.b.None?
    ensures JmsStep(inp, s, idx).Done? ==>
      var r := JmsStep(inp, s, idx).value;
      r.fileVersion == s.fileVersion && r.fpRootA == s.fpRootA && r.bones[idx].tail == DefaultLength &&
      (idx > 0 ==> r.bones[idx].parent == Some(0)) && (idx == 0 ==> r.bones[idx].parent.None?)
    ensures s.fpRootA ==>
      NodeSource(inp, s.fileVersion, s.fpRootA, Lower(inp.jma.nodes[idx].name)).rest == Some(inp.a.transforms[0][0])
    ensures !s.fpRootA && inp.b.Some? ==>
      NodeSource(inp, s.fileVersion, s.fpRootA, Lower(inp.jma.nodes[idx].name)).rest == Some(inp.b.value.transforms[0][0])
  {
    var key := Lower(inp.jma.nodes[idx].name);
    assert RefMatch(inp.aNames, key).None?;
  }

  /** A matched node's parent is the last created bone (itself included) whose
      name is part of the reference parent's name, unless that is the node
      itself; only when no created bone qualifies does a `gun` node fall back to
      the right hand, and then the right hand must exist. */
  lemma MatchedParent(inp: JmsInputs, s: JmsState, idx: nat, m: Match)
    requires ValidInputs(inp) && idx < |inp.jma.nodes| && Shaped(s, idx)
    requires Winner(inp.aNames, inp.bNames, Lower(inp.jma.nodes[idx].name)) == Some(m)
    ensures var name := inp.jma.nodes[idx].name;
      var found := LastNamePart(BoneNames(s.bones) + [name], ParentName(Ref(inp, m.file), m.index));
      var rHand := if IsRightHandNode(name) then Some(idx) else s.rHand;
      var out := JmsStep(inp, s, idx);
      (out.Raised? <==> found.None? && IsGunName(name) && rHand.None?) &&
      (out.Done? ==>
        out.value.bones[idx].parent ==
          if found.Some? then SetParent(idx, found)
          else if IsGunName(name) then SetParent(idx, rHand)
          else None)
  {
  }

  /** A reference root's rest matrix never uses its parent: it is the local
      matrix, followed by the -90 degree correction under the rotation fix. */
  lemma RootNotComposed(inp: JmsInputs, s: JmsState, idx: nat)
    requires ValidInputs(inp) && idx < |inp.jma.nodes| && Shaped(s, idx)
    requires IsReferenceRoot(inp, Lower(inp.jma.nodes[idx].name))
    requires JmsStep(inp, s, idx).Done?
    ensures var key := Lower(inp.jma.nodes[idx].name);
      var rest := NodeSource(inp, s.fileVersion, JmsStep(inp, s, idx).value.fpRootA, key).rest.value;
      JmsStep(inp, s, idx).value.bones[idx].matrix ==
        if inp.fixRotations then Compose(RestLocal(rest), RotZ(-90)) else RestLocal(rest)
  {
  }

  /** A non-root child of a file older than the threshold is placed against its
      parent's rest matrix: `parent @ local`, or `(parent @ R(+90)) @ local @ R(-90)`
      under the rotation fix. */
  lemma OldChildComposed(inp: JmsInputs, s: JmsState, idx: nat)
    requires ValidInputs(inp) && idx < |inp.jma.nodes| && Shaped(s, idx)
    requires !IsReferenceRoot(inp, Lower(inp.jma.nodes[idx].name))
    requires JmsStep(inp, s, idx).Done?
    requires JmsStep(inp, s, idx).value.fileVersion < inp.threshold
    requires JmsStep(inp, s, idx).value.bones[idx].parent.Some?
    ensures var key := Lower(inp.jma.nodes[idx].name);
      var r := JmsStep(inp, s, idx).value;
      var rest := NodeSource(inp, s.fileVersion, r.fpRootA, key).rest.value;
      var p := s.bones[r.bones[idx].parent.value].matrix;
      r.bones[idx].matrix ==
        if inp.fixRotations then Compose(Compose(Compose(p, RotZ(90)), RestLocal(rest)), RotZ(-90))
        else Compose(p, RestLocal(rest))
  {
  }
}

