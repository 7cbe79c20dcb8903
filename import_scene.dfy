/** `build_scene`: find or build the armature, then play the animation on it.
    An armature already in the scene is used when it can take the animation;
    otherwise the animation's own graph is used when it is sound and recent
    enough, else the reference skeletons, else the import is cancelled. */
module ImportScene {
  import opened Base
  import opened Transforms
  import opened Assets
  import opened Landmarks
  import opened ReferenceCheck
  import opened ArmatureSearch
  import opened Pose
  import JmsSkeleton
  import JmaSkeleton

  /** How the armature to animate is obtained. */
  datatype Mode =
    | UseArmature(index: nat)     // an armature found in the scene
    | FromGraph(fixSlots: bool)   // `generate_jma_skeleton`, with or without landmark slots
    | FromReferences              // `generate_jms_skeleton`
    | Cancel(error: Report)       // the import is aborted with this error

  /** Landmark slots are filled only with `fix_parents` for halo2 and halo3. */
  predicate FixesSlots(fixParents: bool, game: string)
  {
    fixParents && (game == "halo2" || game == "halo3")
  }

  /** The branch structure of `build_scene` after the armature search, with
      its inner version test kept as written. */
  function SelectMode(armature: Option<nat>, jma: Animation, hasA: bool, fixParents: bool, game: string): Mode
  {
    if armature.Some? then UseArmature(armature.value)
    else if !jma.brokenSkeleton && jma.version >= 16392 then
      (if jma.version >= 16392 then FromGraph(FixesSlots(fixParents, game)) else Cancel(AbortedOldVersion))
    else if hasA then FromReferences
    else Cancel(AbortedInvalidGraph)
  }

  /** The four outcomes of the mode selection, each stated both ways. */
  lemma ModeCases(armature: Option<nat>, jma: Animation, hasA: bool, fixParents: bool, game: string)
    ensures var m := SelectMode(armature, jma, hasA, fixParents, game);
      (m.UseArmature? <==> armature.Some?) &&
      (m.FromGraph? <==> armature.None? && !jma.brokenSkeleton && jma.version >= 16392) &&
      (m.FromReferences? <==> armature.None? && (jma.brokenSkeleton || jma.version < 16392) && hasA) &&
      (m.Cancel? <==> armature.None? && (jma.brokenSkeleton || jma.version < 16392) && !hasA)
  {
  }

  /** The "not enough information due to version" abort cannot happen: the
      outer test already demands version 16392 or later, so an old but sound
      animation without a reference is cancelled as an invalid graph. */
  lemma OldVersionAbortUnreachable(armature: Option<nat>, jma: Animation, hasA: bool, fixParents: bool, game: string)
    ensures SelectMode(armature, jma, hasA, fixParents, game) != Cancel(AbortedOldVersion)
    ensures SelectMode(armature, jma, hasA, fixParents, game).Cancel? ==>
      SelectMode(armature, jma, hasA, fixParents, game).error == AbortedInvalidGraph
  {
  }

  /** The graph-driven builder uses landmark slots only for halo2 and halo3 with
      `fix_parents`; otherwise no parent is ever overridden. */
  lemma SlotsOnlyForHalo2And3(armature: Option<nat>, jma: Animation, hasA: bool, fixParents: bool, game: string)
    requires SelectMode(armature, jma, hasA, fixParents, game).FromGraph?
    ensures SelectMode(armature, jma, hasA, fixParents, game).fixSlots <==>
      fixParents && (game == "halo2" || game == "halo3")
  {
  }

  /** An armature as the frame loop uses it: its bones, their current pose
      matrices, and the object's location and rotation. */
  datatype Rig = Rig(bones: seq<ArmatureBone>, pose: seq<Mat>, location: Vec3, rotation: Euler)

  predicate ValidRig(r: Rig)
  {
    ValidArmature(r.bones) && |r.pose| == |r.bones|
  }

  /** The names `pose.bones[name]` looks up, in bone order. */
  function RigBoneNames(bones: seq<ArmatureBone>): seq<string>
  {
    Names(bones, (b: ArmatureBone) => b.name)
  }

  const Origin := Vec3(0.0, 0.0, 0.0)
  const NoRotation := Euler(Radians(0.0), Radians(0.0), Radians(0.0))

  /** A freshly built armature: one bone per edit bone, under the same parent,
      posed at its rest matrix, with the object at the origin. */
  function RigOf(nodes: seq<Node>, bones: seq<EditBone>): (r: Rig)
    requires Hierarchy(nodes, bones)
    ensures ValidRig(r) && RigBoneNames(r.bones) == BoneNames(bones)
  {
    Rig(seq(|bones|, i requires 0 <= i < |bones| => ArmatureBone(bones[i].name, bones[i].parent)),
        seq(|bones|, i requires 0 <= i < |bones| => bones[i].matrix),
        Origin, NoRotation)
  }

  /** Everything `build_scene` reads. The scene objects come with their rigs;
      `layerOrder` is the external `sort_by_layer` of the armature in use, and
      the three thresholds are the external `get_version_matrix_check` for
      ("JMS", game), ("JMS") and ("JMA"). */
  datatype SceneInputs = SceneInputs(
    objects: seq<SceneObject>, rigs: seq<Rig>,
    jma: Animation, a: Option<Reference>, b: Option<Reference>,
    game: string, fixParents: bool, fixRotations: bool,
    jmsGameThreshold: int, jmsThreshold: int, jmaThreshold: int,
    layerOrder: seq<string>)

  /** What the parsers and the host guarantee: well-formed files, one rig per
      scene object with the object's bone names, a layer order with one entry
      per node for version 16390, and controller transforms for every frame when
      the controller is enabled. */
  predicate ValidScene(inp: SceneInputs)
  {
    WellFormedAnimation(inp.jma) &&
    (inp.a.Some? ==> WellFormedReference(inp.a.value)) &&
    (inp.b.Some? ==> WellFormedReference(inp.b.value)) &&
    |inp.rigs| == |inp.objects| &&
    (forall i :: 0 <= i < |inp.rigs| ==>
       ValidRig(inp.rigs[i]) && RigBoneNames(inp.rigs[i].bones) == inp.objects[i].boneNames) &&
    (inp.jma.version == 16390 ==> |inp.layerOrder| == |inp.jma.nodes|) &&
    (inp.jma.controllerFrameType != DISABLE ==> |inp.jma.transforms| <= |inp.jma.controllerTransforms|)
  }

  /** How an import ends, with every report given on the way. */
  datatype ImportResult =
    | Cancelled(reports: seq<Report>)
    | Crashed(crash: Crash, reports: seq<Report>)
    | Finished(reports: seq<Report>, scene: Scene)

  /** The names the frame loop visits: the animation's nodes, or the layer
      order of the armature for version 16390. */
  function PoseNames(inp: SceneInputs): (r: seq<string>)
    ensures ValidScene(inp) ==> |r| == |inp.jma.nodes|
  {
    if inp.jma.version == 16390 then inp.layerOrder else NodeNames(inp.jma.nodes)
  }

  function PoseInputsOf(inp: SceneInputs, rig: Rig, order: seq<nat>): PoseInputs
  {
    PoseInputs(rig.bones, order, inp.jma.transforms, inp.jma.controllerFrameType,
      inp.jma.controllerTransforms, inp.fixRotations, inp.jma.version)
  }

  function InitialScene(rig: Rig): Scene
  {
    Scene(rig.location, rig.rotation, rig.pose, [])
  }

  /** The frame loop on a rig. The pose bones are looked up inside the first
      frame, so without frames no lookup can fail. */
  function Animate(inp: SceneInputs, rig: Rig, reports: seq<Report>): (r: ImportResult)
    requires ValidScene(inp) && ValidRig(rig)
    ensures r.Finished? ==> r.reports == reports + [ImportCompleted]
    ensures r.Crashed? ==> r.reports == reports && r.crash.UnknownPoseBone?
    ensures !r.Cancelled?
  {
    if |inp.jma.transforms| == 0 then Finished(reports + [ImportCompleted], InitialScene(rig))
    else
      match PoseOrder(RigBoneNames(rig.bones), PoseNames(inp))
      case Raised(c) =>
        assert c.UnknownPoseBone? by { PoseOrderCrash(RigBoneNames(rig.bones), PoseNames(inp)); }
        Crashed(c, reports)
      case Done(order) =>
        var pinp := PoseInputsOf(inp, rig, order);
        assert ValidPoseInputs(pinp);
        Finished(reports + [ImportCompleted], Play(pinp, InitialScene(rig), |inp.jma.transforms|))
  }

  /** A failed pose lookup names the missing bone. */
  lemma {:induction false} PoseOrderCrash(boneNames: seq<string>, names: seq<string>)
    ensures PoseOrder(boneNames, names).Raised? ==> PoseOrder(boneNames, names).crash.UnknownPoseBone?
  {
    if |names| > 0 {
      PoseOrderCrash(boneNames, names[..|names| - 1]);
    }
  }

  /** The arguments of the graph-driven builder. */
  function JmaInputsOf(inp: SceneInputs, check: CheckResult, fixSlots: bool): JmaSkeleton.JmaInputs
  {
    var slots := if fixSlots then ScanSlots(EmptySlots, NodeNames(inp.jma.nodes)) else EmptySlots;
    JmaSkeleton.JmaInputs(inp.jma, inp.a, check.aInvalid, inp.b, check.bInvalid, check.aNames, check.bNames,
      slots, inp.fixRotations, inp.jmsThreshold, inp.jmaThreshold)
  }

  /** The arguments of the reference-driven builder. */
  function JmsInputsOf(inp: SceneInputs, check: CheckResult): JmsSkeleton.JmsInputs
    requires inp.a.Some?
  {
    JmsSkeleton.JmsInputs(inp.jma, inp.a.value, inp.b, check.aNames, check.bNames, inp.fixRotations, inp.jmsGameThreshold)
  }

  lemma JmaSetup(inp: SceneInputs, fixSlots: bool)
    requires ValidScene(inp)
    ensures JmaSkeleton.ValidSetup(JmaInputsOf(inp, FileCheck(inp.a, inp.b, NodeNames(inp.jma.nodes)), fixSlots))
  {
    ScanFromEmpty(NodeNames(inp.jma.nodes));
  }

  /** The armature built when none in the scene can be used: from the
      animation's own graph, or from the references. */
  function BuiltRig(inp: SceneInputs, check: CheckResult, mode: Mode): (r: Outcome<Rig>)
    requires ValidScene(inp) && check == FileCheck(inp.a, inp.b, NodeNames(inp.jma.nodes))
    requires mode.FromGraph? || (mode.FromReferences? && inp.a.Some?)
    ensures r.Done? ==> ValidRig(r.value)
  {
    if mode.FromGraph? then
      JmaSetup(inp, mode.fixSlots);
      match JmaSkeleton.Build(JmaInputsOf(inp, check, mode.fixSlots))
      case Raised(c) => Raised(c)
      case Done(bones) => Done(RigOf(inp.jma.nodes, bones))
    else
      match JmsSkeleton.Build(JmsInputsOf(inp, check))
      case Raised(c) => Raised(c)
      case Done(bones) => Done(RigOf(inp.jma.nodes, bones))
  }

  /** The whole import. */
  function Import(inp: SceneInputs): (r: ImportResult)
    requires ValidScene(inp)
  {
    var names := NodeNames(inp.jma.nodes);
    var search := Search(inp.objects, inp.jma.version, names, |inp.objects|);
    var warnings := ArmatureWarnings(search.sceneNodes, names);
    if search.armature.Some? then Animate(inp, inp.rigs[search.armature.value], warnings)
    else
      var check := FileCheck(inp.a, inp.b, names);
      var reports := warnings + check.reports;
      var mode := SelectMode(None, inp.jma, inp.a.Some?, inp.fixParents, inp.game);
      if mode.Cancel? then Cancelled(reports + [mode.error])
      else
        match BuiltRig(inp, check, mode)
        case Raised(c) => Crashed(c, reports)
        case Done(rig) => Animate(inp, rig, reports)
  }

  /** The frame loop on the armature in use. */
  method PlayOn(inp: SceneInputs, rig: Rig, reports: seq<Report>) returns (r: ImportResult)
    requires ValidScene(inp) && ValidRig(rig)
    ensures r == Animate(inp, rig, reports)
  {
    var armature := new ArmatureObject(rig.location, rig.rotation, rig.pose);
    if |inp.jma.transforms| > 0 {
      var order := PoseOrder(RigBoneNames(rig.bones), PoseNames(inp));
      if order.Raised? {
        return Crashed(order.crash, reports);
      }
      armature.PlayAll(PoseInputsOf(inp, rig, order.value));
    }
    r := Finished(reports + [ImportCompleted], armature.Value());
  }

  /** `build_scene`. */
  method BuildScene(inp: SceneInputs) returns (r: ImportResult)
    requires ValidScene(inp)
    ensures r == Import(inp)
  {
    var jmaNodes := CollectNames(inp.jma.nodes);
    var armature, sceneNodes := FindArmature(inp.objects, inp.jma.version, jmaNodes);
    var reports := WarnMissingNodes(sceneNodes, jmaNodes);
    var mode := SelectMode(armature, inp.jma, inp.a.Some?, inp.fixParents, inp.game);
    var rig: Rig;
    if mode.UseArmature? {
      rig := inp.rigs[mode.index];
    } else {
      var aNames, bNames, aInvalid, bInvalid, checkReports := JmsFileCheck(inp.a, inp.b, jmaNodes);
      reports := reports + checkReports;
      if mode.Cancel? {
        return Cancelled(reports + [mode.error]);
      }
      var built := BuildRig(inp, CheckResult(aNames, bNames, aInvalid, bInvalid, checkReports), mode);
      if built.Raised? {
        return Crashed(built.crash, reports);
      }
      rig := built.value;
    }
    r := PlayOn(inp, rig, reports);
  }

  /** Runs the builder the mode selects and wraps its bones as a rig. */
  method BuildRig(inp: SceneInputs, check: CheckResult, mode: Mode) returns (r: Outcome<Rig>)
    requires ValidScene(inp) && check == FileCheck(inp.a, inp.b, NodeNames(inp.jma.nodes))
    requires mode.FromGraph? || (mode.FromReferences? && inp.a.Some?)
    ensures r == BuiltRig(inp, check, mode)
  {
    var built: Outcome<seq<EditBone>>;
    if mode.FromGraph? {
      var parentIdClass := new ParentIdFix();
      if mode.fixSlots {
        parentIdClass.SetParentIdClass(inp.jma.nodes);
      }
      var jinp := JmaSkeleton.JmaInputs(inp.jma, inp.a, check.aInvalid, inp.b, check.bInvalid, check.aNames, check.bNames,
        parentIdClass.Value(), inp.fixRotations, inp.jmsThreshold, inp.jmaThreshold);
      assert jinp == JmaInputsOf(inp, check, mode.fixSlots);
      JmaSetup(inp, mode.fixSlots);
      built := JmaSkeleton.GenerateJmaSkeleton(jinp);
    } else {
      var jinp := JmsSkeleton.JmsInputs(inp.jma, inp.a.value, inp.b, check.aNames, check.bNames, inp.fixRotations, inp.jmsGameThreshold);
      assert jinp == JmsInputsOf(inp, check);
      built := JmsSkeleton.GenerateJmsSkeleton(jinp);
    }
    if built.Raised? {
      return Raised(built.crash);
    }
    r := Done(RigOf(inp.jma.nodes, built.value));
  }

  /** The import is cancelled exactly when no armature is found, the graph is
      broken or older than 16392, and no reference A is given; nothing but the
      missing-node warnings precedes the error. */
  lemma CancelledIff(inp: SceneInputs)
    requires ValidScene(inp)
    ensures var names := NodeNames(inp.jma.nodes);
      var search := Search(inp.objects, inp.jma.version, names, |inp.objects|);
      (Import(inp).Cancelled? <==>
        search.armature.None? && (inp.jma.brokenSkeleton || inp.jma.version < 16392) && inp.a.None?) &&
      (Import(inp).Cancelled? ==>
        Import(inp).reports == ArmatureWarnings(search.sceneNodes, names) + [AbortedInvalidGraph])
  {
  }

  /** With a usable armature in the scene the references are never checked:
      a finished import reports only the missing-node warnings and completion. */
  lemma ExistingArmatureSkipsReferences(inp: SceneInputs)
    requires ValidScene(inp)
    requires Search(inp.objects, inp.jma.version, NodeNames(inp.jma.nodes), |inp.objects|).armature.Some?
    ensures var names := NodeNames(inp.jma.nodes);
      var search := Search(inp.objects, inp.jma.version, names, |inp.objects|);
      !Import(inp).Cancelled? &&
      (Import(inp).Finished? ==> Import(inp).reports == ArmatureWarnings(search.sceneNodes, names) + [ImportCompleted])
  {
  }

  /** A finished import always ends with the completion message. */
  lemma FinishedEndsWithCompletion(inp: SceneInputs)
    requires ValidScene(inp) && Import(inp).Finished?
    ensures |Import(inp).reports| > 0 && Import(inp).reports[|Import(inp).reports| - 1] == ImportCompleted
  {
  }

  /** The indices `0 .. n - 1` in order. */
  function Identity(n: nat): (r: seq<nat>)
    ensures |r| == n && forall i :: 0 <= i < n ==> r[i] == i
  {
    seq(n, i requires 0 <= i < n => i as nat)
  }

  /** On a freshly built armature whose node names are unique, the frame loop
      visits the bones in creation order, and that order puts every parent
      before its child, so each frame is posed parent-first. */
  lemma {:induction false} FreshRigPosesParentFirst(nodes: seq<Node>, bones: seq<EditBone>)
    requires Hierarchy(nodes, bones) && |bones| == |nodes| && UniqueNames(nodes)
    ensures PoseOrder(RigBoneNames(RigOf(nodes, bones).bones), NodeNames(nodes)) == Done(Identity(|nodes|))
    ensures ParentFirst(RigOf(nodes, bones).bones, Identity(|nodes|))
  {
    var boneNames := RigBoneNames(RigOf(nodes, bones).bones);
    HierarchyNames(nodes, bones);
    assert boneNames == NodeNames(nodes);
    OrderOfUniqueNames(NodeNames(nodes), |nodes|);
    assert NodeNames(nodes)[..|nodes|] == NodeNames(nodes);
  }

  /** Looking up each of the first `k` of a list of unique names in that same
      list finds each at its own index. */
  lemma {:induction false} OrderOfUniqueNames(names: seq<string>, k: nat)
    requires k <= |names| && forall i, j :: 0 <= i < j < |names| ==> names[i] != names[j]
    ensures PoseOrder(names, names[..k]) == Done(Identity(k))
  {
    if k > 0 {
      OrderOfUniqueNames(names, k - 1);
      assert names[..k][..k - 1] == names[..k - 1];
      assert names[..k][k - 1] == names[k - 1];
      assert BoneNamed(names, names[k - 1]) == Some(k - 1);
      assert Identity(k - 1) + [k - 1] == Identity(k);
    }
  }
}

