/** The frame loop of `build_scene`: for every frame the biped-controller flags
    overwrite axes of the armature object's location and rotation, then every
    bone in the pose order gets its pose matrix from that frame's transform,
    composed with its parent's current pose matrix under the pose version gate.
    Object and bone state persists from one frame to the next. */
module Pose {
  import opened Base
  import opened Transforms
  import opened Assets

  /** The biped-controller frame-type flags. */
  const DISABLE: bv32 := 0
  const DX: bv32 := 1
  const DY: bv32 := 2
  const DZ: bv32 := 4
  const DYAW: bv32 := 8

  /** A rotation angle: a stored value, or the yaw (`to_euler().z`) of a quaternion. */
  datatype Angle = Radians(value: real) | YawOf(q: Quat)
  datatype Euler = Euler(x: Angle, y: Angle, z: Angle)

  /** A bone of the armature being animated: its name and its parent bone. */
  datatype ArmatureBone = ArmatureBone(name: string, parent: Option<nat>)

  predicate ValidArmature(bones: seq<ArmatureBone>)
  {
    forall i :: 0 <= i < |bones| && bones[i].parent.Some? ==> bones[i].parent.value < |bones|
  }

  /** A keyframe inserted by the loop: the object's location and rotation, or
      one bone's pose matrix, at a 1-based frame number. */
  datatype Key =
    | ObjectKey(frame: nat, location: Vec3, rotation: Euler)
    | BoneKey(frame: nat, bone: nat, matrix: Mat)

  /** The animated state: object location and rotation, each bone's pose
      matrix, and the keyframes inserted so far. */
  datatype Scene = Scene(location: Vec3, rotation: Euler, matrices: seq<Mat>, keys: seq<Key>)

  /** Whether a flag bit is set in the frame type. */
  predicate Has(frameType: bv32, flag: bv32)
  {
    frameType & flag != 0
  }

  /** The object location after one frame's controller update. */
  function ControlledLocation(frameType: bv32, t: Transform, loc: Vec3): Vec3
  {
    Vec3(
      if Has(frameType, DX) then t.translation.x else loc.x,
      if Has(frameType, DY) then t.translation.y else loc.y,
      if Has(frameType, DZ) then t.translation.z else loc.z)
  }

  /** The object rotation after one frame's controller update. */
  function ControlledRotation(frameType: bv32, t: Transform, rot: Euler): Euler
  {
    if Has(frameType, DYAW) then rot.(z := YawOf(t.rotation)) else rot
  }

  /** One frame's controller update, keyed, unless the frame type is DISABLE. */
  function Controlled(s: Scene, frame: nat, frameType: bv32, t: Transform): (r: Scene)
    ensures r.matrices == s.matrices
  {
    if frameType == DISABLE then s
    else
      var loc := ControlledLocation(frameType, t, s.location);
      var rot := ControlledRotation(frameType, t, s.rotation);
      Scene(loc, rot, s.matrices, s.keys + [ObjectKey(frame, loc, rot)])
  }

  /** The pose matrix of bone `b` from local transform `local`, against its
      parent's current pose matrix. */
  function PoseMatrix(bones: seq<ArmatureBone>, m: seq<Mat>, fixRotations: bool, version: int, b: nat, local: Mat): Mat
    requires ValidArmature(bones) && |m| == |bones| && b < |bones|
  {
    var parent := if bones[b].parent.Some? then Some(m[bones[b].parent.value]) else None;
    Place(fixRotations, PoseVersionGate(fixRotations, version), parent, local)
  }

  /** Posing one bone: its matrix is written and keyed; nothing else changes. */
  function PosedBone(bones: seq<ArmatureBone>, s: Scene, frame: nat, fixRotations: bool, version: int, b: nat, t: Transform): (r: Scene)
    requires ValidArmature(bones) && |s.matrices| == |bones| && b < |bones|
    ensures |r.matrices| == |bones| && r.location == s.location && r.rotation == s.rotation
  {
    var matrix := PoseMatrix(bones, s.matrices, fixRotations, version, b, PoseLocal(t));
    Scene(s.location, s.rotation, s.matrices[b := matrix], s.keys + [BoneKey(frame, b, matrix)])
  }

  /** The inputs of the frame loop. `order` lists armature bone indices in the
      order the loop visits them, one per entry of each frame. */
  datatype PoseInputs = PoseInputs(
    bones: seq<ArmatureBone>, order: seq<nat>, frames: seq<seq<Transform>>,
    frameType: bv32, controller: seq<Transform>, fixRotations: bool, version: int)

  predicate ValidPoseInputs(inp: PoseInputs)
  {
    ValidArmature(inp.bones) &&
    (forall k :: 0 <= k < |inp.order| ==> inp.order[k] < |inp.bones|) &&
    (forall f :: 0 <= f < |inp.frames| ==> |inp.order| <= |inp.frames[f]|) &&
    (inp.frameType != DISABLE ==> |inp.frames| <= |inp.controller|)
  }

  /** The first `k` bones of the order posed from frame `f`. */
  function PoseBones(inp: PoseInputs, s: Scene, f: nat, k: nat): (r: Scene)
    requires ValidPoseInputs(inp) && f < |inp.frames| && k <= |inp.order| && |s.matrices| == |inp.bones|
    ensures |r.matrices| == |inp.bones| && r.location == s.location && r.rotation == s.rotation
  {
    if k == 0 then s
    else PosedBone(inp.bones, PoseBones(inp, s, f, k - 1), f + 1, inp.fixRotations, inp.version, inp.order[k - 1], inp.frames[f][k - 1])
  }

  /** One whole frame: the controller update, then every bone of the order. */
  function PlayFrame(inp: PoseInputs, s: Scene, f: nat): (r: Scene)
    requires ValidPoseInputs(inp) && f < |inp.frames| && |s.matrices| == |inp.bones|
    ensures |r.matrices| == |inp.bones|
  {
    var c := if inp.frameType == DISABLE then s else Controlled(s, f + 1, inp.frameType, inp.controller[f]);
    PoseBones(inp, c, f, |inp.order|)
  }

  /** The state after the first `n` frames. */
  function Play(inp: PoseInputs, s: Scene, n: nat): (r: Scene)
    requires ValidPoseInputs(inp) && n <= |inp.frames| && |s.matrices| == |inp.bones|
    ensures |r.matrices| == |inp.bones|
  {
    if n == 0 then s else PlayFrame(inp, Play(inp, s, n - 1), n - 1)
  }

  /** `armature.pose.bones[name]` for every name of the pose order, in order;
      the first name the armature lacks stops the loop. */
  function PoseOrder(boneNames: seq<string>, names: seq<string>): (r: Outcome<seq<nat>>)
    ensures r.Done? ==> |r.value| == |names|
    ensures r.Done? ==> forall k :: 0 <= k < |names| ==> r.value[k] < |boneNames| && boneNames[r.value[k]] == names[k]
    ensures r.Raised? <==> exists k :: 0 <= k < |names| && names[k] !in boneNames
  {
    if |names| == 0 then Done([])
    else
      var pre := names[..|names| - 1];
      var last := names[|names| - 1];
      assert forall k :: 0 <= k < |pre| ==> pre[k] == names[k];
      match PoseOrder(boneNames, pre)
      case Raised(c) => Raised(c)
      case Done(o) =>
        match BoneNamed(boneNames, last)
        case None => Raised(UnknownPoseBone(last))
        case Some(i) => Done(o + [i])
  }

  /** A parent never comes after its child in the order, and no bone is
      visited twice in a frame. */
  predicate ParentFirst(bones: seq<ArmatureBone>, order: seq<nat>)
  {
    (forall j, k ::
       0 <= j < |order| && 0 <= k < |order| && order[k] < |bones| && bones[order[k]].parent == Some(order[j])
       ==> j < k) &&
    (forall j, k :: 0 <= j < k < |order| ==> order[j] != order[k])
  }

  /** With a parent-first order, every bone posed in a frame ends the frame
      composed against its parent's final matrix of that same frame. */
  lemma {:induction false} FrameConsistent(inp: PoseInputs, s: Scene, f: nat, n: nat)
    requires ValidPoseInputs(inp) && f < |inp.frames| && n <= |inp.order| && |s.matrices| == |inp.bones|
    requires ParentFirst(inp.bones, inp.order)
    ensures var m := PoseBones(inp, s, f, n).matrices;
      forall k :: 0 <= k < n ==>
        m[inp.order[k]] == PoseMatrix(inp.bones, m, inp.fixRotations, inp.version, inp.order[k], PoseLocal(inp.frames[f][k]))
  {
    if n > 0 {
      FrameConsistent(inp, s, f, n - 1);
      var prev := PoseBones(inp, s, f, n - 1).matrices;
      var m := PoseBones(inp, s, f, n).matrices;
      var b := inp.order[n - 1];
      assert m == prev[b := PoseMatrix(inp.bones, prev, inp.fixRotations, inp.version, b, PoseLocal(inp.frames[f][n - 1]))];
      forall k | 0 <= k < n
        ensures m[inp.order[k]] == PoseMatrix(inp.bones, m, inp.fixRotations, inp.version, inp.order[k], PoseLocal(inp.frames[f][k]))
      {
        var c := inp.order[k];
        var parent := inp.bones[c].parent;
        if parent.Some? {
          assert parent.value != b;
          assert m[parent.value] == prev[parent.value];
        }
      }
    }
  }

  /** Bones the order does not visit keep the pose matrix they had before the
      frame. */
  lemma {:induction false} UnvisitedBonesKept(inp: PoseInputs, s: Scene, f: nat, n: nat, b: nat)
    requires ValidPoseInputs(inp) && f < |inp.frames| && n <= |inp.order| && |s.matrices| == |inp.bones|
    requires b < |inp.bones| && forall k :: 0 <= k < n ==> inp.order[k] != b
    ensures PoseBones(inp, s, f, n).matrices[b] == s.matrices[b]
  {
    if n > 0 {
      UnvisitedBonesKept(inp, s, f, n - 1, b);
    }
  }

  /** Under the rotation fix a child is always posed against its parent, for
      every file version; without it, only below version 16394. */
  lemma PoseParentComposition(bones: seq<ArmatureBone>, m: seq<Mat>, fixRotations: bool, version: int, b: nat, local: Mat)
    requires ValidArmature(bones) && |m| == |bones| && b < |bones| && bones[b].parent.Some?
    ensures var p := m[bones[b].parent.value];
      PoseMatrix(bones, m, fixRotations, version, b, local) ==
        if fixRotations then Compose(Compose(Compose(p, RotZ(90)), local), RotZ(-90))
        else if version < 16394 then Compose(p, local)
        else local
  {
    FixedPoseGateAlwaysOpen(version);
  }

  /** The frame type `DX | DYAW` overwrites the x location and the yaw only:
      y, z, and the x and y rotations keep their values. */
  lemma ControllerIsolation(s: Scene, frame: nat, t: Transform)
    ensures var r := Controlled(s, frame, DX | DYAW, t);
      r.location == Vec3(t.translation.x, s.location.y, s.location.z) &&
      r.rotation == Euler(s.rotation.x, s.rotation.y, YawOf(t.rotation))
  {
    assert (DX | DYAW) & DX != 0 && (DX | DYAW) & DYAW != 0;
    assert (DX | DYAW) & DY == 0 && (DX | DYAW) & DZ == 0;
  }

  /** Across the frame loop each location axis and the yaw hold the value of the
      last frame whose flag set them, and otherwise the value they had before. */
  lemma {:induction false} ControllerCarriesOver(inp: PoseInputs, s: Scene, n: nat)
    requires ValidPoseInputs(inp) && n <= |inp.frames| && |s.matrices| == |inp.bones|
    ensures var r := Play(inp, s, n);
      var on := inp.frameType != DISABLE && n > 0;
      r.location.x == (if on && Has(inp.frameType, DX) then inp.controller[n - 1].translation.x else s.location.x) &&
      r.location.y == (if on && Has(inp.frameType, DY) then inp.controller[n - 1].translation.y else s.location.y) &&
      r.location.z == (if on && Has(inp.frameType, DZ) then inp.controller[n - 1].translation.z else s.location.z) &&
      r.rotation.x == s.rotation.x && r.rotation.y == s.rotation.y &&
      r.rotation.z == (if on && Has(inp.frameType, DYAW) then YawOf(inp.controller[n - 1].rotation) else s.rotation.z)
  {
    if n > 0 {
      ControllerCarriesOver(inp, s, n - 1);
    }
  }

  /** The armature object whose location, rotation and bone pose matrices the
      frame loop overwrites in place. */
  class ArmatureObject {
    var location: Vec3
    var rotationEuler: Euler
    var matrices: seq<Mat>
    var keys: seq<Key>

    function Value(): Scene
      reads this
    {
      Scene(location, rotationEuler, matrices, keys)
    }

    constructor(location: Vec3, rotationEuler: Euler, matrices: seq<Mat>)
      ensures Value() == Scene(location, rotationEuler, matrices, [])
    {
      this.location := location;
      this.rotationEuler := rotationEuler;
      this.matrices := matrices;
      this.keys := [];
    }

    /** The controller block of one frame (the caller has checked DISABLE). */
    method ApplyController(frame: nat, frameType: bv32, t: Transform)
      requires frameType != DISABLE
      modifies this
      ensures Value() == Controlled(old(Value()), frame, frameType, t)
    {
      if frameType & DX != 0 {
        location := location.(x := t.translation.x);
      }
      if frameType & DY != 0 {
        location := location.(y := t.translation.y);
      }
      if frameType & DZ != 0 {
        location := location.(z := t.translation.z);
      }
      if frameType & DYAW != 0 {
        rotationEuler := rotationEuler.(z := YawOf(t.rotation));
      }
      keys := keys + [ObjectKey(frame, location, rotationEuler)];
    }

    /** Poses one bone of one frame. */
    method PoseBone(bones: seq<ArmatureBone>, frame: nat, fixRotations: bool, version: int, b: nat, t: Transform)
      requires ValidArmature(bones) && |matrices| == |bones| && b < |bones|
      modifies this
      ensures Value() == PosedBone(bones, old(Value()), frame, fixRotations, version, b, t)
    {
      var transformMatrix := PoseLocal(t);
      var parent := bones[b].parent;
      if fixRotations {
        if (version > 16390 || version < 16394) && parent.Some? {
          transformMatrix := Compose(Compose(matrices[parent.value], RotZ(90)), transformMatrix);
        }
        transformMatrix := Compose(transformMatrix, RotZ(-90));
      } else {
        if version < 16394 && parent.Some? {
          transformMatrix := Compose(matrices[parent.value], transformMatrix);
        }
      }
      matrices := matrices[b := transformMatrix];
      keys := keys + [BoneKey(frame, b, transformMatrix)];
    }

    /** The frame loop. */
    method PlayAll(inp: PoseInputs)
      requires ValidPoseInputs(inp) && |matrices| == |inp.bones|
      modifies this
      ensures Value() == Play(inp, old(Value()), |inp.frames|)
    {
      var f := 0;
      while f < |inp.frames|
        invariant 0 <= f <= |inp.frames|
        invariant |matrices| == |inp.bones|
        invariant Value() == Play(inp, old(Value()), f)
      {
        ghost var start := Value();
        if inp.frameType != DISABLE {
          ApplyController(f + 1, inp.frameType, inp.controller[f]);
        }
        ghost var controlled := Value();
        var k := 0;
        while k < |inp.order|
          invariant 0 <= k <= |inp.order|
          invariant |matrices| == |inp.bones|
          invariant Value() == PoseBones(inp, controlled, f, k)
        {
          PoseBone(inp.bones, f + 1, inp.fixRotations, inp.version, inp.order[k], inp.frames[f][k]);
          k := k + 1;
        }
        f := f + 1;
      }
    }
  }
}
