/** Transforms and matrices. The floating-point matrix algebra of the importer is
    not modelled: a matrix is a symbolic term, and `Compose(a, b)` (Python's
    `a @ b`) is a free constructor, so the verifier can only tell which
    composition was chosen, never what it evaluates to. */
module Transforms {
  import opened Base

  datatype Vec3 = Vec3(x: real, y: real, z: real)
  datatype Quat = Quat(w: real, x: real, y: real, z: real)

  /** One node's transform as read from an animation or reference skeleton. */
  datatype Transform = Transform(translation: Vec3, rotation: Quat, scale: real)

  datatype Mat =
    | Translation(offset: Vec3)      // Matrix.Translation(v)
    | Rotation(q: Quat)              // q.to_matrix().to_4x4()
    | UniformScale(factor: real)     // Matrix.Scale(s, 4, (1, 1, 1))
    | RotZ(degrees: int)             // Matrix.Rotation(radians(d), 4, 'Z')
    | Compose(left: Mat, right: Mat) // left @ right

  /** `Matrix.Translation(t) @ rotation`: the local rest matrix of a bone. */
  function RestLocal(t: Transform): Mat
  {
    Compose(Translation(t.translation), Rotation(t.rotation))
  }

  /** `Matrix.Translation(t) @ rotation @ scale`, left-associated as Python evaluates it. */
  function PoseLocal(t: Transform): Mat
  {
    Compose(Compose(Translation(t.translation), Rotation(t.rotation)), UniformScale(t.scale))
  }

  /** Number of axis-correction rotations inside a matrix term. */
  function RotZCount(m: Mat): nat
  {
    match m
    case RotZ(_) => 1
    case Compose(l, r) => RotZCount(l) + RotZCount(r)
    case _ => 0
  }

  /** The matrix written to a bone, shared by the rest pose and every animated frame:
      with `fixRotations` the parent is followed by +90 degrees about Z and the
      result is always followed by -90 degrees about Z; without it the parent
      matrix is pre-multiplied alone. The parent is used only when the version
      gate is open and the bone has a parent. */
  function Place(fixRotations: bool, versionGate: bool, parent: Option<Mat>, local: Mat): (m: Mat)
    ensures fixRotations ==> m.Compose? && m.right == RotZ(-90)
    ensures !(versionGate && parent.Some?) ==> m == (if fixRotations then Compose(local, RotZ(-90)) else local)
  {
    if fixRotations then
      var base := if versionGate && parent.Some? then Compose(Compose(parent.value, RotZ(90)), local) else local;
      Compose(base, RotZ(-90))
    else if versionGate && parent.Some? then Compose(parent.value, local)
    else local
  }

  /** Whether the parent's matrix is pre-multiplied in `Place`. */
  predicate UsesParent(versionGate: bool, parent: Option<Mat>)
  {
    versionGate && parent.Some?
  }

  /** Without the rotation fix, a child below the gate is exactly `parent @ local`,
      and at or above it exactly `local`. This reads the unfixed branch of `Place`
      back as a statement; the builders' use of it is stated in
      `JmsSkeleton.OldChildComposed` and `JmaSkeleton.OldChildComposed`. */
  lemma UnfixedPlacement(versionGate: bool, parent: Option<Mat>, local: Mat)
    ensures UsesParent(versionGate, parent) ==> Place(false, versionGate, parent, local) == Compose(parent.value, local)
    ensures !UsesParent(versionGate, parent) ==> Place(false, versionGate, parent, local) == local
  {
  }

  /** Removing the trailing -90 degree correction from a fixed placement leaves the
      unfixed placement against the parent already turned by +90 degrees. This
      reads the fixed branch of `Place` back against the unfixed one; the count of
      added rotations is `PlacementRotations`, and the builders' use of it is stated
      in `RootNotComposed` and `OldChildComposed` of both skeleton modules. */
  lemma FixedPlacementUndone(versionGate: bool, parent: Option<Mat>, local: Mat)
    ensures var m := Place(true, versionGate, parent, local);
      m.Compose? && m.right == RotZ(-90) &&
      m.left == Place(false, versionGate, if parent.Some? then Some(Compose(parent.value, RotZ(90))) else None, local)
  {
  }

  /** Without the rotation fix no correction rotation is ever added; with it,
      exactly one is added, plus one more when the parent is used. */
  lemma {:induction false} PlacementRotations(fixRotations: bool, versionGate: bool, parent: Option<Mat>, local: Mat)
    ensures var p := if UsesParent(versionGate, parent) then RotZCount(parent.value) else 0;
      RotZCount(Place(fixRotations, versionGate, parent, local)) ==
        p + RotZCount(local) + (if !fixRotations then 0 else if UsesParent(versionGate, parent) then 2 else 1)
  {
    var m := Place(fixRotations, versionGate, parent, local);
    if fixRotations {
      assert RotZCount(m) == RotZCount(m.left) + 1;
      if UsesParent(versionGate, parent) {
        assert m.left == Compose(Compose(parent.value, RotZ(90)), local);
        assert RotZCount(Compose(parent.value, RotZ(90))) == RotZCount(parent.value) + 1;
      }
    } else if UsesParent(versionGate, parent) {
      assert m == Compose(parent.value, local);
    }
  }

  /** The rest-pose gate of both skeleton builders: the source file's version is
      below the threshold and the bone is not a reference root. */
  predicate RestVersionGate(fileVersion: int, threshold: int, isRoot: bool)
  {
    fileVersion < threshold && !isRoot
  }

  /** The per-frame gate of the pose loop, written as the importer writes it. */
  predicate PoseVersionGate(fixRotations: bool, version: int)
  {
    if fixRotations then version > 16390 || version < 16394 else version < 16394
  }

  /** `version > 16390 or version < 16394` holds for every integer, so with the
      rotation fix the pose gate reduces to "the bone has a parent". */
  lemma FixedPoseGateAlwaysOpen(version: int)
    ensures PoseVersionGate(true, version)
  {
  }

  /** Without the rotation fix the pose gate is open exactly below 16394. */
  lemma UnfixedPoseGate(version: int)
    ensures PoseVersionGate(false, version) <==> version < 16394
  {
  }
}
