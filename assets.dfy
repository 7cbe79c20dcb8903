/** The decoded assets the importer works on: the animation (JMA) with its node
    graph and frames, and up to two reference skeletons (JMS "A" and "B"), plus
    the edit bones the skeleton builders create and the node matcher both
    builders share. */
module Assets {
  import opened Base
  import opened Transforms

  /** A skeleton node. `parent` is `None` when the file stores no parent index. */
  datatype Node = Node(name: string, parent: Option<int>)

  /** The animation asset. `controllerFrameType` holds the biped-controller bit flags. */
  datatype Animation = Animation(
    version: int,
    nodes: seq<Node>,
    transforms: seq<seq<Transform>>,
    brokenSkeleton: bool,
    controllerFrameType: bv32,
    controllerTransforms: seq<Transform>)

  /** A reference skeleton; `transforms[0]` is its rest pose. */
  datatype Reference = Reference(version: int, nodes: seq<Node>, transforms: seq<seq<Transform>>)

  datatype FileId = JmaFile | JmsA | JmsB

  /** A bone length: the default tail of 5 units, or the external
      `get_bone_distance(file, index)` of the file that supplied the bone. */
  datatype Length = DefaultLength | BoneDistance(file: FileId, index: nat)

  /** An edit bone as the skeleton builders leave it: the name it was created
      with, its parent bone (an index into the bones created before it), its tail
      length and the matrix written to it. */
  datatype EditBone = EditBone(name: string, parent: Option<nat>, tail: Length, matrix: Mat)

  /** The messages the importer reports, in the order it reports them. */
  datatype Report =
    | NodeNotInJma(name: string)         // a reference node missing from the animation (warning)
    | RestFromReference                  // summary warning when one reference is given
    | RestFromReferences                 // summary warning when two references are given
    | NodeNotInArmature(name: string)    // an animation node missing from the scene armature (warning)
    | AbortedOldVersion                  // no armature, version too old (error)
    | AbortedInvalidGraph                // no armature, broken graph and no reference (error)
    | ImportCompleted                    // success (info)

  /** An exception that ends the import in the middle of building a skeleton. */
  datatype Crash =
    | NoRestSource(node: nat)          // no match, and the fallback reads `JMS_B` when there is none
    | NoRightHand(node: nat)           // a `gun` node falls back to an `r_hand` bone that was never seen
    | UnknownParentBone(node: nat)     // `edit_bones[name]` for a parent not created yet
    | UnboundRestTransform(node: nat)  // `jms_node` read before any node ever matched
    | UnknownPoseBone(name: string)    // `pose.bones[name]` for a name the armature lacks
    | NoFirstFrame                     // `JMA.transforms[0]` of an animation without frames

  datatype Outcome<T> = Done(value: T) | Raised(crash: Crash)

  /** Every parent index is `-1` or a node of the file, as the reference parser stores them. */
  predicate ParentsInRange(nodes: seq<Node>)
  {
    forall i :: 0 <= i < |nodes| ==> nodes[i].parent.None? || -1 <= nodes[i].parent.value < |nodes|
  }

  predicate WellFormedReference(r: Reference)
  {
    |r.nodes| >= 1 && ParentsInRange(r.nodes) &&
    (forall i :: 0 <= i < |r.nodes| ==> r.nodes[i].parent.Some?) &&
    |r.transforms| >= 1 && |r.transforms[0]| == |r.nodes|
  }

  /** Every frame of the animation holds one transform per node. */
  predicate WellFormedAnimation(a: Animation)
  {
    ParentsInRange(a.nodes) && forall f :: 0 <= f < |a.transforms| ==> |a.transforms[f]| == |a.nodes|
  }

  /** The names of a list of named entries, one per entry, in list order. */
  function Names<T>(xs: seq<T>, nameOf: T -> string): (r: seq<string>)
    ensures |r| == |xs| && forall i :: 0 <= i < |xs| ==> r[i] == nameOf(xs[i])
  {
    seq(|xs|, i requires 0 <= i < |xs| => nameOf(xs[i]))
  }

  /** `jma_nodes`: the animation's node names in node order. */
  function NodeNames(nodes: seq<Node>): seq<string>
  {
    Names(nodes, (n: Node) => n.name)
  }

  /** `created_bone_list`: the created bones' names in creation order. */
  function BoneNames(bones: seq<EditBone>): seq<string>
  {
    Names(bones, (b: EditBone) => b.name)
  }

  lemma BoneNamesAppend(bones: seq<EditBone>, b: EditBone)
    ensures BoneNames(bones + [b]) == BoneNames(bones) + [b.name]
  {
    assert forall i :: 0 <= i < |bones| ==> (bones + [b])[i] == bones[i];
  }

  /** `edit_bones[name]` and `pose.bones[name]`: the first bone created under that
      name. */
  function BoneNamed(created: seq<string>, name: string): (r: Option<nat>)
    ensures r.Some? ==> r.value < |created| && created[r.value] == name
    ensures r.Some? ==> forall j :: 0 <= j < r.value ==> created[j] != name
    ensures r.None? <==> name !in created
  {
    FirstIndex(created, n => n == name)
  }

  /** Node names without repeats. */
  predicate UniqueNames(nodes: seq<Node>)
  {
    forall i, j :: 0 <= i < j < |nodes| ==> nodes[i].name != nodes[j].name
  }

  /** The bones follow the nodes: bone `i` is named after node `i`, and every
      parent was created before its child. */
  predicate Hierarchy(nodes: seq<Node>, bones: seq<EditBone>)
  {
    |bones| <= |nodes| &&
    (forall i :: 0 <= i < |bones| ==> bones[i].name == nodes[i].name) &&
    (forall i :: 0 <= i < |bones| && bones[i].parent.Some? ==> bones[i].parent.value < i)
  }

  /** Extending a hierarchy by a bone named after the next node whose parent
      precedes it keeps it a hierarchy. */
  lemma PrefixHierarchy(nodes: seq<Node>, prev: seq<EditBone>, bones: seq<EditBone>)
    requires Hierarchy(nodes, prev) && |bones| == |prev| + 1 <= |nodes| && bones[..|prev|] == prev
    requires bones[|prev|].name == nodes[|prev|].name
    requires bones[|prev|].parent.Some? ==> bones[|prev|].parent.value < |prev|
    ensures Hierarchy(nodes, bones)
  {
    assert forall i :: 0 <= i < |prev| ==> bones[i] == prev[i];
  }

  /** Bone names of a hierarchy are the node names in order. */
  lemma HierarchyNames(nodes: seq<Node>, bones: seq<EditBone>)
    requires Hierarchy(nodes, bones)
    ensures BoneNames(bones) == NodeNames(nodes)[..|bones|]
  {
  }

  /** Node matching: `key` is the lower-cased animation node name, and a reference
      name matches when `key` is a substring of its lower-cased form. The loop over
      the reference names keeps overwriting, so the last match wins. */
  predicate NameMatches(refName: string, key: string)
  {
    Contains(Lower(refName), key)
  }

  function RefMatch(names: seq<string>, key: string): (r: Option<nat>)
    ensures r.Some? ==> r.value < |names| && NameMatches(names[r.value], key)
    ensures r.Some? ==> forall j :: r.value < j < |names| ==> !NameMatches(names[j], key)
    ensures r.None? <==> forall j :: 0 <= j < |names| ==> !NameMatches(names[j], key)
  {
    if |names| == 0 then None
    else if NameMatches(names[|names| - 1], key) then Some(|names| - 1)
    else RefMatch(names[..|names| - 1], key)
  }

  /** The reference node that supplies a bone: reference B is scanned after A, so
      any match in B overrides every match in A. */
  datatype Match = Match(file: FileId, index: nat)

  function Winner(aNames: seq<string>, bNames: seq<string>, key: string): (w: Option<Match>)
    ensures w.Some? ==> w.value.file in {JmsA, JmsB}
    ensures w.Some? && w.value.file == JmsB ==> w.value.index < |bNames| && RefMatch(bNames, key) == Some(w.value.index)
    ensures w.Some? && w.value.file == JmsA ==>
      w.value.index < |aNames| && RefMatch(aNames, key) == Some(w.value.index) && RefMatch(bNames, key).None?
    ensures w.None? <==> RefMatch(aNames, key).None? && RefMatch(bNames, key).None?
  {
    match RefMatch(bNames, key)
    case Some(j) => Some(Match(JmsB, j))
    case None =>
      match RefMatch(aNames, key)
      case Some(i) => Some(Match(JmsA, i))
      case None => None
  }

  /** Scanning one more name: the new name wins if it matches. */
  lemma RefMatchExtend(names: seq<string>, i: nat, key: string)
    requires i < |names|
    ensures RefMatch(names[..i + 1], key) ==
      if NameMatches(names[i], key) then Some(i) else RefMatch(names[..i], key)
  {
    var s := names[..i + 1];
    assert s[..|s| - 1] == names[..i];
  }

  /** Linear scan computing `RefMatch`, as the builders' inner loops do. */
  method FindLastMatch(names: seq<string>, key: string) returns (found: Option<nat>)
    ensures found == RefMatch(names, key)
  {
    found := None;
    var i := 0;
    while i < |names|
      invariant 0 <= i <= |names|
      invariant found == RefMatch(names[..i], key)
    {
      RefMatchExtend(names, i, key);
      var matches := NameMatches(names[i], key);
      if matches {
        found := Some(i);
      }
      i := i + 1;
    }
    assert names[..i] == names;
  }

  /** The reference-root test: the lower-cased node name is a substring of the
      lower-cased name of a reference's first node. */
  predicate IsRootOf(r: Reference, key: string)
    requires |r.nodes| >= 1
  {
    NameMatches(r.nodes[0].name, key)
  }
}
