# Halo animation import and level-generator helpers, modelled in Dafny

This project models two pieces of the Blender Halo toolset.

**Animation import (`build_scene`)** imports a JMA animation. It looks for an
armature in the scene that can take the animation. When there is none, it
builds a skeleton:

- from the animation's own node graph (`generate_jma_skeleton`), optionally
  with the landmark parent overrides of `set_parent_id_class`;
- or from one or two JMS reference skeletons (`generate_jms_skeleton`), after
  `jms_file_check` has compared their node names with the animation's.

It then plays every frame on the armature. The biped controller flags
overwrite single axes of the armature object's location and yaw, and each
bone gets its pose matrix.

**Level-generator helpers** (`generate_level.py`):

- `get_cell_settings` classifies a maze path cell as a hallway or one of
  eight junction shapes;
- `unduplicate_name` strips Blender's `.NNN` duplicate suffix;
- `process_dic_element` and `generate_string_from_dic` write a script
  dictionary as HSC text;
- `append_keys` merges a parsed configuration file into a gathered
  dictionary.

## How the model is built

Blender matrices are symbolic terms (`Transforms.Mat`). `Compose(a, b)` stands
for `a @ b` and is a free constructor, so the proofs are about which
composition is chosen, never about floating-point values.

The two skeleton builders are specified twice:

- as a step function over nodes (`JmaSkeleton.JmaStep`, `JmsSkeleton.JmsStep`),
  folded into a run (`JmaRun`, `JmsRun`);
- as methods with the source's loops and loop-carried variables
  (`file_version`, `is_fp_root_file_a`, `r_hand_idx`, `created_bone_list`),
  each proved equal to the specification.

An exception that would end the import is an `Outcome.Raised` value carrying
a `Crash` kind. These cases are:

- `edit_bones[name]` for a parent that does not exist yet;
- the unbound `jms_node`;
- the missing `JMS_B` fallback;
- `edit_bones[None]` for a `gun` node when no `r_hand` was seen;
- `pose.bones[name]` for a name the armature lacks.

The armature object (`Pose.ArmatureObject`) and the landmark slot record
(`Landmarks.ParentIdFix`) are classes whose methods update their fields, as
the source updates them in place. So is the gathered configuration
dictionary (`ConfigMerge.ConfigDictionary`).

Python dictionaries are sequences of entries in insertion order. Strings are
`seq<char>`.

Some behaviours of the code are easy to miss. The model follows the code
in each case:

- **Graph mode builds the bones in node order.** Each bone's parent is looked
  up with `edit_bones[parent]` (`build_scene.py:132-144`). So a parent listed
  after its child, or a parent name that is not a bone yet, makes the lookup
  fail. The model raises `UnknownParentBone` there
  (`JmaSkeleton.UniqueNamesFollowGraph`).
- **Version 16390 never uses graph mode.** Graph mode needs version 16392 or
  later (`build_scene.py:305`). So an old animation with no armature in the
  scene and no reference is cancelled (`build_scene.py:331-334`,
  `ImportScene.CancelledIff`). The layer order for 16390
  (`build_scene.py:350-351`) applies only to the frame loop
  (`ImportScene.PoseNames`).
- **The old-version abort cannot happen.** The abort at `build_scene.py:318`
  sits under a repeated `version >= 16392` test (`build_scene.py:305-306`,
  `ImportScene.OldVersionAbortUnreachable`).
- **With the rotation fix, the pose gate is always open.** The gate
  `version > 16390 or version < 16394` at `build_scene.py:383` holds for every
  version. So parent composition depends only on the bone having a parent
  (`Transforms.FixedPoseGateAlwaysOpen`).
- **The controller overwrites the armature object's location and Euler z.**
  Each flagged axis is assigned the controller's value, not added to it
  (`build_scene.py:359-369`). No bone's pose matrix changes
  (`Pose.ControllerIsolation`, `Pose.ControllerCarriesOver`).
- **A node with no recorded parent name gets bone 0 as parent.** The `gun`
  fallback applies only when a parent name was recorded but matched no
  created bone (`build_scene.py:84-99`, `JmsSkeleton.MatchedParent`,
  `JmsSkeleton.UnmatchedStep`).

## Model

| member | source | states |
|---|---|---|
| Base.PyIndex | io_scene_halo/file_jma/build_scene.py:58-59 | A Python index in range names a position of the list; a negative one counts from the end, so the parent `-1` of a reference root names its last node |
| Base.LowerChar | io_scene_halo/file_jma/build_scene.py:45 | `lower()` maps an upper-case ASCII letter to a lower-case one and leaves every other character alone |
| Transforms.Place | io_scene_halo/file_jma/build_scene.py:110-121 | With the rotation fix the bone matrix always ends with the -90 degree Z rotation; when the gate is closed or there is no parent the result is the local matrix (followed by that rotation when fixing) |
| Transforms.UnfixedPlacement | io_scene_halo/file_jma/build_scene.py:117-121 | Without the rotation fix the matrix is `parent @ local` exactly when the gate is open and a parent exists, and `local` otherwise |
| Transforms.FixedPlacementUndone | io_scene_halo/file_jma/build_scene.py:111-115 | With the rotation fix the matrix is the unfixed placement against `parent @ R(+90)`, followed by `R(-90)` |
| Transforms.PlacementRotations | io_scene_halo/file_jma/build_scene.py:179-190 | The placement adds no axis rotation without the fix, one with the fix and no parent composition, two with parent composition |
| Transforms.FixedPoseGateAlwaysOpen | io_scene_halo/file_jma/build_scene.py:383 | `version > 16390 or version < 16394` is true for every version |
| Transforms.UnfixedPoseGate | io_scene_halo/file_jma/build_scene.py:391 | Without the rotation fix the pose gate is open exactly for versions below 16394 |
| Assets.Names | io_scene_halo/file_jma/build_scene.py:294-295 | `jma_nodes` holds one name per animation node, in node order; the same list function gives `created_bone_list`, one name per created bone in creation order |
| Assets.BoneNamed | io_scene_halo/file_jma/build_scene.py:144 | `edit_bones[name]` finds the first bone created with that name, and finds nothing exactly when no bone has it |
| Assets.HierarchyNames | io_scene_halo/file_jma/build_scene.py:132-133 | A built skeleton has one bone per node so far, named after that node, in node order |
| Assets.RefMatch | io_scene_halo/file_jma/build_scene.py:52-53 | The match in a reference is the last node whose lower-cased name contains the lower-cased key; there is none exactly when no node matches |
| Assets.Winner | io_scene_halo/file_jma/build_scene.py:52-71 | A match in B overrides any match in A; A's match wins only when B has none; no winner exactly when neither reference matches |
| Assets.FindLastMatch | io_scene_halo/file_jma/build_scene.py:52-53 | The matching loop ends with the last matching node |
| Landmarks.PelvisSlot | io_scene_halo/file_jma/build_scene.py:195-197 | The pelvis slot is the last node whose name contains `pelvis` |
| Landmarks.ThighSlots | io_scene_halo/file_jma/build_scene.py:199-204 | `thigh0` is the first `thigh` node; `thigh1` is the last later one, so a third thigh overwrites the second |
| Landmarks.SpineSlot | io_scene_halo/file_jma/build_scene.py:206-207 | The spine slot is the last node whose name contains `spine1` but not `thigh` |
| Landmarks.ClavicleSlots | io_scene_halo/file_jma/build_scene.py:209-214 | The clavicle slots follow the first/last rule over names with `clavicle` but neither `thigh` nor `spine1` |
| Landmarks.ScanFromEmpty | io_scene_halo/file_jma/build_scene.py:194-214 | The scan from empty slots fills every slot by those rules, and every filled slot is a node index |
| Landmarks.ParentIdFix.constructor | io_scene_halo/file_jma/build_scene.py:303 | A new slot record has every slot empty |
| Landmarks.ParentIdFix.SetParentIdClass | io_scene_halo/file_jma/build_scene.py:194-214 | The loop leaves the slots the scan of the node names makes of the slots it started with |
| Landmarks.OverrideParent | io_scene_halo/file_jma/build_scene.py:136-143 | There is no parent exactly when the graph's parent is `None` or `-1`; a changed parent is the pelvis slot (name with `thigh`) or the spine slot (name with `clavicle`) |
| Landmarks.NoOverrideWithoutSlots | io_scene_halo/file_jma/build_scene.py:311-315 | Without filled slots (no `fix_parents`, or not halo2 or halo3) the graph's own parent is kept |
| Landmarks.ThighsFollowPelvis | io_scene_halo/file_jma/build_scene.py:137-138 | With a pelvis and two thighs, every thigh node's parent becomes the pelvis |
| Landmarks.ClaviclesFollowSpine | io_scene_halo/file_jma/build_scene.py:140-141 | With a spine slot and two clavicles, every clavicle node that is not a thigh gets the spine as parent |
| Landmarks.SingleThighKeepsParent | io_scene_halo/file_jma/build_scene.py:137 | A lone thigh leaves `thigh1` empty, so it keeps the graph's parent |
| ReferenceCheck.MissingNames | io_scene_halo/file_jma/build_scene.py:225-227 | The missing names are reference names absent from the animation; there are none exactly when every name is present |
| ReferenceCheck.MissingNamesComplete | io_scene_halo/file_jma/build_scene.py:225-228 | Each absent name is listed as often as it occurs among the reference names, and a present name not at all |
| ReferenceCheck.MissingReports | io_scene_halo/file_jma/build_scene.py:241-244 | One warning per missing name occurrence, in order, naming it |
| ReferenceCheck.CollectNames | io_scene_halo/file_jma/build_scene.py:222-223 | The collected names are the reference's node names in order |
| ReferenceCheck.CheckNames | io_scene_halo/file_jma/build_scene.py:225-228 | The invalid flag is set exactly when some name is missing, with one warning per missing name |
| ReferenceCheck.JmsFileCheck | io_scene_halo/file_jma/build_scene.py:216-248 | Without A: empty lists, no flags, no reports. With A only: A's flag over A's names, B's flag false. With both: only B's flag, over A's names then B's. One summary warning when A is given |
| ReferenceCheck.InvalidIffReported | io_scene_halo/file_jma/build_scene.py:241-244 | A flag is set exactly when at least one missing-node warning is given |
| ReferenceCheck.ReportsNameMissingNodes | io_scene_halo/file_jma/build_scene.py:226-228 | Every missing-node warning names a reference node that the animation lacks |
| ArmatureSearch.Paired | io_scene_halo/file_jma/build_scene.py:281-285 | Every collected scene node name is both a bone name and a node name |
| ArmatureSearch.Search | io_scene_halo/file_jma/build_scene.py:270-292 | The armature chosen after `k` objects is one of those objects |
| ArmatureSearch.SearchPicksFirst | io_scene_halo/file_jma/build_scene.py:270-292 | The first non-ignored armature that accepts the animation is chosen; later ones are not examined |
| ArmatureSearch.LegacyCollectsNothing | io_scene_halo/file_jma/build_scene.py:274-276 | For version 16390 only the bone count is compared and no scene node names are collected |
| ArmatureSearch.CollectedAreNodeNames | io_scene_halo/file_jma/build_scene.py:281-285 | Every collected scene node name is an animation node name |
| ArmatureSearch.CoverFull | io_scene_halo/file_jma/build_scene.py:279-288 | For an armature with distinct bone names, the pair count never exceeds the node count and equals it exactly when every node name is a bone name |
| ArmatureSearch.PairCountMeansCoverage | io_scene_halo/file_jma/build_scene.py:287-288 | For distinct bone names, `exist_count == len(JMA.nodes)` exactly when every node has a bone of its name |
| ArmatureSearch.PairNames | io_scene_halo/file_jma/build_scene.py:279-285 | The nested loop collects the matching names and counts them |
| ArmatureSearch.FindArmature | io_scene_halo/file_jma/build_scene.py:270-292 | The search loop's armature and scene nodes are those of the search specification |
| ArmatureSearch.ArmatureWarnings | io_scene_halo/file_jma/build_scene.py:297-300 | No warnings when no scene nodes were collected; otherwise the i-th warning names the i-th missing node name, so every node missing from them is warned about once per occurrence |
| ArmatureSearch.WarnMissingNodes | io_scene_halo/file_jma/build_scene.py:297-300 | The warning loop gives those warnings |
| JmaSkeleton.GraphParent | io_scene_halo/file_jma/build_scene.py:134-136 | A node has a graph parent exactly when its parent index is neither `None` nor `-1`, and that parent is a node |
| JmaSkeleton.ResolvedParent | io_scene_halo/file_jma/build_scene.py:136-144 | The parent bone is an earlier bone; the lookup fails exactly when the parent node's name was not created yet |
| JmaSkeleton.JmaStep | io_scene_halo/file_jma/build_scene.py:132-190 | One node adds exactly one bone |
| JmaSkeleton.AddBone | io_scene_halo/file_jma/build_scene.py:168-190 | Adding a bone keeps the earlier bones and appends one |
| JmaSkeleton.JmaRun | io_scene_halo/file_jma/build_scene.py:132-190 | After `k` nodes without an exception there are `k` bones |
| JmaSkeleton.RaisedPersists | io_scene_halo/file_jma/build_scene.py:144 | An exception ends the builder; later nodes change nothing |
| JmaSkeleton.ParentOf | io_scene_halo/file_jma/build_scene.py:134-144 | The parent code gives the resolved parent or the failed lookup |
| JmaSkeleton.MatchRest | io_scene_halo/file_jma/build_scene.py:146-166 | The matching code gives the rest source, version and bone length of the winning match, or the animation's first frame without references |
| JmaSkeleton.TestRoot | io_scene_halo/file_jma/build_scene.py:170-177 | A node is a root exactly when its lower-cased name is in a valid reference's first node name |
| JmaSkeleton.AttachBone | io_scene_halo/file_jma/build_scene.py:168-190 | The bone gets its tail, parent and placed matrix |
| JmaSkeleton.BuildBone | io_scene_halo/file_jma/build_scene.py:132-190 | One iteration of the loop does the specified step |
| JmaSkeleton.Build | io_scene_halo/file_jma/build_scene.py:123-192 | A finished build has one bone per node, named after it, whose parent is an earlier bone |
| JmaSkeleton.GenerateJmaSkeleton | io_scene_halo/file_jma/build_scene.py:123-192 | The builder's loop gives the specified build, exception included |
| JmaSkeleton.StepAppends | io_scene_halo/file_jma/build_scene.py:132-144 | A step keeps the earlier bones, names the new bone after its node and parents it to an earlier bone |
| JmaSkeleton.RunHierarchy | io_scene_halo/file_jma/build_scene.py:132-144 | The bones built so far form a hierarchy over the nodes |
| JmaSkeleton.UniqueNamesFollowGraph | io_scene_halo/file_jma/build_scene.py:134-144 | With distinct node names, an earlier graph parent is kept; a node that is its own parent gets none; a later parent makes the lookup fail |
| JmaSkeleton.NoReferencesKeepAnimation | io_scene_halo/file_jma/build_scene.py:146-150 | Without usable references every bone's length comes from the animation and the version stays the animation's |
| JmaSkeleton.NoReferencesOnlyParentFails | io_scene_halo/file_jma/build_scene.py:136-150 | Without usable references a step fails exactly when the parent lookup fails |
| JmaSkeleton.MatchedNodeUsesWinner | io_scene_halo/file_jma/build_scene.py:150-166 | A matched node takes version, rest transform and bone length from the same winning match, B winning over A |
| JmaSkeleton.UnmatchedNodeReuses | io_scene_halo/file_jma/build_scene.py:150-166 | With references, an unmatched node reuses the previous node's rest transform and version, and fails exactly when no node matched before |
| JmaSkeleton.RootNotComposed | io_scene_halo/file_jma/build_scene.py:170-190 | A reference root's matrix is its local matrix, followed by `R(-90)` with the rotation fix |
| JmaSkeleton.OldChildComposed | io_scene_halo/file_jma/build_scene.py:179-190 | A parented non-root bone below the threshold gets `parent @ local`, or `((parent @ R(+90)) @ local) @ R(-90)` with the fix |
| JmsSkeleton.LastNamePart | io_scene_halo/file_jma/build_scene.py:84-87 | The parent is the last created bone whose name is part of the parent name; none exactly when no bone's name is |
| JmsSkeleton.ParentCandidate | io_scene_halo/file_jma/build_scene.py:84-90 | The parent candidate is a created bone |
| JmsSkeleton.ChooseParent | io_scene_halo/file_jma/build_scene.py:95-99 | The parent is the candidate, or the right hand for a `gun` without one, never the bone itself; it fails exactly for a `gun` with no candidate and no right hand |
| JmsSkeleton.JmsStep | io_scene_halo/file_jma/build_scene.py:42-121 | One node adds exactly one bone |
| JmsSkeleton.AddBone | io_scene_halo/file_jma/build_scene.py:95-121 | Adding a bone keeps the earlier bones and appends one |
| JmsSkeleton.JmsRun | io_scene_halo/file_jma/build_scene.py:42-121 | After `k` nodes without an exception there are `k` bones |
| JmsSkeleton.RaisedPersists | io_scene_halo/file_jma/build_scene.py:99 | An exception ends the builder; later nodes change nothing |
| JmsSkeleton.FindParentBone | io_scene_halo/file_jma/build_scene.py:84-90 | The parent loop gives the specified candidate |
| JmsSkeleton.MatchReferences | io_scene_halo/file_jma/build_scene.py:52-80 | The matching loops give the winning source, with the fallback rest transform, and set the first-person root flag when A's first node matches |
| JmsSkeleton.PlaceBone | io_scene_halo/file_jma/build_scene.py:110-121 | The matrix is the placement under the rest-pose gate |
| JmsSkeleton.ResolveParent | io_scene_halo/file_jma/build_scene.py:95-99 | The parent code gives the chosen parent or the failure |
| JmsSkeleton.TestRoot | io_scene_halo/file_jma/build_scene.py:101-108 | A node is a root exactly when its lower-cased name is in a reference's first node name |
| JmsSkeleton.AttachBone | io_scene_halo/file_jma/build_scene.py:82-121 | The bone gets its tail, parent and placed matrix |
| JmsSkeleton.BuildBone | io_scene_halo/file_jma/build_scene.py:42-121 | One iteration of the loop does the specified step |
| JmsSkeleton.FinishBone | io_scene_halo/file_jma/build_scene.py:82-121 | The second half of an iteration does the rest of the step |
| JmsSkeleton.Build | io_scene_halo/file_jma/build_scene.py:34-121 | A finished build has one bone per node, named after it, whose parent is an earlier bone |
| JmsSkeleton.GenerateJmsSkeleton | io_scene_halo/file_jma/build_scene.py:34-121 | The builder's loop gives the specified build, exception included |
| JmsSkeleton.StepAppends | io_scene_halo/file_jma/build_scene.py:42-99 | A step keeps the earlier bones, names the new bone after its node and parents it to an earlier bone |
| JmsSkeleton.RunHierarchy | io_scene_halo/file_jma/build_scene.py:42-99 | The bones built so far form a hierarchy over the nodes |
| JmsSkeleton.RunRightHand | io_scene_halo/file_jma/build_scene.py:45-46 | A node whose lower-cased name has `r_hand` or `r hand` becomes the right hand; otherwise it stays |
| JmsSkeleton.LastRightHandIsLast | io_scene_halo/file_jma/build_scene.py:45-46 | The right hand is the last right-hand node so far, and absent exactly when there is none |
| JmsSkeleton.RightHandTracked | io_scene_halo/file_jma/build_scene.py:45-46 | After `k` nodes `r_hand_idx` is the last right-hand node among them |
| JmsSkeleton.StepUsesWinner | io_scene_halo/file_jma/build_scene.py:52-71 | A matched node takes version, rest transform and bone length from the same winning match, B winning over A |
| JmsSkeleton.UnmatchedStep | io_scene_halo/file_jma/build_scene.py:73-90 | An unmatched node gets the default length and bone 0 as parent; its rest transform is A's first node once the first-person root flag is set, else B's first node, and it fails exactly when that needs a missing B |
| JmsSkeleton.MatchedParent | io_scene_halo/file_jma/build_scene.py:84-99 | A matched node's parent is the last created bone named inside its reference parent's name, else the right hand for a `gun`, else none; it fails exactly for a `gun` with neither |
| JmsSkeleton.RootNotComposed | io_scene_halo/file_jma/build_scene.py:101-121 | A reference root's matrix is its local matrix, followed by `R(-90)` with the rotation fix |
| JmsSkeleton.OldChildComposed | io_scene_halo/file_jma/build_scene.py:110-121 | A parented non-root bone below the threshold gets `parent @ local`, or `((parent @ R(+90)) @ local) @ R(-90)` with the fix |
| Pose.Controlled | io_scene_halo/file_jma/build_scene.py:356-373 | The controller touches no bone matrix |
| Pose.PosedBone | io_scene_halo/file_jma/build_scene.py:376-402 | Posing a bone leaves the armature's location and rotation alone |
| Pose.PoseBones | io_scene_halo/file_jma/build_scene.py:375-402 | The bone loop of a frame leaves the armature's location and rotation alone |
| Pose.PoseOrder | io_scene_halo/file_jma/build_scene.py:375-376 | Each visited name finds a bone of that name; the lookup fails exactly when some name has no bone |
| Pose.FrameConsistent | io_scene_halo/file_jma/build_scene.py:375-397 | With parents visited first, every posed bone's matrix is its frame transform placed against its parent's matrix of the same frame |
| Pose.UnvisitedBonesKept | io_scene_halo/file_jma/build_scene.py:375-402 | A bone the loop has not reached keeps its matrix |
| Pose.PoseParentComposition | io_scene_halo/file_jma/build_scene.py:382-395 | A parented bone gets `((parent @ R(+90)) @ local) @ R(-90)` with the fix, `parent @ local` below 16394 without it, else `local` |
| Pose.ControllerIsolation | io_scene_halo/file_jma/build_scene.py:359-369 | With DX and DYAW set, only location x and rotation z change, to the controller's values |
| Pose.ControllerCarriesOver | io_scene_halo/file_jma/build_scene.py:353-373 | After `n` frames each flagged axis holds the last frame's controller value and each other axis its value from before the loop |
| Pose.ArmatureObject.ApplyController | io_scene_halo/file_jma/build_scene.py:356-373 | The armature object is updated in place as the controller step specifies |
| Pose.ArmatureObject.PoseBone | io_scene_halo/file_jma/build_scene.py:376-402 | The armature object is updated in place as posing one bone specifies |
| Pose.ArmatureObject.PlayAll | io_scene_halo/file_jma/build_scene.py:353-402 | The frame loop leaves the armature object as playing all frames specifies |
| ImportScene.ModeCases | io_scene_halo/file_jma/build_scene.py:302-334 | A scene armature is used exactly when found; the graph is used exactly when it is sound and at least 16392; references exactly otherwise when A is given; cancel exactly otherwise |
| ImportScene.OldVersionAbortUnreachable | io_scene_halo/file_jma/build_scene.py:305-320 | The old-version abort is never chosen; every cancel is the invalid-graph one |
| ImportScene.SlotsOnlyForHalo2And3 | io_scene_halo/file_jma/build_scene.py:311-313 | Landmark slots are filled exactly with `fix_parents` for halo2 or halo3 |
| ImportScene.PoseNames | io_scene_halo/file_jma/build_scene.py:349-351 | The frame loop visits one name per node: the node names, or the layer order for 16390 |
| ImportScene.Animate | io_scene_halo/file_jma/build_scene.py:353-409 | Playing ends with the completion report, or fails at a missing pose bone; it never cancels |
| ImportScene.PoseOrderCrash | io_scene_halo/file_jma/build_scene.py:376 | A failed pose lookup is a missing pose bone |
| ImportScene.BuiltRig | io_scene_halo/file_jma/build_scene.py:302-329 | A built skeleton gives a well-formed armature |
| ImportScene.BuildRig | io_scene_halo/file_jma/build_scene.py:302-329 | The building code gives the specified armature or exception |
| ImportScene.PlayOn | io_scene_halo/file_jma/build_scene.py:353-409 | The frame loop gives the specified result |
| ImportScene.BuildScene | io_scene_halo/file_jma/build_scene.py:250-409 | The whole import gives the specified result, reports included |
| ImportScene.CancelledIff | io_scene_halo/file_jma/build_scene.py:302-334 | The import is cancelled exactly when no armature is found, the graph is broken or older than 16392, and there is no reference; it then reports the armature warnings and the invalid-graph error |
| ImportScene.ExistingArmatureSkipsReferences | io_scene_halo/file_jma/build_scene.py:297-302 | With a scene armature nothing is cancelled, and a finished import reports only the armature warnings and completion |
| ImportScene.FinishedEndsWithCompletion | io_scene_halo/file_jma/build_scene.py:407-409 | A finished import's last report is the completion message |
| ImportScene.FreshRigPosesParentFirst | io_scene_halo/file_jma/build_scene.py:375-376 | On a built skeleton with distinct names the frame loop visits the bones in node order, parents first |
| MazeCells.Table | io_scene_halo/misc/generate_level.py:94-202 | A junction is never a hallway, has scale 1 or -1, and is flipped whenever its scale is 1 |
| MazeCells.FirstJunction | io_scene_halo/misc/generate_level.py:94-202 | The junction found matches the neighbours; none is found exactly when no junction pattern matches |
| MazeCells.Shape | io_scene_halo/misc/generate_level.py:80-211 | A cell is a hallway exactly when its neighbours line up with it on x or on y; the scale is 1 or -1 |
| MazeCells.GetCellSettings | io_scene_halo/misc/generate_level.py:70-78 | There is a result exactly when both neighbour indices are valid Python indices; an inner cell is classified from its neighbours, cell 0 from the last and second cells |
| MazeCells.HallwayOrientation | io_scene_halo/misc/generate_level.py:80-91 | A hallway has scale 1; it is turned -90 and flipped when entered from lower y on the same x, +90 and flipped from higher y, and otherwise neither |
| MazeCells.JunctionsDisjoint | io_scene_halo/misc/generate_level.py:94-202 | At most one junction pattern matches |
| MazeCells.JunctionIsNoHallway | io_scene_halo/misc/generate_level.py:80-94 | A matching junction pattern is never a hallway |
| MazeCells.JunctionTable | io_scene_halo/misc/generate_level.py:94-202 | A matching junction gives its fixed rotation, scale and flip |
| MazeCells.UnrecognisedShapeDefaults | io_scene_halo/misc/generate_level.py:204-211 | A cell that is neither a hallway nor a junction gets rotation 0, scale 1, no flip |
| MazeCells.FlipAndMirrorOnlyWhereSet | io_scene_halo/misc/generate_level.py:80-202 | Only a turned hallway or junctions A to E are flipped; only a junction is mirrored |
| Names.LastDot | io_scene_halo/misc/generate_level.py:360-361 | The split point is the last `.`, and there is none exactly when the name has no `.` |
| Names.UnduplicateName | io_scene_halo/misc/generate_level.py:358-365 | The result is a prefix of the name; a name without `.` is kept; a shortened name lost its last `.` and a numeric suffix of at least three characters |
| Names.StripsNumericSuffix | io_scene_halo/misc/generate_level.py:362-363 | A name ending in `.` and at least three digits loses that suffix |
| Names.KeepsOtherSuffixes | io_scene_halo/misc/generate_level.py:359-365 | A name whose suffix after the last `.` is short or not numeric is kept whole |
| HscScript.AppendConditions | io_scene_halo/misc/generate_level.py:518-519 | The loop appends one condition line per condition |
| HscScript.AppendElement | io_scene_halo/misc/generate_level.py:516-522 | A body element appends its line or its `cond` block |
| HscScript.WriteHeader | io_scene_halo/misc/generate_level.py:510-513 | The header line of a script form |
| HscScript.AppendBody | io_scene_halo/misc/generate_level.py:515-522 | The loop appends the text of every body element in order |
| HscScript.ProcessDicElement | io_scene_halo/misc/generate_level.py:508-526 | One script form: header, body, closing |
| HscScript.ConditionLinesBreaks | io_scene_halo/misc/generate_level.py:518-519 | Conditions without line breaks give exactly one line each |
| HscScript.CondBlockLines | io_scene_halo/misc/generate_level.py:517-520 | A `cond` block has one line per condition plus its opening and closing lines |
| HscScript.HeaderNamesObjectOnlyWhenStatic | io_scene_halo/misc/generate_level.py:510-513 | A static script's form opens with its object type; any other opens with its type and name alone |
| HscScript.Indices | io_scene_halo/misc/generate_level.py:538-548 | A group's positions are positions of the scripts |
| HscScript.IndicesOfGroup | io_scene_halo/misc/generate_level.py:538-548 | A group's positions hold scripts of that group, in increasing order |
| HscScript.AppendGroup | io_scene_halo/misc/generate_level.py:538-540 | A group loop appends the forms of that group's scripts in dictionary order |
| HscScript.AppendIfInGroup | io_scene_halo/misc/generate_level.py:539-540 | One iteration appends the script's form only when it belongs to the group |
| HscScript.AppendScript | io_scene_halo/misc/generate_level.py:540 | Appending a group member's form extends the group text by it |
| HscScript.WriteGlobals | io_scene_halo/misc/generate_level.py:531-533 | One `(global …)` line per global, in order |
| HscScript.GenerateStringFromDic | io_scene_halo/misc/generate_level.py:528-550 | The globals, a blank line, then the three script groups |
| HscScript.WriteScripts | io_scene_halo/misc/generate_level.py:537-548 | The three group loops give the dormant, other and startup forms |
| HscScript.ScriptsFollowEmitOrder | io_scene_halo/misc/generate_level.py:537-548 | The script text is the forms of the scripts in the emit order |
| HscScript.IndicesCount | io_scene_halo/misc/generate_level.py:538-548 | Each script of a group appears once among that group's positions, and no other does |
| HscScript.EveryScriptOnce | io_scene_halo/misc/generate_level.py:537-548 | The emit order lists every script exactly once |
| HscScript.OrderLength | io_scene_halo/misc/generate_level.py:537-548 | The three groups together hold as many scripts as the dictionary |
| HscScript.GroupsInOrder | io_scene_halo/misc/generate_level.py:537-548 | Dormant scripts come before the others and the others before startup scripts; within a group dictionary order is kept |
| ConfigMerge.LookupFinds | io_scene_halo/misc/generate_level.py:814-815 | `get` finds a value exactly when the key is present, and the value stored under it |
| ConfigMerge.AssignLookup | io_scene_halo/misc/generate_level.py:817 | After `d[key] = v` the key holds `v` and every other key its old value |
| ConfigMerge.AssignKeys | io_scene_halo/misc/generate_level.py:825 | Assignment keeps every key in place and adds a new key last |
| ConfigMerge.AssignUnique | io_scene_halo/misc/generate_level.py:825 | Assignment keeps the keys distinct |
| ConfigMerge.ListDonorAppends | io_scene_halo/misc/generate_level.py:823-828 | A list donor extends the held list, keeping its entries, or creates it; no other key changes |
| ConfigMerge.DictDonorReplaces | io_scene_halo/misc/generate_level.py:816-821 | A dictionary donor replaces the key's value with a copy of itself; no other key changes |
| ConfigMerge.StepFailsIff | io_scene_halo/misc/generate_level.py:824-828 | A step fails exactly when a non-empty list is appended to a held dictionary |
| ConfigMerge.MergeCombinesDonorKeys | io_scene_halo/misc/generate_level.py:813-828 | After a merge without failure each donor key holds what its donor value makes of the value held before |
| ConfigMerge.MergeKeepsOtherKeys | io_scene_halo/misc/generate_level.py:813-828 | Keys the donor does not mention keep their values |
| ConfigMerge.MergeKeepsKeyOrder | io_scene_halo/misc/generate_level.py:813-828 | Existing keys keep their places; only donor keys are added after them |
| ConfigMerge.FailurePersists | io_scene_halo/misc/generate_level.py:827-828 | Once the merge has failed, later donor entries change nothing |
| ConfigMerge.ConfigDictionary.Put | io_scene_halo/misc/generate_level.py:825 | The dictionary is the assignment of the old one, and its keys stay distinct |
| ConfigMerge.ConfigDictionary.AppendKeys | io_scene_halo/misc/generate_level.py:809-828 | The merge loop leaves the specified dictionary and reports whether it failed, keeping keys distinct |
| ConfigMerge.ConfigDictionary.MergeEntry | io_scene_halo/misc/generate_level.py:814-828 | One iteration does the specified step, or fails and changes nothing |
| ConfigMerge.CopyDictionary | io_scene_halo/misc/generate_level.py:817-821 | The fresh dictionary holds a copy of every donor list under the same key, in order |
| ConfigMerge.AppendItems | io_scene_halo/misc/generate_level.py:827-828 | Appending item by item gives the old list followed by the donor items |

## Left out

- Blender itself is not modelled: edit and pose bone creation, `mode_set`, selection, collection linking, `keyframe_insert` (a key log stands in for it), `view_layer.update` and `frame_set`.
- The host is assumed to behave in three ways. `edit_bones[name]` returns the first bone created with that name. Setting a bone as its own parent is ignored. A bone's `matrix` reads back exactly as it was last written, so `view_layer.update` is taken to change nothing and posing a parent does not move a child that is already posed.
- Pose.PosedBone, Pose.ArmatureObject.PoseBone, Pose.FrameConsistent and Pose.UnvisitedBonesKept rest on that third assumption: Blender propagates a parent's new pose into its children's armature-space matrices, and the model does not. PoseMatrix reads the parent's matrix as the term last written, and JmsSkeleton.AddBone and JmaSkeleton.AddBone read the parent's placed rest matrix back the same way.
- ArmatureSearch.Search: `JMA.node_count` (`build_scene.py:275`) is taken to be the number of animation nodes. The file parser that sets it is not part of this model.
- Floating-point matrix arithmetic, `radians` and `to_euler` are not modelled. Matrices are symbolic, and the controller's yaw is a symbolic angle of its rotation.
- `mesh_processing.get_bone_distance` is a symbolic bone length naming its file and node.
- `global_functions.get_version_matrix_check` is a set of threshold parameters.
- `global_functions.sort_by_layer` is not part of this model. Its result is the `layerOrder` input.
- `mesh_processing.set_ignore` and the collection walk at `build_scene.py:257-266` are not modelled. Each scene object carries an `ignored` flag instead.
- `select_object` is not modelled.
- The `BipedControllerFrameType` values are not part of this model. They are taken as DISABLE 0, DX 1, DY 2, DZ 4 and DYAW 8.
- Scene frame range, frame rate and action creation (`build_scene.py:336-345`) are host side effects and are not modelled.
- `lower()` and `isnumeric()` cover ASCII only. Other Unicode letters and digits are not modelled.
- File parsing is not part of this model. The animation and reference files are well-formed inputs.
- `get_cell_settings` uses the `DEBUG` prints and the failure print, which do not change the result. They are not modelled.
- `get_cell_settings` returns rotations as whole degrees. The source mixes `0.0` and integer literals.
- `append_keys`: opening and parsing the JSON file is not modelled; its parsed object is the input. A JSON object's keys are distinct.
- `append_keys`: configuration values are lists or dictionaries of lists. JSON `null` and scalars are not modelled.
- ConfigMerge.ConfigDictionary.AppendKeys: a list held in the gathered dictionary is a value, so the list aliasing of `target_key.append` is not modelled. It is not observable within `append_keys`, because each list is written only through its key.
- HscScript: the five HSC script types startup, dormant, continuous, static and stub are modelled. Global values are already text.
- Writing the `.hsc` file and building the script dictionary are not part of this model.
- The rest of `generate_level.py` is not part of this model. That covers random placement, ray casts, camera keyframes, maze generation and scenario tags.
