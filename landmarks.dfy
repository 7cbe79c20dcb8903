/** The landmark slots (`ParentIDFix`) that let the graph-driven builder re-parent
    thighs to the pelvis and clavicles to the first spine bone, and the override
    rule that uses them. All name tests here are case-sensitive. */
module Landmarks {
  import opened Base
  import opened Assets

  predicate IsPelvisName(n: string) { Contains(n, "pelvis") }
  predicate IsThighName(n: string) { Contains(n, "thigh") }
  /** `spine1` is only looked at for names that are not thighs. */
  predicate IsSpineSlotName(n: string) { !IsThighName(n) && Contains(n, "spine1") }
  /** `clavicle` is only looked at for names that are neither thighs nor `spine1`. */
  predicate IsClavicleSlotName(n: string) { !IsThighName(n) && !Contains(n, "spine1") && Contains(n, "clavicle") }

  datatype Slots = Slots(
    pelvis: Option<nat>,
    thigh0: Option<nat>, thigh1: Option<nat>,
    spine1: Option<nat>,
    clavicle0: Option<nat>, clavicle1: Option<nat>)

  const EmptySlots := Slots(None, None, None, None, None, None)

  /** One iteration of the scan over the nodes, for node `idx` named `name`. */
  function StepSlots(s: Slots, idx: nat, name: string): Slots
  {
    var s1 := if IsPelvisName(name) then s.(pelvis := Some(idx)) else s;
    if IsThighName(name) then
      (if s1.thigh0.None? then s1.(thigh0 := Some(idx)) else s1.(thigh1 := Some(idx)))
    else if Contains(name, "spine1") then s1.(spine1 := Some(idx))
    else if Contains(name, "clavicle") then
      (if s1.clavicle0.None? then s1.(clavicle0 := Some(idx)) else s1.(clavicle1 := Some(idx)))
    else s1
  }

  /** The slots after scanning `names` in order, starting from `init`. */
  function ScanSlots(init: Slots, names: seq<string>): Slots
  {
    if |names| == 0 then init
    else StepSlots(ScanSlots(init, names[..|names| - 1]), |names| - 1, names[|names| - 1])
  }

  /** The second slot of a pair is filled only by a later match than the first. */
  function SecondSlot(first: Option<nat>, last: Option<nat>): Option<nat>
  {
    if first == last then None else last
  }

  /** What the scan is meant to find, stated by first/last searches: the last
      pelvis; the first thigh and, if there is another, the last thigh; the last
      spine1; the first and last clavicle in the same way. */
  function ExpectedSlots(names: seq<string>): Slots
  {
    Slots(
      LastIndex(names, IsPelvisName),
      FirstIndex(names, IsThighName), SecondSlot(FirstIndex(names, IsThighName), LastIndex(names, IsThighName)),
      LastIndex(names, IsSpineSlotName),
      FirstIndex(names, IsClavicleSlotName), SecondSlot(FirstIndex(names, IsClavicleSlotName), LastIndex(names, IsClavicleSlotName)))
  }

  /** Every filled slot is an index of `names`. */
  predicate SlotsWithin(s: Slots, n: nat)
  {
    (s.pelvis.Some? ==> s.pelvis.value < n) &&
    (s.thigh0.Some? ==> s.thigh0.value < n) && (s.thigh1.Some? ==> s.thigh1.value < n) &&
    (s.spine1.Some? ==> s.spine1.value < n) &&
    (s.clavicle0.Some? ==> s.clavicle0.value < n) && (s.clavicle1.Some? ==> s.clavicle1.value < n)
  }

  lemma {:induction false} PelvisSlot(names: seq<string>)
    ensures ScanSlots(EmptySlots, names).pelvis == LastIndex(names, IsPelvisName)
  {
    if |names| > 0 {
      PelvisSlot(names[..|names| - 1]);
      SearchExtend(names, IsPelvisName);
    }
  }

  lemma {:induction false} ThighSlots(names: seq<string>)
    ensures ScanSlots(EmptySlots, names).thigh0 == FirstIndex(names, IsThighName)
    ensures ScanSlots(EmptySlots, names).thigh1 == SecondSlot(FirstIndex(names, IsThighName), LastIndex(names, IsThighName))
  {
    if |names| > 0 {
      var pre := names[..|names| - 1];
      ThighSlots(pre);
      SearchExtend(names, IsThighName);
      var f := FirstIndex(pre, IsThighName);
      assert f.Some? ==> f.value < |pre|;
    }
  }

  lemma {:induction false} SpineSlot(names: seq<string>)
    ensures ScanSlots(EmptySlots, names).spine1 == LastIndex(names, IsSpineSlotName)
  {
    if |names| > 0 {
      SpineSlot(names[..|names| - 1]);
      SearchExtend(names, IsSpineSlotName);
    }
  }

  lemma {:induction false} ClavicleSlots(names: seq<string>)
    ensures ScanSlots(EmptySlots, names).clavicle0 == FirstIndex(names, IsClavicleSlotName)
    ensures ScanSlots(EmptySlots, names).clavicle1 ==
      SecondSlot(FirstIndex(names, IsClavicleSlotName), LastIndex(names, IsClavicleSlotName))
  {
    if |names| > 0 {
      var pre := names[..|names| - 1];
      ClavicleSlots(pre);
      SearchExtend(names, IsClavicleSlotName);
      var f := FirstIndex(pre, IsClavicleSlotName);
      assert f.Some? ==> f.value < |pre|;
    }
  }

  /** Scanning from empty slots fills exactly the expected slots, all within range. */
  lemma ScanFromEmpty(names: seq<string>)
    ensures ScanSlots(EmptySlots, names) == ExpectedSlots(names)
    ensures SlotsWithin(ScanSlots(EmptySlots, names), |names|)
  {
    PelvisSlot(names);
    ThighSlots(names);
    SpineSlot(names);
    ClavicleSlots(names);
  }

  /** `set_parent_id_class`'s target: the slots are fields updated in place. */
  class ParentIdFix {
    var pelvis: Option<nat>
    var thigh0: Option<nat>
    var thigh1: Option<nat>
    var spine1: Option<nat>
    var clavicle0: Option<nat>
    var clavicle1: Option<nat>

    function Value(): Slots
      reads this
    {
      Slots(pelvis, thigh0, thigh1, spine1, clavicle0, clavicle1)
    }

    constructor ()
      ensures Value() == EmptySlots
    {
      pelvis, thigh0, thigh1, spine1, clavicle0, clavicle1 := None, None, None, None, None, None;
    }

    /** Scan the animation's nodes in order and fill the slots. */
    method SetParentIdClass(nodes: seq<Node>)
      modifies this
      ensures Value() == ScanSlots(old(Value()), NodeNames(nodes))
    {
      ghost var names := NodeNames(nodes);
      var idx := 0;
      while idx < |nodes|
        invariant 0 <= idx <= |nodes|
        invariant Value() == ScanSlots(old(Value()), names[..idx])
      {
        assert names[..idx + 1][..idx] == names[..idx];
        var name := nodes[idx].name;
        if Contains(name, "pelvis") {
          pelvis := Some(idx);
        }
        if Contains(name, "thigh") {
          if thigh0 == None {
            thigh0 := Some(idx);
          } else {
            thigh1 := Some(idx);
          }
        } else if Contains(name, "spine1") {
          spine1 := Some(idx);
        } else if Contains(name, "clavicle") {
          if clavicle0 == None {
            clavicle0 := Some(idx);
          } else {
            clavicle1 := Some(idx);
          }
        }
        idx := idx + 1;
      }
      assert names[..idx] == names;
    }
  }

  /** The parent the graph-driven builder uses for a node: none for `-1` or a
      missing index; otherwise pelvis for a thigh when pelvis and both thigh slots
      are filled, else spine1 for a clavicle when spine1 and both clavicle slots are
      filled, else the node's own parent index. */
  function OverrideParent(name: string, parent: Option<int>, s: Slots): (r: Option<int>)
    ensures r.None? <==> parent.None? || parent == Some(-1)
    ensures r.Some? && r != parent ==>
      (Contains(name, "thigh") && s.pelvis.Some? && r.value == s.pelvis.value) ||
      (Contains(name, "clavicle") && s.spine1.Some? && r.value == s.spine1.value)
  {
    if parent.None? || parent.value == -1 then None
    else if Contains(name, "thigh") && s.pelvis.Some? && s.thigh0.Some? && s.thigh1.Some? then Some(s.pelvis.value)
    else if Contains(name, "clavicle") && s.spine1.Some? && s.clavicle0.Some? && s.clavicle1.Some? then Some(s.spine1.value)
    else parent
  }

  /** With no slots filled (no `fix_parents`, or a game other than halo2/halo3)
      every node keeps its own parent. */
  lemma NoOverrideWithoutSlots(name: string, parent: Option<int>)
    requires parent != Some(-1)
    ensures OverrideParent(name, parent, EmptySlots) == parent
  {
  }

  /** Two distinct matches make the first and last searches disagree. */
  lemma TwoMatchesSplit<T>(s: seq<T>, p: T -> bool, i: nat, j: nat)
    requires i < j < |s| && p(s[i]) && p(s[j])
    ensures FirstIndex(s, p).Some? && LastIndex(s, p).Some?
    ensures FirstIndex(s, p) != LastIndex(s, p)
  {
    var f := FirstIndex(s, p);
    var l := LastIndex(s, p);
    assert f.Some? && f.value <= i;
    assert l.Some? && l.value >= j;
  }

  /** Bilateral override: when the nodes hold a pelvis and at least two thighs,
      every thigh with a real parent index is parented to the last pelvis. */
  lemma ThighsFollowPelvis(names: seq<string>, k: nat, i: nat, j: nat, parent: int)
    requires k < |names| && IsThighName(names[k])
    requires i < j < |names| && IsThighName(names[i]) && IsThighName(names[j])
    requires exists q :: 0 <= q < |names| && IsPelvisName(names[q])
    requires parent != -1
    ensures LastIndex(names, IsPelvisName).Some?
    ensures OverrideParent(names[k], Some(parent), ScanSlots(EmptySlots, names)) == Some(LastIndex(names, IsPelvisName).value)
  {
    ScanFromEmpty(names);
    TwoMatchesSplit(names, IsThighName, i, j);
    var q :| 0 <= q < |names| && IsPelvisName(names[q]);
    assert LastIndex(names, IsPelvisName).Some?;
  }

  /** The same for clavicles: with a spine1 node and two clavicle nodes, a
      clavicle that is not also a thigh is parented to the last spine1. */
  lemma ClaviclesFollowSpine(names: seq<string>, k: nat, i: nat, j: nat, parent: int)
    requires k < |names| && Contains(names[k], "clavicle") && !IsThighName(names[k])
    requires i < j < |names| && IsClavicleSlotName(names[i]) && IsClavicleSlotName(names[j])
    requires exists q :: 0 <= q < |names| && IsSpineSlotName(names[q])
    requires parent != -1
    ensures LastIndex(names, IsSpineSlotName).Some?
    ensures OverrideParent(names[k], Some(parent), ScanSlots(EmptySlots, names)) == Some(LastIndex(names, IsSpineSlotName).value)
  {
    ScanFromEmpty(names);
    TwoMatchesSplit(names, IsClavicleSlotName, i, j);
    var q :| 0 <= q < |names| && IsSpineSlotName(names[q]);
    assert LastIndex(names, IsSpineSlotName).Some?;
  }

  /** A single thigh never fills the second slot, so it keeps its own parent. */
  lemma SingleThighKeepsParent(names: seq<string>, k: nat, parent: int)
    requires k < |names| && IsThighName(names[k]) && !Contains(names[k], "clavicle")
    requires forall m :: 0 <= m < |names| && m != k ==> !IsThighName(names[m])
    requires parent != -1
    ensures OverrideParent(names[k], Some(parent), ScanSlots(EmptySlots, names)) == Some(parent)
  {
    ScanFromEmpty(names);
    assert FirstIndex(names, IsThighName) == Some(k);
    assert LastIndex(names, IsThighName) == Some(k);
  }
}
