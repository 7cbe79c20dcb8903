/** `append_keys`: the level generator gathers the block, character, music and
    weapon configurations of every installed theme into one dictionary per
    kind. Each configuration file is a dictionary whose values are lists (or
    dictionaries of lists); merging one into the gathered dictionary extends
    the lists it already has, adds the keys it lacks, and replaces whatever it
    held under a key whose new value is a dictionary. Dictionaries are
    sequences of entries in insertion order, the order Python keeps. */
module ConfigMerge {
  import opened Base

  /** A configuration value: a list of items, or a dictionary of lists. */
  datatype Value<T> = List(items: seq<T>) | Dict(entries: seq<(string, seq<T>)>)

  /** A parsed JSON value: the keys of a nested object are distinct too. */
  predicate WellFormed<T>(v: Value<T>) {
    v.Dict? ==> UniqueKeys(v.entries)
  }

  function Keys<V>(entries: seq<(string, V)>): seq<string> {
    seq(|entries|, i requires 0 <= i < |entries| => entries[i].0)
  }

  /** The keys of a dictionary are distinct. */
  predicate UniqueKeys<V>(entries: seq<(string, V)>) {
    forall i, j :: 0 <= i < j < |entries| ==> entries[i].0 != entries[j].0
  }

  /** `d.get(key)`. */
  function Lookup<V(==)>(entries: seq<(string, V)>, key: string): Option<V>
    decreases |entries|
  {
    if |entries| == 0 then None
    else if entries[0].0 == key then Some(entries[0].1)
    else Lookup(entries[1..], key)
  }

  /** A lookup finds a value exactly when the key is present, and what it
      finds is stored under that key. */
  lemma {:induction false} LookupFinds<V>(entries: seq<(string, V)>, key: string)
    ensures Lookup(entries, key).None? <==> key !in Keys(entries)
    ensures Lookup(entries, key).Some? ==>
      exists i :: 0 <= i < |entries| && entries[i] == (key, Lookup(entries, key).value)
    decreases |entries|
  {
    if |entries| > 0 {
      assert Keys(entries) == [entries[0].0] + Keys(entries[1..]);
      if entries[0].0 != key {
        LookupFinds(entries[1..], key);
        var r := Lookup(entries[1..], key);
        if r.Some? {
          var i :| 0 <= i < |entries[1..]| && entries[1..][i] == (key, r.value);
          assert entries[i + 1] == (key, r.value);
        }
      }
    }
  }

  /** `d[key] = v`: an existing key keeps its place, a new key goes last. */
  function Assign<V(==)>(entries: seq<(string, V)>, key: string, v: V): (r: seq<(string, V)>)
    decreases |entries|
  {
    if |entries| == 0 then [(key, v)]
    else if entries[0].0 == key then [(key, v)] + entries[1..]
    else [entries[0]] + Assign(entries[1..], key, v)
  }

  /** What one donor value makes of the value held under its key: a
      dictionary replaces it with a copy, a list extends the list held there
      or becomes a new list. Appending to a dictionary fails (`None`), which
      in Python is the `AttributeError` of `dict.append`; an empty donor list
      appends nothing and so never fails. */
  function Combined<T(==)>(held: Option<Value<T>>, donor: Value<T>): Option<Value<T>> {
    match donor
    case Dict(sub) => Some(Dict(sub))
    case List(items) =>
      match held
      case None => Some(List(items))
      case Some(List(current)) => Some(List(current + items))
      case Some(Dict(_)) => if |items| == 0 then held else None
  }

  /** Merging one donor entry into the dictionary. */
  function MergeStep<T(==)>(entries: seq<(string, Value<T>)>, key: string, donor: Value<T>): Option<seq<(string, Value<T>)>> {
    match Combined(Lookup(entries, key), donor)
    case None => None
    case Some(v) => Some(Assign(entries, key, v))
  }

  /** The dictionary after the first `n` donor entries, and whether the merge
      stopped with an exception (the entries merged before it stay merged). */
  datatype Merge<T> = Merge(entries: seq<(string, Value<T>)>, failed: bool)

  function MergeRun<T(==)>(entries: seq<(string, Value<T>)>, donor: seq<(string, Value<T>)>, n: nat): Merge<T>
    requires n <= |donor|
    decreases n
  {
    if n == 0 then Merge(entries, false)
    else
      var prev := MergeRun(entries, donor, n - 1);
      if prev.failed then prev
      else match MergeStep(prev.entries, donor[n - 1].0, donor[n - 1].1)
        case None => Merge(prev.entries, true)
        case Some(next) => Merge(next, false)
  }

  // ----- lemmas about single assignments and steps -----

  lemma {:induction false} AssignLookup<V>(entries: seq<(string, V)>, key: string, v: V, other: string)
    ensures Lookup(Assign(entries, key, v), key) == Some(v)
    ensures other != key ==> Lookup(Assign(entries, key, v), other) == Lookup(entries, other)
    decreases |entries|
  {
    if |entries| > 0 && entries[0].0 != key {
      AssignLookup(entries[1..], key, v, other);
      assert Assign(entries, key, v)[1..] == Assign(entries[1..], key, v);
    }
  }

  /** Assigning keeps every key where it was and adds a new key at the end. */
  lemma {:induction false} AssignKeys<V>(entries: seq<(string, V)>, key: string, v: V)
    ensures key in Keys(entries) ==> Keys(Assign(entries, key, v)) == Keys(entries)
    ensures key !in Keys(entries) ==> Keys(Assign(entries, key, v)) == Keys(entries) + [key]
    decreases |entries|
  {
    if |entries| > 0 {
      assert Keys(entries) == [entries[0].0] + Keys(entries[1..]);
      if entries[0].0 != key {
        AssignKeys(entries[1..], key, v);
        assert Keys(Assign(entries, key, v)) == [entries[0].0] + Keys(Assign(entries[1..], key, v));
      } else {
        assert Keys(Assign(entries, key, v)) == [key] + Keys(entries[1..]);
      }
    }
  }

  /** A key that is not yet there is appended. */
  lemma {:induction false} AssignNew<V>(entries: seq<(string, V)>, key: string, v: V)
    requires key !in Keys(entries)
    ensures Assign(entries, key, v) == entries + [(key, v)]
    decreases |entries|
  {
    if |entries| > 0 {
      assert Keys(entries) == [entries[0].0] + Keys(entries[1..]);
      AssignNew(entries[1..], key, v);
      assert entries == [entries[0]] + entries[1..];
    }
  }

  lemma {:induction false} AssignUnique<V>(entries: seq<(string, V)>, key: string, v: V)
    requires UniqueKeys(entries)
    ensures UniqueKeys(Assign(entries, key, v))
  {
    AssignKeys(entries, key, v);
    var r := Assign(entries, key, v);
    forall i, j | 0 <= i < j < |r| ensures r[i].0 != r[j].0 {
      assert Keys(r)[i] == r[i].0 && Keys(r)[j] == r[j].0;
      if key in Keys(entries) {
        assert Keys(entries)[i] == entries[i].0 && Keys(entries)[j] == entries[j].0;
      } else if j < |entries| {
        assert Keys(entries)[i] == entries[i].0 && Keys(entries)[j] == entries[j].0;
      } else {
        assert Keys(entries)[i] == entries[i].0;
      }
    }
  }

  /** A list donor extends the list under its key, keeping its earlier
      entries, or creates that list; no other key changes. */
  lemma ListDonorAppends<T>(entries: seq<(string, Value<T>)>, key: string, items: seq<T>, other: string)
    requires Lookup(entries, key).None? || Lookup(entries, key).value.List?
    ensures var r := MergeStep(entries, key, List(items));
      r.Some? &&
      Lookup(r.value, key) == Some(List(if Lookup(entries, key).None? then items
                                        else Lookup(entries, key).value.items + items)) &&
      (other != key ==> Lookup(r.value, other) == Lookup(entries, other))
  {
    var held := Lookup(entries, key);
    var v := if held.None? then List(items) else List(held.value.items + items);
    AssignLookup(entries, key, v, other);
  }

  /** A dictionary donor replaces whatever was under its key with a copy of
      itself; no other key changes. */
  lemma DictDonorReplaces<T>(entries: seq<(string, Value<T>)>, key: string, sub: seq<(string, seq<T>)>, other: string)
    ensures var r := MergeStep(entries, key, Dict(sub));
      r.Some? && Lookup(r.value, key) == Some(Dict(sub)) &&
      (other != key ==> Lookup(r.value, other) == Lookup(entries, other))
  {
    AssignLookup(entries, key, Dict(sub), other);
  }

  /** The merge fails exactly when a non-empty list meets a dictionary. */
  lemma StepFailsIff<T>(entries: seq<(string, Value<T>)>, key: string, donor: Value<T>)
    ensures MergeStep(entries, key, donor).None? <==>
      donor.List? && |donor.items| > 0 && Lookup(entries, key).Some? && Lookup(entries, key).value.Dict?
  {
  }

  // ----- lemmas about whole merges -----

  /** One more donor entry leaves every other key as it was. */
  lemma RunStepKeepsOther<T>(entries: seq<(string, Value<T>)>, donor: seq<(string, Value<T>)>, n: nat, other: string)
    requires 0 < n <= |donor| && donor[n - 1].0 != other
    ensures Lookup(MergeRun(entries, donor, n).entries, other) == Lookup(MergeRun(entries, donor, n - 1).entries, other)
  {
    var prev := MergeRun(entries, donor, n - 1);
    var key := donor[n - 1].0;
    var held := Lookup(prev.entries, key);
    var c := Combined(held, donor[n - 1].1);
    if !prev.failed && c.Some? {
      AssignLookup(prev.entries, key, c.value, other);
    }
  }

  /** A merge that does not fail leaves under each donor key what that
      donor value makes of the value held there before. */
  lemma {:induction false} MergeCombinesDonorKeys<T>(entries: seq<(string, Value<T>)>, donor: seq<(string, Value<T>)>, j: nat)
    requires UniqueKeys(donor) && j < |donor|
    requires !MergeRun(entries, donor, |donor|).failed
    ensures Lookup(MergeRun(entries, donor, |donor|).entries, donor[j].0) ==
      Combined(Lookup(entries, donor[j].0), donor[j].1)
  {
    var key := donor[j].0;
    NoFailureBefore(entries, donor, |donor|, j + 1);
    MergeKeepsOtherKeys(entries, donor, 0, j, key);
    var prev := MergeRun(entries, donor, j);
    var v := Combined(Lookup(prev.entries, key), donor[j].1).value;
    AssignLookup(prev.entries, key, v, key);
    var after := MergeRun(entries, donor, j + 1);
    MergeKeepsOtherKeys(entries, donor, j + 1, |donor|, key);
  }

  /** A merge that has not failed after `n` entries had not failed earlier. */
  lemma {:induction false} NoFailureBefore<T>(entries: seq<(string, Value<T>)>, donor: seq<(string, Value<T>)>, n: nat, m: nat)
    requires m <= n <= |donor| && !MergeRun(entries, donor, n).failed
    ensures !MergeRun(entries, donor, m).failed
    decreases n - m
  {
    if m < n {
      NoFailureBefore(entries, donor, n - 1, m);
    }
  }

  /** Donor entries from `m` to `n` that do not mention `key` leave its
      value alone; with `m == 0`, keys the donor does not mention keep their
      values. */
  lemma {:induction false} MergeKeepsOtherKeys<T>(entries: seq<(string, Value<T>)>, donor: seq<(string, Value<T>)>, m: nat, n: nat, key: string)
    requires m <= n <= |donor|
    requires forall i :: m <= i < n ==> donor[i].0 != key
    ensures Lookup(MergeRun(entries, donor, n).entries, key) == Lookup(MergeRun(entries, donor, m).entries, key)
    decreases n - m
  {
    if m < n {
      MergeKeepsOtherKeys(entries, donor, m, n - 1, key);
      RunStepKeepsOther(entries, donor, n, key);
    }
  }

  /** A merge keeps every key already present, in its place, and adds only
      donor keys after them. */
  lemma {:induction false} MergeKeepsKeyOrder<T>(entries: seq<(string, Value<T>)>, donor: seq<(string, Value<T>)>, n: nat)
    requires n <= |donor|
    ensures Keys(entries) <= Keys(MergeRun(entries, donor, n).entries)
    ensures forall k :: k in Keys(MergeRun(entries, donor, n).entries) ==>
      k in Keys(entries) || exists i :: 0 <= i < n && donor[i].0 == k
    decreases n
  {
    if n > 0 {
      MergeKeepsKeyOrder(entries, donor, n - 1);
      var prev := MergeRun(entries, donor, n - 1);
      if !prev.failed {
        var key := donor[n - 1].0;
        var step := MergeStep(prev.entries, key, donor[n - 1].1);
        if step.Some? {
          var v := Combined(Lookup(prev.entries, key), donor[n - 1].1).value;
          AssignKeys(prev.entries, key, v);
          forall k | k in Keys(step.value)
            ensures k in Keys(entries) || exists i :: 0 <= i < n && donor[i].0 == k
          {
            if k != key {
              assert k in Keys(prev.entries);
              if !(k in Keys(entries)) {
                var i :| 0 <= i < n - 1 && donor[i].0 == k;
                assert 0 <= i < n && donor[i].0 == k;
              }
            } else {
              assert donor[n - 1].0 == k;
            }
          }
        }
      }
    }
  }

  // ----- the dictionary the configurations are gathered in -----

  /** The gathered configuration of one kind (`blocks_dic`, `characters_dic`,
      `music_dic` or `weapons_dic`). */
  class ConfigDictionary<T(==)> {
    var entries: seq<(string, Value<T>)>

    predicate Valid()
      reads this
    {
      UniqueKeys(entries)
    }

    /** An empty dictionary, `{}`. */
    constructor()
      ensures entries == [] && Valid()
    {
      entries := [];
    }

    /** `main_dic.get(key)`. */
    function Get(key: string): Option<Value<T>>
      reads this
    {
      Lookup(entries, key)
    }

    /** `main_dic[key] = v`. */
    method Put(key: string, v: Value<T>)
      requires Valid()
      modifies this
      ensures entries == Assign(old(entries), key, v) && Valid()
    {
      AssignUnique(entries, key, v);
      entries := Assign(entries, key, v);
    }

    /** `append_keys(main_dic, json_path)` with the parsed JSON object as
        `donor`. Returns false when the merge stopped at a list that could
        not be appended to; the entries merged before that stay merged. */
    method AppendKeys(donor: seq<(string, Value<T>)>) returns (ok: bool)
      requires Valid() && UniqueKeys(donor)
      requires forall i :: 0 <= i < |donor| ==> WellFormed(donor[i].1)
      modifies this
      ensures Valid()
      ensures Merge(entries, !ok) == MergeRun(old(entries), donor, |donor|)
    {
      ghost var initial := entries;
      for i := 0 to |donor|
        invariant Valid()
        invariant MergeRun(initial, donor, i) == Merge(entries, false)
      {
        ok := MergeEntry(donor[i].0, donor[i].1);
        if !ok {
          FailurePersists(initial, donor, i + 1, |donor|);
          return;
        }
      }
      ok := true;
    }

    /** One iteration of `append_keys`: merges the donor value under `key`. */
    method MergeEntry(key: string, donorValue: Value<T>) returns (ok: bool)
      requires Valid() && WellFormed(donorValue)
      modifies this
      ensures Valid()
      ensures ok ==> MergeStep(old(entries), key, donorValue) == Some(entries)
      ensures !ok ==> MergeStep(old(entries), key, donorValue).None? && entries == old(entries)
    {
      var target := Get(key);
      ok := true;
      if donorValue.Dict? {
        var sub := CopyDictionary(donorValue.entries);
        Put(key, Dict(sub));
      } else if target.None? {
        ghost var before := entries;
        Put(key, List([]));
        var extended := AppendItems([], donorValue.items);
        assert extended == donorValue.items;
        Put(key, List(extended));
        AssignTwice(before, key, List([]), List(extended));
        assert entries == Assign(before, key, List(donorValue.items));
      } else if target.value.List? {
        var extended := AppendItems(target.value.items, donorValue.items);
        Put(key, List(extended));
        assert entries == Assign(old(entries), key, List(target.value.items + donorValue.items));
      } else if |donorValue.items| > 0 {
        ok := false;
      } else {
        AssignSame(entries, key);
      }
    }
  }

  /** Builds the fresh dictionary `sub_dic_key`: a new list per donor key,
      filled item by item. */
  method CopyDictionary<T(==)>(donorSub: seq<(string, seq<T>)>) returns (sub: seq<(string, seq<T>)>)
    requires UniqueKeys(donorSub)
    ensures sub == donorSub
  {
    sub := [];
    for j := 0 to |donorSub|
      invariant sub == donorSub[..j]
    {
      var subKey := donorSub[j].0;
      assert subKey !in Keys(sub);
      ghost var before := sub;
      sub := Assign(sub, subKey, []);
      var copied := AppendItems([], donorSub[j].1);
      assert copied == donorSub[j].1;
      sub := Assign(sub, subKey, copied);
      AssignTwice(before, subKey, [], copied);
      assert sub == Assign(before, subKey, copied);
      AssignNew(before, subKey, copied);
      assert sub == before + [(subKey, copied)];
      assert donorSub[..j + 1] == donorSub[..j] + [donorSub[j]];
    }
  }

  /** Appends the donor's items one by one to `current`. */
  method AppendItems<T(==)>(current: seq<T>, items: seq<T>) returns (r: seq<T>)
    ensures r == current + items
  {
    r := current;
    for k := 0 to |items|
      invariant r == current + items[..k]
    {
      assert items[..k + 1] == items[..k] + [items[k]];
      r := r + [items[k]];
    }
    assert items[..|items|] == items;
  }

  /** Assigning a key twice keeps only the second value. */
  lemma {:induction false} AssignTwice<V>(entries: seq<(string, V)>, key: string, v1: V, v2: V)
    ensures Assign(Assign(entries, key, v1), key, v2) == Assign(entries, key, v2)
    decreases |entries|
  {
    if |entries| > 0 && entries[0].0 != key {
      AssignTwice(entries[1..], key, v1, v2);
      assert Assign(entries, key, v1)[1..] == Assign(entries[1..], key, v1);
    }
  }

  /** Assigning a key the value it already holds changes nothing. */
  lemma {:induction false} AssignSame<V>(entries: seq<(string, V)>, key: string)
    requires Lookup(entries, key).Some?
    ensures Assign(entries, key, Lookup(entries, key).value) == entries
    decreases |entries|
  {
    if entries[0].0 != key {
      AssignSame(entries[1..], key);
    }
  }

  /** Once a merge has failed, the later donor entries are not looked at. */
  lemma {:induction false} FailurePersists<T>(entries: seq<(string, Value<T>)>, donor: seq<(string, Value<T>)>, m: nat, n: nat)
    requires m <= n <= |donor| && MergeRun(entries, donor, m).failed
    ensures MergeRun(entries, donor, n) == MergeRun(entries, donor, m)
    decreases n - m
  {
    if m < n {
      FailurePersists(entries, donor, m, n - 1);
    }
  }
}
