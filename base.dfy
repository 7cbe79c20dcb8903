/** Small shared vocabulary: an optional value, first/last index searches over a
    sequence, and the two Python string operations the importer leans on
    (`str.lower` and the substring test `needle in haystack`). */
module Base {

  datatype Option<T> = None | Some(value: T)

  /** Python's `seq[i]` for `-len <= i < len`: a negative index counts from the end. */
  function PyIndex(len: nat, i: int): (r: nat)
    requires -(len as int) <= i < len
    ensures r < len
    ensures i >= 0 ==> r == i
    ensures i < 0 ==> r + (-i) == len
  {
    if i >= 0 then i else len + i
  }

  /** The last index of `s` whose element satisfies `p`. */
  function LastIndex<T>(s: seq<T>, p: T -> bool): (r: Option<nat>)
    ensures r.Some? ==> r.value < |s| && p(s[r.value])
    ensures r.Some? ==> forall j :: r.value < j < |s| ==> !p(s[j])
    ensures r.None? ==> forall j :: 0 <= j < |s| ==> !p(s[j])
  {
    if |s| == 0 then None
    else if p(s[|s| - 1]) then Some(|s| - 1)
    else LastIndex(s[..|s| - 1], p)
  }

  /** The first index of `s` whose element satisfies `p`. */
  function FirstIndex<T>(s: seq<T>, p: T -> bool): (r: Option<nat>)
    ensures r.Some? ==> r.value < |s| && p(s[r.value])
    ensures r.Some? ==> forall j :: 0 <= j < r.value ==> !p(s[j])
    ensures r.None? ==> forall j :: 0 <= j < |s| ==> !p(s[j])
  {
    if |s| == 0 then None
    else match FirstIndex(s[..|s| - 1], p)
      case Some(i) => Some(i)
      case None => if p(s[|s| - 1]) then Some(|s| - 1) else None
  }

  /** How the first/last searches extend by one element. */
  lemma SearchExtend<T>(s: seq<T>, p: T -> bool)
    requires |s| > 0
    ensures LastIndex(s, p) == if p(s[|s| - 1]) then Some(|s| - 1) else LastIndex(s[..|s| - 1], p)
    ensures FirstIndex(s, p) == if FirstIndex(s[..|s| - 1], p).Some? then FirstIndex(s[..|s| - 1], p)
      else if p(s[|s| - 1]) then Some(|s| - 1) else None
  {
  }

  /** ASCII upper-case letters are mapped to lower case; every other character is kept. */
  function LowerChar(c: char): (r: char)
    ensures 'A' <= c <= 'Z' ==> 'a' <= r <= 'z'
    ensures !('A' <= c <= 'Z') ==> r == c
  {
    if 'A' <= c <= 'Z' then (c as int + 32) as char else c
  }

  /** `s.lower()`, restricted to ASCII case folding. */
  function Lower(s: string): (r: string)
    ensures |r| == |s|
  {
    if |s| == 0 then "" else Lower(s[..|s| - 1]) + [LowerChar(s[|s| - 1])]
  }

  /** Python's `needle in hay` on strings: `needle` occurs as a contiguous slice of `hay`. */
  predicate Contains(hay: string, needle: string)
  {
    if |needle| > |hay| then false
    else if needle <= hay then true
    else Contains(hay[1..], needle)
  }

  /** `Contains` agrees with the slice definition of a substring. */
  lemma {:induction false} ContainsAt(hay: string, needle: string, i: nat)
    requires i + |needle| <= |hay| && hay[i..i + |needle|] == needle
    ensures Contains(hay, needle)
  {
    if needle <= hay {
    } else {
      assert hay[1..][i - 1..i - 1 + |needle|] == hay[i..i + |needle|];
      ContainsAt(hay[1..], needle, i - 1);
    }
  }

  /** Every string contains itself, so a name is always a substring of an equal name. */
  lemma ContainsSelf(s: string)
    ensures Contains(s, s)
  {
    assert s[0..|s|] == s;
    ContainsAt(s, s, 0);
  }
}
