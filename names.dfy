/** `unduplicate_name`: Blender gives a second object or material of the same
    name a `.001`-style suffix; the level generator strips such a suffix to get
    back the name the asset was authored with. */
module Names {
  import opened Base

  /** Python's `str.isnumeric` on ASCII text: non-empty and all digits. */
  predicate IsNumeric(s: string) {
    |s| > 0 && forall i :: 0 <= i < |s| ==> '0' <= s[i] <= '9'
  }

  /** The position of the last `.` in `name`, where `rsplit(".", 1)` cuts. */
  function LastDot(name: string): (r: Option<nat>)
    ensures r.Some? ==> r.value < |name| && name[r.value] == '.' && '.' !in name[r.value + 1..]
    ensures r.None? <==> '.' !in name
  {
    var r := LastIndex(name, c => c == '.');
    if r.Some? then
      assert forall j :: r.value + 1 <= j < |name| ==> name[j] != '.';
      r
    else
      r
  }

  /** `unduplicate_name(material_name)`. */
  function UnduplicateName(name: string): (r: string)
    ensures r <= name
    ensures '.' !in name ==> r == name
    ensures r != name ==>
      |r| + 4 <= |name| && name[|r|] == '.' && IsNumeric(name[|r| + 1..]) && '.' !in name[|r| + 1..]
  {
    match LastDot(name)
    case None => name
    case Some(dot) =>
      if |name[dot + 1..]| >= 3 && IsNumeric(name[dot + 1..]) then name[..dot] else name
  }

  /** A name that ends in a dot and at least three digits loses exactly that
      suffix, whatever dots the stem itself contains. */
  lemma {:induction false} StripsNumericSuffix(stem: string, digits: string)
    requires |digits| >= 3 && IsNumeric(digits)
    ensures UnduplicateName(stem + "." + digits) == stem
  {
    var name := stem + "." + digits;
    assert name[|stem|] == '.';
    assert name[|stem| + 1..] == digits;
    assert '.' !in digits by {
      forall i | 0 <= i < |digits| ensures digits[i] != '.' {
        assert '0' <= digits[i] <= '9';
      }
    }
    assert LastDot(name) == Some(|stem|);
    assert name[..|stem|] == stem;
  }

  /** A suffix shorter than three characters, or one holding anything but
      digits, is kept. */
  lemma {:induction false} KeepsOtherSuffixes(stem: string, suffix: string)
    requires '.' !in suffix
    requires |suffix| < 3 || !IsNumeric(suffix)
    ensures UnduplicateName(stem + "." + suffix) == stem + "." + suffix
  {
    var name := stem + "." + suffix;
    assert name[|stem|] == '.';
    assert name[|stem| + 1..] == suffix;
    assert LastDot(name) == Some(|stem|);
  }
}
