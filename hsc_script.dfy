/** The level generator writes each generated mission script as HSC source
    text: the globals first, then the script functions grouped by type —
    dormant scripts, then every other type, then startup scripts — each as a
    `(script …)` form with one line per body element and `cond` blocks for
    condition lists. Dictionaries are modelled as sequences of entries in
    insertion order, which is the order Python iterates them in. */
module HscScript {

  /** One element of a script body: a plain line, or a list of conditions
      that becomes a `cond` block. */
  datatype BodyElement = Line(text: string) | Cond(conditions: seq<string>)

  /** The HSC script types. */
  datatype ScriptType = Startup | Dormant | Continuous | Static | Stub

  /** The keyword a script type is written as. */
  function TypeName(t: ScriptType): string {
    match t
    case Startup => "startup"
    case Dormant => "dormant"
    case Continuous => "continuous"
    case Static => "static"
    case Stub => "stub"
  }

  /** A script function: its type, the object type a static script returns,
      and its body. */
  datatype ScriptFunction = ScriptFunction(kind: ScriptType, objectType: string, body: seq<BodyElement>)

  datatype ScriptEntry = ScriptEntry(name: string, def: ScriptFunction)

  /** A global: its name, its HSC type and its initial value, already as text. */
  datatype GlobalEntry = GlobalEntry(name: string, kind: string, value: string)

  /** A script dictionary: its `globals` and its `scripts`. */
  datatype Script = Script(globals: seq<GlobalEntry>, scripts: seq<ScriptEntry>)

  const LineEnd := "\r\n"

  /** The opening line of a script form; only a static script names the type
      of object it returns. */
  function Header(f: ScriptFunction, name: string): string {
    if f.kind == Static then "(script " + TypeName(f.kind) + " " + f.objectType + " " + name + LineEnd
    else "(script " + TypeName(f.kind) + " " + name + LineEnd
  }

  /** The line a condition becomes inside a `cond` block. */
  function CondLine(c: string): string {
    "\t\t" + c + LineEnd
  }

  /** The lines of a `cond` block, one per condition. */
  function ConditionLines(cs: seq<string>): string
    decreases |cs|
  {
    if |cs| == 0 then "" else ConditionLines(cs[..|cs| - 1]) + CondLine(cs[|cs| - 1])
  }

  function ElementText(e: BodyElement): string {
    match e
    case Line(text) => "\t" + text + LineEnd
    case Cond(cs) => "\t(cond" + LineEnd + ConditionLines(cs) + "\t)" + LineEnd
  }

  function BodyText(body: seq<BodyElement>): string
    decreases |body|
  {
    if |body| == 0 then "" else BodyText(body[..|body| - 1]) + ElementText(body[|body| - 1])
  }

  /** The closing of every script form: its parenthesis and a blank line. */
  const Closing := ")\r\n\r\n"

  /** The whole text of one script form. */
  function ElementString(f: ScriptFunction, name: string): string
  {
    Header(f, name) + BodyText(f.body) + Closing
  }

  /** Writes the lines of one `cond` block's conditions after `s0`. */
  method AppendConditions(cs: seq<string>, s0: string) returns (s: string)
    ensures s == s0 + ConditionLines(cs)
  {
    s := s0;
    for j := 0 to |cs|
      invariant s == s0 + ConditionLines(cs[..j])
    {
      assert cs[..j + 1][..j] == cs[..j];
      AppendAssoc(s0, ConditionLines(cs[..j]), CondLine(cs[j]));
      s := s + ("\t\t" + cs[j] + LineEnd);
    }
    assert cs[..|cs|] == cs;
  }

  /** Writes one body element after `s0`. */
  method AppendElement(e: BodyElement, s0: string) returns (s: string)
    ensures s == s0 + ElementText(e)
  {
    if e.Cond? {
      s := s0 + "\t(cond" + LineEnd;
      s := AppendConditions(e.conditions, s);
      s := s + "\t)" + LineEnd;
    } else {
      s := s0 + ("\t" + e.text + LineEnd);
    }
  }

  /** Writes the opening line of a script form. */
  method WriteHeader(f: ScriptFunction, name: string) returns (s: string)
    ensures s == Header(f, name)
  {
    if f.kind == Static {
      s := "(script " + TypeName(f.kind) + " " + f.objectType + " " + name + LineEnd;
    } else {
      s := "(script " + TypeName(f.kind) + " " + name + LineEnd;
    }
  }

  /** Writes the lines of a script body after `s0`. */
  method AppendBody(body: seq<BodyElement>, s0: string) returns (s: string)
    ensures s == s0 + BodyText(body)
  {
    s := s0;
    for i := 0 to |body|
      invariant s == s0 + BodyText(body[..i])
    {
      BodyTextStep(body, i);
      AppendAssoc(s0, BodyText(body[..i]), ElementText(body[i]));
      s := AppendElement(body[i], s);
    }
    assert body[..|body|] == body;
  }

  /** Appending is associative; the writers below extend their output one
      piece at a time while the text functions group the pieces the other
      way. */
  lemma AppendAssoc(a: string, b: string, c: string)
    ensures (a + b) + c == a + (b + c)
  {
  }

  lemma BodyTextStep(body: seq<BodyElement>, i: nat)
    requires i < |body|
    ensures BodyText(body[..i + 1]) == BodyText(body[..i]) + ElementText(body[i])
  {
    assert body[..i + 1][..i] == body[..i];
  }

  /** `process_dic_element(script_function, script_name)`. */
  method ProcessDicElement(f: ScriptFunction, name: string) returns (s: string)
    ensures s == ElementString(f, name)
  {
    s := WriteHeader(f, name);
    s := AppendBody(f.body, s);
    s := s + Closing;
  }

  /** The number of line breaks in a text. */
  function Breaks(s: string): nat {
    multiset(s)['\n']
  }

  lemma BreaksAppend(a: string, b: string)
    ensures Breaks(a + b) == Breaks(a) + Breaks(b)
  {
    assert multiset(a + b) == multiset(a) + multiset(b);
  }

  /** A condition line adds one line break to those of the condition. */
  lemma CondLineBreaks(c: string)
    ensures Breaks(CondLine(c)) == Breaks(c) + 1
  {
    BreaksAppend("\t\t", c);
    BreaksAppend("\t\t" + c, LineEnd);
  }

  /** The conditions of a `cond` block take one line each, provided no
      condition itself holds a line break. */
  lemma {:induction false} ConditionLinesBreaks(cs: seq<string>)
    requires forall i :: 0 <= i < |cs| ==> Breaks(cs[i]) == 0
    ensures Breaks(ConditionLines(cs)) == |cs|
    decreases |cs|
  {
    if |cs| > 0 {
      ConditionLinesBreaks(cs[..|cs| - 1]);
      BreaksAppend(ConditionLines(cs[..|cs| - 1]), CondLine(cs[|cs| - 1]));
      CondLineBreaks(cs[|cs| - 1]);
    }
  }

  lemma LiteralBreaks()
    ensures Breaks("\t(cond") == 0 && Breaks("\t)") == 0 && Breaks(LineEnd) == 1
  {
    assert multiset("\t(cond")['\n'] == 0;
    assert multiset("\t)")['\n'] == 0;
  }

  /** A `cond` block spans one line per condition plus its opening and
      closing lines. */
  lemma CondBlockLines(cs: seq<string>)
    requires forall i :: 0 <= i < |cs| ==> Breaks(cs[i]) == 0
    ensures Breaks(ElementText(Cond(cs))) == |cs| + 2
  {
    var open, lines, close := "\t(cond" + LineEnd, ConditionLines(cs), "\t)" + LineEnd;
    assert ElementText(Cond(cs)) == open + lines + close;
    ConditionLinesBreaks(cs);
    LiteralBreaks();
    BreaksAppend("\t(cond", LineEnd);
    BreaksAppend("\t)", LineEnd);
    BreaksAppend(open, lines);
    BreaksAppend(open + lines, close);
  }

  /** A static script's header carries its object type; any other script's
      header holds only its type and name. This reads the two branches of
      `Header` back at the start of the element's text. */
  lemma HeaderNamesObjectOnlyWhenStatic(f: ScriptFunction, name: string)
    ensures f.kind == Static ==> ("(script static " + f.objectType + " ") <= ElementString(f, name)
    ensures f.kind != Static ==> ("(script " + TypeName(f.kind) + " " + name + LineEnd) <= ElementString(f, name)
  {
    if f.kind == Static {
      assert Header(f, name) == ("(script static " + f.objectType + " ") + (name + LineEnd);
    }
  }

  /** The three groups scripts are written in. */
  datatype Group = DormantScripts | OtherScripts | StartupScripts

  function GroupOf(kind: ScriptType): Group {
    match kind
    case Dormant => DormantScripts
    case Startup => StartupScripts
    case _ => OtherScripts
  }

  /** The position of a group in the output. */
  function Rank(g: Group): nat {
    match g
    case DormantScripts => 0
    case OtherScripts => 1
    case StartupScripts => 2
  }

  /** The indices, among the first `n` scripts, of those in group `g`, in
      dictionary order. */
  function Indices(scripts: seq<ScriptEntry>, g: Group, n: nat): (r: seq<nat>)
    requires n <= |scripts|
    ensures forall k :: 0 <= k < |r| ==> r[k] < n
    decreases n
  {
    if n == 0 then []
    else Indices(scripts, g, n - 1) + (if GroupOf(scripts[n - 1].def.kind) == g then [n - 1] else [])
  }

  /** The indices of a group are scripts of that group, in increasing order. */
  lemma {:induction false} IndicesOfGroup(scripts: seq<ScriptEntry>, g: Group, n: nat)
    requires n <= |scripts|
    ensures forall k :: 0 <= k < |Indices(scripts, g, n)| ==> GroupOf(scripts[Indices(scripts, g, n)[k]].def.kind) == g
    ensures forall k, l :: 0 <= k < l < |Indices(scripts, g, n)| ==> Indices(scripts, g, n)[k] < Indices(scripts, g, n)[l]
    decreases n
  {
    if n > 0 {
      var prev := Indices(scripts, g, n - 1);
      IndicesOfGroup(scripts, g, n - 1);
      if GroupOf(scripts[n - 1].def.kind) == g {
        var r := prev + [n - 1];
        assert Indices(scripts, g, n) == r;
        assert forall k :: 0 <= k < |prev| ==> r[k] == prev[k];
      } else {
        assert Indices(scripts, g, n) == prev + [] == prev;
      }
    }
  }

  /** The form written for one script entry. */
  function Form(e: ScriptEntry): string {
    ElementString(e.def, e.name)
  }

  /** The text of the scripts at `order`, each as `render` writes it. */
  function Emit(render: ScriptEntry -> string, scripts: seq<ScriptEntry>, order: seq<nat>): string
    requires forall k :: 0 <= k < |order| ==> order[k] < |scripts|
    decreases |order|
  {
    if |order| == 0 then ""
    else Emit(render, scripts, order[..|order| - 1]) + render(scripts[order[|order| - 1]])
  }

  function GroupText(scripts: seq<ScriptEntry>, g: Group): string {
    Emit(Form, scripts, Indices(scripts, g, |scripts|))
  }

  function GlobalLine(g: GlobalEntry): string {
    "(global " + g.kind + " " + g.name + " " + g.value + ")" + LineEnd
  }

  function GlobalsText(globals: seq<GlobalEntry>): string
    decreases |globals|
  {
    if |globals| == 0 then "" else GlobalsText(globals[..|globals| - 1]) + GlobalLine(globals[|globals| - 1])
  }

  /** The script forms, group by group. */
  function ScriptsText(scripts: seq<ScriptEntry>): string {
    GroupText(scripts, DormantScripts) + GroupText(scripts, OtherScripts) + GroupText(scripts, StartupScripts)
  }

  /** The text written for a script dictionary: the globals, a blank line,
      then the scripts. */
  function ScriptText(script: Script): string {
    GlobalsText(script.globals) + LineEnd + ScriptsText(script.scripts)
  }

  /** The order scripts are written in: each group in turn. */
  function EmitOrder(scripts: seq<ScriptEntry>): seq<nat> {
    Indices(scripts, DormantScripts, |scripts|) + Indices(scripts, OtherScripts, |scripts|) + Indices(scripts, StartupScripts, |scripts|)
  }

  /** Writes the scripts of one group, in dictionary order. */
  method AppendGroup(scripts: seq<ScriptEntry>, g: Group, s0: string) returns (s: string)
    ensures s == s0 + GroupText(scripts, g)
  {
    s := s0;
    for i := 0 to |scripts|
      invariant s == s0 + Emit(Form, scripts, Indices(scripts, g, i))
    {
      s := AppendIfInGroup(scripts, g, i, s0, s);
    }
  }

  /** One iteration of a group loop: the script at `i` is written when it
      belongs to the group. */
  method AppendIfInGroup(scripts: seq<ScriptEntry>, g: Group, i: nat, s0: string, s1: string) returns (s: string)
    requires i < |scripts| && s1 == s0 + Emit(Form, scripts, Indices(scripts, g, i))
    ensures s == s0 + Emit(Form, scripts, Indices(scripts, g, i + 1))
  {
    if GroupOf(scripts[i].def.kind) == g {
      s := AppendScript(scripts, g, i, s0, s1);
    } else {
      GroupStep(scripts, g, i);
      s := s1;
    }
  }

  /** Writes the script at `i`, which belongs to the group. */
  method AppendScript(scripts: seq<ScriptEntry>, g: Group, i: nat, s0: string, s1: string) returns (s: string)
    requires i < |scripts| && GroupOf(scripts[i].def.kind) == g
    requires s1 == s0 + Emit(Form, scripts, Indices(scripts, g, i))
    ensures s == s0 + Emit(Form, scripts, Indices(scripts, g, i + 1))
  {
    var text := ProcessDicElement(scripts[i].def, scripts[i].name);
    GroupStep(scripts, g, i);
    AppendAssoc(s0, Emit(Form, scripts, Indices(scripts, g, i)), Form(scripts[i]));
    s := s1 + text;
  }

  lemma GroupStep(scripts: seq<ScriptEntry>, g: Group, i: nat)
    requires i < |scripts|
    ensures Emit(Form, scripts, Indices(scripts, g, i + 1)) == Emit(Form, scripts, Indices(scripts, g, i)) +
      if GroupOf(scripts[i].def.kind) == g then Form(scripts[i]) else ""
  {
    var prev := Indices(scripts, g, i);
    if GroupOf(scripts[i].def.kind) == g {
      assert (prev + [i])[..|prev|] == prev;
    } else {
      assert prev + [] == prev;
    }
  }

  /** Writes one line per global, in dictionary order. */
  method WriteGlobals(globals: seq<GlobalEntry>) returns (s: string)
    ensures s == GlobalsText(globals)
  {
    s := "";
    for i := 0 to |globals|
      invariant s == GlobalsText(globals[..i])
    {
      assert globals[..i + 1][..i] == globals[..i];
      var g := globals[i];
      s := s + ("(global " + g.kind + " " + g.name + " " + g.value + ")" + LineEnd);
    }
    assert globals[..|globals|] == globals;
  }

  /** `generate_string_from_dic(script)`. */
  method GenerateStringFromDic(script: Script) returns (s: string)
    ensures s == ScriptText(script)
  {
    s := WriteGlobals(script.globals);
    s := s + LineEnd;
    s := WriteScripts(script.scripts, s);
  }

  /** Writes the dormant scripts, then the other scripts, then the startup
      scripts, after `s0`. */
  method WriteScripts(scripts: seq<ScriptEntry>, s0: string) returns (s: string)
    ensures s == s0 + ScriptsText(scripts)
  {
    s := AppendGroup(scripts, DormantScripts, s0);
    s := AppendGroup(scripts, OtherScripts, s);
    s := AppendGroup(scripts, StartupScripts, s);
  }

  lemma {:induction false} EmitAppend(render: ScriptEntry -> string, scripts: seq<ScriptEntry>, a: seq<nat>, b: seq<nat>)
    requires forall k :: 0 <= k < |a| ==> a[k] < |scripts|
    requires forall k :: 0 <= k < |b| ==> b[k] < |scripts|
    ensures Emit(render, scripts, a + b) == Emit(render, scripts, a) + Emit(render, scripts, b)
    decreases |b|
  {
    if |b| == 0 {
      assert a + b == a;
    } else {
      assert (a + b)[..|a + b| - 1] == a + b[..|b| - 1];
      EmitAppend(render, scripts, a, b[..|b| - 1]);
    }
  }

  /** After the globals and the blank line the text holds one form per
      script, in the emit order. */
  lemma ScriptsFollowEmitOrder(scripts: seq<ScriptEntry>)
    ensures ScriptsText(scripts) == Emit(Form, scripts, EmitOrder(scripts))
  {
    var n := |scripts|;
    var d, o, st := Indices(scripts, DormantScripts, n), Indices(scripts, OtherScripts, n), Indices(scripts, StartupScripts, n);
    EmitAppend(Form, scripts, d, o);
    EmitAppend(Form, scripts, d + o, st);
  }

  /** Among the first `n` scripts, index `i` occurs once in the indices of
      its own group and never in those of another. */
  lemma {:induction false} IndicesCount(scripts: seq<ScriptEntry>, g: Group, n: nat, i: nat)
    requires n <= |scripts|
    ensures multiset(Indices(scripts, g, n))[i] ==
      if i < n && GroupOf(scripts[i].def.kind) == g then 1 else 0
    decreases n
  {
    if n > 0 {
      var prev := Indices(scripts, g, n - 1);
      IndicesCount(scripts, g, n - 1, i);
      if GroupOf(scripts[n - 1].def.kind) == g {
        CountAppend(prev, [n - 1], i);
      } else {
        assert Indices(scripts, g, n) == prev + [];
      }
    }
  }

  lemma CountAppend(xs: seq<nat>, ys: seq<nat>, i: nat)
    ensures multiset(xs + ys)[i] == multiset(xs)[i] + multiset(ys)[i]
  {
    assert multiset(xs + ys) == multiset(xs) + multiset(ys);
  }

  /** Every script is written exactly once. */
  lemma EveryScriptOnce(scripts: seq<ScriptEntry>)
    ensures forall k :: 0 <= k < |EmitOrder(scripts)| ==> EmitOrder(scripts)[k] < |scripts|
    ensures forall i :: 0 <= i < |scripts| ==> multiset(EmitOrder(scripts))[i] == 1
    ensures |EmitOrder(scripts)| == |scripts|
  {
    var n := |scripts|;
    forall i | 0 <= i < n
      ensures multiset(EmitOrder(scripts))[i] == 1
    {
      IndicesCount(scripts, DormantScripts, n, i);
      IndicesCount(scripts, OtherScripts, n, i);
      IndicesCount(scripts, StartupScripts, n, i);
    }
    OrderLength(scripts, n);
  }

  lemma {:induction false} OrderLength(scripts: seq<ScriptEntry>, n: nat)
    requires n <= |scripts|
    ensures |Indices(scripts, DormantScripts, n)| + |Indices(scripts, OtherScripts, n)| + |Indices(scripts, StartupScripts, n)| == n
    decreases n
  {
    if n > 0 {
      OrderLength(scripts, n - 1);
    }
  }

  /** Dormant scripts come first, startup scripts last, everything else in
      between, and within a group the dictionary order is kept. */
  lemma GroupsInOrder(scripts: seq<ScriptEntry>)
    ensures var order := EmitOrder(scripts);
      forall k, l :: 0 <= k < l < |order| ==>
        var gk, gl := GroupOf(scripts[order[k]].def.kind), GroupOf(scripts[order[l]].def.kind);
        Rank(gk) <= Rank(gl) && (gk == gl ==> order[k] < order[l])
  {
    var n := |scripts|;
    var d, o, st := Indices(scripts, DormantScripts, n), Indices(scripts, OtherScripts, n), Indices(scripts, StartupScripts, n);
    var order := EmitOrder(scripts);
    IndicesOfGroup(scripts, DormantScripts, n);
    IndicesOfGroup(scripts, OtherScripts, n);
    IndicesOfGroup(scripts, StartupScripts, n);
    forall k, l | 0 <= k < l < |order|
      ensures var gk, gl := GroupOf(scripts[order[k]].def.kind), GroupOf(scripts[order[l]].def.kind);
        Rank(gk) <= Rank(gl) && (gk == gl ==> order[k] < order[l])
    {
      if l < |d| {
        assert order[k] == d[k] && order[l] == d[l];
      } else if l < |d| + |o| {
        assert order[l] == o[l - |d|];
        if k >= |d| {
          assert order[k] == o[k - |d|];
        } else {
          assert order[k] == d[k];
        }
      } else {
        assert order[l] == st[l - |d| - |o|];
        if k >= |d| + |o| {
          assert order[k] == st[k - |d| - |o|];
        } else if k >= |d| {
          assert order[k] == o[k - |d|];
        } else {
          assert order[k] == d[k];
        }
      }
    }
  }
}
