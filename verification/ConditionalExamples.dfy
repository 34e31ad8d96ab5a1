/**
 Conditionals as a reader of the file meets them, and a file (loader/loader/pp.c).
 */
module ConditionalExamples {
  import opened Common
  import opened Conditionals
  import opened Preprocessor

  // ---------- Line by line ----------

  /** Whether the lines inside of all these conditionals are wanted. */
  predicate AllTrue(open: seq<bool>) { forall i :: 0 <= i < |open| ==> open[i] }

  /** The lines that are kept: a conditional is open from its `!ifeq` to its `!endif`, and `!else` turns it around. */
  function Kept(ls: seq<Line>, open: seq<bool>, env: Env): seq<string> {
    if ls == [] then []
    else
      match ls[0]
      case Plain(text) => (if AllTrue(open) then [text] else []) + Kept(ls[1..], open, env)
      case IfEq(_, name, _, val, _) => Kept(ls[1..], open + [name in env && env[name] == val], env)
      case Else(_) =>
        Kept(ls[1..], if open == [] then [] else open[..|open| - 1] + [!open[|open| - 1]], env)
      case EndIf(_) => Kept(ls[1..], if open == [] then [] else open[..|open| - 1], env)
  }

  lemma AllTrueMore(open: seq<bool>, b: bool)
    ensures AllTrue(open + [b]) <==> AllTrue(open) && b
  {
    var more := open + [b];
    assert more[|open|] == b && forall i :: 0 <= i < |open| ==> more[i] == open[i];
  }

  /** What a file stands for are the lines that are kept. */
  lemma {:induction false} MeaningIsKept(d: Doc, rest: seq<Line>, open: seq<bool>, env: Env)
    requires Nested(d)
    ensures Kept(Lines(d, rest), open, env) ==
            (if AllTrue(open) then Meaning(d, env) else []) + Kept(rest, open, env)
    decreases d
  {
    match d
    case Nil =>
      EmptyLeft(Kept(rest, open, env));
    case Text(s, next) =>
      MeaningIsKept(next, rest, open, env);
      assert Lines(d, rest)[1..] == Lines(next, rest);
      Assoc([s], Meaning(next, env), Kept(rest, open, env));
      EmptyLeft(Kept(rest, open, env));
    case Cond(head, thn, alt, foot, next) =>
      var h, after := Holds(head, env), Lines(next, rest);
      var tail := [foot] + after;
      var mid := if alt.WithElse? then [alt.line] + Lines(alt.els, tail) else tail;
      KeptHead(head, Lines(thn, mid), open, h, env);
      MeaningIsKept(thn, mid, open + [h], env);
      AllTrueMore(open, h);
      AllTrueMore(open, !h);
      if alt.WithElse? {
        KeptHead(alt.line, Lines(alt.els, tail), open, h, env);
        MeaningIsKept(alt.els, tail, open + [!h], env);
      }
      KeptHead(foot, after, open, if alt.WithElse? then !h else h, env);
      MeaningIsKept(next, rest, open, env);
      CondParts(if h then Meaning(thn, env) else [], if !h && alt.WithElse? then Meaning(alt.els, env) else [],
                Meaning(next, env), Kept(rest, open, env));
  }

  lemma CondParts(a: seq<string>, b: seq<string>, c: seq<string>, d: seq<string>)
    requires a == [] || b == []
    ensures a + (b + (c + d)) == (if a == [] then b else a) + c + d
    ensures a + (c + d) == a + c + d && [] + d == d
  {
  }

  lemma {:induction false} KeptHead(l: Line, ls: seq<Line>, open: seq<bool>, b: bool, env: Env)
    ensures l.IfEq? ==> Kept([l] + ls, open, env) == Kept(ls, open + [l.name in env && env[l.name] == l.val], env)
    ensures l.Else? ==> Kept([l] + ls, open + [b], env) == Kept(ls, open + [!b], env)
    ensures l.EndIf? ==> Kept([l] + ls, open + [b], env) == Kept(ls, open, env)
  {
    assert ([l] + ls)[1..] == ls;
    assert (open + [b])[..|open|] == open;
  }

  /** Preprocessing a file leaves the lines that are kept, up to blank ones. */
  method PreprocessKept(s: string, env: Env, memory: seq<string>, ghost d: Doc) returns (text: string)
    requires Nested(d) && WellFormedDoc(d, env) && d.Text? && s == Render(Lines(d, []))
    ensures exists lines :: text == Render(Texts(lines)) && NotBlank(lines) == NotBlank(Kept(Lines(d, []), [], env))
  {
    hide WellFormedDoc, Render, Lines, Meaning, Depth, Texts;
    ghost var passes;
    text, passes := Preprocess(s, env, memory, d);
    MeaningIsKept(d, [], [], env);
    assert Meaning(d, env) + [] == Meaning(d, env);
  }

  // ---------- A file ----------

  const LINES := [Plain("one"), IfEq(0, "lang", 1, "de", 0), Plain("zwei"), IfEq(1, "x", 1, "1", 1), Plain("three"),
                  EndIf(0), Else(0), Plain("two"), EndIf(1), Plain("four")]

  const INNER := "!ifeq  x 1 \r\n" + ("three\r\n" + ("!endif\r\n" + REST))
  const REST := "!else\r\n" + ("two\r\n" + ("!endif \r\n" + ("four\r\n" + "")))
  const FILE := "one\r\n" + ("!ifeq lang de\r\n" + ("zwei\r\n" + INNER))

  const DOC := Text("one", Cond(LINES[1], Text("zwei", Cond(LINES[3], Text("three", Nil), NoElse, LINES[5], Nil)),
                               WithElse(LINES[6], Text("two", Nil)), LINES[8], Text("four", Nil)))

  lemma DocLines()
    ensures Nested(DOC) && Lines(DOC, []) == LINES && Depth(DOC) == 2
  {
    var tail := [LINES[8]] + Lines(Text("four", Nil), []);
    assert tail == LINES[8..];
    var els := [LINES[6]] + Lines(Text("two", Nil), tail);
    assert els == LINES[6..];
    assert Lines(Text("three", Nil), [LINES[5]] + els) == LINES[4..];
  }

  lemma FirstIfBody()
    ensures Body(LINES[1]) == "!ifeq lang de"
  {
    assert Spaces(0) == "" && Spaces(1) == " ";
    assert "de" + Spaces(0) == "de" && "lang" + (" " + "de") == "lang de" && "" + "lang de" == "lang de";
  }

  lemma SecondIfBody()
    ensures Body(LINES[3]) == "!ifeq  x 1 "
  {
    assert Spaces(1) == " ";
    assert "1" + Spaces(1) == "1 " && "x" + (" " + "1 ") == "x 1 " && " " + "x 1 " == " x 1 ";
  }

  lemma Bodies()
    ensures Body(LINES[1]) == "!ifeq lang de" && Body(LINES[3]) == "!ifeq  x 1 "
    ensures Body(LINES[5]) == "!endif" && Body(LINES[6]) == "!else" && Body(LINES[8]) == "!endif "
  {
    FirstIfBody();
    SecondIfBody();
    assert Spaces(0) == "" && Spaces(1) == " ";
  }

  lemma RenderFrom(i: nat, b: string, t: string)
    requires i < |LINES| && Body(LINES[i]) == b && Render(LINES[i + 1..]) == t
    ensures Render(LINES[i..]) == b + "\r\n" + t
  {
    assert LINES[i..][0] == LINES[i] && LINES[i..][1..] == LINES[i + 1..];
    Assoc(b, "\r\n", t);
  }

  lemma PlainBody(t: string)
    ensures Body(Plain(t)) == t
  {
  }

  lemma RestText()
    ensures Render(LINES[6..]) == REST
  {
    hide Body;
    Bodies();
    PlainBody("two");
    PlainBody("four");
    assert LINES[10..] == [];
    RenderFrom(9, "four", "");
    RenderFrom(8, "!endif ", "four\r\n" + "");
    RenderFrom(7, "two", "!endif \r\n" + ("four\r\n" + ""));
    RenderFrom(6, "!else", "two\r\n" + ("!endif \r\n" + ("four\r\n" + "")));
  }

  lemma InnerText()
    ensures Render(LINES[3..]) == INNER
  {
    hide Body;
    Bodies();
    RestText();
    PlainBody("three");
    RenderFrom(5, "!endif", REST);
    RenderFrom(4, "three", "!endif\r\n" + REST);
    RenderFrom(3, "!ifeq  x 1 ", "three\r\n" + ("!endif\r\n" + REST));
  }

  lemma FileText()
    ensures Render(LINES) == FILE
  {
    hide Body;
    Bodies();
    InnerText();
    PlainBody("one");
    PlainBody("zwei");
    RenderFrom(2, "zwei", INNER);
    RenderFrom(1, "!ifeq lang de", "zwei\r\n" + INNER);
    RenderFrom(0, "one", "!ifeq lang de\r\n" + ("zwei\r\n" + INNER));
    assert LINES[0..] == LINES;
  }

  lemma WellFormedText(t: string, env: Env)
    requires forall i :: 0 <= i < |t| ==> t[i] != '!' && t[i] != '\r' && t[i] != '\n'
    ensures WellFormed(Plain(t), env)
  {
    forall i: nat
      ensures !StartsWith(t, i, "!if")
    {
      assert i + 3 <= |t| ==> t[i..i + 3][0] == t[i];
    }
    assert |t| >= 5 ==> t[0..5][0] == t[0];
    assert |t| >= 6 ==> t[0..6][0] == t[0];
  }

  const ENV: Env := map["lang" := "de", "x" := "1"]

  lemma DocWellFormed()
    ensures WellFormedDoc(DOC, ENV)
  {
    WellFormedText("one", ENV);
    WellFormedText("zwei", ENV);
    WellFormedText("three", ENV);
    WellFormedText("two", ENV);
    WellFormedText("four", ENV);
    hide StartsWith;
    assert WellFormed(LINES[1], ENV) && WellFormed(LINES[3], ENV);
  }

  /** Each line: what is kept from it on, and what is open behind it. */
  lemma KeptFrom(i: nat, open: seq<bool>, next: seq<bool>, text: seq<string>, rest: seq<string>)
    requires i < |LINES| && Kept(LINES[i + 1..], next, ENV) == rest
    requires match LINES[i]
             case Plain(t) => next == open && text == if AllTrue(open) then [t] else []
             case IfEq(_, name, _, val, _) => text == [] && next == open + [name in ENV && ENV[name] == val]
             case Else(_) => text == [] && open != [] && next == open[..|open| - 1] + [!open[|open| - 1]]
             case EndIf(_) => text == [] && open != [] && next == open[..|open| - 1]
    ensures Kept(LINES[i..], open, ENV) == text + rest
  {
    assert LINES[i..][0] == LINES[i] && LINES[i..][1..] == LINES[i + 1..];
    EmptyLeft(rest);
  }

  lemma RestKept()
    ensures Kept(LINES[5..], [true, true], ENV) == ["four"]
  {
    assert LINES[10..] == [] && Kept([], [], ENV) == [];
    hide Kept;
    assert AllTrue([]) && ![false][0];
    KeptFrom(9, [], [], ["four"], []);
    KeptFrom(8, [false], [], [], ["four"]);
    KeptFrom(7, [false], [false], [], ["four"]);
    KeptFrom(6, [true], [false], [], ["four"]);
    KeptFrom(5, [true, true], [true], [], ["four"]);
  }

  lemma DocKept()
    ensures Kept(LINES, [], ENV) == ["one", "zwei", "three", "four"]
  {
    hide Kept;
    RestKept();
    assert AllTrue([]) && AllTrue([true]) && AllTrue([true, true]) && LINES[0..] == LINES;
    KeptFrom(4, [true, true], [true, true], ["three"], ["four"]);
    KeptFrom(3, [true], [true, true], [], ["three", "four"]);
    KeptFrom(2, [true], [true], ["zwei"], ["three", "four"]);
    KeptFrom(1, [], [true], [], ["zwei", "three", "four"]);
    KeptFrom(0, [], [], ["one"], ["zwei", "three", "four"]);
  }

  lemma Blanks()
    ensures NotBlank(["one", "zwei", "three", "four"]) == ["one", "zwei", "three", "four"]
  {
    var a := ["one", "zwei", "three", "four"];
    assert a[1..] == ["zwei", "three", "four"] && a[1..][1..] == ["three", "four"] && a[1..][1..][1..] == ["four"];
    assert NotBlank(["four"]) == ["four"] && NotBlank(["three", "four"]) == ["three", "four"];
  }

  method Example() returns (text: string)
    ensures exists lines :: text == Render(Texts(lines)) && NotBlank(lines) == ["one", "zwei", "three", "four"]
  {
    DocLines();
    FileText();
    DocWellFormed();
    DocKept();
    hide WellFormedDoc, Render, Lines, Kept;
    text := PreprocessKept(FILE, ENV, [], DOC);
    Blanks();
  }
}
