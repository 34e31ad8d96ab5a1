/**
 What the conditional directives of a configuration file mean, and what one pass of subst_if does to the
 lines of the file (loader/loader/pp.c).

 A pass resolves only the outermost conditionals.  Conditionals nested in a branch that is dropped are not
 dropped with it: their `!ifeq` and `!endif` lines survive as an empty shell for the next pass.
 */
module Conditionals {
  import opened Common

  /** A line without its line end.  `gap`s are runs of spaces. */
  datatype Line =
    | Plain(text: string)
    | IfEq(gap1: nat, name: string, gap2: nat, val: string, gap3: nat)
    | Else(gap: nat)
    | EndIf(gap: nat)

  /** Values of the variables. */
  type Env = map<string, string>

  const BLANK := Plain("")

  // ---------- Structure and meaning ----------

  /** A well-nested file. */
  datatype Doc =
    | Nil
    | Text(s: string, next: Doc)
    | Cond(head: Line, thn: Doc, alt: Alt, foot: Line, next: Doc)

  datatype Alt = NoElse | WithElse(line: Line, els: Doc)

  predicate Nested(d: Doc) {
    match d
    case Nil => true
    case Text(_, next) => Nested(next)
    case Cond(head, thn, alt, foot, next) =>
      && head.IfEq? && foot.EndIf? && Nested(thn) && Nested(next)
      && (alt.WithElse? ==> alt.line.Else? && Nested(alt.els))
  }

  /** The lines of `d` followed by `rest`. */
  function Lines(d: Doc, rest: seq<Line>): seq<Line>
    decreases d
  {
    match d
    case Nil => rest
    case Text(s, next) => [Plain(s)] + Lines(next, rest)
    case Cond(head, thn, alt, foot, next) =>
      var tail := [foot] + Lines(next, rest);
      [head] + Lines(thn, if alt.WithElse? then [alt.line] + Lines(alt.els, tail) else tail)
  }

  predicate Holds(head: Line, env: Env)
    requires head.IfEq?
  {
    head.name in env && env[head.name] == head.val
  }

  /** The lines of text the file stands for. */
  function Meaning(d: Doc, env: Env): seq<string>
    requires Nested(d)
  {
    match d
    case Nil => []
    case Text(s, next) => [s] + Meaning(next, env)
    case Cond(head, thn, alt, _, next) =>
      (if Holds(head, env) then Meaning(thn, env)
       else if alt.WithElse? then Meaning(alt.els, env) else []) + Meaning(next, env)
  }

  function Depth(d: Doc): nat {
    match d
    case Nil => 0
    case Text(_, next) => Depth(next)
    case Cond(_, thn, alt, _, next) =>
      Max(1 + Max(Depth(thn), if alt.WithElse? then Depth(alt.els) else 0), Depth(next))
  }

  function Max(a: nat, b: nat): nat { if a >= b then a else b }

  function NotBlank(s: seq<string>): seq<string> {
    if s == [] then [] else (if s[0] == "" then [] else [s[0]]) + NotBlank(s[1..])
  }

  // ---------- One pass, on the structure ----------

  function Append(a: Doc, b: Doc): (r: Doc) {
    match a
    case Nil => b
    case Text(s, next) => Text(s, Append(next, b))
    case Cond(head, thn, alt, foot, next) => Cond(head, thn, alt, foot, Append(next, b))
  }

  /** What remains of a dropped branch. */
  function Shells(d: Doc): (r: Doc) {
    match d
    case Nil => Nil
    case Text(_, next) => Shells(next)
    case Cond(head, thn, alt, foot, next) =>
      Cond(head, if alt.WithElse? then Append(Shells(thn), Shells(alt.els)) else Shells(thn), NoElse, foot,
           Shells(next))
  }

  /** One pass.  A conditional leaves a blank line where its `!endif` was unless that line was being skipped. */
  function Pass(d: Doc, env: Env): Doc
    requires Nested(d)
  {
    match d
    case Nil => Nil
    case Text(s, next) => Text(s, Pass(next, env))
    case Cond(head, thn, alt, _, next) =>
      var rest := Pass(next, env);
      if Holds(head, env) then
        Append(thn, if alt.WithElse? then Append(Shells(alt.els), rest) else Text("", rest))
      else
        Append(Shells(thn), if alt.WithElse? then Append(alt.els, Text("", rest)) else rest)
  }

  lemma {:induction false} AppendDepth(a: Doc, b: Doc)
    requires Nested(a) && Nested(b)
    ensures Nested(Append(a, b)) && Depth(Append(a, b)) == Max(Depth(a), Depth(b))
  {
    match a
    case Nil =>
    case Text(s, next) => AppendDepth(next, b);
    case Cond(_, _, _, _, next) => AppendDepth(next, b);
  }

  lemma {:induction false} AppendMeaning(a: Doc, b: Doc, env: Env)
    requires Nested(a) && Nested(b)
    ensures Nested(Append(a, b)) && Meaning(Append(a, b), env) == Meaning(a, env) + Meaning(b, env)
  {
    match a
    case Nil =>
    case Text(s, next) =>
      AppendMeaning(next, b, env);
      Assoc([s], Meaning(next, env), Meaning(b, env));
    case Cond(head, thn, alt, _, next) =>
      AppendMeaning(next, b, env);
      Assoc(if Holds(head, env) then Meaning(thn, env) else if alt.WithElse? then Meaning(alt.els, env) else [],
            Meaning(next, env), Meaning(b, env));
  }

  lemma {:induction false} AppendLines(a: Doc, b: Doc, rest: seq<Line>)
    ensures Lines(Append(a, b), rest) == Lines(a, Lines(b, rest))
  {
    match a
    case Nil =>
    case Text(s, next) => AppendLines(next, b, rest);
    case Cond(head, thn, alt, foot, next) => AppendLines(next, b, rest);
  }

  /** Shells keep the nesting, hence the number of passes still to come, but mean nothing. */
  lemma {:induction false} ShellFacts(d: Doc, env: Env)
    requires Nested(d)
    ensures Nested(Shells(d)) && Depth(Shells(d)) == Depth(d)
    ensures Meaning(Shells(d), env) == []
  {
    match d
    case Nil =>
    case Text(_, next) => ShellFacts(next, env);
    case Cond(_, thn, alt, _, next) =>
      ShellFacts(thn, env);
      ShellFacts(next, env);
      if alt.WithElse? {
        ShellFacts(alt.els, env);
        AppendDepth(Shells(thn), Shells(alt.els));
        AppendMeaning(Shells(thn), Shells(alt.els), env);
      }
  }

  lemma {:induction false} NotBlankConcat(a: seq<string>, b: seq<string>)
    ensures NotBlank(a + b) == NotBlank(a) + NotBlank(b)
  {
    if a == [] {
      assert a + b == b;
    } else {
      NotBlankConcat(a[1..], b);
      assert (a + b)[0] == a[0] && (a + b)[1..] == a[1..] + b;
      Assoc(if a[0] == "" then [] else [a[0]], NotBlank(a[1..]), NotBlank(b));
    }
  }

  /** A pass keeps the file well nested, resolves exactly one level and keeps the meaning up to blank lines. */
  lemma {:induction false} PassFacts(d: Doc, env: Env)
    requires Nested(d)
    ensures Nested(Pass(d, env))
    ensures Depth(Pass(d, env)) == if Depth(d) == 0 then 0 else Depth(d) - 1
    ensures NotBlank(Meaning(Pass(d, env), env)) == NotBlank(Meaning(d, env))
  {
    match d
    case Nil =>
    case Text(s, next) =>
      PassFacts(next, env);
      NotBlankConcat([s], Meaning(Pass(next, env), env));
      NotBlankConcat([s], Meaning(next, env));
    case Cond(head, thn, alt, foot, next) =>
      PassFacts(next, env);
      PassCondDepth(d, env);
      PassCondMeaning(d, env);
  }

  /** The two pieces a pass makes of a conditional. */
  function Front(d: Doc, env: Env): Doc
    requires d.Cond? && Nested(d)
  {
    if Holds(d.head, env) then d.thn else Shells(d.thn)
  }

  function Tail(d: Doc, rest: Doc, env: Env): Doc
    requires d.Cond? && Nested(d)
  {
    if Holds(d.head, env) then (if d.alt.WithElse? then Append(Shells(d.alt.els), rest) else Text("", rest))
    else if d.alt.WithElse? then Append(d.alt.els, Text("", rest)) else rest
  }

  lemma {:induction false} PassCondDepth(d: Doc, env: Env)
    requires d.Cond? && Nested(d)
    requires Nested(Pass(d.next, env))
    requires Depth(Pass(d.next, env)) == if Depth(d.next) == 0 then 0 else Depth(d.next) - 1
    ensures Nested(Pass(d, env)) && Depth(Pass(d, env)) == Depth(d) - 1
  {
    var rest := Pass(d.next, env);
    ShellFacts(d.thn, env);
    if d.alt.WithElse? {
      ShellFacts(d.alt.els, env);
      AppendDepth(Shells(d.alt.els), rest);
      AppendDepth(d.alt.els, Text("", rest));
    }
    AppendDepth(Front(d, env), Tail(d, rest, env));
    assert Pass(d, env) == Append(Front(d, env), Tail(d, rest, env));
  }

  lemma {:induction false} BlankMeansNothing(rest: Doc, env: Env)
    requires Nested(rest)
    ensures NotBlank(Meaning(Text("", rest), env)) == NotBlank(Meaning(rest, env))
  {
    assert Meaning(Text("", rest), env)[1..] == Meaning(rest, env);
  }

  lemma {:induction false} TailMeaning(d: Doc, rest: Doc, env: Env)
    requires d.Cond? && Nested(d) && Nested(rest)
    ensures Nested(Tail(d, rest, env))
    ensures NotBlank(Meaning(Tail(d, rest, env), env))
            == if !Holds(d.head, env) && d.alt.WithElse?
               then NotBlank(Meaning(d.alt.els, env)) + NotBlank(Meaning(rest, env))
               else NotBlank(Meaning(rest, env))
  {
    BlankMeansNothing(rest, env);
    EmptyLeft(Meaning(rest, env));
    if d.alt.WithElse? {
      ShellFacts(d.alt.els, env);
      AppendMeaning(Shells(d.alt.els), rest, env);
      AppendMeaning(d.alt.els, Text("", rest), env);
      NotBlankConcat(Meaning(d.alt.els, env), Meaning(Text("", rest), env));
    }
  }

  lemma {:induction false} PassCondMeaning(d: Doc, env: Env)
    requires d.Cond? && Nested(d)
    requires Nested(Pass(d.next, env))
    requires NotBlank(Meaning(Pass(d.next, env), env)) == NotBlank(Meaning(d.next, env))
    requires Nested(Pass(d, env))
    ensures NotBlank(Meaning(Pass(d, env), env)) == NotBlank(Meaning(d, env))
  {
    var rest := Pass(d.next, env);
    var front, tail := Front(d, env), Tail(d, rest, env);
    ShellFacts(d.thn, env);
    TailMeaning(d, rest, env);
    AppendMeaning(front, tail, env);
    NotBlankConcat(Meaning(front, env), Meaning(tail, env));
    assert Pass(d, env) == Append(front, tail);
    if Holds(d.head, env) {
      NotBlankConcat(Meaning(d.thn, env), Meaning(d.next, env));
    } else {
      EmptyLeft(NotBlank(Meaning(tail, env)));
      EmptyLeft(Meaning(d.next, env));
      if d.alt.WithElse? {
        NotBlankConcat(Meaning(d.alt.els, env), Meaning(d.next, env));
      }
    }
  }

  // ---------- One pass, line by line ----------

  /** The run of subst_if over the lines: `count` is the nesting of conditionals entered, `skip` whether text
      is being dropped, `flag` whether the outermost condition held. */
  function PassLines(ls: seq<Line>, count: int, skip: bool, flag: bool, env: Env): seq<Line> {
    if ls == [] then []
    else
      match ls[0]
      case IfEq(_, _, _, _, _) =>
        if count == 0 then
          var holds := Holds(ls[0], env);
          PassLines(ls[1..], 1, !holds, holds, env)
        else [ls[0]] + PassLines(ls[1..], count + 1, skip, flag, env)
      case Else(_) =>
        if count == 1 then PassLines(ls[1..], count, flag, flag, env)
        else if skip then PassLines(ls[1..], count, skip, flag, env)
        else [ls[0]] + PassLines(ls[1..], count, skip, flag, env)
      case EndIf(_) =>
        if count > 1 then [ls[0]] + PassLines(ls[1..], count - 1, skip, flag, env)
        else if count == 1 then (if skip then [] else [BLANK]) + PassLines(ls[1..], 0, false, false, env)
        else (if skip then [] else [BLANK]) + PassLines(ls[1..], count - 1, skip, flag, env)
      case Plain(_) =>
        (if skip then [] else [ls[0]]) + PassLines(ls[1..], count, skip, flag, env)
  }

  /** Inside a branch that is kept, everything is copied. */
  lemma {:induction false} KeptLines(d: Doc, rest: seq<Line>, count: int, flag: bool, env: Env)
    requires Nested(d) && count >= 1
    ensures PassLines(Lines(d, rest), count, false, flag, env) == Lines(d, PassLines(rest, count, false, flag, env))
    decreases d
  {
    match d
    case Nil =>
    case Text(s, next) => KeptLines(next, rest, count, flag, env);
    case Cond(head, thn, alt, foot, next) =>
      var tail := [foot] + Lines(next, rest);
      KeptLines(next, rest, count, flag, env);
      if alt.WithElse? {
        KeptLines(alt.els, tail, count + 1, flag, env);
        KeptLines(thn, [alt.line] + Lines(alt.els, tail), count + 1, flag, env);
      } else {
        KeptLines(thn, tail, count + 1, flag, env);
      }
  }

  /** Inside a branch that is dropped, the shells of its conditionals are copied. */
  lemma {:induction false} DroppedLines(d: Doc, rest: seq<Line>, count: int, flag: bool, env: Env)
    requires Nested(d) && count >= 1
    ensures PassLines(Lines(d, rest), count, true, flag, env)
            == Lines(Shells(d), PassLines(rest, count, true, flag, env))
    decreases d
  {
    match d
    case Nil =>
    case Text(s, next) =>
      DroppedLines(next, rest, count, flag, env);
      EmptyLeft(PassLines(Lines(next, rest), count, true, flag, env));
    case Cond(head, thn, alt, foot, next) =>
      var tail := [foot] + Lines(next, rest);
      DroppedLines(next, rest, count, flag, env);
      if alt.WithElse? {
        DroppedLines(alt.els, tail, count + 1, flag, env);
        DroppedLines(thn, [alt.line] + Lines(alt.els, tail), count + 1, flag, env);
        AppendLines(Shells(thn), Shells(alt.els), PassLines(tail, count + 1, true, flag, env));
      } else {
        DroppedLines(thn, tail, count + 1, flag, env);
      }
  }

  /** The run over the lines of a well-nested file does what Pass does to its structure. */
  lemma {:induction false} PassIsPassLines(d: Doc, rest: seq<Line>, env: Env)
    requires Nested(d)
    ensures PassLines(Lines(d, rest), 0, false, false, env)
            == Lines(Pass(d, env), PassLines(rest, 0, false, false, env))
    decreases d
  {
    match d
    case Nil =>
    case Text(s, next) => PassIsPassLines(next, rest, env);
    case Cond(head, thn, alt, foot, next) =>
      PassIsPassLines(next, rest, env);
      CondLines(d, rest, env);
  }

  lemma {:induction false} CondLines(d: Doc, rest: seq<Line>, env: Env)
    requires d.Cond? && Nested(d)
    requires PassLines(Lines(d.next, rest), 0, false, false, env)
             == Lines(Pass(d.next, env), PassLines(rest, 0, false, false, env))
    ensures PassLines(Lines(d, rest), 0, false, false, env)
            == Lines(Pass(d, env), PassLines(rest, 0, false, false, env))
  {
    var h := Holds(d.head, env);
    var out := PassLines(rest, 0, false, false, env);
    var next := Pass(d.next, env);
    var tail := [d.foot] + Lines(d.next, rest);
    var body := if d.alt.WithElse? then [d.alt.line] + Lines(d.alt.els, tail) else tail;
    assert PassLines(Lines(d, rest), 0, false, false, env) == PassLines(Lines(d.thn, body), 1, !h, h, env);
    assert tail[1..] == Lines(d.next, rest);
    AppendLines(Front(d, env), Tail(d, next, env), out);
    assert Pass(d, env) == Append(Front(d, env), Tail(d, next, env));
    if h {
      KeptLines(d.thn, body, 1, h, env);
    } else {
      DroppedLines(d.thn, body, 1, h, env);
    }
    TailLines(d, tail, rest, env);
  }

  /** What follows the first branch. */
  lemma {:induction false} TailLines(d: Doc, tail: seq<Line>, rest: seq<Line>, env: Env)
    requires d.Cond? && Nested(d) && tail == [d.foot] + Lines(d.next, rest)
    requires PassLines(Lines(d.next, rest), 0, false, false, env)
             == Lines(Pass(d.next, env), PassLines(rest, 0, false, false, env))
    ensures var h := Holds(d.head, env);
      PassLines(if d.alt.WithElse? then [d.alt.line] + Lines(d.alt.els, tail) else tail, 1, !h, h, env)
      == Lines(Tail(d, Pass(d.next, env), env), PassLines(rest, 0, false, false, env))
  {
    var h := Holds(d.head, env);
    var out := PassLines(rest, 0, false, false, env);
    var next := Pass(d.next, env);
    assert tail[1..] == Lines(d.next, rest);
    EmptyLeft(Lines(next, out));
    if d.alt.WithElse? {
      var els := d.alt.els;
      assert ([d.alt.line] + Lines(els, tail))[1..] == Lines(els, tail);
      if h {
        DroppedLines(els, tail, 1, h, env);
        AppendLines(Shells(els), next, out);
      } else {
        KeptLines(els, tail, 1, h, env);
        AppendLines(els, Text("", next), out);
      }
    }
  }
}
