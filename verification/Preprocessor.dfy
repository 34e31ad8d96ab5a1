/**
 The conditional preprocessor on the characters of the file: subst_if and the loop around it in preprocess
 (loader/loader/pp.c).  Lines end in CR LF.
 */
module Preprocessor {
  import opened Common
  import opened Strings
  import opened Conditionals

  const EOL := "\r\n"

  // ---------- Lines as text ----------

  function Spaces(n: nat): string { if n == 0 then "" else " " + Spaces(n - 1) }

  function Body(l: Line): string {
    match l
    case Plain(text) => text
    case IfEq(g1, name, g2, val, g3) => "!ifeq " + (Spaces(g1) + (name + (Spaces(g2) + (val + Spaces(g3)))))
    case Else(g) => "!else" + Spaces(g)
    case EndIf(g) => "!endif" + Spaces(g)
  }

  function Render(ls: seq<Line>): string {
    if ls == [] then "" else Body(ls[0]) + (EOL + Render(ls[1..]))
  }

  predicate StartsWith(s: string, i: nat, pat: string) { i + |pat| <= |s| && s[i..i + |pat|] == pat }

  predicate NoEol(t: string) { forall i :: 0 <= i < |t| ==> t[i] != '\r' && t[i] != '\n' }

  predicate IsWord(t: string) { NoEol(t) && forall i :: 0 <= i < |t| ==> t[i] != ' ' }

  /** A line the preprocessor reads as what it is.  Names and values must fit buffers of 24 bytes. */
  ghost predicate WellFormed(l: Line, env: Env) {
    match l
    case Plain(t) =>
      && NoEol(t) && !StartsWith(t, 0, "!else") && !StartsWith(t, 0, "!endif")
      && forall i: nat :: !StartsWith(t, i, "!if")
    case IfEq(_, name, g2, val, g3) =>
      && IsWord(name) && IsWord(val) && 0 < |name| < 24 && |val| < 24 && g2 > 0 && name in env
      && (val == "" ==> g3 == 0)
    case _ => true
  }

  ghost predicate AllWellFormed(ls: seq<Line>, env: Env) {
    forall i :: 0 <= i < |ls| ==> WellFormed(ls[i], env)
  }

  lemma {:induction false} SpacesAre(n: nat)
    ensures |Spaces(n)| == n && forall k :: 0 <= k < n ==> Spaces(n)[k] == ' '
  {
    if n > 0 {
      SpacesAre(n - 1);
    }
  }

  lemma {:induction false} BodyHasNoEol(l: Line, env: Env)
    requires WellFormed(l, env)
    ensures NoEol(Body(l))
  {
    match l
    case Plain(_) =>
    case IfEq(g1, _, g2, _, g3) => SpacesAre(g1); SpacesAre(g2); SpacesAre(g3);
    case Else(g) => SpacesAre(g);
    case EndIf(g) => SpacesAre(g);
  }

  predicate IsEol(c: char) { c == '\r' || c == '\n' }

  method SkipSpaces(s: string, i: nat, ghost n: nat, ghost t: string) returns (j: nat)
    requires Reads(s, i, Spaces(n) + t) && t != "" && t[0] != ' '
    ensures j == i + n && Reads(s, j, t)
  {
    SpacesAre(n);
    ReadsOn(s, i, Spaces(n), t);
    assert s[i + n] == s[i + n..][0];
    j := i;
    while s[j] == ' '
      invariant i <= j <= i + n
      decreases i + n - j
    {
      j := j + 1;
    }
  }

  method SkipEol(s: string, i: nat, ghost t: string) returns (j: nat)
    requires Reads(s, i, EOL + t)
    ensures j == i + 2 && Reads(s, j, t)
  {
    ReadsOn(s, i, EOL, t);
    assert s[i] == '\r' && s[i + 1] == '\n';
    j := i;
    if IsEol(s[j]) { j := j + 1; }
    if IsEol(s[j]) { j := j + 1; }
  }

  /** Reads a word up to a space or, if `stopAtEol`, the end of the line. */
  method TakeWord(s: string, i: nat, stopAtEol: bool, ghost w: string, ghost t: string) returns (word: string, j: nat)
    requires Reads(s, i, w + t) && IsWord(w) && t != "" && (t[0] == ' ' || (stopAtEol && IsEol(t[0])))
    ensures word == w && j == i + |w| && Reads(s, j, t)
  {
    ReadsOn(s, i, w, t);
    assert s[i + |w|] == s[i + |w|..][0];
    j := i;
    word := "";
    while s[j] != ' ' && !(stopAtEol && IsEol(s[j]))
      invariant i <= j <= i + |w| && word == w[..j - i]
      decreases i + |w| - j
    {
      word := word + [s[j]];
      j := j + 1;
    }
  }

  method DropLine(s: string, i: nat, ghost b: string, ghost t: string) returns (j: nat)
    requires Reads(s, i, b + (EOL + t)) && NoEol(b)
    ensures j == i + |b| + 2 && Reads(s, j, t)
  {
    ReadsOn(s, i, b, EOL + t);
    ReadsOn(s, i + |b|, EOL, t);
    assert s[i + |b|] == '\r';
    j := i;
    while !IsEol(s[j])
      invariant i <= j <= i + |b|
      decreases i + |b| - j
    {
      j := j + 1;
    }
    assert j == i + |b|;
    j := SkipEol(s, j, t);
  }

  method CopyLine(s: string, i: nat, to: array<char>, p: nat, ghost b: string, ghost t: string)
    returns (j: nat, q: nat)
    requires Reads(s, i, b + (EOL + t)) && NoEol(b) && p + |b| + 2 <= to.Length
    modifies to
    ensures j == i + |b| + 2 && Reads(s, j, t)
    ensures q == p + |b| + 2 && to[..q] == old(to[..p]) + (b + EOL)
  {
    ReadsOn(s, i, b, EOL + t);
    ReadsOn(s, i + |b|, EOL, t);
    assert s[i + |b|] == '\r';
    j, q := i, p;
    while !IsEol(s[j])
      invariant i <= j <= i + |b| && q == p + (j - i)
      invariant to[..q] == old(to[..p]) + b[..j - i]
      decreases i + |b| - j
    {
      to[q] := s[j];
      q := q + 1;
      j := j + 1;
    }
    assert j == i + |b|;
    assert b[..|b|] == b;
    to[q], to[q + 1] := '\r', '\n';
    assert to[..q + 2] == old(to[..p]) + (b + EOL);
    q := q + 2;
    j := SkipEol(s, j, t);
  }

  // ---------- One pass ----------

  /** The local variables of subst_if: read position, write position, `*len`, and the state of the run. */
  datatype Vars = Vars(line: nat, p: nat, len: nat, count: int, skip: bool, flag: bool)
  {
    /** `*len` counts the bytes written and the bytes still to be read. */
    predicate Valid(s: string) { p <= line <= |s| && len == p + |s| - line }

    function Rest(ls: seq<Line>, env: Env): seq<Line> { PassLines(ls, count, skip, flag, env) }
  }

  /** `s` goes on with the well-formed lines `ls`. */
  ghost predicate Remaining(s: string, i: nat, ls: seq<Line>, env: Env) {
    Reads(s, i, Render(ls)) && AllWellFormed(ls, env)
  }

  lemma RenderOne(l: Line)
    ensures Render([l]) == Body(l) + EOL
  {
    assert Render([l][1..]) == "";
    assert EOL + "" == EOL;
  }

  lemma TailWellFormed(ls: seq<Line>, env: Env)
    requires AllWellFormed(ls, env) && ls != []
    ensures WellFormed(ls[0], env) && AllWellFormed(ls[1..], env) && NoEol(Body(ls[0]))
  {
    BodyHasNoEol(ls[0], env);
  }

  /** Copies the line as it is. */
  method Keep(s: string, to: array<char>, v: Vars, ghost ls: seq<Line>, ghost env: Env) returns (v': Vars)
    requires v.Valid(s) && Remaining(s, v.line, ls, env) && ls != [] && to.Length >= |s|
    modifies to
    ensures v'.Valid(s) && Remaining(s, v'.line, ls[1..], env) && v'.line > v.line
    ensures v' == v.(line := v'.line, p := v'.p)
    ensures to[..v'.p] == old(to[..v.p]) + Render([ls[0]])
  {
    TailWellFormed(ls, env);
    RenderOne(ls[0]);
    assert |Body(ls[0]) + (EOL + Render(ls[1..]))| == |s| - v.line;
    var j, q := CopyLine(s, v.line, to, v.p, Body(ls[0]), Render(ls[1..]));
    v' := v.(line := j, p := q);
  }

  /** Leaves the line out. */
  method Drop(s: string, v: Vars, ghost ls: seq<Line>, ghost env: Env) returns (v': Vars)
    requires v.Valid(s) && Remaining(s, v.line, ls, env) && ls != []
    ensures v'.Valid(s) && Remaining(s, v'.line, ls[1..], env) && v'.line > v.line
    ensures v' == v.(line := v'.line, len := v'.len)
  {
    TailWellFormed(ls, env);
    var j := DropLine(s, v.line, Body(ls[0]), Render(ls[1..]));
    v' := v.(line := j, len := v.len - (j - v.line));
  }

  /** Reads an outermost `!ifeq` line and compares the variable. */
  method EnterCond(s: string, v: Vars, env: Env, ghost ls: seq<Line>) returns (v': Vars)
    requires v.Valid(s) && Remaining(s, v.line, ls, env) && ls != [] && ls[0].IfEq? && v.count == 0
    ensures v'.Valid(s) && Remaining(s, v'.line, ls[1..], env) && v'.line > v.line
    ensures v'.p == v.p && v'.Rest(ls[1..], env) == v.Rest(ls, env)
  {
    TailWellFormed(ls, env);
    ghost var l, t := ls[0], EOL + Render(ls[1..]);
    ghost var t3 := Spaces(l.gap3) + t;
    ghost var t2 := Spaces(l.gap2) + (l.val + t3);
    ghost var t1 := Spaces(l.gap1) + (l.name + t2);
    IfEqText(l, t);
    ReadsOn(s, v.line, "!ifeq ", t1);
    SpacesAre(l.gap2);
    SpacesAre(l.gap3);
    var i := SkipSpaces(s, v.line + 6, l.gap1, l.name + t2);
    var name, val;
    name, i := TakeWord(s, i, false, l.name, t2);
    assert (l.val + t3)[0] == if l.val == "" then '\r' else l.val[0];
    i := SkipSpaces(s, i, l.gap2, l.val + t3);
    val, i := TakeWord(s, i, true, l.val, t3);
    i := SkipSpaces(s, i, l.gap3, t);
    i := SkipEol(s, i, Render(ls[1..]));
    var flag := env[name] == val;
    v' := Vars(i, v.p, v.len - (i - v.line), 1, !flag, flag);
  }

  lemma IfEqText(l: Line, t: string)
    requires l.IfEq?
    ensures Body(l) + t ==
            "!ifeq " + (Spaces(l.gap1) + (l.name + (Spaces(l.gap2) + (l.val + (Spaces(l.gap3) + t)))))
  {
    var v3 := l.val + Spaces(l.gap3);
    var v2 := Spaces(l.gap2) + v3;
    var v1 := l.name + v2;
    var v0 := Spaces(l.gap1) + v1;
    Assoc("!ifeq ", v0, t);
    Assoc(Spaces(l.gap1), v1, t);
    Assoc(l.name, v2, t);
    Assoc(Spaces(l.gap2), v3, t);
    Assoc(l.val, Spaces(l.gap3), t);
  }

  /** Reads the `!else` line of an outermost conditional. */
  method SwitchBranch(s: string, v: Vars, ghost ls: seq<Line>, ghost env: Env) returns (v': Vars)
    requires v.Valid(s) && Remaining(s, v.line, ls, env) && ls != [] && ls[0].Else? && v.count == 1
    ensures v'.Valid(s) && Remaining(s, v'.line, ls[1..], env) && v'.line > v.line
    ensures v'.p == v.p && v'.Rest(ls[1..], env) == v.Rest(ls, env)
  {
    TailWellFormed(ls, env);
    ghost var t := EOL + Render(ls[1..]);
    Assoc("!else", Spaces(ls[0].gap), t);
    ReadsOn(s, v.line, "!else", Spaces(ls[0].gap) + t);
    var i := SkipSpaces(s, v.line + 5, ls[0].gap, t);
    i := SkipEol(s, i, Render(ls[1..]));
    v' := v.(line := i, skip := v.flag, len := v.len - (i - v.line));
  }

  /** Reads an `!endif` that is not being skipped; its line end stays and will be read as a blank line. */
  method LeaveCond(s: string, v: Vars, ghost ls: seq<Line>, ghost env: Env) returns (v': Vars)
    requires v.Valid(s) && Remaining(s, v.line, ls, env) && ls != [] && ls[0].EndIf? && v.count <= 1 && !v.skip
    ensures v'.Valid(s) && Remaining(s, v'.line, [BLANK] + ls[1..], env) && v'.line > v.line
    ensures v'.p == v.p && v'.Rest([BLANK] + ls[1..], env) == v.Rest(ls, env)
  {
    TailWellFormed(ls, env);
    ghost var t := EOL + Render(ls[1..]);
    Assoc("!endif", Spaces(ls[0].gap), t);
    ReadsOn(s, v.line, "!endif", Spaces(ls[0].gap) + t);
    var i := SkipSpaces(s, v.line + 6, ls[0].gap, t);
    v' := v.(line := i, len := v.len - (i - v.line), count := v.count - 1);
    if v.count == 1 {
      v' := v'.(skip := false, flag := false);
    }
    BlankLine(ls[1..], env);
  }

  lemma {:induction false} BlankLine(ls: seq<Line>, env: Env)
    requires AllWellFormed(ls, env)
    ensures AllWellFormed([BLANK] + ls, env) && Render([BLANK] + ls) == EOL + Render(ls)
  {
    assert ([BLANK] + ls)[1..] == ls;
    EmptyLeft(EOL + Render(ls));
  }

  /** Whether a line starts in a certain way can be seen from its body. */
  lemma PrefixOfBody(s: string, i: nat, b: string, t: string, pat: string)
    requires Reads(s, i, b + (EOL + t)) && NoEol(pat)
    ensures StartsWith(s, i, pat) <==> StartsWith(b, 0, pat)
  {
    ReadsOn(s, i, b, EOL + t);
    ReadsOn(s, i + |b|, EOL, t);
    if |pat| <= |b| {
      assert s[i..i + |pat|] == b[..|pat|];
    } else if i + |pat| <= |s| {
      var c := pat[|b|];
      assert s[i..i + |pat|][|b|] == s[i + |b|] == '\r';
    }
  }

  lemma Classify(s: string, i: nat, ls: seq<Line>, env: Env)
    requires Remaining(s, i, ls, env) && ls != []
    ensures StartsWith(s, i, "!ifeq ") <==> ls[0].IfEq?
    ensures !ls[0].IfEq? ==> (StartsWith(s, i, "!else") <==> ls[0].Else?)
    ensures !ls[0].IfEq? ==> (StartsWith(s, i, "!endif") <==> ls[0].EndIf?)
  {
    TailWellFormed(ls, env);
    var b, t := Body(ls[0]), Render(ls[1..]);
    PrefixOfBody(s, i, b, t, "!ifeq ");
    PrefixOfBody(s, i, b, t, "!else");
    PrefixOfBody(s, i, b, t, "!endif");
    BodyStarts(ls[0], env);
  }

  lemma BodyStarts(l: Line, env: Env)
    requires WellFormed(l, env)
    ensures StartsWith(Body(l), 0, "!ifeq ") <==> l.IfEq?
    ensures !l.IfEq? ==> (StartsWith(Body(l), 0, "!else") <==> l.Else?)
    ensures !l.IfEq? ==> (StartsWith(Body(l), 0, "!endif") <==> l.EndIf?)
  {
    var b := Body(l);
    match l
    case Plain(t) =>
      var directive := StartsWith(t, 0, "!if");
      if |t| >= 6 {
        assert b[0..3] == b[0..6][..3] && "!ifeq "[..3] == "!if";
      }
    case IfEq(_, _, _, _, _) => assert b[..6] == "!ifeq ";
    case Else(_) => assert b[..5] == "!else" && b[2] == 'l' && (|b| >= 6 ==> b[0..6][2] == 'l');
    case EndIf(_) => assert b[..6] == "!endif" && b[1] == 'e' && b[2] == 'n';
  }

  /** The branch of the loop for `!endif`. */
  method EndIfLine(s: string, to: array<char>, v: Vars, ghost env: Env, ghost ls: seq<Line>)
    returns (v': Vars, ghost ls': seq<Line>, ghost done: seq<Line>)
    requires v.Valid(s) && Remaining(s, v.line, ls, env) && ls != [] && ls[0].EndIf? && to.Length >= |s|
    modifies to
    ensures v'.Valid(s) && Remaining(s, v'.line, ls', env) && v'.line > v.line
    ensures to[..v'.p] == old(to[..v.p]) + Render(done)
    ensures v.Rest(ls, env) == done + v'.Rest(ls', env)
  {
    ls', done := ls[1..], [];
    EmptyLeft(v.Rest(ls, env));
    if v.count > 1 {
      v' := Keep(s, to, v, ls, env);
      done := [ls[0]];
      v' := v'.(count := v'.count - 1);
    } else if v.skip {
      v' := Drop(s, v, ls, env);
      if v.count == 1 {
        v' := v'.(skip := false, flag := false);
      }
      v' := v'.(count := v'.count - 1);
    } else {
      v' := LeaveCond(s, v, ls, env);
      ls' := [BLANK] + ls[1..];
    }
  }

  /** Text, and directives of inner conditionals: copied or dropped as they are. */
  method PlainLine(s: string, to: array<char>, v: Vars, ghost env: Env, ghost ls: seq<Line>)
    returns (v': Vars, ghost done: seq<Line>)
    requires v.Valid(s) && Remaining(s, v.line, ls, env) && ls != [] && to.Length >= |s|
    requires ls[0].Plain? || (ls[0].Else? && v.count != 1)
    modifies to
    ensures v'.Valid(s) && Remaining(s, v'.line, ls[1..], env) && v'.line > v.line
    ensures to[..v'.p] == old(to[..v.p]) + Render(done)
    ensures v.Rest(ls, env) == done + v'.Rest(ls[1..], env)
  {
    EmptyLeft(v.Rest(ls, env));
    if v.skip {
      v' := Drop(s, v, ls, env);
      done := [];
    } else {
      v' := Keep(s, to, v, ls, env);
      done := [ls[0]];
    }
  }

  /** The branch of the loop for `!ifeq`; inside a conditional the line is kept for a later pass. */
  method IfLine(s: string, to: array<char>, v: Vars, env: Env, ghost ls: seq<Line>)
    returns (v': Vars, ghost done: seq<Line>)
    requires v.Valid(s) && Remaining(s, v.line, ls, env) && ls != [] && ls[0].IfEq? && to.Length >= |s|
    modifies to
    ensures v'.Valid(s) && Remaining(s, v'.line, ls[1..], env) && v'.line > v.line
    ensures to[..v'.p] == old(to[..v.p]) + Render(done)
    ensures v.Rest(ls, env) == done + v'.Rest(ls[1..], env)
  {
    done := [];
    EmptyLeft(v.Rest(ls, env));
    if v.count + 1 == 1 {
      v' := EnterCond(s, v, env, ls);
    } else {
      v' := Keep(s, to, v.(count := v.count + 1), ls, env);
      done := [ls[0]];
    }
  }

  /** One round of the loop of subst_if. */
  method OneLine(s: string, to: array<char>, v: Vars, env: Env, ghost ls: seq<Line>)
    returns (v': Vars, ghost ls': seq<Line>, ghost done: seq<Line>)
    requires v.Valid(s) && Remaining(s, v.line, ls, env) && ls != [] && to.Length >= |s|
    modifies to
    ensures v'.Valid(s) && Remaining(s, v'.line, ls', env) && v'.line > v.line
    ensures to[..v'.p] == old(to[..v.p]) + Render(done)
    ensures v.Rest(ls, env) == done + v'.Rest(ls', env)
  {
    Classify(s, v.line, ls, env);
    ls', done := ls[1..], [];
    if StartsWith(s, v.line, "!ifeq ") {
      v', done := IfLine(s, to, v, env, ls);
    } else if StartsWith(s, v.line, "!else") && v.count == 1 {
      v' := SwitchBranch(s, v, ls, env);
      EmptyLeft(v.Rest(ls, env));
    } else if StartsWith(s, v.line, "!endif") {
      v', ls', done := EndIfLine(s, to, v, env, ls);
    } else {
      v', done := PlainLine(s, to, v, env, ls);
    }
  }

  lemma {:induction false} RenderConcat(a: seq<Line>, b: seq<Line>)
    ensures Render(a + b) == Render(a) + Render(b)
  {
    if a == [] {
      assert a + b == b;
    } else {
      RenderConcat(a[1..], b);
      RenderHead(a, b);
      AssocTwice(Body(a[0]), EOL, Render(a[1..]), Render(b));
    }
  }

  lemma {:induction false} RenderHead(a: seq<Line>, b: seq<Line>)
    requires a != []
    ensures Render(a + b) == Body(a[0]) + (EOL + Render(a[1..] + b))
  {
    assert (a + b)[0] == a[0] && (a + b)[1..] == a[1..] + b;
  }

  lemma AssocTwice(x: string, y: string, r: string, t: string)
    ensures x + (y + (r + t)) == (x + (y + r)) + t
  {
  }

  /** One pass over the text `s` of the lines `ls`. */
  method SubstIf(to: array<char>, s: string, env: Env, ghost ls: seq<Line>) returns (len: nat)
    requires s == Render(ls) && AllWellFormed(ls, env) && ls != [] && to.Length >= |s|
    modifies to
    ensures len <= |s| && to[..len] == Render(PassLines(ls, 0, false, false, env))
  {
    var v := Vars(0, 0, |s|, 0, false, false);
    ghost var rest, out := ls, [];
    assert s[0..] == s;
    EmptyLeft(v.Rest(ls, env));
    while true
      invariant v.Valid(s) && Remaining(s, v.line, rest, env) && rest != []
      invariant to[..v.p] == Render(out)
      invariant PassLines(ls, 0, false, false, env) == out + v.Rest(rest, env)
      decreases |s| - v.line
    {
      ghost var done;
      ghost var v0, rest0 := v, rest;
      v, rest, done := OneLine(s, to, v, env, rest);
      RenderConcat(out, done);
      Assoc(out, done, v.Rest(rest, env));
      out := out + done;
      RenderEmpty(rest);
      if !(v.line < |s|) {
        break;
      }
    }
    assert out + [] == out;
    len := v.len;
  }

  lemma {:induction false} RenderEmpty(ls: seq<Line>)
    ensures Render(ls) == "" <==> ls == []
  {
  }

  // ---------- The loop around the passes ----------

  /** Whether `!if` occurs at or behind position `i`, and where first. */
  method FindIf(s: string, i: nat) returns (j: nat)
    requires i <= |s|
    ensures i <= j <= |s| && (j < |s| ==> StartsWith(s, j, "!if"))
    ensures forall k :: i <= k < j ==> !StartsWith(s, k, "!if")
  {
    j := i;
    while j < |s| && !StartsWith(s, j, "!if")
      invariant i <= j <= |s|
      invariant forall k :: i <= k < j ==> !StartsWith(s, k, "!if")
    {
      j := j + 1;
    }
  }

  /** All lines and directives of the file are well formed. */
  ghost predicate WellFormedDoc(d: Doc, env: Env) {
    match d
    case Nil => true
    case Text(s, next) => WellFormed(Plain(s), env) && WellFormedDoc(next, env)
    case Cond(head, thn, alt, foot, next) =>
      && WellFormed(head, env) && WellFormed(foot, env) && WellFormedDoc(thn, env) && WellFormedDoc(next, env)
      && (alt.WithElse? ==> WellFormed(alt.line, env) && WellFormedDoc(alt.els, env))
  }

  lemma {:induction false} AppendWellFormed(a: Doc, b: Doc, env: Env)
    requires WellFormedDoc(a, env) && WellFormedDoc(b, env)
    ensures WellFormedDoc(Append(a, b), env)
  {
    match a
    case Nil =>
    case Text(_, next) => AppendWellFormed(next, b, env);
    case Cond(_, _, _, _, next) => AppendWellFormed(next, b, env);
  }

  lemma {:induction false} ShellsWellFormed(d: Doc, env: Env)
    requires WellFormedDoc(d, env)
    ensures WellFormedDoc(Shells(d), env)
  {
    match d
    case Nil =>
    case Text(_, next) => ShellsWellFormed(next, env);
    case Cond(_, thn, alt, _, next) =>
      ShellsWellFormed(thn, env);
      ShellsWellFormed(next, env);
      if alt.WithElse? {
        ShellsWellFormed(alt.els, env);
        AppendWellFormed(Shells(thn), Shells(alt.els), env);
      }
  }

  lemma {:induction false} PassWellFormed(d: Doc, env: Env)
    requires Nested(d) && WellFormedDoc(d, env)
    ensures WellFormedDoc(Pass(d, env), env)
  {
    match d
    case Nil =>
    case Text(_, next) => PassWellFormed(next, env);
    case Cond(_, thn, alt, _, next) =>
      PassWellFormed(next, env);
      var rest := Pass(next, env);
      ShellsWellFormed(thn, env);
      if alt.WithElse? {
        ShellsWellFormed(alt.els, env);
        AppendWellFormed(Shells(alt.els), rest, env);
        AppendWellFormed(alt.els, Text("", rest), env);
      }
      AppendWellFormed(Front(d, env), Tail(d, rest, env), env);
      assert Pass(d, env) == Append(Front(d, env), Tail(d, rest, env));
  }

  lemma {:induction false} DocLinesWellFormed(d: Doc, rest: seq<Line>, env: Env)
    requires WellFormedDoc(d, env) && AllWellFormed(rest, env)
    ensures AllWellFormed(Lines(d, rest), env)
    decreases d
  {
    match d
    case Nil =>
    case Text(_, next) => DocLinesWellFormed(next, rest, env);
    case Cond(head, thn, alt, foot, next) =>
      DocLinesWellFormed(next, rest, env);
      var tail := [foot] + Lines(next, rest);
      if alt.WithElse? {
        DocLinesWellFormed(alt.els, tail, env);
        DocLinesWellFormed(thn, [alt.line] + Lines(alt.els, tail), env);
      } else {
        DocLinesWellFormed(thn, tail, env);
      }
  }

  /** The lines before the first directive, and whether there is one: an `!ifeq` line. */
  ghost predicate StartsPlainly(ls: seq<Line>) {
    ls != [] && !ls[0].IfEq? ==> ls[0].Plain? && StartsPlainly(ls[1..])
  }

  ghost predicate AllPlain(ls: seq<Line>) { ls != [] ==> ls[0].Plain? && AllPlain(ls[1..]) }

  lemma {:induction false} DocStartsPlainly(d: Doc)
    requires Nested(d)
    ensures StartsPlainly(Lines(d, []))
    ensures AllPlain(Lines(d, [])) <==> Depth(d) == 0
  {
    match d
    case Nil =>
    case Text(_, next) => DocStartsPlainly(next);
    case Cond(_, _, _, _, _) =>
  }

  /** From the start of a line on, the first `!if` starts a line, and there is one unless all lines are plain. */
  lemma {:induction false} FirstIf(s: string, i: nat, ls: seq<Line>, env: Env, j: nat)
    requires Remaining(s, i, ls, env) && StartsPlainly(ls)
    requires i <= j <= |s| && (j < |s| ==> StartsWith(s, j, "!if"))
    requires forall k :: i <= k < j ==> !StartsWith(s, k, "!if")
    ensures j < |s| <==> !AllPlain(ls)
    ensures i < j < |s| ==> s[j - 1] == '\n'
    decreases |ls|
  {
    if ls != [] {
      TailWellFormed(ls, env);
      var b, t := Body(ls[0]), Render(ls[1..]);
      ReadsOn(s, i, b, EOL + t);
      if ls[0].IfEq? {
        Classify(s, i, ls, env);
        assert s[i..i + 3] == s[i..i + 6][..3] && "!ifeq "[..3] == "!if";
        assert StartsWith(s, i, "!if");
      } else {
        ReadsOn(s, i + |b|, EOL, t);
        PlainHasNoIf(s, i, b, t, env);
        FirstIf(s, i + |b| + 2, ls[1..], env, j);
      }
    }
  }

  /** An `!if` that starts within a line lies within its body. */
  lemma IfInBody(s: string, i: nat, b: string, t: string, k: nat)
    requires Reads(s, i, b + (EOL + t)) && i <= k < i + |b| + 2 && StartsWith(s, k, "!if")
    ensures StartsWith(b, k - i, "!if")
  {
    ReadsOn(s, i, b, EOL + t);
    ReadsOn(s, i + |b|, EOL, t);
    var w := s[k..k + 3];
    assert s[k] == w[0] && s[k + 1] == w[1] && s[k + 2] == w[2];
    assert s[i + |b|] == '\r' && s[i + |b| + 1] == '\n';
    assert k + 3 <= i + |b|;
    assert w == b[k - i..k - i + 3];
  }

  lemma PlainHasNoIf(s: string, i: nat, b: string, t: string, env: Env)
    requires Reads(s, i, b + (EOL + t)) && WellFormed(Plain(b), env)
    ensures forall k :: i <= k < i + |b| + 2 ==> k < |s| && !StartsWith(s, k, "!if")
    ensures s[i + |b| + 1] == '\n'
  {
    ReadsOn(s, i, b, EOL + t);
    ReadsOn(s, i + |b|, EOL, t);
    forall k | i <= k < i + |b| + 2
      ensures !StartsWith(s, k, "!if")
    {
      if StartsWith(s, k, "!if") {
        IfInBody(s, i, b, t, k);
      }
    }
  }

  function Texts(lines: seq<string>): seq<Line> {
    if lines == [] then [] else [Plain(lines[0])] + Texts(lines[1..])
  }

  lemma {:induction false} FlatDoc(d: Doc, env: Env)
    requires Nested(d) && Depth(d) == 0
    ensures Lines(d, []) == Texts(Meaning(d, env))
  {
    match d
    case Nil =>
    case Text(s, next) =>
      FlatDoc(next, env);
      assert Meaning(d, env)[1..] == Meaning(next, env);
    case Cond(_, _, _, _, _) =>
  }

  // ---------- The loop ----------

  /** The first `!if` of the memory behind a text starts a line, when a line starts there. */
  ghost predicate AnotherIf(behind: string) {
    exists k :: FirstAt(behind, k) && (k == 0 || behind[k - 1] == '\n')
  }

  ghost predicate FirstAt(s: string, k: int) {
    0 <= k < |s| && StartsWith(s, k, "!if") && forall j :: 0 <= j < k ==> !StartsWith(s, j, "!if")
  }

  lemma {:induction false} RenderEnds(ls: seq<Line>)
    requires ls != []
    ensures |Render(ls)| >= 2 && Render(ls)[|Render(ls)| - 1] == '\n'
  {
    if |ls| > 1 {
      RenderEnds(ls[1..]);
    }
  }

  /** An `!if` lies in the text or behind it, as the text ends with a line. */
  lemma IfOnOneSide(text: string, behind: string, k: nat)
    requires text != "" && text[|text| - 1] == '\n'
    ensures k < |text| ==> (StartsWith(text + behind, k, "!if") <==> StartsWith(text, k, "!if"))
    ensures k >= |text| ==> (StartsWith(text + behind, k, "!if") <==> StartsWith(behind, k - |text|, "!if"))
  {
    var s := text + behind;
    if k + 3 <= |text| {
      assert s[k..k + 3] == text[k..k + 3];
    } else if k >= |text| && k + 3 <= |s| {
      assert s[k..k + 3] == behind[k - |text|..k - |text| + 3];
    } else if k < |text| {
      assert s[|text| - 1] == '\n';
    }
  }

  /** One pass and the test whether another one is needed.  The search for an `!if` goes on behind the text, up to
      the next NUL, since none is written. */
  method OnePass(s: string, env: Env, behind: string, ghost d: Doc) returns (text: string, more: bool)
    requires Nested(d) && WellFormedDoc(d, env) && d.Text? && s == Render(Lines(d, []))
    ensures text == Render(Lines(Pass(d, env), [])) && WellFormedDoc(Pass(d, env), env) && Pass(d, env).Text?
    ensures Nested(Pass(d, env)) && (more <==> Depth(Pass(d, env)) > 0 || AnotherIf(behind))
  {
    ghost var ls := Lines(d, []);
    DocLinesWellFormed(d, [], env);
    PassIsPassLines(d, [], env);
    var to := new char[|s|];
    var len := SubstIf(to, s, env, ls);
    text := to[..len];
    PassFacts(d, env);
    PassWellFormed(d, env);
    RenderEnds(Lines(Pass(d, env), []));
    more := TestIf(text, behind, env, Pass(d, env));
  }

  /** The loop condition: the first `!if`, if any, starts a line. */
  method TestIf(text: string, behind: string, env: Env, ghost d: Doc) returns (more: bool)
    requires Nested(d) && WellFormedDoc(d, env) && d.Text? && text == Render(Lines(d, []))
    requires text != "" && text[|text| - 1] == '\n'
    ensures more <==> Depth(d) > 0 || AnotherIf(behind)
  {
    var j := FindIf(text + behind, 0);
    forall k: nat
      ensures k < |text| ==> (StartsWith(text + behind, k, "!if") <==> StartsWith(text, k, "!if"))
      ensures k >= |text| ==> (StartsWith(text + behind, k, "!if") <==> StartsWith(behind, k - |text|, "!if"))
    {
      IfOnOneSide(text, behind, k);
    }
    if j < |text| {
      TextHasIf(text, j, env, d);
      assert (text + behind)[j - 1] == text[j - 1];
    } else {
      TextHasIf(text, |text|, env, d);
      BehindHasIf(text, behind, j);
    }
    more := j < |text + behind| && (text + behind)[j - 1] == '\n';
  }

  /** Within the text there is one exactly if a conditional is left, and it starts a line. */
  lemma {:induction false} TextHasIf(text: string, j: nat, env: Env, d: Doc)
    requires Nested(d) && WellFormedDoc(d, env) && d.Text? && text == Render(Lines(d, []))
    requires j <= |text| && (j < |text| ==> StartsWith(text, j, "!if"))
    requires forall k :: 0 <= k < j ==> !StartsWith(text, k, "!if")
    ensures j < |text| <==> Depth(d) > 0
    ensures j < |text| ==> j > 0 && text[j - 1] == '\n'
  {
    DocLinesWellFormed(d, [], env);
    DocStartsPlainly(d);
    assert text[0..] == text;
    FirstIf(text, 0, Lines(d, []), env, j);
    PlainHasNoIf(text, 0, d.s, Render(Lines(d.next, [])), env);
  }

  lemma BehindHasIf(text: string, behind: string, j: nat)
    requires text != "" && text[|text| - 1] == '\n' && |text| <= j <= |text + behind|
    requires j < |text + behind| ==> StartsWith(behind, j - |text|, "!if")
    requires forall k :: |text| <= k < j ==> !StartsWith(text + behind, k, "!if")
    ensures AnotherIf(behind) <==> j < |text + behind| && (text + behind)[j - 1] == '\n'
  {
    forall k: nat | k < j - |text|
      ensures !StartsWith(behind, k, "!if")
    {
      IfOnOneSide(text, behind, |text| + k);
    }
    var at := j - |text|;
    if j < |text + behind| {
      assert FirstAt(behind, at);
      assert at > 0 ==> (text + behind)[j - 1] == behind[at - 1];
      assert forall k :: FirstAt(behind, k) ==> k == at;
    }
  }

  /** Preprocessing a well-nested file whose first line is plain leaves exactly the text the file stands for, up to
      blank lines.  It takes one pass for every level of nesting (one when there is none), and more only if the memory
      behind the text, `memory[k]` after pass number k + 1, looks like another conditional then. */
  method Preprocess(s: string, env: Env, memory: seq<string>, ghost d: Doc)
    returns (text: string, ghost passes: nat)
    requires Nested(d) && WellFormedDoc(d, env) && d.Text? && s == Render(Lines(d, []))
    ensures exists lines :: text == Render(Texts(lines)) && NotBlank(lines) == NotBlank(Meaning(d, env))
    ensures passes >= Max(1, Depth(d))
    ensures passes > Max(1, Depth(d)) <==> AnotherIf(Behind(memory, Max(1, Depth(d)) - 1))
  {
    text := s;
    passes := 0;
    ghost var r := d;
    var n := 0;
    while true
      invariant Nested(r) && WellFormedDoc(r, env) && r.Text? && text == Render(Lines(r, [])) && n == passes
      invariant Depth(r) == (if passes <= Depth(d) then Depth(d) - passes else 0)
      invariant passes < Max(1, Depth(d)) || AnotherIf(Behind(memory, Max(1, Depth(d)) - 1))
      invariant passes > 0 && Depth(r) == 0 ==> passes <= |memory|
      invariant NotBlank(Meaning(r, env)) == NotBlank(Meaning(d, env))
      decreases Depth(r), if n <= |memory| then |memory| + 1 - n else 0
    {
      var more;
      PassFacts(r, env);
      text, more := OnePass(text, env, Behind(memory, n), r);
      r := Pass(r, env);
      n := n + 1;
      passes := passes + 1;
      if !more {
        break;
      }
    }
    FlatDoc(r, env);
    assert text == Render(Texts(Meaning(r, env)));
  }

  /** What stands behind the text after pass number k + 1, up to a NUL. */
  function Behind(memory: seq<string>, k: nat): string { if k < |memory| then memory[k] else "" }
}
