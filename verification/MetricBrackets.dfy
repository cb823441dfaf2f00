/** Why no bracket that metric expressions are printed with (source/pmu-events/metric.py) can be left out. */
module MetricBrackets {
  import opened Common
  import opened MetricExpr
  import opened MetricPrint

  /** What "l op r" reads as when l is printed without brackets although op binds more tightly. */
  function AttachRight(l: Expr, op: Op, r: Expr): Expr
    requires l.Operator? && Precedence(l.op) < Precedence(op)
  {
    var b := l.rhs;
    if b.Operator? && Precedence(l.op) < Precedence(b.op) < Precedence(op)
    then Operator(l.op, l.lhs, AttachRight(b, op, r))
    else Operator(l.op, l.lhs, Operator(op, b, r))
  }

  /** What "l op r" reads as when r is printed without brackets although it does not bind more tightly. */
  function AttachLeft(l: Expr, op: Op, r: Expr): Expr
    requires r.Operator? && Precedence(r.op) <= Precedence(op)
  {
    var a := r.lhs;
    if a.Operator? && Precedence(r.op) <= Precedence(a.op) <= Precedence(op)
    then Operator(r.op, AttachLeft(l, op, a), r.rhs)
    else Operator(r.op, Operator(op, l, a), r.rhs)
  }

  lemma {:induction false} Regroup(a: Tokens, m: Tokens, b: Tokens, c: Tokens)
    ensures a + m + (b + c) == a + m + b + c
  {
  }

  lemma {:induction false} RegroupLeft(a: Tokens, b: Tokens, m: Tokens, c: Tokens)
    ensures a + b + m + c == a + (b + m + c)
  {
  }

  lemma {:induction false} PrintAttachRight(l: Expr, op: Op, r: Expr)
    requires l.Operator? && Precedence(l.op) < Precedence(op)
    ensures ToPerfJson(AttachRight(l, op, r)) == ToPerfJson(l) + ([TOp(op)] + Bracket(op, r, ToPerfJson(r), true))
  {
    var (a, b) := (l.lhs, l.rhs);
    var right := [TOp(op)] + Bracket(op, r, ToPerfJson(r), true);
    var inner := AttachRight(l, op, r).rhs;
    var kept := Bracket(l.op, b, ToPerfJson(b), true);
    assert ToPerfJson(inner) == kept + right by {
      if b.Operator? && Precedence(l.op) < Precedence(b.op) < Precedence(op) {
        PrintAttachRight(b, op, r);
      } else {
        PrintInner(op, b, r);
      }
    }
    Regroup(Bracket(l.op, a, ToPerfJson(a), false), [TOp(l.op)], kept, right);
  }

  lemma {:induction false} PrintInner(op: Op, l: Expr, r: Expr)
    ensures ToPerfJson(Operator(op, l, r))
         == Bracket(op, l, ToPerfJson(l), false) + ([TOp(op)] + Bracket(op, r, ToPerfJson(r), true))
  {
  }

  /** Where r is an operator that takes in an operand x in place of its own left one. */
  lemma {:induction false} PrintTakenIn(left: Tokens, r: Expr, x: Expr)
    requires r.Operator?
    requires Bracket(r.op, x, ToPerfJson(x), false) == left + Bracket(r.op, r.lhs, ToPerfJson(r.lhs), false)
    ensures ToPerfJson(Operator(r.op, x, r.rhs)) == left + ToPerfJson(r)
  {
    RegroupLeft(left, Bracket(r.op, r.lhs, ToPerfJson(r.lhs), false), [TOp(r.op)],
                Bracket(r.op, r.rhs, ToPerfJson(r.rhs), true));
  }

  lemma {:induction false} PrintAttachLeft(l: Expr, op: Op, r: Expr)
    requires r.Operator? && Precedence(r.op) <= Precedence(op)
    ensures ToPerfJson(AttachLeft(l, op, r)) == Bracket(op, l, ToPerfJson(l), false) + [TOp(op)] + ToPerfJson(r)
  {
    var a := r.lhs;
    if a.Operator? && Precedence(r.op) <= Precedence(a.op) <= Precedence(op) {
      PrintAttachLeft(l, op, a);
    }
    PrintTakenIn(Bracket(op, l, ToPerfJson(l), false) + [TOp(op)], r, AttachLeft(l, op, r).lhs);
  }

  // ---------------------------------------------------------------- any operand bracket of a printed tree

  /** A way down a tree, from a node to one of the expressions in it. */
  datatype Step = Lhs | Rhs | Then | Cond | Else | Arg | Arg2

  predicate IsBracketed(op: Op, other: Expr, rhs: bool) {
    other.Operator? && (Precedence(op) > Precedence(other.op) || (rhs && Precedence(op) == Precedence(other.op)))
  }

  function Sub(e: Expr, step: Step): Option<Expr> {
    match (e, step)
    case (Operator(_, l, _), Lhs) => Some(l)
    case (Operator(_, _, r), Rhs) => Some(r)
    case (Select(t, _, _), Then) => Some(t)
    case (Select(_, c, _), Cond) => Some(c)
    case (Select(_, _, f), Else) => Some(f)
    case (Function(_, a, _), Arg) => Some(a)
    case (Function(_, _, b), Arg2) => b
    case _ => None
  }

  /** The path leads to an operand that is printed in brackets. */
  predicate ToBracketed(e: Expr, path: seq<Step>) {
    path != [] && Sub(e, path[0]).Some? &&
    if |path| == 1 then e.Operator? && IsBracketed(e.op, Sub(e, path[0]).value, path[0].Rhs?)
    else ToBracketed(Sub(e, path[0]).value, path[1..])
  }

  /** A node printed with another text for one of its parts. */
  function TextWith(e: Expr, step: Step, text: Tokens): Tokens
    requires Sub(e, step).Some?
  {
    match e
    case Operator(op, l, r) =>
      if step.Lhs? then Bracket(op, l, text, false) + [TOp(op)] + Bracket(op, r, ToPerfJson(r), true)
      else Bracket(op, l, ToPerfJson(l), false) + [TOp(op)] + Bracket(op, r, text, true)
    case Select(t, c, f) =>
      Bracketed((if step.Then? then text else ToPerfJson(t)) + [TIf] + (if step.Cond? then text else ToPerfJson(c))
                + [TElse] + (if step.Else? then text else ToPerfJson(f)))
    case Function(fn, a, Some(b)) =>
      [TFn(fn)] + Bracketed((if step.Arg? then text else ToPerfJson(a)) + [TComma]
                            + (if step.Arg2? then text else ToPerfJson(b)))
    case Function(fn, a, None) => [TFn(fn)] + Bracketed(text)
  }

  /** The tree printed, but for the brackets of the operand that the path leads to. */
  function TextWithout(e: Expr, path: seq<Step>): Tokens
    requires ToBracketed(e, path)
    decreases |path|
  {
    var sub := Sub(e, path[0]).value;
    if |path| > 1 then TextWith(e, path[0], TextWithout(sub, path[1..]))
    else if path[0].Lhs? then ToPerfJson(sub) + ([TOp(e.op)] + Bracket(e.op, e.rhs, ToPerfJson(e.rhs), true))
    else Bracket(e.op, e.lhs, ToPerfJson(e.lhs), false) + [TOp(e.op)] + ToPerfJson(sub)
  }

  /** A node with another expression for one of its parts, as its text is read when the part is bracketed only
      where the old part was. */
  function With(e: Expr, step: Step, x: Expr): Expr
    requires Sub(e, step).Some?
  {
    match e
    case Operator(op, l, r) =>
      if step.Lhs? then
        if IsBracketed(op, x, false) && !IsBracketed(op, l, false) then AttachRight(x, op, r) else Operator(op, x, r)
      else
        if IsBracketed(op, x, true) && !IsBracketed(op, r, true) then AttachLeft(l, op, x) else Operator(op, l, x)
    case Select(t, c, f) =>
      Select(if step.Then? then x else t, if step.Cond? then x else c, if step.Else? then x else f)
    case Function(fn, a, Some(b)) => Function(fn, if step.Arg? then x else a, Some(if step.Arg2? then x else b))
    case Function(fn, a, None) => Function(fn, x, None)
  }

  /** What that text is read as. */
  function ReadWithout(e: Expr, path: seq<Step>): Expr
    requires ToBracketed(e, path)
    decreases |path|
  {
    var sub := Sub(e, path[0]).value;
    if |path| > 1 then With(e, path[0], ReadWithout(sub, path[1..]))
    else if path[0].Lhs? then AttachRight(sub, e.op, e.rhs)
    else AttachLeft(e.lhs, e.op, sub)
  }

  /** x binds no more tightly than e, and is an operator only where e is. */
  predicate Looser(x: Expr, e: Expr) {
    if e.Operator? then x.Operator? && Precedence(x.op) <= Precedence(e.op) else !x.Operator?
  }

  lemma {:induction false} PrintWithLeft(op: Op, l: Expr, r: Expr, x: Expr)
    requires Looser(x, l)
    ensures var (e, w) := (Operator(op, l, r), With(Operator(op, l, r), Lhs, x));
            ToPerfJson(w) == TextWith(e, Lhs, ToPerfJson(x)) && Looser(w, e)
  {
    var (t, right) := (ToPerfJson(x), Bracket(op, r, ToPerfJson(r), true));
    if IsBracketed(op, x, false) && !IsBracketed(op, l, false) {
      PrintAttachRight(x, op, r);
      assert t + ([TOp(op)] + right) == t + [TOp(op)] + right;
    } else {
      assert Bracket(op, x, t, false) == Bracket(op, l, t, false);
    }
  }

  lemma {:induction false} PrintWithRight(op: Op, l: Expr, r: Expr, x: Expr)
    requires Looser(x, r)
    ensures var (e, w) := (Operator(op, l, r), With(Operator(op, l, r), Rhs, x));
            ToPerfJson(w) == TextWith(e, Rhs, ToPerfJson(x)) && Looser(w, e)
  {
    if IsBracketed(op, x, true) && !IsBracketed(op, r, true) {
      PrintAttachLeft(l, op, x);
    }
  }

  lemma {:induction false} PrintWith(e: Expr, step: Step, x: Expr)
    requires Sub(e, step).Some? && Looser(x, Sub(e, step).value)
    ensures ToPerfJson(With(e, step, x)) == TextWith(e, step, ToPerfJson(x)) && Looser(With(e, step, x), e)
  {
    if e.Operator? {
      if step.Lhs? {
        PrintWithLeft(e.op, e.lhs, e.rhs, x);
      } else {
        PrintWithRight(e.op, e.lhs, e.rhs, x);
      }
    }
  }

  /** The text without one operand's brackets is the text of another tree, shorter by the two brackets. */
  lemma {:induction false} PrintWithout(e: Expr, path: seq<Step>)
    requires ToBracketed(e, path)
    ensures ToPerfJson(ReadWithout(e, path)) == TextWithout(e, path) && Looser(ReadWithout(e, path), e)
    ensures |TextWithout(e, path)| == |ToPerfJson(e)| - 2
    decreases |path|
  {
    var sub := Sub(e, path[0]).value;
    if |path| > 1 {
      PrintWithout(sub, path[1..]);
      PrintWith(e, path[0], ReadWithout(sub, path[1..]));
    } else if path[0].Lhs? {
      PrintAttachRight(sub, e.op, e.rhs);
    } else {
      PrintAttachLeft(e.lhs, e.op, sub);
    }
  }

  /** Bracket adds no bracket that could be left out, wherever in a tree: without the brackets of any one operand the
      text is read back, but as another expression. */
  lemma {:induction false} BracketsNeeded(e: Expr, path: seq<Step>)
    requires ToBracketed(e, path)
    ensures Parse(TextWithout(e, path)) == Some(ReadWithout(e, path)) && ReadWithout(e, path) != e
  {
    PrintWithout(e, path);
    PrintParse(ReadWithout(e, path));
  }

  // ---------------------------------------------------------------- no shorter text

  /** What an expression costs where only operators of at least some precedence may stand without brackets. */
  function Cost(least: nat, e: Expr): nat {
    |ToPerfJson(e)| + if e.Operator? && Precedence(e.op) < least then 2 else 0
  }

  predicate Continues(ts: Tokens, least: nat) { ts != [] && ts[0].TOp? && Precedence(ts[0].op) >= least }

  lemma {:induction false} AtomShortest(ts: Tokens)
    ensures var p := ParseAtom(ts); p.Ok? ==> |ts| - |p.rest| >= Cost(ATOM, p.e)
    decreases |ts|, 0
  {
    if ts != [] && ts[0] == TOpen {
      BracketShortest(ts[1..]);
    } else if ts != [] && ts[0].TFn? && Starts(ts[1..], TOpen) {
      CallShortest(ts[0].fn, ts[2..]);
    }
  }

  lemma {:induction false} BracketShortest(ts: Tokens)
    ensures var p := ParseBracket(ts); p.Ok? ==> 1 + |ts| - |p.rest| >= Cost(ATOM, p.e)
    decreases |ts|, 4
  {
    FromShortest(0, ts);
    var a := ParseFrom(0, ts);
    if a.Ok? && Starts(a.rest, TIf) {
      FromShortest(0, a.rest[1..]);
      var c := ParseFrom(0, a.rest[1..]);
      if c.Ok? && Starts(c.rest, TElse) {
        FromShortest(0, c.rest[1..]);
      }
    }
  }

  lemma {:induction false} CallShortest(fn: Fn, ts: Tokens)
    ensures var p := ParseCall(fn, ts); p.Ok? ==> 2 + |ts| - |p.rest| >= Cost(ATOM, p.e)
    decreases |ts|, 4
  {
    FromShortest(0, ts);
    var a := ParseFrom(0, ts);
    if a.Ok? && Starts(a.rest, TComma) {
      FromShortest(0, a.rest[1..]);
    }
  }

  lemma {:induction false} FromShortest(least: nat, ts: Tokens)
    ensures var p := ParseFrom(least, ts);
            p.Ok? ==> |ts| - |p.rest| >= Cost(least, p.e) && !Continues(p.rest, least)
    decreases |ts|, 3
  {
    AtomShortest(ts);
    var a := ParseAtom(ts);
    if a.Ok? {
      MoreShortest(least, a.e, a.rest, |ts| - |a.rest|);
    }
  }

  /** lhs, read at the given cost, will not need brackets that it does not have. */
  predicate PaidFor(least: nat, lhs: Expr, ts: Tokens, cost: int) {
    if lhs.Operator? && cost < |ToPerfJson(lhs)| + 2
    then cost >= |ToPerfJson(lhs)| && Precedence(lhs.op) >= least && !Continues(ts, Precedence(lhs.op) + 1)
    else cost >= |ToPerfJson(lhs)|
  }

  lemma {:induction false} MoreShortest(least: nat, lhs: Expr, ts: Tokens, cost: int)
    requires PaidFor(least, lhs, ts, cost)
    ensures var p := ParseMore(least, lhs, ts);
            p.Ok? ==> cost + |ts| - |p.rest| >= Cost(least, p.e) && !Continues(p.rest, least)
    decreases |ts|, 2
  {
    if Continues(ts, least) {
      var op := ts[0].op;
      FromShortest(Precedence(op) + 1, ts[1..]);
      var b := ParseFrom(Precedence(op) + 1, ts[1..]);
      if b.Ok? {
        MoreShortest(least, Operator(op, lhs, b.e), b.rest, cost + |ts| - |b.rest|);
      }
    }
  }

  /** Of all the texts that are read as an expression, the printed one is a shortest. */
  lemma {:induction false} ShortestText(e: Expr, ts: Tokens)
    requires Parse(ts) == Some(e)
    ensures |ts| >= |ToPerfJson(e)|
  {
    FromShortest(0, ts);
  }
}
