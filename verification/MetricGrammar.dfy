/** The grammar of metric expressions, with one production for each level of operators, named by the operators
    themselves (the table of source/pmu-events/metric.py).  Printed expressions are read back by it. */
module MetricGrammar {
  import opened Common
  import opened MetricExpr
  import opened MetricPrint

  /** The operators from those that bind the loosest to those that bind the most tightly. */
  const LEVELS: seq<set<Op>> := [{Or}, {Xor}, {And}, {Lt, Gt}, {Add, Sub}, {Mul, Div, Mod}]

  function ReadAtom(ts: Tokens): (r: Parsed)
    ensures r.Ok? ==> |r.rest| < |ts|
    decreases |ts|, 0
  {
    if ts == [] then Fail
    else
      match ts[0]
      case TEvent(n) => Ok(Event(n), ts[1..])
      case TConstant(v) => Ok(Constant(v), ts[1..])
      case TLiteral(t) => Ok(Literal(t), ts[1..])
      case TOpen => ReadBracket(ts[1..])
      case TFn(fn) => if Starts(ts[1..], TOpen) then ReadCall(fn, ts[2..]) else Fail
      case _ => Fail
  }

  /** An expression, or a choice, and the closing bracket. */
  function ReadBracket(ts: Tokens): (r: Parsed)
    ensures r.Ok? ==> |r.rest| < |ts|
    decreases |ts|, 9
  {
    var a := ReadLevel(0, ts);
    if a.Fail? then Fail
    else if Starts(a.rest, TClose) then Ok(a.e, a.rest[1..])
    else if !Starts(a.rest, TIf) then Fail
    else
      var c := ReadLevel(0, a.rest[1..]);
      if c.Fail? || !Starts(c.rest, TElse) then Fail
      else
        var b := ReadLevel(0, c.rest[1..]);
        if b.Fail? || !Starts(b.rest, TClose) then Fail
        else Ok(Select(a.e, c.e, b.e), b.rest[1..])
  }

  function ReadCall(fn: Fn, ts: Tokens): (r: Parsed)
    ensures r.Ok? ==> |r.rest| < |ts|
    decreases |ts|, 9
  {
    var a := ReadLevel(0, ts);
    if a.Fail? then Fail
    else if Starts(a.rest, TClose) then Ok(Function(fn, a.e, None), a.rest[1..])
    else if !Starts(a.rest, TComma) then Fail
    else
      var b := ReadLevel(0, a.rest[1..]);
      if b.Fail? || !Starts(b.rest, TClose) then Fail
      else Ok(Function(fn, a.e, Some(b.e)), b.rest[1..])
  }

  /** Operands of the next level, joined by operators of level k from the left. */
  function ReadLevel(k: nat, ts: Tokens): (r: Parsed)
    requires k <= |LEVELS|
    ensures r.Ok? ==> |r.rest| < |ts|
    decreases |ts|, 1 + |LEVELS| - k
  {
    if k == |LEVELS| then ReadAtom(ts)
    else
      var a := ReadLevel(k + 1, ts);
      if a.Fail? then Fail else ReadJoined(k, a.e, a.rest)
  }

  function ReadJoined(k: nat, lhs: Expr, ts: Tokens): (r: Parsed)
    requires k < |LEVELS|
    ensures r.Ok? ==> |r.rest| <= |ts|
    decreases |ts|, 0
  {
    if ts != [] && ts[0].TOp? && ts[0].op in LEVELS[k] then
      var b := ReadLevel(k + 1, ts[1..]);
      if b.Fail? then Fail else ReadJoined(k, Operator(ts[0].op, lhs, b.e), b.rest)
    else Ok(lhs, ts)
  }

  function Read(ts: Tokens): Option<Expr> {
    var r := ReadLevel(0, ts);
    if r.Ok? && r.rest == [] then Some(r.e) else None
  }

  // ---------------------------------------------------------------- the two readers agree

  lemma {:induction false} LevelOfOp(op: Op, k: nat)
    requires k < |LEVELS|
    ensures op in LEVELS[k] <==> Precedence(op) == k
    ensures Precedence(op) < |LEVELS| == ATOM
  {
  }

  function Then(r: Parsed, k: nat): Parsed
    requires k < |LEVELS|
  {
    if r.Fail? then Fail else ReadJoined(k, r.e, r.rest)
  }

  /** Reading stops before an operator only if that one binds too loosely. */
  lemma {:induction false} MoreStops(least: nat, lhs: Expr, ts: Tokens)
    ensures var r := ParseMore(least, lhs, ts);
            r.Ok? && r.rest != [] && r.rest[0].TOp? ==> Precedence(r.rest[0].op) < least
    decreases |ts|
  {
    if ts != [] && ts[0].TOp? && Precedence(ts[0].op) >= least {
      var b := ParseFrom(Precedence(ts[0].op) + 1, ts[1..]);
      if b.Ok? {
        MoreStops(least, Operator(ts[0].op, lhs, b.e), b.rest);
      }
    }
  }

  /** Continuing with operators from level k on is continuing with those above it, and then with those of level k. */
  lemma {:induction false} MoreByLevel(k: nat, lhs: Expr, ts: Tokens)
    requires k < |LEVELS|
    ensures ParseMore(k, lhs, ts) == Then(ParseMore(k + 1, lhs, ts), k)
    decreases |ts|, 0
  {
    if ts != [] && ts[0].TOp? && Precedence(ts[0].op) >= k {
      var op := ts[0].op;
      LevelOfOp(op, k);
      var b := ParseFrom(Precedence(op) + 1, ts[1..]);
      if Precedence(op) == k {
        SameLevel(k + 1, ts[1..]);
        if b.Ok? {
          JoinedNext(k, Operator(op, lhs, b.e), b, ts[1..]);
        }
      } else if b.Ok? {
        MoreByLevel(k, Operator(op, lhs, b.e), b.rest);
      }
    } else if ts != [] && ts[0].TOp? {
      LevelOfOp(ts[0].op, k);
    }
  }

  lemma {:induction false} JoinedNext(k: nat, lhs: Expr, b: Parsed, ts: Tokens)
    requires k < |LEVELS| && b.Ok? && b == ParseFrom(k + 1, ts)
    ensures ParseMore(k, lhs, b.rest) == ReadJoined(k, lhs, b.rest)
    decreases |ts|, 0
  {
    var a := ParseAtom(ts);
    MoreStops(k + 1, a.e, a.rest);
    assert ParseMore(k + 1, lhs, b.rest) == Ok(lhs, b.rest);
    MoreByLevel(k, lhs, b.rest);
  }

  lemma {:induction false} SameLevel(k: nat, ts: Tokens)
    requires k <= |LEVELS|
    ensures ReadLevel(k, ts) == ParseFrom(k, ts)
    decreases |ts|, 1 + |LEVELS| - k
  {
    var a := ParseAtom(ts);
    if k == |LEVELS| {
      SameAtom(ts);
      if a.Ok? && a.rest != [] && a.rest[0].TOp? {
        LevelOfOp(a.rest[0].op, 0);
      }
    } else {
      SameLevel(k + 1, ts);
      if a.Ok? {
        MoreByLevel(k, a.e, a.rest);
      }
    }
  }

  lemma {:induction false} SameAtom(ts: Tokens)
    ensures ReadAtom(ts) == ParseAtom(ts)
    decreases |ts|, 0
  {
    if ts != [] && ts[0].TOpen? {
      SameBracket(ts[1..]);
    } else if ts != [] && ts[0].TFn? && Starts(ts[1..], TOpen) {
      SameCall(ts[0].fn, ts[2..]);
    }
  }

  lemma {:induction false} SameBracket(ts: Tokens)
    ensures ReadBracket(ts) == ParseBracket(ts)
    decreases |ts|, 9
  {
    SameLevel(0, ts);
    var a := ParseFrom(0, ts);
    if a.Ok? && Starts(a.rest, TIf) {
      SameLevel(0, a.rest[1..]);
      var c := ParseFrom(0, a.rest[1..]);
      if c.Ok? && Starts(c.rest, TElse) {
        SameLevel(0, c.rest[1..]);
      }
    }
  }

  lemma {:induction false} SameCall(fn: Fn, ts: Tokens)
    ensures ReadCall(fn, ts) == ParseCall(fn, ts)
    decreases |ts|, 9
  {
    SameLevel(0, ts);
    var a := ParseFrom(0, ts);
    if a.Ok? && Starts(a.rest, TComma) {
      SameLevel(0, a.rest[1..]);
    }
  }

  /** Every text, well formed or not, is read alike by precedence and by the grammar. */
  lemma SameReading(ts: Tokens)
    ensures Read(ts) == Parse(ts)
  {
    SameLevel(0, ts);
  }

  /** What is printed is read back by the grammar as exactly the expression. */
  lemma PrintRead(e: Expr)
    ensures Read(ToPerfJson(e)) == Some(e)
  {
    PrintParse(e);
    SameReading(ToPerfJson(e));
  }

  // ---------------------------------------------------------------- how two operators group

  predicate IsProduct(op: Op) { op.Mul? || op.Div? || op.Mod? }
  predicate IsSum(op: Op) { op.Add? || op.Sub? }
  predicate IsComparison(op: Op) { op.Lt? || op.Gt? }

  /** b binds more tightly than a. */
  predicate Looser(a: Op, b: Op) {
    || (IsProduct(b) && !IsProduct(a))
    || (IsSum(b) && !IsProduct(a) && !IsSum(a))
    || (IsComparison(b) && (a.Or? || a.Xor? || a.And?))
    || (b.And? && (a.Or? || a.Xor?))
    || (b.Xor? && a.Or?)
  }

  lemma {:induction false} LooserPrecedes(a: Op, b: Op)
    ensures Looser(a, b) <==> Precedence(a) < Precedence(b)
  {
  }

  /** An operator on the left of another is printed in brackets exactly if it binds more loosely. */
  lemma {:induction false} NestedLeft(op: Op, inner: Op, a: string, b: string, c: string)
    ensures var text := [TEvent(a)] + [TOp(inner)] + [TEvent(b)];
            ToPerfJson(Operator(op, Operator(inner, Event(a), Event(b)), Event(c))) ==
            (if Looser(inner, op) then [TOpen] + text + [TClose] else text) + [TOp(op)] + [TEvent(c)]
  {
    LooserPrecedes(inner, op);
    assert ToPerfJson(Operator(inner, Event(a), Event(b))) == [TEvent(a)] + [TOp(inner)] + [TEvent(b)];
  }

  /** On the right it is exactly if it does not bind more tightly. */
  lemma {:induction false} NestedRight(op: Op, inner: Op, a: string, b: string, c: string)
    ensures var text := [TEvent(b)] + [TOp(inner)] + [TEvent(c)];
            ToPerfJson(Operator(op, Event(a), Operator(inner, Event(b), Event(c)))) ==
            [TEvent(a)] + [TOp(op)] + if Looser(op, inner) then text else [TOpen] + text + [TClose]
  {
    LooserPrecedes(op, inner);
    assert ToPerfJson(Operator(inner, Event(b), Event(c))) == [TEvent(b)] + [TOp(inner)] + [TEvent(c)];
  }

  /** How "a op1 b op2 c" is read. */
  lemma {:induction false} Groups(op1: Op, op2: Op, a: string, b: string, c: string)
    ensures Read([TEvent(a), TOp(op1), TEvent(b), TOp(op2), TEvent(c)]) ==
            Some(if Looser(op1, op2) then Operator(op1, Event(a), Operator(op2, Event(b), Event(c)))
                 else Operator(op2, Operator(op1, Event(a), Event(b)), Event(c)))
  {
    NestedRight(op1, op2, a, b, c);
    NestedLeft(op2, op1, a, b, c);
    LooserPrecedes(op1, op2);
    var text := [TEvent(a), TOp(op1), TEvent(b), TOp(op2), TEvent(c)];
    var e := if Looser(op1, op2) then Operator(op1, Event(a), Operator(op2, Event(b), Event(c)))
             else Operator(op2, Operator(op1, Event(a), Event(b)), Event(c));
    assert text == [TEvent(a)] + [TOp(op1)] + ([TEvent(b)] + [TOp(op2)] + [TEvent(c)]);
    assert text == ([TEvent(a)] + [TOp(op1)] + [TEvent(b)]) + [TOp(op2)] + [TEvent(c)];
    assert ToPerfJson(e) == text;
    PrintRead(e);
  }
}
