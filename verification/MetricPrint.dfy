/** Printing metric expressions with the fewest brackets (source/pmu-events/metric.py) and the
    left-associative precedence grammar that reads them back.  Text is a sequence of tokens. */
module MetricPrint {
  import opened Common
  import opened MetricExpr

  datatype Token =
    | TEvent(name: string) | TConstant(value: string) | TLiteral(text: string)
    | TOp(op: Op) | TFn(fn: Fn)
    | TOpen | TClose | TComma | TIf | TElse

  type Tokens = seq<Token>

  function Precedence(op: Op): nat {
    match op
    case Or => 0
    case Xor => 1
    case And => 2
    case Lt | Gt => 3
    case Add | Sub => 4
    case Mul | Div | Mod => 5
  }

  const ATOM: nat := 6

  /** How tightly an expression holds together: an operator as its precedence, anything else more than all operators. */
  function Tightness(e: Expr): nat { if e.Operator? then Precedence(e.op) else ATOM }

  function Bracketed(ts: Tokens): Tokens { [TOpen] + ts + [TClose] }

  /** Bracket: an operand is bracketed if it binds less tightly than the operator, or, on the right, equally. */
  function Bracket(op: Op, other: Expr, text: Tokens, rhs: bool): Tokens {
    if other.Operator? && Precedence(op) > Precedence(other.op) then Bracketed(text)
    else if rhs && other.Operator? && Precedence(op) == Precedence(other.op) then Bracketed(text)
    else text
  }

  function ToPerfJson(e: Expr): Tokens {
    match e
    case Operator(op, l, r) => Bracket(op, l, ToPerfJson(l), false) + [TOp(op)] + Bracket(op, r, ToPerfJson(r), true)
    case Select(t, c, f) => Bracketed(ToPerfJson(t) + [TIf] + ToPerfJson(c) + [TElse] + ToPerfJson(f))
    case Function(fn, a, Some(b)) => [TFn(fn)] + Bracketed(ToPerfJson(a) + [TComma] + ToPerfJson(b))
    case Function(fn, a, None) => [TFn(fn)] + Bracketed(ToPerfJson(a))
    case Event(n) => [TEvent(n)]
    case Constant(v) => [TConstant(v)]
    case Literal(t) => [TLiteral(t)]
  }

  // ---------------------------------------------------------------- the grammar

  datatype Parsed = Fail | Ok(e: Expr, rest: Tokens)

  predicate Starts(ts: Tokens, t: Token) { ts != [] && ts[0] == t }

  /** One operand: a name, number or literal, a call, or something in brackets. */
  function ParseAtom(ts: Tokens): (r: Parsed)
    ensures r.Ok? ==> |r.rest| < |ts|
    decreases |ts|, 0
  {
    if ts == [] then Fail
    else
      match ts[0]
      case TEvent(n) => Ok(Event(n), ts[1..])
      case TConstant(v) => Ok(Constant(v), ts[1..])
      case TLiteral(t) => Ok(Literal(t), ts[1..])
      case TOpen => ParseBracket(ts[1..])
      case TFn(fn) => if Starts(ts[1..], TOpen) then ParseCall(fn, ts[2..]) else Fail
      case _ => Fail
  }

  /** After an opening bracket: an expression, or a choice "a if c else b", up to the closing one. */
  function ParseBracket(ts: Tokens): (r: Parsed)
    ensures r.Ok? ==> |r.rest| < |ts|
    decreases |ts|, 4
  {
    var a := ParseFrom(0, ts);
    if a.Fail? then Fail
    else if Starts(a.rest, TClose) then Ok(a.e, a.rest[1..])
    else if !Starts(a.rest, TIf) then Fail
    else
      var c := ParseFrom(0, a.rest[1..]);
      if c.Fail? || !Starts(c.rest, TElse) then Fail
      else
        var b := ParseFrom(0, c.rest[1..]);
        if b.Fail? || !Starts(b.rest, TClose) then Fail
        else Ok(Select(a.e, c.e, b.e), b.rest[1..])
  }

  function ParseCall(fn: Fn, ts: Tokens): (r: Parsed)
    ensures r.Ok? ==> |r.rest| < |ts|
    decreases |ts|, 4
  {
    var a := ParseFrom(0, ts);
    if a.Fail? then Fail
    else if Starts(a.rest, TClose) then Ok(Function(fn, a.e, None), a.rest[1..])
    else if !Starts(a.rest, TComma) then Fail
    else
      var b := ParseFrom(0, a.rest[1..]);
      if b.Fail? || !Starts(b.rest, TClose) then Fail
      else Ok(Function(fn, a.e, Some(b.e)), b.rest[1..])
  }

  /** The longest expression whose top-level operators all have at least the given precedence. */
  function ParseFrom(least: nat, ts: Tokens): (r: Parsed)
    ensures r.Ok? ==> |r.rest| < |ts|
    decreases |ts|, 3
  {
    var a := ParseAtom(ts);
    if a.Fail? then Fail else ParseMore(least, a.e, a.rest)
  }

  /** Continues a left operand with operators of at least the given precedence, associating to the left. */
  function ParseMore(least: nat, lhs: Expr, ts: Tokens): (r: Parsed)
    ensures r.Ok? ==> |r.rest| <= |ts|
    decreases |ts|, 2
  {
    if ts != [] && ts[0].TOp? && Precedence(ts[0].op) >= least then
      var b := ParseFrom(Precedence(ts[0].op) + 1, ts[1..]);
      if b.Fail? then Fail else ParseMore(least, Operator(ts[0].op, lhs, b.e), b.rest)
    else Ok(lhs, ts)
  }

  /** A whole text must be one expression. */
  function Parse(ts: Tokens): Option<Expr> {
    var r := ParseFrom(0, ts);
    if r.Ok? && r.rest == [] then Some(r.e) else None
  }

  // ---------------------------------------------------------------- round trip

  /** ts does not begin with an operator that binds more tightly than p. */
  predicate Loose(ts: Tokens, p: nat) {
    ts != [] && ts[0].TOp? ==> Precedence(ts[0].op) <= p
  }

  /** Reading a printed expression, followed by anything that does not tear it apart, continues after it. */
  lemma {:induction false} ParsePrinted(e: Expr, least: nat, rest: Tokens)
    requires least <= Tightness(e) && Loose(rest, Tightness(e))
    ensures ParseFrom(least, ToPerfJson(e) + rest) == ParseMore(least, e, rest)
    decreases e, 3
  {
    if e.Operator? {
      ParseOperator(e.op, e.lhs, e.rhs, least, rest);
    } else {
      ParsePrintedAtom(e, rest);
    }
  }

  lemma {:induction false} ParseOperator(op: Op, l: Expr, r: Expr, least: nat, rest: Tokens)
    requires least <= Precedence(op) && Loose(rest, Precedence(op))
    ensures ParseFrom(least, ToPerfJson(Operator(op, l, r)) + rest) == ParseMore(least, Operator(op, l, r), rest)
    decreases Operator(op, l, r), 0
  {
    var left := Bracket(op, l, ToPerfJson(l), false);
    var right := Bracket(op, r, ToPerfJson(r), true);
    ParseOperand(op, l, false, least, [TOp(op)] + (right + rest));
    ParseOperand(op, r, true, Precedence(op) + 1, rest);
    MoreAfter(op, l, r, least, right + rest, rest);
    AppendThree(left, TOp(op), right, rest);
  }

  lemma AppendThree(x: Tokens, m: Token, y: Tokens, rest: Tokens)
    ensures x + [m] + y + rest == x + ([m] + (y + rest))
  {
  }

  /** One turn of ParseMore. */
  lemma {:induction false} MoreAfter(op: Op, l: Expr, r: Expr, least: nat, ts: Tokens, rest: Tokens)
    requires least <= Precedence(op) && Loose(rest, Precedence(op))
    requires ParseFrom(Precedence(op) + 1, ts) == ParseMore(Precedence(op) + 1, r, rest)
    ensures ParseMore(least, l, [TOp(op)] + ts) == ParseMore(least, Operator(op, l, r), rest)
  {
    assert ([TOp(op)] + ts)[1..] == ts;
    assert ParseMore(Precedence(op) + 1, r, rest) == Ok(r, rest);
  }

  lemma {:induction false} BracketOf(ts: Tokens, e: Expr, rest: Tokens)
    requires ParseFrom(0, ts + ([TClose] + rest)) == Ok(e, [TClose] + rest)
    ensures ParseAtom(Bracketed(ts) + rest) == Ok(e, rest)
  {
    AtomOpens(ts + ([TClose] + rest));
    assert ([TClose] + rest)[1..] == rest;
    assert Bracketed(ts) + rest == [TOpen] + (ts + ([TClose] + rest));
  }

  /** Reading an operand as Bracket prints it. */
  lemma {:induction false} ParseOperand(op: Op, e: Expr, rhs: bool, least: nat, rest: Tokens)
    requires least <= if rhs then Precedence(op) + 1 else Precedence(op)
    requires Loose(rest, Precedence(op))
    ensures ParseFrom(least, Bracket(op, e, ToPerfJson(e), rhs) + rest) == ParseMore(least, e, rest)
    decreases e, 6
  {
    if Bracket(op, e, ToPerfJson(e), rhs) == ToPerfJson(e) && !(e.Operator? && Precedence(e.op) < Precedence(op)) {
      ParsePrinted(e, least, rest);
    } else {
      ParseInBrackets(e, rest);
    }
  }

  lemma {:induction false} ParseInBrackets(e: Expr, rest: Tokens)
    ensures ParseAtom(Bracketed(ToPerfJson(e)) + rest) == Ok(e, rest)
    decreases e, 5
  {
    ParseUpTo(e, TClose, rest);
    BracketOf(ToPerfJson(e), e, rest);
  }

  lemma {:induction false} ParsePrintedAtom(e: Expr, rest: Tokens)
    requires !e.Operator?
    ensures ParseAtom(ToPerfJson(e) + rest) == Ok(e, rest)
    decreases e, 2
  {
    if e.Select? {
      ParseSelect(e.trueVal, e.cond, e.falseVal, rest);
    } else if e.Function? && e.arg2.Some? {
      ParseCallOfTwo(e.fn, e.arg, e.arg2.value, rest);
    } else if e.Function? {
      ParseCallOfOne(e.fn, e.arg, rest);
    } else {
      assert (ToPerfJson(e) + rest)[1..] == rest;
    }
  }

  /** A printed expression before a token that is not an operator is read up to there. */
  lemma {:induction false} ParseUpTo(e: Expr, stop: Token, rest: Tokens)
    requires !stop.TOp?
    ensures ParseFrom(0, ToPerfJson(e) + ([stop] + rest)) == Ok(e, [stop] + rest)
    decreases e, 4
  {
    ParsePrinted(e, 0, [stop] + rest);
  }

  lemma {:induction false} BracketReads(ts: Tokens, t: Expr, u: Tokens, c: Expr, w: Tokens, f: Expr, rest: Tokens)
    requires ParseFrom(0, ts) == Ok(t, [TIf] + u)
    requires ParseFrom(0, u) == Ok(c, [TElse] + w)
    requires ParseFrom(0, w) == Ok(f, [TClose] + rest)
    ensures ParseBracket(ts) == Ok(Select(t, c, f), rest)
  {
    assert ([TIf] + u)[1..] == u && ([TElse] + w)[1..] == w && ([TClose] + rest)[1..] == rest;
  }

  lemma {:induction false} CallReads(fn: Fn, ts: Tokens, a: Expr, u: Tokens, b: Expr, rest: Tokens)
    requires ParseFrom(0, ts) == Ok(a, [TComma] + u)
    requires ParseFrom(0, u) == Ok(b, [TClose] + rest)
    ensures ParseCall(fn, ts) == Ok(Function(fn, a, Some(b)), rest)
  {
    assert ([TComma] + u)[1..] == u && ([TClose] + rest)[1..] == rest;
  }

  lemma AtomOpens(ts: Tokens)
    ensures ParseAtom([TOpen] + ts) == ParseBracket(ts)
  {
    assert ([TOpen] + ts)[1..] == ts;
  }

  lemma AtomCalls(fn: Fn, ts: Tokens)
    ensures ParseAtom([TFn(fn)] + ([TOpen] + ts)) == ParseCall(fn, ts)
  {
    var text := [TFn(fn)] + ([TOpen] + ts);
    assert text[1..] == [TOpen] + ts;
    assert text[2..] == ts;
  }

  lemma SelectText(x: Tokens, y: Tokens, z: Tokens, rest: Tokens)
    ensures Bracketed(x + [TIf] + y + [TElse] + z) + rest
         == [TOpen] + (x + ([TIf] + (y + ([TElse] + (z + ([TClose] + rest))))))
  {
    var all := Bracketed(x + [TIf] + y + [TElse] + z) + rest;
    assert all == [TOpen] + (x + [TIf] + y + [TElse] + z + ([TClose] + rest));
  }

  lemma CallText(fn: Fn, x: Tokens, y: Tokens, rest: Tokens)
    ensures [TFn(fn)] + Bracketed(x + [TComma] + y) + rest
         == [TFn(fn)] + ([TOpen] + (x + ([TComma] + (y + ([TClose] + rest)))))
  {
  }

  lemma {:induction false} ParseSelect(t: Expr, c: Expr, f: Expr, rest: Tokens)
    ensures ParseAtom(ToPerfJson(Select(t, c, f)) + rest) == Ok(Select(t, c, f), rest)
    decreases Select(t, c, f), 1
  {
    ParseSelectOpen(t, c, f, rest);
    SelectText(ToPerfJson(t), ToPerfJson(c), ToPerfJson(f), rest);
  }

  lemma {:induction false} ParseSelectOpen(t: Expr, c: Expr, f: Expr, rest: Tokens)
    ensures ParseAtom([TOpen] + (ToPerfJson(t) + ([TIf] + (ToPerfJson(c) + ([TElse] + (ToPerfJson(f) + ([TClose] + rest)))))))
         == Ok(Select(t, c, f), rest)
    decreases Select(t, c, f), 0
  {
    var w := ToPerfJson(f) + ([TClose] + rest);
    var u := ToPerfJson(c) + ([TElse] + w);
    ParseUpTo(f, TClose, rest);
    ParseUpTo(c, TElse, w);
    ParseUpTo(t, TIf, u);
    BracketReads(ToPerfJson(t) + ([TIf] + u), t, u, c, w, f, rest);
    AtomOpens(ToPerfJson(t) + ([TIf] + u));
  }

  lemma {:induction false} ParseCallOfTwo(fn: Fn, a: Expr, b: Expr, rest: Tokens)
    ensures ParseAtom(ToPerfJson(Function(fn, a, Some(b))) + rest) == Ok(Function(fn, a, Some(b)), rest)
    decreases Function(fn, a, Some(b)), 0
  {
    var u := ToPerfJson(b) + ([TClose] + rest);
    ParseUpTo(b, TClose, rest);
    ParseUpTo(a, TComma, u);
    CallReads(fn, ToPerfJson(a) + ([TComma] + u), a, u, b, rest);
    AtomCalls(fn, ToPerfJson(a) + ([TComma] + u));
    CallText(fn, ToPerfJson(a), ToPerfJson(b), rest);
  }

  lemma {:induction false} ParseCallOfOne(fn: Fn, a: Expr, rest: Tokens)
    ensures ParseAtom(ToPerfJson(Function(fn, a, None)) + rest) == Ok(Function(fn, a, None), rest)
    decreases Function(fn, a, None), 0
  {
    ParseUpTo(a, TClose, rest);
    CallOf(fn, ToPerfJson(a), a, rest);
  }

  lemma {:induction false} CallOf(fn: Fn, ts: Tokens, a: Expr, rest: Tokens)
    requires ParseFrom(0, ts + ([TClose] + rest)) == Ok(a, [TClose] + rest)
    ensures ParseAtom([TFn(fn)] + Bracketed(ts) + rest) == Ok(Function(fn, a, None), rest)
  {
    assert ([TClose] + rest)[1..] == rest;
    AtomCalls(fn, ts + ([TClose] + rest));
    assert [TFn(fn)] + Bracketed(ts) + rest == [TFn(fn)] + ([TOpen] + (ts + ([TClose] + rest)));
  }

  /** The text of an expression is read back as exactly that expression. */
  lemma PrintParse(e: Expr)
    ensures Parse(ToPerfJson(e)) == Some(e)
  {
    ParsePrinted(e, 0, []);
    assert ToPerfJson(e) + [] == ToPerfJson(e);
  }
}
