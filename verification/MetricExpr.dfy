/** Metric expressions (source/pmu-events/metric.py): the tree, structural equality, substitution,
    and what an expression means. */
module MetricExpr {
  import opened Common

  datatype Op = Or | Xor | And | Lt | Gt | Add | Sub | Mul | Div | Mod

  datatype Fn = Min | Max | DRatio | SourceCount | HasEvent | StrcmpCpuidStr

  datatype Expr =
    | Operator(op: Op, lhs: Expr, rhs: Expr)
    | Select(trueVal: Expr, cond: Expr, falseVal: Expr)
    | Function(fn: Fn, arg: Expr, arg2: Option<Expr>)
    | Event(name: string)
    | Constant(value: string)
    | Literal(text: string)

  predicate Binary(fn: Fn) { fn.Min? || fn.Max? || fn.DRatio? }

  /** Every function name has its own arity, and the functions of an event are applied to an event. */
  predicate WellFormed(e: Expr) {
    match e
    case Operator(_, l, r) => WellFormed(l) && WellFormed(r)
    case Select(t, c, f) => WellFormed(t) && WellFormed(c) && WellFormed(f)
    case Function(fn, a, Some(b)) => Binary(fn) && WellFormed(a) && WellFormed(b)
    case Function(fn, a, None) => !Binary(fn) && a.Event?
    case _ => true
  }

  function Size(e: Expr): (n: nat)
    ensures n >= 1
  {
    match e
    case Operator(_, l, r) => 1 + Size(l) + Size(r)
    case Select(t, c, f) => 1 + Size(t) + Size(c) + Size(f)
    case Function(_, a, Some(b)) => 1 + Size(a) + Size(b)
    case Function(_, a, None) => 1 + Size(a)
    case _ => 1
  }

  /** Equals, case by case; a function's second argument is looked at only if this side has one. */
  predicate Equals(e: Expr, other: Expr) {
    match e
    case Operator(op, l, r) => other.Operator? && op == other.op && Equals(l, other.lhs) && Equals(r, other.rhs)
    case Select(t, c, f) =>
      other.Select? && Equals(c, other.cond) && Equals(f, other.falseVal) && Equals(t, other.trueVal)
    case Function(fn, a, b) =>
      other.Function? && fn == other.fn && Equals(a, other.arg)
      && (match b case None => true case Some(x) => other.arg2.Some? && Equals(x, other.arg2.value))
    case Event(n) => other.Event? && n == other.name
    case Constant(v) => other.Constant? && v == other.value
    case Literal(t) => other.Literal? && t == other.text
  }

  /** Just three functions are of two arguments; the others are of one, an event. */
  lemma {:induction false} Arities(fn: Fn, a: Expr, b: Expr)
    requires WellFormed(a) && WellFormed(b)
    ensures WellFormed(Function(fn, a, Some(b))) <==> fn in {Min, Max, DRatio}
    ensures WellFormed(Function(fn, a, None)) <==> fn in {SourceCount, HasEvent, StrcmpCpuidStr} && a.Event?
  {
  }

  /** With arities fixed, Equals is equality. */
  lemma {:induction false} EqualsIsEquality(a: Expr, b: Expr)
    requires WellFormed(a) && WellFormed(b)
    ensures Equals(a, b) <==> a == b
  {
    match a
    case Operator(_, l, r) =>
      if b.Operator? {
        EqualsIsEquality(l, b.lhs);
        EqualsIsEquality(r, b.rhs);
      }
    case Select(t, c, f) =>
      if b.Select? {
        EqualsIsEquality(t, b.trueVal);
        EqualsIsEquality(c, b.cond);
        EqualsIsEquality(f, b.falseVal);
      }
    case Function(_, x, y) =>
      if b.Function? {
        EqualsIsEquality(x, b.arg);
        if y.Some? && b.arg2.Some? {
          EqualsIsEquality(y.value, b.arg2.value);
        }
      }
    case _ =>
  }

  /** Without fixed arities Equals is not even symmetric. */
  lemma {:induction false} EqualsNeedsArity()
    ensures var one := Function(Min, Event("a"), None);
            var two := Function(Min, Event("a"), Some(Event("b")));
            Equals(one, two) && !Equals(two, one)
  {
  }

  /** Replaces every outermost composite occurrence of x in e by a reference to the metric called name. */
  function Substitute(e: Expr, name: string, x: Expr): Expr {
    match e
    case Operator(op, l, r) =>
      if Equals(e, x) then Event(name) else Operator(op, Substitute(l, name, x), Substitute(r, name, x))
    case Select(t, c, f) =>
      if Equals(e, x) then Event(name)
      else Select(Substitute(t, name, x), Substitute(c, name, x), Substitute(f, name, x))
    case Function(fn, a, b) =>
      if Equals(e, x) then Event(name)
      else
        Function(fn, Substitute(a, name, x),
                 match b case None => None case Some(y) => Some(Substitute(y, name, x)))
    case _ => e
  }

  // ---------------------------------------------------------------- meaning

  /** What events, runtime literals, numerals and event-name functions stand for; None is undefined. */
  datatype Env = Env(
    events: string -> Option<real>,
    literals: string -> Option<real>,
    numerals: string -> real,
    named: (Fn, string) -> Option<real>)

  predicate IsInt(x: real) { x == x.Floor as real }

  function Bit(op: Op, a: int, b: int): int {
    match op
    case Or => if a == 1 || b == 1 then 1 else 0
    case Xor => if a != b then 1 else 0
    case _ => if a == 1 && b == 1 then 1 else 0
  }

  /** Bitwise operation on integers in two's complement of unbounded width. */
  function Bitwise(op: Op, a: int, b: int): int
    decreases if a < 0 then -a else a, if b < 0 then -b else b
  {
    if -1 <= a <= 0 && -1 <= b <= 0 then -Bit(op, -a, -b)
    else if -1 <= a <= 0 then 2 * Bitwise(op, a, b / 2) + Bit(op, a % 2, b % 2)
    else 2 * Bitwise(op, a / 2, b / 2) + Bit(op, a % 2, b % 2)
  }

  lemma {:induction false} OrZero(x: int)
    ensures Bitwise(Or, 0, x) == x && Bitwise(Or, x, 0) == x
    decreases if x < 0 then -x else x
  {
    if x < -1 || x > 0 {
      OrZero(x / 2);
    }
  }

  /** C's remainder: the sign of the dividend. */
  function Remainder(a: int, b: int): int
    requires b != 0
  {
    if a >= 0 then a % b else -((-a) % b)
  }

  function Apply(op: Op, a: real, b: real): Option<real> {
    match op
    case Or | Xor | And =>
      if IsInt(a) && IsInt(b) then Some(Bitwise(op, a.Floor, b.Floor) as real) else None
    case Lt => Some(if a < b then 1.0 else 0.0)
    case Gt => Some(if a > b then 1.0 else 0.0)
    case Add => Some(a + b)
    case Sub => Some(a - b)
    case Mul => Some(a * b)
    case Div => if b == 0.0 then None else Some(a / b)
    case Mod => if IsInt(a) && IsInt(b) && b != 0.0 then Some(Remainder(a.Floor, b.Floor) as real) else None
  }

  function Call(fn: Fn, a: real, b: real): Option<real> {
    match fn
    case Min => Some(if a < b then a else b)
    case Max => Some(if a > b then a else b)
    case DRatio => Some(if b == 0.0 then 0.0 else a / b)
    case _ => None
  }

  lemma {:induction false} BitsAddUp(a: int, b: int)
    ensures Bitwise(Or, a, b) + Bitwise(And, a, b) == a + b
    ensures Bitwise(Or, a, b) - Bitwise(And, a, b) == Bitwise(Xor, a, b)
    decreases if a < 0 then -a else a, if b < 0 then -b else b
  {
    if -1 <= a <= 0 && -1 <= b <= 0 {
    } else if -1 <= a <= 0 {
      BitsAddUp(a, b / 2);
    } else {
      BitsAddUp(a / 2, b / 2);
    }
  }

  lemma {:induction false} BitsBelow(a: nat, b: int)
    ensures 0 <= Bitwise(And, a, b) <= a
    decreases a, if b < 0 then -b else b
  {
    if a == 0 && !(-1 <= b <= 0) {
      BitsBelow(a, b / 2);
    } else if a > 0 {
      BitsBelow(a / 2, b / 2);
    }
  }

  /** A remainder has the sign of the dividend, is smaller than the divisor, and differs from the dividend by a multiple
      of it. */
  lemma {:induction false} RemainderLaws(a: int, b: int) returns (q: int)
    requires b != 0
    ensures a == q * b + Remainder(a, b) && (a >= 0 ==> Remainder(a, b) >= 0) && (a <= 0 ==> Remainder(a, b) <= 0)
    ensures -(if b < 0 then -b else b) < Remainder(a, b) < if b < 0 then -b else b
  {
    if a >= 0 {
      q := a / b;
    } else {
      q := -((-a) / b);
      assert q * b == -((-a) / b * b);
    }
  }

  /** How the operators of two numbers hang together: of less, equal and greater exactly one holds, and a difference
      undoes a sum. */
  lemma {:induction false} ApplyLaws(a: real, b: real)
    ensures Apply(Lt, a, b) == Apply(Gt, b, a) && Apply(Lt, a, b) == Some(if b > a then 1.0 else 0.0)
    ensures Apply(Lt, a, b) == Apply(Gt, a, b) <==> a == b
    ensures Apply(Add, a, b).Some? && Apply(Sub, Apply(Add, a, b).value, b) == Some(a) && Apply(Add, a, b) == Apply(Add, b, a)
  {
  }

  /** Bitwise operators are for integers, and so are remainders by others than 0. */
  lemma {:induction false} IntegersOnly(a: real, b: real)
    ensures forall op :: op in {Or, Xor, And} ==> (Apply(op, a, b).Some? <==> IsInt(a) && IsInt(b))
    ensures Apply(Mod, a, b).Some? <==> IsInt(a) && IsInt(b) && b != 0.0
    ensures IsInt(a) && IsInt(b) ==> Apply(Add, Apply(Or, a, b).value, Apply(And, a, b).value) == Some(a + b)
  {
    BitsAddUp(a.Floor, b.Floor);
  }

  /** A quotient undoes a product, and is missing only for the divisor 0. */
  lemma {:induction false} QuotientLaws(a: real, b: real)
    ensures Apply(Div, a, b).None? <==> b == 0.0
    ensures b != 0.0 ==> Apply(Mul, Apply(Div, a, b).value, b) == Some(a)
  {
    if b != 0.0 {
      assert a / b * b == a;
    }
  }

  /** What the functions of two numbers give. */
  lemma {:induction false} CallLaws(a: real, b: real)
    ensures Call(Min, a, b).Some? && Call(Max, a, b).Some? && Call(Min, a, b).value <= Call(Max, a, b).value
    ensures Call(Min, a, b).value in {a, b} && Call(Max, a, b).value in {a, b}
    ensures Call(Min, a, b).value + Call(Max, a, b).value == a + b
    ensures Call(DRatio, a, b).Some? && (if b == 0.0 then Call(DRatio, a, b).value == 0.0
                                         else Call(DRatio, a, b).value * b == a)
  {
  }

  function Choose(t: Option<real>, c: Option<real>, f: Option<real>): Option<real> {
    if c.None? then None else if c.value == 0.0 then f else t
  }

  function Eval(e: Expr, env: Env): Option<real> {
    match e
    case Operator(op, l, r) =>
      var a := Eval(l, env);
      var b := Eval(r, env);
      if a.Some? && b.Some? then Apply(op, a.value, b.value) else None
    case Select(t, c, f) =>
      Choose(Eval(t, env), Eval(c, env), Eval(f, env))
    case Function(fn, a, Some(b)) =>
      var x := Eval(a, env);
      var y := Eval(b, env);
      if x.Some? && y.Some? then Call(fn, x.value, y.value) else None
    case Function(fn, a, None) => if a.Event? then env.named(fn, a.name) else None
    case Event(n) => env.events(n)
    case Constant(v) => Some(env.numerals(v))
    case Literal(t) => env.literals(t)
  }

  /** The events whose value e depends on. */
  function Refs(e: Expr): set<string> {
    match e
    case Operator(_, l, r) => Refs(l) + Refs(r)
    case Select(t, c, f) => Refs(t) + Refs(c) + Refs(f)
    case Function(_, a, Some(b)) => Refs(a) + Refs(b)
    case Event(n) => {n}
    case _ => {}
  }

  /** No quotient, remainder or bitwise operator, each of which may have no value. */
  predicate Total(e: Expr) {
    match e
    case Operator(op, l, r) => op in {Lt, Gt, Add, Sub, Mul} && Total(l) && Total(r)
    case Select(t, c, f) => Total(t) && Total(c) && Total(f)
    case Function(_, a, Some(b)) => Total(a) && Total(b)
    case _ => true
  }

  /** Without those an expression has a value wherever the things that it names have one. */
  lemma {:induction false} TotalHasValue(e: Expr, env: Env)
    requires WellFormed(e) && Total(e)
    requires forall n :: env.events(n).Some? && env.literals(n).Some?
    requires forall fn, n :: env.named(fn, n).Some?
    ensures Eval(e, env).Some?
  {
    match e
    case Operator(_, l, r) => TotalHasValue(l, env); TotalHasValue(r, env);
    case Select(t, c, f) => TotalHasValue(t, env); TotalHasValue(c, env); TotalHasValue(f, env);
    case Function(_, a, Some(b)) => TotalHasValue(a, env); TotalHasValue(b, env);
    case _ =>
  }

  lemma {:induction false} EvalReadsRefs(e: Expr, env: Env, env': Env)
    requires env'.literals == env.literals && env'.numerals == env.numerals && env'.named == env.named
    requires forall n :: n in Refs(e) ==> env'.events(n) == env.events(n)
    ensures Eval(e, env') == Eval(e, env)
  {
    match e
    case Operator(_, l, r) => EvalReadsRefs(l, env, env'); EvalReadsRefs(r, env, env');
    case Select(t, c, f) => EvalReadsRefs(t, env, env'); EvalReadsRefs(c, env, env'); EvalReadsRefs(f, env, env');
    case Function(_, a, Some(b)) => EvalReadsRefs(a, env, env'); EvalReadsRefs(b, env, env');
    case _ =>
  }

  // ---------------------------------------------------------------- substitution

  predicate Composite(e: Expr) { e.Operator? || e.Select? || e.Function? }

  lemma {:induction false} SubstituteWellFormed(e: Expr, name: string, x: Expr)
    requires WellFormed(e)
    ensures WellFormed(Substitute(e, name, x))
  {
    match e
    case Operator(_, l, r) => SubstituteWellFormed(l, name, x); SubstituteWellFormed(r, name, x);
    case Select(t, c, f) =>
      SubstituteWellFormed(t, name, x); SubstituteWellFormed(c, name, x); SubstituteWellFormed(f, name, x);
    case Function(_, a, Some(b)) => SubstituteWellFormed(a, name, x); SubstituteWellFormed(b, name, x);
    case _ =>
  }

  /** A substitution either changes nothing or makes the tree smaller. */
  lemma {:induction false} SubstituteShrinks(e: Expr, name: string, x: Expr)
    ensures Substitute(e, name, x) == e || Size(Substitute(e, name, x)) < Size(e)
  {
    if !Composite(e) || Equals(e, x) {
      assert Composite(e) ==> Substitute(e, name, x) == Event(name) && Size(e) > 1;
    } else {
      match e
      case Operator(_, l, r) => SubstituteShrinks(l, name, x); SubstituteShrinks(r, name, x);
      case Select(t, c, f) =>
        SubstituteShrinks(t, name, x); SubstituteShrinks(c, name, x); SubstituteShrinks(f, name, x);
      case Function(_, a, Some(b)) => SubstituteShrinks(a, name, x); SubstituteShrinks(b, name, x);
      case Function(_, a, None) => SubstituteShrinks(a, name, x);
    }
  }

  /** Where name means what x means, substituting one for the other keeps the meaning. */
  lemma {:induction false} SubstituteMeaning(e: Expr, name: string, x: Expr, env: Env)
    requires WellFormed(e) && WellFormed(x)
    requires env.events(name) == Eval(x, env)
    ensures Eval(Substitute(e, name, x), env) == Eval(e, env)
  {
    EqualsIsEquality(e, x);
    match e
    case Operator(_, l, r) => SubstituteMeaning(l, name, x, env); SubstituteMeaning(r, name, x, env);
    case Select(t, c, f) =>
      SubstituteMeaning(t, name, x, env); SubstituteMeaning(c, name, x, env); SubstituteMeaning(f, name, x, env);
    case Function(_, a, Some(b)) => SubstituteMeaning(a, name, x, env); SubstituteMeaning(b, name, x, env);
    case _ =>
  }

  /** A substitution that changes e only adds the new reference, and e already depended on all that x depends on. */
  lemma {:induction false} SubstituteRefs(e: Expr, name: string, x: Expr)
    requires WellFormed(e) && WellFormed(x)
    ensures Refs(Substitute(e, name, x)) <= Refs(e) + {name}
    ensures Substitute(e, name, x) != e ==> Refs(x) <= Refs(e)
  {
    EqualsIsEquality(e, x);
    match e
    case Operator(_, l, r) => SubstituteRefs(l, name, x); SubstituteRefs(r, name, x);
    case Select(t, c, f) => SubstituteRefs(t, name, x); SubstituteRefs(c, name, x); SubstituteRefs(f, name, x);
    case Function(_, a, Some(b)) => SubstituteRefs(a, name, x); SubstituteRefs(b, name, x);
    case _ =>
  }

  /** x is e or stands somewhere in it. */
  predicate Occurs(x: Expr, e: Expr) {
    e == x ||
    match e
    case Operator(_, l, r) => Occurs(x, l) || Occurs(x, r)
    case Select(t, c, f) => Occurs(x, t) || Occurs(x, c) || Occurs(x, f)
    case Function(_, a, Some(b)) => Occurs(x, a) || Occurs(x, b)
    case Function(_, a, None) => Occurs(x, a)
    case _ => false
  }

  /** A substitution changes exactly the expressions in which x, not just a name or a number, stands somewhere. */
  lemma {:induction false} SubstituteFinds(e: Expr, name: string, x: Expr)
    requires WellFormed(e) && WellFormed(x)
    ensures Substitute(e, name, x) != e <==> Composite(x) && Occurs(x, e)
  {
    EqualsIsEquality(e, x);
    match e
    case Operator(_, l, r) => SubstituteFinds(l, name, x); SubstituteFinds(r, name, x);
    case Select(t, c, f) =>
      SubstituteFinds(t, name, x); SubstituteFinds(c, name, x); SubstituteFinds(f, name, x);
    case Function(_, a, Some(b)) => SubstituteFinds(a, name, x); SubstituteFinds(b, name, x);
    case _ =>
  }

  /** Where a substitution has changed something, the name stands. */
  lemma {:induction false} SubstituteNames(e: Expr, name: string, x: Expr)
    ensures Substitute(e, name, x) != e ==> Occurs(Event(name), Substitute(e, name, x))
  {
    if Composite(e) && !Equals(e, x) {
      match e
      case Operator(_, l, r) => SubstituteNames(l, name, x); SubstituteNames(r, name, x);
      case Select(t, c, f) =>
        SubstituteNames(t, name, x); SubstituteNames(c, name, x); SubstituteNames(f, name, x);
      case Function(_, a, Some(b)) => SubstituteNames(a, name, x); SubstituteNames(b, name, x);
      case Function(_, a, None) => SubstituteNames(a, name, x);
    }
  }

  /** One substitution leaves no occurrence, unless x itself has the name in it. */
  lemma {:induction false} SubstituteLeavesNone(e: Expr, name: string, x: Expr)
    requires WellFormed(e) && WellFormed(x) && Composite(x) && !Occurs(Event(name), x)
    ensures !Occurs(x, Substitute(e, name, x))
  {
    EqualsIsEquality(e, x);
    SubstituteNames(e, name, x);
    match e
    case Operator(_, l, r) => SubstituteLeavesNone(l, name, x); SubstituteLeavesNone(r, name, x);
    case Select(t, c, f) =>
      SubstituteLeavesNone(t, name, x); SubstituteLeavesNone(c, name, x); SubstituteLeavesNone(f, name, x);
    case Function(_, a, Some(b)) => SubstituteLeavesNone(a, name, x); SubstituteLeavesNone(b, name, x);
    case _ =>
  }

  // ---------------------------------------------------------------- simplification

  function LowerChar(c: char): char { if 'A' <= c <= 'Z' then (c as int - 'A' as int + 'a' as int) as char else c }

  function Lower(s: string): (r: string)
    ensures |r| == |s|
  {
    if s == "" then "" else [LowerChar(s[0])] + Lower(s[1..])
  }

  const CAPITALS: string := "ABCDEFGHIJKLMNOPQRSTUVWXYZ"
  const SMALLS: string := "abcdefghijklmnopqrstuvwxyz"

  /** Capitals become the small letters in their place of the alphabet, and nothing else changes. */
  lemma {:induction false} LowerLetters(s: string, i: nat)
    requires i < |s|
    ensures forall k :: 0 <= k < 26 && s[i] == CAPITALS[k] ==> Lower(s)[i] == SMALLS[k]
    ensures s[i] !in CAPITALS ==> Lower(s)[i] == s[i]
  {
    if i > 0 {
      LowerLetters(s[1..], i - 1);
    } else {
      LowerLetter(s[0]);
    }
  }

  lemma {:induction false} LowerLetter(ch: char)
    ensures forall k :: 0 <= k < 26 && ch == CAPITALS[k] ==> LowerChar(ch) == SMALLS[k]
    ensures ch !in CAPITALS ==> LowerChar(ch) == ch
  {
    if 'A' <= ch <= 'Z' {
      assert CAPITALS[ch as int - 65] == ch;
    }
  }

  /** The event whose product with 0 is kept. */
  predicate IsSlots(e: Expr) { e.Event? && Contains(Lower(e.name), "slots") }

  /** Its name has "slots" in it, in whatever case. */
  lemma {:induction false} SlotsNamed(e: Expr)
    ensures IsSlots(e) <==> e.Event? && Within(Lower(e.name), "slots")
  {
    if e.Event? {
      ContainsAt(Lower(e.name), "slots");
    }
  }

  function SimplifyOperator(op: Op, origLhs: Expr, origRhs: Expr, l: Expr, r: Expr): Option<Expr> {
    if l.Constant? && r.Constant? then None
    else if origLhs.Constant? && l.Constant? && (op.Add? || op.Or?) && l.value == "0" then Some(r)
    else if origLhs.Constant? && l.Constant? && op.Mul? && l.value == "0" && !IsSlots(r) then Some(Constant("0"))
    else if origLhs.Constant? && l.Constant? && op.Mul? && l.value == "1" then Some(r)
    else if r.Constant? && (op.Add? || op.Or?) && r.value == "0" then Some(l)
    else if r.Constant? && op.Mul? && r.value == "0" then Some(Constant("0"))
    else if r.Constant? && op.Mul? && !origRhs.Constant? then None
    else if r.Constant? && op.Mul? && origRhs.value == "1" then Some(l)
    else Some(Operator(op, l, r))
  }

  function SimplifySelect(t: Expr, c: Expr, f: Expr): Expr {
    if c.Constant? then if c.value == "0" then f else t
    else if Equals(t, f) then t
    else Select(t, c, f)
  }

  function SimplifyFunction(fn: Fn, a: Expr, b: Option<Expr>): Option<Expr> {
    if a.Constant? && b.Some? && b.value.Constant? then
      if fn.DRatio? && b.value.value == "0" then Some(Constant("0")) else None
    else Some(Function(fn, a, b))
  }

  /** None where the original raises: folding two constants hands an expression object, not a number, to the
      evaluator, and the test for a factor 1 on the right reads the value of the operand as it was before
      simplification, which need not be a constant. */
  function Simplify(e: Expr): Option<Expr> {
    match e
    case Operator(op, l, r) =>
      var a := Simplify(l);
      var b := Simplify(r);
      if a.None? || b.None? then None else SimplifyOperator(op, l, r, a.value, b.value)
    case Select(t, c, f) =>
      var cond := Simplify(c);
      var x := Simplify(t);
      var y := Simplify(f);
      if cond.None? || x.None? || y.None? then None
      else Some(SimplifySelect(x.value, cond.value, y.value))
    case Function(fn, a, None) =>
      var x := Simplify(a);
      if x.None? then None else SimplifyFunction(fn, x.value, None)
    case Function(fn, a, Some(b)) =>
      var x := Simplify(a);
      var y := Simplify(b);
      if x.None? || y.None? then None else SimplifyFunction(fn, x.value, y)
    case _ => Some(e)
  }

  predicate NumeralsOk(env: Env) { env.numerals("0") == 0.0 && env.numerals("1") == 1.0 }

  // What simplification leaves of an expression, read off the expression itself.

  /** All that simplification looks at in a simplified operand: its numeral or its event name, if it is one. */
  datatype Residue = Numeral(value: string) | Name(name: string) | Other

  function ResidueOfResult(e: Expr): Residue {
    match e
    case Constant(v) => Numeral(v)
    case Event(n) => Name(n)
    case _ => Other
  }

  function OperatorResidue(op: Op, constantLhs: bool, a: Residue, b: Residue): Residue {
    var slots := b.Name? && Contains(Lower(b.name), "slots");
    if op.Add? || op.Or? then
      if constantLhs && a == Numeral("0") then b else if b == Numeral("0") then a else Other
    else if !op.Mul? then Other
    else if b == Numeral("0") || (constantLhs && a == Numeral("0") && !slots) then Numeral("0")
    else if constantLhs && a == Numeral("1") then b
    else if b == Numeral("1") then a
    else Other
  }

  /** What a tree reduces to if simplification returns at all. */
  function Residual(e: Expr): Residue {
    match e
    case Operator(op, l, r) => OperatorResidue(op, l.Constant?, Residual(l), Residual(r))
    case Select(t, c, f) =>
      if Residual(c).Numeral? then if Residual(c).value == "0" then Residual(f) else Residual(t)
      else if Residual(t) == Residual(f) then Residual(t)
      else Other
    case Function(fn, a, Some(b)) =>
      if fn.DRatio? && Residual(a).Numeral? && Residual(b) == Numeral("0") then Numeral("0") else Other
    case Function(_, _, None) => Other
    case _ => ResidueOfResult(e)
  }

  /** Nowhere in the tree are two numerals to be folded, except a ratio by 0, nor is a right factor other than 0
      that only reduces to a numeral to be compared with 1. */
  predicate Foldless(e: Expr) {
    match e
    case Operator(op, l, r) =>
      && Foldless(l) && Foldless(r)
      && !(Residual(l).Numeral? && Residual(r).Numeral?)
      && !(op.Mul? && !r.Constant? && Residual(r).Numeral? && Residual(r).value != "0")
    case Select(t, c, f) => Foldless(t) && Foldless(c) && Foldless(f)
    case Function(fn, a, Some(b)) =>
      && Foldless(a) && Foldless(b)
      && (Residual(a).Numeral? && Residual(b).Numeral? ==> fn.DRatio? && Residual(b).value == "0")
    case Function(_, a, None) => Foldless(a)
    case _ => true
  }

  lemma {:induction false} OperatorReturns(op: Op, l: Expr, r: Expr, x: Expr, y: Expr)
    requires (l.Constant? ==> x == l) && (r.Constant? ==> y == r)
    ensures var (a, b) := (ResidueOfResult(x), ResidueOfResult(y));
            var s := SimplifyOperator(op, l, r, x, y);
            && (s.Some? <==> !(a.Numeral? && b.Numeral?)
                             && !(op.Mul? && !r.Constant? && b.Numeral? && b.value != "0"))
            && (s.Some? ==> ResidueOfResult(s.value) == OperatorResidue(op, l.Constant?, a, b))
  {
  }

  lemma {:induction false} SelectReturns(x: Expr, c: Expr, y: Expr)
    ensures var (a, b, cond) := (ResidueOfResult(x), ResidueOfResult(y), ResidueOfResult(c));
            ResidueOfResult(SimplifySelect(x, c, y)) ==
              if cond.Numeral? then if cond.value == "0" then b else a else if a == b then a else Other
  {
  }

  /** Exactly when simplification returns, and what kind of leaf it then leaves. */
  lemma {:induction false} SimplifyReturns(e: Expr)
    ensures Simplify(e).Some? <==> Foldless(e)
    ensures Simplify(e).Some? ==> ResidueOfResult(Simplify(e).value) == Residual(e)
  {
    match e
    case Operator(op, l, r) =>
      SimplifyReturns(l);
      SimplifyReturns(r);
      if Foldless(l) && Foldless(r) {
        OperatorReturns(op, l, r, Simplify(l).value, Simplify(r).value);
      }
    case Select(t, c, f) =>
      SimplifyReturns(t);
      SimplifyReturns(c);
      SimplifyReturns(f);
      if Foldless(e) {
        SelectReturns(Simplify(t).value, Simplify(c).value, Simplify(f).value);
      }
    case Function(_, a, None) => SimplifyReturns(a);
    case Function(_, a, Some(b)) =>
      SimplifyReturns(a);
      SimplifyReturns(b);
    case _ =>
  }

  /** A tree without choices and without the constant 0. */
  predicate Plain(e: Expr) {
    match e
    case Operator(_, l, r) => Plain(l) && Plain(r)
    case Select(_, _, _) => false
    case Function(_, a, None) => Plain(a)
    case Function(_, a, Some(b)) => Plain(a) && Plain(b)
    case Constant(v) => v != "0"
    case _ => true
  }

  /** An operator or function is applied to two constants. */
  predicate HasConstantPair(e: Expr) {
    match e
    case Operator(_, l, r) => (l.Constant? && r.Constant?) || HasConstantPair(l) || HasConstantPair(r)
    case Select(t, c, f) => HasConstantPair(t) || HasConstantPair(c) || HasConstantPair(f)
    case Function(_, a, None) => HasConstantPair(a)
    case Function(_, a, Some(b)) => (a.Constant? && b.Constant?) || HasConstantPair(a) || HasConstantPair(b)
    case _ => false
  }

  /** On plain trees simplification returns exactly if nothing is applied to two constants. */
  lemma {:induction false} PlainReturns(e: Expr)
    requires Plain(e)
    ensures Simplify(e).Some? <==> !HasConstantPair(e)
    ensures Simplify(e).Some? ==> (Simplify(e).value.Constant? <==> e.Constant?)
    ensures Simplify(e).Some? && Simplify(e).value.Constant? ==> Simplify(e).value.value != "0"
  {
    match e
    case Operator(_, l, r) =>
      PlainReturns(l);
      PlainReturns(r);
    case Function(_, a, None) => PlainReturns(a);
    case Function(_, a, Some(b)) =>
      PlainReturns(a);
      PlainReturns(b);
    case _ =>
  }

  /** Both ways to raise: folding 1 + 2, and the factor that a choice reduces to. */
  lemma {:induction false} SimplifyRaises()
    ensures Simplify(Operator(Add, Constant("1"), Constant("2"))).None?
    ensures Simplify(Operator(Mul, Event("a"), Select(Constant("1"), Constant("1"), Event("b")))).None?
  {
    var choice := Select(Constant("1"), Constant("1"), Event("b"));
    assert Simplify(choice) == Some(Constant("1"));
  }

  // Meaning is kept.

  /** Where the condition of a choice reduces to a numeral that denotes zero, it reduces to "0". */
  predicate ConditionsPlain(e: Expr, env: Env) {
    match e
    case Operator(_, l, r) => ConditionsPlain(l, env) && ConditionsPlain(r, env)
    case Select(t, c, f) =>
      && ConditionsPlain(t, env) && ConditionsPlain(c, env) && ConditionsPlain(f, env)
      && PlainCondition(Residual(c), env)
    case Function(_, a, Some(b)) => ConditionsPlain(a, env) && ConditionsPlain(b, env)
    case _ => true
  }

  predicate PlainCondition(c: Residue, env: Env) {
    c.Numeral? && env.numerals(c.value) == 0.0 ==> c.value == "0"
  }

  /** r may stand for e: it is no bigger, and has e's value wherever e has one. */
  ghost predicate Refines(r: Expr, e: Expr, env: Env) {
    && WellFormed(r)
    && Size(r) <= Size(e)
    && (Eval(e, env).Some? ==> Eval(r, env) == Eval(e, env))
  }

  /** The units and zeros of the operators that Simplify relies on. */
  lemma {:induction false} ApplyUnits(op: Op, x: real, y: real)
    ensures (op.Add? || op.Or?) && Apply(op, x, y).Some? && x == 0.0 ==> Apply(op, x, y) == Some(y)
    ensures (op.Add? || op.Or?) && Apply(op, x, y).Some? && y == 0.0 ==> Apply(op, x, y) == Some(x)
    ensures op.Mul? && (x == 0.0 || y == 0.0) ==> Apply(op, x, y) == Some(0.0)
    ensures op.Mul? && x == 1.0 ==> Apply(op, x, y) == Some(y)
    ensures op.Mul? && y == 1.0 ==> Apply(op, x, y) == Some(x)
  {
    OrZero(x.Floor);
    OrZero(y.Floor);
  }

  lemma {:induction false} SimplifyOperatorRefines(op: Op, l: Expr, r: Expr, a: Expr, b: Expr, env: Env)
    requires WellFormed(l) && WellFormed(r) && NumeralsOk(env)
    requires Refines(a, l, env) && Refines(b, r, env)
    ensures var s := SimplifyOperator(op, l, r, a, b);
            s.Some? ==> Refines(s.value, Operator(op, l, r), env)
  {
    if Eval(l, env).Some? && Eval(r, env).Some? {
      ApplyUnits(op, Eval(l, env).value, Eval(r, env).value);
    }
  }

  lemma {:induction false} SimplifySelectMeaning(t: Expr, c: Expr, f: Expr, env: Env)
    requires WellFormed(t) && WellFormed(f) && PlainCondition(ResidueOfResult(c), env) && NumeralsOk(env)
    requires Choose(Eval(t, env), Eval(c, env), Eval(f, env)).Some?
    ensures Eval(SimplifySelect(t, c, f), env) == Choose(Eval(t, env), Eval(c, env), Eval(f, env))
  {
    EqualsIsEquality(t, f);
  }

  lemma {:induction false} SimplifySelectRefines(t: Expr, c: Expr, f: Expr, x: Expr, b: Expr, y: Expr, env: Env)
    requires NumeralsOk(env) && PlainCondition(ResidueOfResult(b), env)
    requires Refines(x, t, env) && Refines(b, c, env) && Refines(y, f, env)
    ensures Refines(SimplifySelect(x, b, y), Select(t, c, f), env)
  {
    var s := SimplifySelect(x, b, y);
    assert s == x || s == y || s == Select(x, b, y);
    if Eval(Select(t, c, f), env).Some? {
      SimplifySelectMeaning(x, b, y, env);
    }
  }

  lemma {:induction false} SimplifyFunctionRefines(fn: Fn, a: Expr, b: Expr, x: Expr, y: Expr, env: Env)
    requires Binary(fn) && NumeralsOk(env)
    requires Refines(x, a, env) && Refines(y, b, env)
    ensures var s := SimplifyFunction(fn, x, Some(y));
            s.Some? ==> Refines(s.value, Function(fn, a, Some(b)), env)
  {
  }

  /** Whenever Simplify returns, its result is no bigger and means the same wherever the input has a meaning. */
  lemma {:induction false} SimplifyRefines(e: Expr, env: Env)
    requires WellFormed(e) && NumeralsOk(env) && ConditionsPlain(e, env)
    ensures Simplify(e).Some? ==> Refines(Simplify(e).value, e, env)
  {
    match e
    case Operator(op, l, r) =>
      SimplifyRefines(l, env);
      SimplifyRefines(r, env);
      if Simplify(l).Some? && Simplify(r).Some? {
        SimplifyOperatorRefines(op, l, r, Simplify(l).value, Simplify(r).value, env);
      }
    case Select(t, c, f) =>
      SimplifyRefines(t, env);
      SimplifyRefines(c, env);
      SimplifyRefines(f, env);
      SimplifyReturns(c);
      if Simplify(t).Some? && Simplify(c).Some? && Simplify(f).Some? {
        SimplifySelectRefines(t, c, f, Simplify(t).value, Simplify(c).value, Simplify(f).value, env);
      }
    case Function(fn, a, None) =>
    case Function(fn, a, Some(b)) =>
      SimplifyRefines(a, env);
      SimplifyRefines(b, env);
      if Simplify(a).Some? && Simplify(b).Some? {
        SimplifyFunctionRefines(fn, a, b, Simplify(a).value, Simplify(b).value, env);
      }
    case _ =>
  }

  /** Choosing between two simplified branches by a simplified condition keeps the value. */
  ghost predicate ChoiceKept(t: Expr, c: Expr, f: Expr, env: Env) {
    Eval(SimplifySelect(t, c, f), env) == Eval(Select(t, c, f), env)
  }

  /** Choosing by a constant is right for all branches exactly when "0" is the way its zero is written (and not,
      say, "-0"). */
  lemma {:induction false} SelectByConstant(v: string, env: Env)
    requires NumeralsOk(env)
    ensures (forall t, f :: ChoiceKept(t, Constant(v), f, env)) <==> (env.numerals(v) == 0.0 ==> v == "0")
  {
    if env.numerals(v) == 0.0 ==> v == "0" {
      forall t, f ensures ChoiceKept(t, Constant(v), f, env) {
        assert Eval(Select(t, Constant(v), f), env) == if v == "0" then Eval(f, env) else Eval(t, env);
      }
    } else {
      var (t, f) := (Constant("1"), Constant("0"));
      assert SimplifySelect(t, Constant(v), f) == t;
      assert Eval(t, env) == Some(1.0) && Eval(f, env) == Some(0.0);
      assert Eval(Select(t, Constant(v), f), env) == Some(0.0);
      assert !ChoiceKept(t, Constant(v), f, env);
    }
  }

  /** 0 times an event is 0, except that the product with a slots event is kept as it is. */
  lemma {:induction false} ZeroTimes(name: string)
    ensures var e := Operator(Mul, Constant("0"), Event(name));
            Simplify(e) == Some(if Within(Lower(name), "slots") then e else Constant("0"))
  {
    SlotsNamed(Event(name));
  }

  /** A condition spelt "-0" chooses the wrong branch. */
  lemma {:induction false} MinusZeroChosen(env: Env)
    requires NumeralsOk(env) && env.numerals("-0") == 0.0
    ensures var e := Select(Constant("1"), Constant("-0"), Constant("0"));
            Eval(e, env) == Some(0.0) && Simplify(e).Some? && Eval(Simplify(e).value, env) == Some(1.0)
  {
    var e := Select(Constant("1"), Constant("-0"), Constant("0"));
    assert "-0" != "0" by { assert |"-0"| == 2; }
    assert Simplify(e) == Some(Constant("1"));
    assert Eval(e.cond, env) == Some(0.0) && Eval(e.falseVal, env) == Some(0.0);
  }

  // Simplifying once more.

  /** An operator with these operands is one that simplification takes for one of them or for 0. */
  predicate HasUnit(op: Op, l: Expr, r: Expr) {
    l.Constant? && (((op.Add? || op.Or?) && l.value == "0")
                    || (op.Mul? && (l.value == "1" || (l.value == "0" && !IsSlots(r)))))
  }

  /** No operator of the tree has a left operand that is a unit or a zero of it. */
  predicate NoUnit(e: Expr) {
    match e
    case Operator(op, l, r) => !HasUnit(op, l, r) && NoUnit(l) && NoUnit(r)
    case Select(t, c, f) => NoUnit(t) && NoUnit(c) && NoUnit(f)
    case Function(_, a, None) => NoUnit(a)
    case Function(_, a, Some(b)) => NoUnit(a) && NoUnit(b)
    case _ => true
  }

  /** What the trees that simplification returns have in common. */
  predicate Settled(e: Expr) {
    match e
    case Operator(op, l, r) =>
      && Settled(l) && Settled(r) && !(l.Constant? && r.Constant?)
      && (r.Constant? ==> !((op.Add? || op.Or? || op.Mul?) && r.value == "0") && !(op.Mul? && r.value == "1"))
    case Select(t, c, f) => Settled(t) && Settled(c) && Settled(f) && !c.Constant? && !Equals(t, f)
    case Function(_, a, None) => Settled(a)
    case Function(_, a, Some(b)) => Settled(a) && Settled(b) && !(a.Constant? && b.Constant?)
    case _ => true
  }

  lemma {:induction false} SimplifySettles(e: Expr)
    ensures Simplify(e).Some? ==> Settled(Simplify(e).value) && Size(Simplify(e).value) <= Size(e)
  {
    match e
    case Operator(_, l, r) =>
      SimplifySettles(l);
      SimplifySettles(r);
    case Select(t, c, f) =>
      SimplifySettles(t);
      SimplifySettles(c);
      SimplifySettles(f);
    case Function(_, a, None) => SimplifySettles(a);
    case Function(_, a, Some(b)) =>
      SimplifySettles(a);
      SimplifySettles(b);
    case _ =>
  }

  /** Where no operator has a unit, simplification finds nothing more to do. */
  lemma {:induction false} NoUnitFixed(s: Expr)
    requires Settled(s) && NoUnit(s)
    ensures Simplify(s) == Some(s)
  {
    match s
    case Operator(_, l, r) =>
      NoUnitFixed(l);
      NoUnitFixed(r);
    case Select(t, c, f) =>
      NoUnitFixed(t);
      NoUnitFixed(c);
      NoUnitFixed(f);
    case Function(_, a, None) => NoUnitFixed(a);
    case Function(_, a, Some(b)) =>
      NoUnitFixed(a);
      NoUnitFixed(b);
    case _ =>
  }

  /** Taking a unit away makes the tree smaller. */
  lemma {:induction false} FixedOperator(op: Op, l: Expr, r: Expr)
    requires Simplify(Operator(op, l, r)) == Some(Operator(op, l, r))
    ensures Simplify(l) == Some(l) && Simplify(r) == Some(r) && !HasUnit(op, l, r)
  {
    SimplifySettles(l);
    SimplifySettles(r);
  }

  lemma {:induction false} FixedSelect(t: Expr, c: Expr, f: Expr)
    requires Simplify(Select(t, c, f)) == Some(Select(t, c, f))
    ensures Simplify(t) == Some(t) && Simplify(c) == Some(c) && Simplify(f) == Some(f)
  {
    SimplifySettles(t);
    SimplifySettles(f);
  }

  /** A tree that simplification leaves as it is has no unit. */
  lemma {:induction false} FixedNoUnit(s: Expr)
    requires Simplify(s) == Some(s)
    ensures NoUnit(s)
  {
    match s
    case Operator(op, l, r) =>
      FixedOperator(op, l, r);
      FixedNoUnit(l);
      FixedNoUnit(r);
    case Select(t, c, f) =>
      FixedSelect(t, c, f);
      FixedNoUnit(t);
      FixedNoUnit(c);
      FixedNoUnit(f);
    case Function(_, a, None) => FixedNoUnit(a);
    case Function(_, a, Some(b)) =>
      FixedNoUnit(a);
      FixedNoUnit(b);
    case _ =>
  }

  /** Exactly when simplifying once more changes nothing: when the result has no operator whose left operand is a
      unit or a zero of it. */
  lemma {:induction false} SimplifyAgain(e: Expr)
    requires Simplify(e).Some?
    ensures Simplify(Simplify(e).value) == Simplify(e) <==> NoUnit(Simplify(e).value)
  {
    var s := Simplify(e).value;
    SimplifySettles(e);
    if NoUnit(s) {
      NoUnitFixed(s);
    }
    if Simplify(s) == Some(s) {
      FixedNoUnit(s);
    }
  }

  /** A factor that only becomes 0 by simplification is noticed on the next call, and a choice whose condition
      becomes 0 that late can even make that call raise. */
  lemma {:induction false} SimplifyTwice()
    ensures var e := Operator(Add, Operator(Mul, Event("a"), Constant("0")), Event("b"));
            Simplify(e) == Some(Operator(Add, Constant("0"), Event("b")))
            && Simplify(Simplify(e).value) == Some(Event("b"))
    ensures var late := Operator(Mul, Operator(Mul, Event("a"), Constant("0")), Event("b"));
            var e := Operator(Mul, Event("c"), Select(Event("d"), late, Constant("5")));
            Simplify(e).Some? && Simplify(Simplify(e).value).None?
  {
    var late := Operator(Mul, Operator(Mul, Event("a"), Constant("0")), Event("b"));
    assert Simplify(late) == Some(Operator(Mul, Constant("0"), Event("b")));
    var once := Operator(Mul, Constant("0"), Event("b"));
    assert !IsSlots(Event("b")) && Simplify(once) == Some(Constant("0"));
    var choice := Select(Event("d"), once, Constant("5"));
    assert Simplify(Select(Event("d"), late, Constant("5"))) == Some(choice);
    assert Simplify(choice) == Some(Constant("5"));
  }
}
