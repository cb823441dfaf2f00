/** Rewriting a system of metrics in terms of one another (RewriteMetricsInTermsOfOthers,
    source/pmu-events/metric.py): termination, and the value of every metric is kept. */
module MetricRewrite {
  import opened Common
  import opened MetricExpr

  datatype Metric = Metric(pmu: Option<string>, name: string, expr: Expr)

  function PmuOf(m: Metric): string { if m.pmu.None? then "cpu" else m.pmu.value }

  predicate SamePmu(a: Metric, b: Metric) { Lower(PmuOf(a)) == Lower(PmuOf(b)) }

  /** A metric without a pmu is one of "cpu", and pmus are told apart without regard to case. */
  lemma {:induction false} PmuDefault(pmu: string, name: string, expr: Expr)
    ensures SamePmu(Metric(Some(pmu), name, expr), Metric(None, name, expr)) <==> Lower(pmu) == "cpu"
    ensures Lower("CPU") == "cpu"
  {
    assert Lower("u") == "u" && Lower("pu") == "pu" && Lower("cpu") == "cpu";
    assert Lower("U") == "u" && Lower("PU") == "pu" && Lower("CPU") == "cpu";
  }

  /** The metric that an event of metric k's expression names, within the same pmu; -1 for a base event. */
  ghost function Resolve(ms: seq<Metric>, k: nat, n: string): (j: int)
    requires k < |ms|
    ensures j == -1 || (0 <= j < |ms| && SamePmu(ms[j], ms[k]) && ms[j].name == n)
    ensures j == -1 ==> forall i :: 0 <= i < |ms| && SamePmu(ms[i], ms[k]) ==> ms[i].name != n
  {
    if exists j :: 0 <= j < |ms| && SamePmu(ms[j], ms[k]) && ms[j].name == n then
      var j :| 0 <= j < |ms| && SamePmu(ms[j], ms[k]) && ms[j].name == n; j
    else -1
  }

  /** Within one pmu no two metrics share a name. */
  ghost predicate DistinctNames(ms: seq<Metric>) {
    forall i, j :: 0 <= i < j < |ms| && SamePmu(ms[i], ms[j]) ==> ms[i].name != ms[j].name
  }

  type Value = Option<real>

  /** The base environment of metric k's pmu, with metric names standing for the values of the metrics. */
  ghost function Within(ms: seq<Metric>, k: nat, base: string -> Env, v: seq<Value>): Env
    requires k < |ms| == |v|
  {
    var env := base(Lower(PmuOf(ms[k])));
    env.(events := n => var j := Resolve(ms, k, n); if j >= 0 then v[j] else env.events(n))
  }

  /** v gives every metric the value that its current expression has under v. */
  ghost predicate IsValuation(ms: seq<Metric>, cur: seq<Expr>, base: string -> Env, v: seq<Value>) {
    && |cur| == |ms| == |v|
    && forall k :: 0 <= k < |ms| ==> v[k] == Eval(cur[k], Within(ms, k, base, v))
  }

  /** Every reference to a metric goes down in rank. */
  ghost predicate Ranked(ms: seq<Metric>, cur: seq<Expr>, rank: seq<nat>) {
    && |cur| == |ms| == |rank|
    && forall k, n :: 0 <= k < |ms| && n in Refs(cur[k]) && Resolve(ms, k, n) >= 0 ==> rank[Resolve(ms, k, n)] < rank[k]
  }

  ghost predicate Acyclic(ms: seq<Metric>, cur: seq<Expr>) {
    exists rank :: Ranked(ms, cur, rank)
  }

  ghost predicate AllWellFormed(cur: seq<Expr>) {
    forall k :: 0 <= k < |cur| ==> WellFormed(cur[k])
  }

  // ---------------------------------------------------------------- an acyclic system has one valuation

  lemma {:induction false} ValuationUniqueAt(ms: seq<Metric>, cur: seq<Expr>, base: string -> Env,
                                             v: seq<Value>, w: seq<Value>, rank: seq<nat>, k: nat)
    requires IsValuation(ms, cur, base, v) && IsValuation(ms, cur, base, w) && Ranked(ms, cur, rank) && k < |ms|
    ensures v[k] == w[k]
    decreases rank[k]
  {
    forall n | n in Refs(cur[k]) ensures Within(ms, k, base, v).events(n) == Within(ms, k, base, w).events(n) {
      var j := Resolve(ms, k, n);
      if j >= 0 {
        ValuationUniqueAt(ms, cur, base, v, w, rank, j);
      }
    }
    EvalReadsRefs(cur[k], Within(ms, k, base, v), Within(ms, k, base, w));
  }

  /** An acyclic system has at most one valuation over any base environment. */
  lemma ValuationUnique(ms: seq<Metric>, cur: seq<Expr>, base: string -> Env, v: seq<Value>, w: seq<Value>)
    requires IsValuation(ms, cur, base, v) && IsValuation(ms, cur, base, w) && Acyclic(ms, cur)
    ensures v == w
  {
    var rank :| Ranked(ms, cur, rank);
    forall k | 0 <= k < |ms| ensures v[k] == w[k] {
      ValuationUniqueAt(ms, cur, base, v, w, rank, k);
    }
  }

  ghost function ValueOf(ms: seq<Metric>, cur: seq<Expr>, base: string -> Env, rank: seq<nat>, k: nat): Value
    requires |cur| == |ms| == |rank| && k < |ms|
    decreases rank[k]
  {
    var env := base(Lower(PmuOf(ms[k])));
    Eval(cur[k], env.(events := n =>
      var j := Resolve(ms, k, n);
      if j >= 0 then if rank[j] < rank[k] then ValueOf(ms, cur, base, rank, j) else None else env.events(n)))
  }

  /** An acyclic system has a valuation over any base environment. */
  lemma ValuationExists(ms: seq<Metric>, cur: seq<Expr>, base: string -> Env) returns (v: seq<Value>)
    requires Acyclic(ms, cur)
    ensures IsValuation(ms, cur, base, v)
  {
    var rank :| Ranked(ms, cur, rank);
    v := seq(|ms|, k requires 0 <= k < |ms| => ValueOf(ms, cur, base, rank, k));
    forall k | 0 <= k < |ms| ensures v[k] == Eval(cur[k], Within(ms, k, base, v)) {
      var env := base(Lower(PmuOf(ms[k])));
      var env' := env.(events := n =>
        var j := Resolve(ms, k, n);
        if j >= 0 then if rank[j] < rank[k] then ValueOf(ms, cur, base, rank, j) else None else env.events(n));
      assert v[k] == Eval(cur[k], env');
      EvalReadsRefs(cur[k], env', Within(ms, k, base, v));
    }
  }

  // ---------------------------------------------------------------- one substitution

  /** Metric o's expression with metric i's expression replaced by its name. */
  function Rewritten(ms: seq<Metric>, cur: seq<Expr>, o: nat, i: nat): seq<Expr>
    requires |cur| == |ms| && o < |ms| && i < |ms|
  {
    cur[o := Substitute(cur[o], ms[i].name, cur[i])]
  }

  predicate MayUse(ms: seq<Metric>, o: nat, i: nat)
    requires o < |ms| && i < |ms|
  {
    SamePmu(ms[i], ms[o]) && Lower(ms[i].name) != Lower(ms[o].name)
  }

  lemma StepValuation(ms: seq<Metric>, cur: seq<Expr>, o: nat, i: nat, base: string -> Env, v: seq<Value>)
    requires DistinctNames(ms) && AllWellFormed(cur) && IsValuation(ms, cur, base, v)
    requires o < |ms| && i < |ms| && MayUse(ms, o, i)
    ensures IsValuation(ms, Rewritten(ms, cur, o, i), base, v)
  {
    var env := Within(ms, o, base, v);
    SameEnv(ms, cur, o, i, base, v);
    SubstituteMeaning(cur[o], ms[i].name, cur[i], env);
  }

  /** Expressions of the same pmu mean the same wherever they stand. */
  lemma SameEnv(ms: seq<Metric>, cur: seq<Expr>, o: nat, i: nat, base: string -> Env, v: seq<Value>)
    requires DistinctNames(ms) && IsValuation(ms, cur, base, v)
    requires o < |ms| && i < |ms| && SamePmu(ms[i], ms[o])
    ensures Eval(cur[i], Within(ms, i, base, v)) == Eval(cur[i], Within(ms, o, base, v))
  {
    forall n ensures Resolve(ms, i, n) == Resolve(ms, o, n) {
      ResolveSamePmu(ms, o, i, n);
    }
    EvalReadsRefs(cur[i], Within(ms, i, base, v), Within(ms, o, base, v));
  }

  lemma ResolveSamePmu(ms: seq<Metric>, o: nat, i: nat, n: string)
    requires DistinctNames(ms) && o < |ms| && i < |ms| && SamePmu(ms[i], ms[o])
    ensures Resolve(ms, i, n) == Resolve(ms, o, n)
  {
    var a := Resolve(ms, i, n);
    var b := Resolve(ms, o, n);
    if a >= 0 && b >= 0 {
      assert SamePmu(ms[a], ms[b]);
    }
  }

  /** Ranks with room in between: i moves down to `low`, o up by a half. */
  ghost function Reranked(rank: seq<nat>, o: nat, i: nat, low: nat): (r: seq<nat>)
    requires o < |rank|
    ensures |r| == |rank|
    ensures forall k :: 0 <= k < |rank| ==>
              r[k] == if k == i then 2 * low else if k == o then 2 * rank[o] + 1 else 2 * rank[k]
  {
    seq(|rank|, k requires 0 <= k < |rank| =>
      (if k == i then 2 * low else if k == o then 2 * rank[o] + 1 else 2 * rank[k]) as nat)
  }

  /** The new reference cannot close a cycle: what i depends on, o depended on before. */
  lemma StepAcyclic(ms: seq<Metric>, cur: seq<Expr>, o: nat, i: nat)
    requires DistinctNames(ms) && AllWellFormed(cur) && Acyclic(ms, cur)
    requires o < |ms| && i < |ms| && MayUse(ms, o, i)
    ensures Acyclic(ms, Rewritten(ms, cur, o, i))
  {
    var next := Rewritten(ms, cur, o, i);
    var rank :| Ranked(ms, cur, rank);
    if next[o] == cur[o] {
      assert next == cur;
    } else {
      var low := if rank[i] < rank[o] then rank[i] else rank[o];
      var rank' := Reranked(rank, o, i, low);
      SubstituteRefs(cur[o], ms[i].name, cur[i]);
      forall k, n | 0 <= k < |ms| && n in Refs(next[k]) && Resolve(ms, k, n) >= 0
        ensures rank'[Resolve(ms, k, n)] < rank'[k]
      {
        var j := Resolve(ms, k, n);
        if k == i {
          ResolveSamePmu(ms, o, i, n);
          assert n in Refs(cur[i]) && n in Refs(cur[o]);
          assert rank[j] < rank[i] && rank[j] < rank[o];
        } else if k == o && j == i {
          assert rank'[i] <= 2 * rank[o];
        } else {
          assert n in Refs(cur[k]);
          assert rank[j] < rank[k];
        }
      }
      assert Ranked(ms, next, rank');
    }
  }

  // ---------------------------------------------------------------- whole derivations

  /** Each system of the derivation comes from the one before it by one permitted substitution. */
  ghost predicate Derivation(ms: seq<Metric>, systems: seq<seq<Expr>>) {
    && |systems| > 0
    && (forall t :: 0 <= t < |systems| ==> |systems[t]| == |ms|)
    && forall t :: 0 < t < |systems| ==> OneStep(ms, systems[t - 1], systems[t])
  }

  ghost predicate OneStep(ms: seq<Metric>, cur: seq<Expr>, next: seq<Expr>)
    requires |cur| == |ms|
  {
    exists o: nat, i: nat :: o < |ms| && i < |ms| && MayUse(ms, o, i) && next == Rewritten(ms, cur, o, i)
  }

  /** cur may replace orig: no cycle is introduced and every valuation of orig is one of cur. */
  ghost predicate Faithful(ms: seq<Metric>, orig: seq<Expr>, cur: seq<Expr>) {
    && AllWellFormed(cur)
    && (Acyclic(ms, orig) ==> Acyclic(ms, cur))
    && forall base, v :: IsValuation(ms, orig, base, v) ==> IsValuation(ms, cur, base, v)
  }

  lemma OneStepFaithful(ms: seq<Metric>, orig: seq<Expr>, cur: seq<Expr>, next: seq<Expr>)
    requires DistinctNames(ms) && |cur| == |ms| && Faithful(ms, orig, cur) && OneStep(ms, cur, next)
    ensures Faithful(ms, orig, next)
  {
    var o: nat, i: nat :| o < |ms| && i < |ms| && MayUse(ms, o, i) && next == Rewritten(ms, cur, o, i);
    SubstituteWellFormed(cur[o], ms[i].name, cur[i]);
    if Acyclic(ms, orig) {
      StepAcyclic(ms, cur, o, i);
    }
    forall base, v | IsValuation(ms, orig, base, v) ensures IsValuation(ms, next, base, v) {
      StepValuation(ms, cur, o, i, base, v);
    }
  }

  /** Every system of a derivation, intermediate or final, is faithful to the first. */
  lemma {:induction false} DerivationFaithful(ms: seq<Metric>, systems: seq<seq<Expr>>, t: nat)
    requires DistinctNames(ms) && Derivation(ms, systems) && AllWellFormed(systems[0]) && t < |systems|
    ensures Faithful(ms, systems[0], systems[t])
  {
    if t > 0 {
      DerivationFaithful(ms, systems, t - 1);
      OneStepFaithful(ms, systems[0], systems[t - 1], systems[t]);
    }
  }

  /** Rewriting an acyclic system keeps the value of every metric over every base environment, at every point. */
  lemma DerivationKeepsValues(ms: seq<Metric>, systems: seq<seq<Expr>>, t: nat, base: string -> Env, k: nat)
      returns (v: seq<Value>, w: seq<Value>)
    requires DistinctNames(ms) && Derivation(ms, systems) && AllWellFormed(systems[0]) && t < |systems|
    requires Acyclic(ms, systems[0]) && k < |ms|
    ensures IsValuation(ms, systems[0], base, v) && IsValuation(ms, systems[t], base, w)
    ensures v[k] == w[k]
    ensures forall u :: IsValuation(ms, systems[t], base, u) ==> u == v
  {
    DerivationFaithful(ms, systems, t);
    v := ValuationExists(ms, systems[0], base);
    w := ValuationExists(ms, systems[t], base);
    forall u | IsValuation(ms, systems[t], base, u) ensures u == v {
      ValuationUnique(ms, systems[t], base, u, v);
    }
  }

  // ---------------------------------------------------------------- the rewriter

  type Updates = map<(string, string), Expr>

  function Key(m: Metric): (string, string) { (PmuOf(m), m.name) }

  function CurrentOf(m: Metric, updates: Updates): Expr {
    if Key(m) in updates then updates[Key(m)] else m.expr
  }

  function Current(ms: seq<Metric>, updates: Updates): (cur: seq<Expr>)
    ensures |cur| == |ms|
  {
    seq(|ms|, k requires 0 <= k < |ms| => CurrentOf(ms[k], updates))
  }

  /** e has no occurrence of x left that a name could replace. */
  predicate Exhausted(e: Expr, x: Expr) { Composite(x) ==> !Occurs(x, e) }

  ghost predicate Extends(ms: seq<Metric>, systems: seq<seq<Expr>>, systems': seq<seq<Expr>>) {
    && Derivation(ms, systems')
    && |systems| <= |systems'| && systems'[..|systems|] == systems
  }

  /** The first metrics of o's pmu, up to a given one, have nothing left to be substituted in e. */
  ghost predicate NothingLeft(ms: seq<Metric>, o: nat, upto: nat, e: Expr, updates: Updates)
    requires o < |ms| && upto <= |ms|
  {
    forall i :: 0 <= i < upto && MayUse(ms, o, i) ==> Exhausted(e, CurrentOf(ms[i], updates))
  }

  /** The derivation goes on to the given system. */
  ghost predicate ChainTo(ms: seq<Metric>, systems: seq<seq<Expr>>, systems': seq<seq<Expr>>, last: seq<Expr>) {
    Extends(ms, systems, systems') && systems'[|systems'| - 1] == last
  }

  lemma {:induction false} ChainStep(ms: seq<Metric>, o: nat, i: nat, updates: Updates, updated: Expr,
                                     systems: seq<seq<Expr>>, systems': seq<seq<Expr>>) returns (longer: seq<seq<Expr>>)
    requires o < |ms| && i < |ms| && MayUse(ms, o, i)
    requires ChainTo(ms, systems, systems', Current(ms, updates)[o := updated])
    ensures ChainTo(ms, systems, longer,
                    Current(ms, updates)[o := Substitute(updated, ms[i].name, CurrentOf(ms[i], updates))])
  {
    longer := systems' + [Rewritten(ms, systems'[|systems'| - 1], o, i)];
    assert i != o;
    assert longer[..|systems|] == systems'[..|systems|];
  }

  lemma {:induction false} SubstituteKeeps(e: Expr, name: string, x: Expr)
    requires WellFormed(e) && WellFormed(x)
    ensures if Exhausted(e, x) then Substitute(e, name, x) == e else Size(Substitute(e, name, x)) < Size(e)
    ensures WellFormed(Substitute(e, name, x))
  {
    SubstituteFinds(e, name, x);
    SubstituteShrinks(e, name, x);
    SubstituteWellFormed(e, name, x);
  }

  /** One turn of the inner loop: every other metric of the pmu is substituted into metric o's expression. */
  method Pass(ms: seq<Metric>, o: nat, updates: Updates, start: Expr, ghost systems: seq<seq<Expr>>)
      returns (updated: Expr, ghost systems': seq<seq<Expr>>)
    requires o < |ms| && Derivation(ms, systems)
    requires systems[|systems| - 1] == Current(ms, updates)[o := start]
    requires AllWellFormed(Current(ms, updates)) && WellFormed(start)
    ensures Extends(ms, systems, systems')
    ensures systems'[|systems'| - 1] == Current(ms, updates)[o := updated]
    ensures updated == start || Size(updated) < Size(start)
    ensures WellFormed(updated)
    ensures updated == start ==> NothingLeft(ms, o, |ms|, start, updates)
  {
    updated := start;
    systems' := systems;
    for i := 0 to |ms|
      invariant ChainTo(ms, systems, systems', Current(ms, updates)[o := updated])
      invariant updated == start || Size(updated) < Size(start)
      invariant WellFormed(updated)
      invariant updated == start ==> NothingLeft(ms, o, i, start, updates)
    {
      if Lower(PmuOf(ms[i])) != Lower(PmuOf(ms[o])) {
        continue;
      }
      if Lower(ms[i].name) == Lower(ms[o].name) {
        continue;
      }
      var inner := if Key(ms[i]) in updates then updates[Key(ms[i])] else ms[i].expr;
      assert WellFormed(Current(ms, updates)[i]);
      SubstituteKeeps(updated, ms[i].name, inner);
      systems' := ChainStep(ms, o, i, updates, updated, systems, systems');
      updated := Substitute(updated, ms[i].name, inner);
    }
  }

  /** So far metric o has been rewritten to what updates' says, and no other metric has been touched. */
  ghost predicate Rewriting(ms: seq<Metric>, o: nat, updates: Updates, updates': Updates,
                            systems: seq<seq<Expr>>, systems': seq<seq<Expr>>)
    requires o < |ms|
  {
    && Extends(ms, systems, systems')
    && systems'[|systems'| - 1] == Current(ms, updates') == Current(ms, updates)[o := CurrentOf(ms[o], updates')]
    && WellFormed(CurrentOf(ms[o], updates'))
    && updates' - {Key(ms[o])} == updates
    && (Key(ms[o]) in updates' ==> Size(updates'[Key(ms[o])]) < Size(ms[o].expr))
  }

  /** Passes over metric o until nothing changes.  It ends because a pass that changes the expression makes it smaller. */
  method RewriteOne(ms: seq<Metric>, o: nat, updates: Updates, ghost systems: seq<seq<Expr>>)
      returns (updates': Updates, ghost systems': seq<seq<Expr>>)
    requires o < |ms| && DistinctNames(ms) && Derivation(ms, systems)
    requires systems[|systems| - 1] == Current(ms, updates)
    requires AllWellFormed(Current(ms, updates)) && Key(ms[o]) !in updates
    ensures Extends(ms, systems, systems')
    ensures systems'[|systems'| - 1] == Current(ms, updates')
    ensures AllWellFormed(Current(ms, updates'))
    ensures updates' - {Key(ms[o])} == updates
    ensures Key(ms[o]) in updates' ==> Size(updates'[Key(ms[o])]) < Size(ms[o].expr)
    ensures NothingLeft(ms, o, |ms|, CurrentOf(ms[o], updates'), updates)
  {
    updates', systems' := updates, systems;
    var updated := ms[o].expr;
    assert Current(ms, updates)[o] == updated;
    while true
      invariant Rewriting(ms, o, updates, updates', systems, systems')
      invariant updated == CurrentOf(ms[o], updates')
      decreases Size(updated)
    {
      var again;
      again, updates', updated, systems' := RewriteOnce(ms, o, updates, updates', updated, systems, systems');
      if !again {
        break;
      }
    }
  }

  /** One turn: a pass, and its result noted unless nothing has changed. */
  method RewriteOnce(ms: seq<Metric>, o: nat, updates: Updates, before: Updates, expr: Expr,
                     ghost systems: seq<seq<Expr>>, ghost reached: seq<seq<Expr>>)
      returns (again: bool, updates': Updates, updated: Expr, ghost systems': seq<seq<Expr>>)
    requires o < |ms| && DistinctNames(ms) && AllWellFormed(Current(ms, updates)) && Key(ms[o]) !in updates
    requires Rewriting(ms, o, updates, before, systems, reached) && expr == CurrentOf(ms[o], before)
    ensures Rewriting(ms, o, updates, updates', systems, systems') && updated == CurrentOf(ms[o], updates')
    ensures again ==> Size(updated) < Size(expr)
    ensures !again ==> NothingLeft(ms, o, |ms|, updated, updates)
  {
    updated, systems' := Pass(ms, o, updates, expr, reached);
    updates' := before;
    assert WellFormed(Current(ms, updates)[o]);
    EqualsIsEquality(updated, ms[o].expr);
    if Equals(updated, ms[o].expr) {
      return false, updates', updated, systems';
    }
    if Key(ms[o]) in updates' {
      EqualsIsEquality(updated, updates'[Key(ms[o])]);
      if Equals(updated, updates'[Key(ms[o])]) {
        return false, updates', updated, systems';
      }
    }
    again := true;
    updates' := updates'[Key(ms[o]) := updated];
  }

  /** The updates concern the first n metrics, and make each of those smaller. */
  ghost predicate UpTo(ms: seq<Metric>, updates: Updates, n: nat)
    requires n <= |ms|
  {
    && (forall k :: n <= k < |ms| ==> Key(ms[k]) !in updates)
    && (forall k :: 0 <= k < |ms| && Key(ms[k]) in updates ==> Size(updates[Key(ms[k])]) < Size(ms[k].expr))
  }

  /** Metric k holds no expression of another metric of its pmu: neither the final one of an earlier metric nor the
      original one of a later one. */
  ghost predicate Settled(ms: seq<Metric>, updates: Updates, k: nat)
    requires k < |ms|
  {
    forall i :: 0 <= i < |ms| && MayUse(ms, k, i) ==>
      Exhausted(CurrentOf(ms[k], updates), if i < k then CurrentOf(ms[i], updates) else ms[i].expr)
  }

  ghost predicate AllSettled(ms: seq<Metric>, updates: Updates, n: nat)
    requires n <= |ms|
  {
    forall k :: 0 <= k < n ==> Settled(ms, updates, k)
  }

  lemma {:induction false} SettledNext(ms: seq<Metric>, updates: Updates, updates': Updates, o: nat)
    requires DistinctNames(ms) && o < |ms| && UpTo(ms, updates, o) && updates' - {Key(ms[o])} == updates
    requires AllSettled(ms, updates, o) && NothingLeft(ms, o, |ms|, CurrentOf(ms[o], updates'), updates)
    ensures AllSettled(ms, updates', o + 1)
  {
    forall k | 0 <= k < |ms| && k != o ensures CurrentOf(ms[k], updates') == CurrentOf(ms[k], updates) {
      assert Key(ms[k]) in updates' <==> Key(ms[k]) in updates;
    }
    forall k | 0 <= k < o ensures Settled(ms, updates', k) { assert Settled(ms, updates, k); }
    assert Settled(ms, updates', o);
  }

  method RewriteMetricsInTermsOfOthers(ms: seq<Metric>) returns (updates: Updates, ghost systems: seq<seq<Expr>>)
    requires DistinctNames(ms)
    requires AllWellFormed(Current(ms, map[]))
    // the result is reached by permitted substitutions from the original system
    ensures Derivation(ms, systems) && systems[0] == Current(ms, map[])
    ensures systems[|systems| - 1] == Current(ms, updates)
    // what is returned are exactly the metrics that changed, and they got smaller
    ensures forall k :: 0 <= k < |ms| ==>
              (Key(ms[k]) in updates <==> CurrentOf(ms[k], updates) != ms[k].expr)
              && (Key(ms[k]) in updates ==> Size(updates[Key(ms[k])]) < Size(ms[k].expr))
    // no expression still contains the final expression of an earlier metric or the original one of a later metric
    ensures AllSettled(ms, updates, |ms|)
  {
    updates := map[];
    systems := [Current(ms, updates)];
    for o := 0 to |ms|
      invariant Derivation(ms, systems) && systems[0] == Current(ms, map[])
      invariant systems[|systems| - 1] == Current(ms, updates)
      invariant AllWellFormed(Current(ms, updates))
      invariant UpTo(ms, updates, o) && AllSettled(ms, updates, o)
    {
      ghost var before := updates;
      updates, systems := RewriteOne(ms, o, updates, systems);
      SettledNext(ms, before, updates, o);
    }
  }
}
