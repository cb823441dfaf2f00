/** The string table of the generated event tables (BigCString, source/pmu-events/jevents.py): all
    strings in one, a string that another one ends with sharing its end.  The strings of a table are texts of
    C string literals; the big string is what the compiler makes of those emitted. */
module StringTable {
  import opened Common
  import opened CText
  import opened Sorting

  // ---------------------------------------------------------------- strings in order

  predicate Leq(a: string, b: string) {
    a == "" || (b != "" && (a[0] < b[0] || (a[0] == b[0] && Leq(a[1..], b[1..]))))
  }

  lemma {:induction false} LeqTotal(a: string, b: string)
    ensures Leq(a, b) || Leq(b, a)
    ensures Leq(a, b) && Leq(b, a) ==> a == b
  {
    if a != "" && b != "" {
      LeqTotal(a[1..], b[1..]);
      assert a == [a[0]] + a[1..] && b == [b[0]] + b[1..];
    }
  }

  lemma {:induction false} LeqTransitive(a: string, b: string, c: string)
    requires Leq(a, b) && Leq(b, c)
    ensures Leq(a, c)
  {
    if a != "" && a[0] == b[0] && b[0] == c[0] {
      LeqTransitive(a[1..], b[1..], c[1..]);
    }
  }

  lemma {:induction false} LeqOrders()
    ensures TotalOrder(Leq)
  {
    forall a, b ensures Leq(a, b) || Leq(b, a) { LeqTotal(a, b); }
    forall a, b | Leq(a, b) && Leq(b, a) ensures a == b { LeqTotal(a, b); }
    forall a, b, c | Leq(a, b) && Leq(b, c) ensures Leq(a, c) { LeqTransitive(a, b, c); }
  }

  lemma {:induction false} PrefixBelow(a: string, b: string)
    requires a <= b
    ensures Leq(a, b)
  {
    if a != "" {
      PrefixBelow(a[1..], b[1..]);
    }
  }

  /** Whatever lies in order between a and an extension of a is an extension of a. */
  lemma {:induction false} ExtensionsContiguous(a: string, b: string, c: string)
    requires Leq(a, b) && Leq(b, c) && a <= c
    ensures a <= b
  {
    if a != "" {
      ExtensionsContiguous(a[1..], b[1..], c[1..]);
      assert a == [a[0]] + a[1..] && b == [b[0]] + b[1..];
    }
  }

  // ---------------------------------------------------------------- reversal

  function Reverse(s: string): (r: string)
    ensures |r| == |s|
    ensures forall i :: 0 <= i < |s| ==> r[i] == s[|s| - 1 - i]
  {
    if s == "" then "" else Reverse(s[1..]) + [s[0]]
  }

  lemma {:induction false} ReverseTwice(s: string)
    ensures Reverse(Reverse(s)) == s
  {
  }

  lemma {:induction false} ReverseInjective(s: string, t: string)
    requires Reverse(s) == Reverse(t)
    ensures s == t
  {
    ReverseTwice(s);
    ReverseTwice(t);
  }

  lemma {:induction false} SuffixIsPrefixReversed(s: string, t: string)
    ensures IsSuffix(s, t) <==> Reverse(s) <= Reverse(t)
  {
    var (x, y) := (Reverse(s), Reverse(t));
    if IsSuffix(s, t) {
      forall i | 0 <= i < |s| ensures x[i] == y[i] {
        assert s[|s| - 1 - i] == t[|t| - |s| ..][|s| - 1 - i];
      }
    }
    if x <= y {
      forall i | 0 <= i < |s| ensures s[i] == t[|t| - |s| + i] {
        assert x[|s| - 1 - i] == y[|s| - 1 - i];
      }
    }
  }

  // ---------------------------------------------------------------- folding

  /** The position of the last string, in the run after pos, that extends the one at pos. */
  function Best(sorted: seq<string>, pos: nat, check: nat): (best: nat)
    requires pos < check <= |sorted|
    ensures pos <= best < |sorted|
    decreases |sorted| - check
  {
    if check < |sorted| && sorted[pos] <= sorted[check] then Best(sorted, pos, check + 1) else check - 1
  }

  lemma {:induction false} BestExtends(sorted: seq<string>, pos: nat, check: nat)
    requires pos < check <= |sorted|
    ensures var best := Best(sorted, pos, check); check <= best ==> sorted[pos] <= sorted[best]
    ensures var best := Best(sorted, pos, check); best + 1 < |sorted| ==> !(sorted[pos] <= sorted[best + 1])
    decreases |sorted| - check
  {
    if check < |sorted| && sorted[pos] <= sorted[check] {
      BestExtends(sorted, pos, check + 1);
    }
  }

  /** The extensions of a string follow it without a gap. */
  ghost predicate Contiguous(sorted: seq<string>) {
    forall i, j, k :: 0 <= i < j < k < |sorted| && sorted[i] <= sorted[k] ==> sorted[i] <= sorted[j]
  }

  lemma {:induction false} SortedContiguous(sorted: seq<string>)
    requires Sorted(Leq, sorted)
    ensures Contiguous(sorted)
  {
    forall i, j, k | 0 <= i < j < k < |sorted| && sorted[i] <= sorted[k] ensures sorted[i] <= sorted[j] {
      ExtensionsContiguous(sorted[i], sorted[j], sorted[k]);
    }
  }

  /** The run of extensions takes in every extension there is. */
  lemma {:induction false} BestTakesAll(sorted: seq<string>, pos: nat, k: nat)
    requires Contiguous(sorted) && pos < k < |sorted| && sorted[pos] <= sorted[k]
    ensures k <= Best(sorted, pos, pos + 1)
  {
    BestExtends(sorted, pos, pos + 1);
  }

  /** What a string is folded into is not itself folded. */
  lemma {:induction false} BestIsMaximal(sorted: seq<string>, pos: nat)
    requires Contiguous(sorted) && pos < |sorted|
    ensures var best := Best(sorted, pos, pos + 1); Best(sorted, best, best + 1) == best
  {
    var best := Best(sorted, pos, pos + 1);
    var next := Best(sorted, best, best + 1);
    BestExtends(sorted, pos, pos + 1);
    BestExtends(sorted, best, best + 1);
    if best < next {
      BestTakesAll(sorted, pos, next);
    }
  }

  type Folds = map<string, string>

  /** Another string of the table ends with s. */
  ghost predicate EndsAnother(strings: set<string>, s: string) {
    exists t :: t in strings && t != s && IsSuffix(s, t)
  }

  /** The strings of the table that another one ends with. */
  ghost function Endings(strings: set<string>): set<string> {
    set s | s in strings && EndsAnother(strings, s)
  }

  /** Of the strings of the table that end with s, t is the one whose reverse is the last in order. */
  ghost predicate IsTarget(strings: set<string>, s: string, t: string) {
    && t in strings && IsSuffix(s, t)
    && forall u :: u in strings && IsSuffix(s, u) ==> Leq(Reverse(u), Reverse(t))
  }

  /** Each is folded into that string, which is not folded itself. */
  ghost predicate FoldTargets(strings: set<string>, folded: Folds) {
    forall s :: s in folded ==> IsTarget(strings, s, folded[s]) && folded[s] !in folded
  }

  ghost predicate Folding(strings: set<string>, folded: Folds) {
    folded.Keys == Endings(strings) && FoldTargets(strings, folded)
  }

  /** The inner loop: scans on from pos as long as the strings extend the one at pos. */
  method LastExtension(sorted: seq<string>, pos: nat) returns (best: nat)
    requires pos < |sorted|
    ensures best == Best(sorted, pos, pos + 1)
  {
    best := pos;
    var check := pos + 1;
    while check < |sorted|
      invariant pos < check <= |sorted|
      invariant best == check - 1
      invariant Best(sorted, pos, pos + 1) == Best(sorted, pos, check)
    {
      if sorted[pos] <= sorted[check] {
        best := check;
      } else {
        break;
      }
      check := check + 1;
    }
  }

  /** String k of the list is folded into its best extension if it has one. */
  ghost predicate FoldOk(sorted: seq<string>, folded: Folds, k: nat)
    requires k < |sorted|
  {
    var best := Best(sorted, k, k + 1);
    var s := Reverse(sorted[k]);
    (s in folded <==> best != k) && (s in folded ==> folded[s] == Reverse(sorted[best]))
  }

  /** The first n strings of the list have been looked at. */
  ghost predicate FoldedByBest(sorted: seq<string>, folded: Folds, n: nat)
    requires n <= |sorted|
  {
    && (forall k :: 0 <= k < n ==> FoldOk(sorted, folded, k))
    && (forall s :: s in folded ==> exists k :: 0 <= k < n && s == Reverse(sorted[k]))
  }

  function WithFold(sorted: seq<string>, folded: Folds, n: nat): Folds
    requires n < |sorted|
  {
    var best := Best(sorted, n, n + 1);
    if n == best then folded else folded[Reverse(sorted[n]) := Reverse(sorted[best])]
  }

  lemma {:induction false} FoldNext(sorted: seq<string>, folded: Folds, n: nat)
    requires NoDuplicates(sorted) && n < |sorted| && FoldedByBest(sorted, folded, n)
    ensures FoldedByBest(sorted, WithFold(sorted, folded, n), n + 1)
  {
    var next := WithFold(sorted, folded, n);
    ReversesDistinct(sorted, n);
    forall k | 0 <= k < n ensures FoldOk(sorted, next, k) {
      assert FoldOk(sorted, folded, k);
    }
    FoldNew(sorted, folded, n);
    forall s | s in next ensures exists k :: 0 <= k < n + 1 && s == Reverse(sorted[k]) {
      assert s in folded || s == Reverse(sorted[n]);
    }
  }

  lemma {:induction false} FoldNew(sorted: seq<string>, folded: Folds, n: nat)
    requires NoDuplicates(sorted) && n < |sorted| && FoldedByBest(sorted, folded, n)
    ensures FoldOk(sorted, WithFold(sorted, folded, n), n)
  {
    ReversesDistinct(sorted, n);
    assert Reverse(sorted[n]) !in folded;
  }

  lemma {:induction false} ReversesDistinct(sorted: seq<string>, n: nat)
    requires NoDuplicates(sorted) && n < |sorted|
    ensures forall k :: 0 <= k < n ==> Reverse(sorted[k]) != Reverse(sorted[n])
  {
    forall k | 0 <= k < n ensures Reverse(sorted[k]) != Reverse(sorted[n]) {
      if Reverse(sorted[k]) == Reverse(sorted[n]) {
        ReverseInjective(sorted[k], sorted[n]);
      }
    }
  }

  method FindFolds(sorted: seq<string>, ghost strings: set<string>) returns (folded: Folds)
    requires SortedListing(Leq, set s | s in strings :: Reverse(s), sorted)
    ensures Folding(strings, folded)
  {
    folded := map[];
    for pos := 0 to |sorted|
      invariant FoldedByBest(sorted, folded, pos)
    {
      var best := LastExtension(sorted, pos);
      FoldNext(sorted, folded, pos);
      if pos != best {
        folded := folded[Reverse(sorted[pos]) := Reverse(sorted[best])];
      }
    }
    FoldsAreFolding(sorted, strings, folded);
  }

  /** A string of the table stands, reversed, at some position of the sorted list. */
  lemma {:induction false} PositionOf(sorted: seq<string>, strings: set<string>, s: string) returns (k: nat)
    requires SortedListing(Leq, set x | x in strings :: Reverse(x), sorted) && s in strings
    ensures k < |sorted| && sorted[k] == Reverse(s) && Reverse(sorted[k]) == s
  {
    assert Reverse(s) in sorted;
    k :| 0 <= k < |sorted| && sorted[k] == Reverse(s);
    ReverseTwice(s);
  }

  lemma {:induction false} StringAt(sorted: seq<string>, strings: set<string>, k: nat)
    requires SortedListing(Leq, set x | x in strings :: Reverse(x), sorted) && k < |sorted|
    ensures Reverse(sorted[k]) in strings && Reverse(Reverse(sorted[k])) == sorted[k]
  {
    assert sorted[k] in sorted;
    var x :| x in strings && Reverse(x) == sorted[k];
    ReverseTwice(x);
  }

  lemma {:induction false} FoldsAreFolding(sorted: seq<string>, strings: set<string>, folded: Folds)
    requires SortedListing(Leq, set s | s in strings :: Reverse(s), sorted) && FoldedByBest(sorted, folded, |sorted|)
    ensures Folding(strings, folded)
  {
    forall s | s in folded
      ensures s in strings && IsTarget(strings, s, folded[s]) && folded[s] != s && folded[s] !in folded
    {
      var k :| 0 <= k < |sorted| && s == Reverse(sorted[k]);
      FoldTarget(sorted, strings, folded, k);
      assert FoldOk(sorted, folded, k);
      forall u | u in strings && IsSuffix(s, u) ensures Leq(Reverse(u), Reverse(folded[s])) {
        TargetIsLast(sorted, strings, folded, k, u);
      }
    }
    forall s, t | s in strings && t in strings && t != s && IsSuffix(s, t) ensures s in folded.Keys {
      SuffixIsFolded(sorted, strings, folded, s, t);
    }
  }

  lemma {:induction false} SuffixIsFolded(sorted: seq<string>, strings: set<string>, folded: Folds, s: string, t: string)
    requires SortedListing(Leq, set x | x in strings :: Reverse(x), sorted) && FoldedByBest(sorted, folded, |sorted|)
    requires s in strings && t in strings && t != s && IsSuffix(s, t)
    ensures s in folded
  {
    var k := PositionOf(sorted, strings, s);
    var m := PositionOf(sorted, strings, t);
    SuffixIsPrefixReversed(s, t);
    if m < k {
      PrefixBelow(sorted[k], sorted[m]);
      assert Leq(sorted[m], sorted[k]);
      LeqTotal(sorted[m], sorted[k]);
      ReverseInjective(s, t);
      assert false;
    }
    assert k != m;
    SortedContiguous(sorted);
    BestTakesAll(sorted, k, m);
    assert FoldOk(sorted, folded, k);
  }

  lemma {:induction false} FoldTarget(sorted: seq<string>, strings: set<string>, folded: Folds, k: nat)
    requires SortedListing(Leq, set s | s in strings :: Reverse(s), sorted) && FoldedByBest(sorted, folded, |sorted|)
    requires k < |sorted| && Reverse(sorted[k]) in folded
    ensures var s := Reverse(sorted[k]);
            s in strings && folded[s] in strings && folded[s] != s && IsSuffix(s, folded[s]) && folded[s] !in folded
  {
    var s := Reverse(sorted[k]);
    var best := Best(sorted, k, k + 1);
    assert FoldOk(sorted, folded, k);
    StringAt(sorted, strings, k);
    StringAt(sorted, strings, best);
    BestExtends(sorted, k, k + 1);
    assert sorted[k] <= sorted[best];
    SuffixIsPrefixReversed(s, folded[s]);
    SortedContiguous(sorted);
    BestIsMaximal(sorted, k);
    assert FoldOk(sorted, folded, best);
    assert sorted[best] != sorted[k];
  }

  /** The best extension is the last in order. */
  lemma {:induction false} BestIsLast(sorted: seq<string>, k: nat, m: nat)
    requires Sorted(Leq, sorted) && k < |sorted| && m < |sorted| && sorted[k] <= sorted[m]
    ensures Leq(sorted[m], sorted[Best(sorted, k, k + 1)])
  {
    SortedContiguous(sorted);
    if k < m {
      BestTakesAll(sorted, k, m);
    }
    LeqTotal(sorted[m], sorted[m]);
  }

  lemma {:induction false} TargetIsLast(sorted: seq<string>, strings: set<string>, folded: Folds, k: nat, u: string)
    requires SortedListing(Leq, set s | s in strings :: Reverse(s), sorted)
    requires k < |sorted| && FoldOk(sorted, folded, k)
    requires Reverse(sorted[k]) in folded && u in strings && IsSuffix(Reverse(sorted[k]), u)
    ensures Leq(Reverse(u), Reverse(folded[Reverse(sorted[k])]))
  {
    var m := PositionOf(sorted, strings, u);
    SuffixIsPrefixReversed(Reverse(sorted[k]), u);
    ReverseTwice(sorted[k]);
    ReverseTwice(sorted[Best(sorted, k, k + 1)]);
    BestIsLast(sorted, k, m);
  }

  // ---------------------------------------------------------------- the table

  /** s stands in big at off. */
  predicate At(big: string, off: int, s: string) {
    0 <= off && off + |s| <= |big| && big[off..off + |s|] == s
  }

  lemma {:induction false} AtSuffix(big: string, off: nat, s: string, t: string)
    requires At(big, off, t) && IsSuffix(s, t)
    ensures At(big, off + |t| - |s|, s)
  {
    assert big[off + |t| - |s|..off + |t|] == t[|t| - |s|..];
  }

  /** Two strings that stand in big with a common end: one ends with the other. */
  lemma {:induction false} CommonEnd(big: string, off: int, s: string, t: string)
    requires At(big, off, t) && At(big, off + |t| - |s|, s)
    ensures if |s| <= |t| then IsSuffix(s, t) else IsSuffix(t, s)
  {
    var end := off + |t|;
    if |s| <= |t| {
      assert t[|t| - |s|..] == big[end - |s|..end];
    } else {
      assert s[|s| - |t|..] == big[end - |t|..end];
    }
  }

  /** s is written as the program writes strings, and c_len gives its length. */
  predicate Measured(s: string) { Escape(Unescape(s)) == s && Misleading(Unescape(s)) == 0 }

  ghost predicate AllMeasured(strings: set<string>) { forall s :: s in strings ==> Measured(s) }

  /** The text s that ends t does not begin inside an escape of t. */
  ghost predicate Aligned(s: string, t: string) { Begins(Unescape(t), |t| - |s|) }

  /** No string is folded into another at a place inside an escape. */
  ghost predicate FoldsAligned(strings: set<string>) {
    forall s, t :: s in strings && IsTarget(strings, s, t) ==> Aligned(s, t)
  }

  /** It is enough that no string of the table begins inside an escape of another. */
  lemma {:induction false} NoneInside(strings: set<string>)
    requires forall s, t :: s in strings && t in strings && IsSuffix(s, t) ==> Aligned(s, t)
    ensures FoldsAligned(strings)
  {
    forall s, t | s in strings && IsTarget(strings, s, t) ensures Aligned(s, t) {
      assert t in strings && IsSuffix(s, t);
    }
  }

  /** A table that is not: the text of "nx" ends that of a newline and "x". */
  lemma {:induction false} FoldInsideEscape()
    ensures var strings := {Escape("nx"), Escape("\nx")};
            AllMeasured(strings) && !FoldsAligned(strings)
  {
    var (a, b) := ("nx", "\nx");
    var (s, t) := (Escape(a), Escape(b));
    var strings := {s, t};
    UnescapeEscape(a);
    UnescapeEscape(b);
    EscapedX();
    assert Misleading("x") == 0 && a[1..] == "x" && b[1..] == "x";
    assert s == "nx" && t == "\\nx" && IsSuffix(s, t);
    SuffixIsPrefixReversed(s, t);
    PrefixBelow(Reverse(s), Reverse(t));
    LeqTotal(Reverse(t), Reverse(t));
    assert IsTarget(strings, s, t);
    EndsByText(a, b);
    assert !Aligned(s, t);
  }

  lemma {:induction false} EscapedX()
    ensures Escape("x") == "x" && Escape("nx") == "nx" && Escape("\nx") == "\\nx"
  {
    assert "x"[1..] == "" && "nx"[1..] == "x" && "\nx"[1..] == "x";
  }

  /** The strings of a list without those in skip. */
  ghost function Kept(skip: set<string>, order: seq<string>): seq<string> {
    if order == [] then []
    else
      var last := order[|order| - 1];
      Kept(skip, order[..|order| - 1]) + if last in skip then [] else [last]
  }

  /** What the compiler makes of string literals one after the other. */
  function Compiled(ss: seq<string>): string {
    if ss == [] then "" else Compiled(ss[..|ss| - 1]) + Unescape(ss[|ss| - 1])
  }

  lemma {:induction false} KeptMembers(skip: set<string>, order: seq<string>, s: string)
    ensures s in Kept(skip, order) <==> s in order && s !in skip
  {
    if order != [] {
      var init := order[..|order| - 1];
      KeptMembers(skip, init, s);
      assert order == init + [order[|order| - 1]];
    }
  }

  /** What is emitted is as little as sharing of ends allows: no emitted string ends another string of the table. */
  lemma {:induction false} EmittedEndNone(strings: set<string>, order: seq<string>, s: string, t: string)
    requires forall x :: x in order <==> x in strings
    requires s in Kept(Endings(strings), order) && t in strings && s != t
    ensures !IsSuffix(s, t)
  {
    KeptMembers(Endings(strings), order, s);
    assert !EndsAnother(strings, s);
  }

  /** The order of emission: event strings before metric strings, each kind as inserted. */
  predicate KeyLeq(metrics: set<string>, insertPoint: map<string, nat>, a: string, b: string) {
    var (i, j) := (if a in insertPoint then insertPoint[a] else 0, if b in insertPoint then insertPoint[b] else 0);
    if a in metrics <==> b in metrics then i < j || (i == j && Leq(a, b)) else b in metrics
  }

  /** No metric string before an event string, and of one kind the one inserted earlier first. */
  ghost predicate EmittedInOrder(metrics: set<string>, insertPoint: map<string, nat>, order: seq<string>) {
    forall i, j :: 0 <= i < j < |order| && order[i] in insertPoint && order[j] in insertPoint ==>
      && (order[i] in metrics ==> order[j] in metrics)
      && ((order[i] in metrics <==> order[j] in metrics) ==> insertPoint[order[i]] <= insertPoint[order[j]])
  }

  lemma {:induction false} SortedIsInOrder(metrics: set<string>, insertPoint: map<string, nat>, order: seq<string>)
    requires Sorted(KeyOrder(metrics, insertPoint), order)
    ensures EmittedInOrder(metrics, insertPoint, order)
  {
    forall i, j | 0 <= i < j < |order| ensures KeyLeq(metrics, insertPoint, order[i], order[j]) {
      assert KeyOrder(metrics, insertPoint)(order[i], order[j]);
    }
  }

  function KeyOrder(metrics: set<string>, insertPoint: map<string, nat>): (string, string) -> bool {
    (a, b) => KeyLeq(metrics, insertPoint, a, b)
  }

  lemma {:induction false} KeyOrders(metrics: set<string>, insertPoint: map<string, nat>)
    ensures TotalOrder(KeyOrder(metrics, insertPoint))
  {
    LeqOrders();
    forall a, b ensures Leq(a, b) || Leq(b, a) { LeqTotal(a, b); }
    forall a, b | Leq(a, b) && Leq(b, a) ensures a == b { LeqTotal(a, b); }
    forall a, b, c | Leq(a, b) && Leq(b, c) ensures Leq(a, c) { LeqTransitive(a, b, c); }
  }

  class BigCString {
    var strings: set<string>
    var metrics: set<string>
    var insertNumber: nat
    var insertPoint: map<string, nat>
    var offsets: map<string, int>
    var bigString: seq<string>

    ghost predicate Valid()
      reads this
    {
      && insertPoint.Keys == strings
      && metrics <= strings
      && (forall s :: s in insertPoint ==> insertPoint[s] < insertNumber)
      && (forall s, t :: s in insertPoint && t in insertPoint && s != t ==> insertPoint[s] != insertPoint[t])
    }

    constructor ()
      ensures Valid() && strings == {} && metrics == {}
    {
      strings, metrics, insertNumber, insertPoint, offsets, bigString := {}, {}, 0, map[], map[], [];
    }

    /** A string keeps the place, and the kind, of its first insertion. */
    method Add(s: string, metric: bool)
      requires Valid()
      modifies this`strings, this`metrics, this`insertNumber, this`insertPoint
      ensures Valid() && strings == old(strings) + {s}
      ensures metrics == if metric && s !in old(strings) then old(metrics) + {s} else old(metrics)
      ensures forall t :: t in old(strings) ==> insertPoint[t] == old(insertPoint[t])
      ensures s !in old(strings) ==> forall t :: t in old(strings) ==> insertPoint[t] < insertPoint[s]
    {
      if s !in strings {
        strings := strings + {s};
        insertPoint := insertPoint[s := insertNumber];
        insertNumber := insertNumber + 1;
        if metric {
          metrics := metrics + {s};
        }
      }
    }

    /** The table is the strings that no other one ends with, in order.  Of strings that c_len measures right, every
        one is found at its offset if and only if none is folded into another at a place inside an escape. */
    method Compute() returns (ghost order: seq<string>)
      requires Valid()
      modifies this`offsets, this`bigString
      ensures Valid()
      ensures SortedListing(KeyOrder(metrics, insertPoint), strings, order)
      ensures EmittedInOrder(metrics, insertPoint, order)
      ensures bigString == Kept(Endings(strings), order)
      ensures offsets.Keys == strings
      ensures AllMeasured(strings) ==> (AllAt(Compiled(bigString), offsets) <==> FoldsAligned(strings))
    {
      var folded := ComputeFolds(strings);
      var emission := EmissionOrder(strings, metrics, insertPoint);
      order := emission;
      bigString, offsets := Place(strings, emission, folded);
    }
  }

  method Place(ghost strings: set<string>, emission: seq<string>, folded: Folds)
      returns (pieces: seq<string>, offsets: map<string, int>)
    requires Folding(strings, folded) && forall s :: s in emission <==> s in strings
    ensures pieces == Kept(Endings(strings), emission)
    ensures offsets.Keys == strings
    ensures AllMeasured(strings) ==> (AllAt(Compiled(pieces), offsets) <==> FoldsAligned(strings))
  {
    var emitted;
    pieces, emitted := Emit(emission, folded);
    EmittedKeys(strings, emission, folded);
    TargetsEmitted(strings, emitted, folded);
    offsets := FoldOffsets(strings, emitted, folded);
    if AllMeasured(strings) {
      KeptMeasured(strings, emission, folded);
      EmittedReadBack(pieces);
      OffsetsAtEnds(strings, emitted, folded);
      ReadBackIffAligned(strings, Compiled(pieces), emitted, folded, offsets);
    }
  }

  lemma {:induction false} OffsetsAtEnds(strings: set<string>, emitted: map<string, int>, folded: Folds)
    requires AllMeasured(strings) && folded.Keys <= strings && emitted.Keys == strings - folded.Keys
    requires forall s :: s in folded ==> folded[s] in emitted
    ensures forall s :: s in folded ==> AtEnd(emitted, folded, AllOffsets(emitted, folded), s)
  {
    forall s | s in folded ensures AtEnd(emitted, folded, AllOffsets(emitted, folded), s) {
      OffsetAtEnd(emitted, folded, s);
    }
  }

  lemma {:induction false} EmittedKeys(strings: set<string>, emission: seq<string>, folded: Folds)
    requires forall s :: s in emission <==> s in strings
    ensures OffsetsOf(Kept(folded.Keys, emission)).Keys == strings - folded.Keys
  {
    var pieces := Kept(folded.Keys, emission);
    OffsetsOfKeys(pieces);
    forall s ensures s in OffsetsOf(pieces).Keys <==> s in strings - folded.Keys {
      KeptMembers(folded.Keys, emission, s);
    }
  }

  lemma {:induction false} KeptMeasured(strings: set<string>, emission: seq<string>, folded: Folds)
    requires AllMeasured(strings) && forall s :: s in emission <==> s in strings
    ensures forall s :: s in Kept(folded.Keys, emission) ==> Measured(s)
  {
    forall s | s in Kept(folded.Keys, emission) ensures Measured(s) {
      KeptMembers(folded.Keys, emission, s);
    }
  }

  /** Sorts the reversed strings and folds each into its best extension. */
  method ComputeFolds(strings: set<string>) returns (folded: Folds)
    ensures Folding(strings, folded)
  {
    LeqOrders();
    var reversed := set s | s in strings :: Reverse(s);
    var sorted := SortSet(Leq, reversed);
    folded := FindFolds(sorted, strings);
  }

  method EmissionOrder(strings: set<string>, metrics: set<string>, insertPoint: map<string, nat>)
      returns (order: seq<string>)
    ensures SortedListing(KeyOrder(metrics, insertPoint), strings, order)
    ensures EmittedInOrder(metrics, insertPoint, order)
  {
    KeyOrders(metrics, insertPoint);
    order := SortSet(KeyOrder(metrics, insertPoint), strings);
    SortedIsInOrder(metrics, insertPoint, order);
  }

  /** Every string of the map stands in big at its offset. */
  predicate AllAt(big: string, offsets: map<string, int>) {
    forall s :: s in offsets ==> At(big, offsets[s], Unescape(s))
  }

  function TotalLen(ss: seq<string>): int {
    if ss == [] then 0 else TotalLen(ss[..|ss| - 1]) + CLen(ss[|ss| - 1])
  }

  /** Each of the strings stands where those before it end. */
  function OffsetsOf(ss: seq<string>): map<string, int> {
    if ss == [] then map[]
    else OffsetsOf(ss[..|ss| - 1])[ss[|ss| - 1] := TotalLen(ss[..|ss| - 1])]
  }

  /** The emission loop: the unfolded strings one after the other. */
  method Emit(emission: seq<string>, folded: Folds) returns (pieces: seq<string>, offsets: map<string, int>)
    ensures pieces == Kept(folded.Keys, emission)
    ensures offsets == OffsetsOf(pieces)
  {
    pieces, offsets := [], map[];
    var bigOffset := 0;
    for i := 0 to |emission|
      invariant pieces == Kept(folded.Keys, emission[..i])
      invariant offsets == OffsetsOf(pieces) && bigOffset == TotalLen(pieces)
    {
      var s := emission[i];
      KeptNext(folded.Keys, emission, i);
      if s !in folded {
        OffsetsNext(pieces, s);
        offsets := offsets[s := bigOffset];
        pieces := pieces + [s];
        bigOffset := bigOffset + CLen(s);
      }
    }
    assert emission[..|emission|] == emission;
  }

  lemma {:induction false} KeptNext(skip: set<string>, order: seq<string>, i: nat)
    requires i < |order|
    ensures Kept(skip, order[..i + 1]) == Kept(skip, order[..i]) + if order[i] in skip then [] else [order[i]]
  {
    assert order[..i + 1][..i] == order[..i];
  }

  lemma {:induction false} OffsetsNext(ss: seq<string>, s: string)
    ensures OffsetsOf(ss + [s]) == OffsetsOf(ss)[s := TotalLen(ss)]
    ensures TotalLen(ss + [s]) == TotalLen(ss) + CLen(s)
  {
    assert (ss + [s])[..|ss|] == ss;
  }

  lemma {:induction false} OffsetsOfKeys(ss: seq<string>)
    ensures forall s :: s in OffsetsOf(ss) <==> s in ss
  {
    if ss != [] {
      var init := ss[..|ss| - 1];
      OffsetsOfKeys(init);
      assert ss == init + [ss[|ss| - 1]];
    }
  }

  /** Strings that are measured right are found where they are taken to be. */
  lemma {:induction false} EmittedReadBack(ss: seq<string>)
    requires forall s :: s in ss ==> Measured(s)
    ensures TotalLen(ss) == |Compiled(ss)| && AllAt(Compiled(ss), OffsetsOf(ss))
  {
    if ss != [] {
      var (init, t) := (ss[..|ss| - 1], ss[|ss| - 1]);
      assert ss == init + [t];
      EmittedReadBack(init);
      MeasuredLen(t);
      AtAppend(Compiled(init), OffsetsOf(init), t);
    }
  }

  lemma {:induction false} MeasuredLen(s: string)
    requires Measured(s)
    ensures CLen(s) == |Unescape(s)|
  {
    CLenExact(Unescape(s));
  }

  lemma {:induction false} AtAppend(big: string, offsets: map<string, int>, t: string)
    requires AllAt(big, offsets)
    ensures AllAt(big + Unescape(t), offsets[t := |big|])
  {
    forall s | s in offsets ensures At(big + Unescape(t), offsets[s], Unescape(s)) {
      var (from, to) := (offsets[s], offsets[s] + |Unescape(s)|);
      assert (big + Unescape(t))[from..to] == big[from..to];
    }
  }

  /** Where a string folded into t is taken to be: at the end of t. */
  function EndOffset(off: int, s: string, t: string): int { off + CLen(t) - CLen(s) }

  /** Every string where it was emitted, or at the end of the string that it is folded into. */
  function AllOffsets(emitted: map<string, int>, folded: Folds): map<string, int> {
    map s | s in emitted.Keys + folded.Keys ::
      if s in emitted then emitted[s]
      else EndOffset(if folded[s] in emitted then emitted[folded[s]] else 0, s, folded[s])
  }

  /** The last loop: the offset of the string that a string is folded into is always known. */
  method FoldOffsets(ghost strings: set<string>, emitted: map<string, int>, folded: Folds)
      returns (offsets: map<string, int>)
    requires folded.Keys <= strings && emitted.Keys == strings - folded.Keys
    requires forall s :: s in folded ==> folded[s] in emitted
    ensures offsets == AllOffsets(emitted, folded)
  {
    offsets := emitted;
    var todo := folded.Keys;
    while todo != {}
      invariant todo <= folded.Keys
      invariant offsets.Keys == strings - todo
      invariant forall s :: s in emitted ==> offsets[s] == emitted[s]
      invariant forall s :: s in offsets ==> offsets[s] == AllOffsets(emitted, folded)[s]
      decreases |todo|
    {
      var s :| s in todo;
      offsets := offsets[s := EndOffset(offsets[folded[s]], s, folded[s])];
      todo := todo - {s};
    }
  }

  lemma {:induction false} TargetsEmitted(strings: set<string>, emitted: map<string, int>, folded: Folds)
    requires FoldTargets(strings, folded) && emitted.Keys == strings - folded.Keys
    ensures forall s :: s in folded ==> folded[s] in emitted && folded[s] in strings
  {
    forall s | s in folded ensures folded[s] in emitted && folded[s] in strings {
      assert IsTarget(strings, s, folded[s]);
    }
  }

  /** Where b stands in big, a string stands at its end exactly if b ends with it; unless it is longer than b. */
  lemma {:induction false} EndIffSuffix(big: string, off: int, a: string, b: string)
    requires At(big, off, b) && !(|b| < |a| && IsSuffix(b, a))
    ensures At(big, off + |b| - |a|, a) <==> IsSuffix(a, b)
  {
    if IsSuffix(a, b) {
      AtSuffix(big, off, a, b);
    }
    if At(big, off + |b| - |a|, a) {
      CommonEnd(big, off, a, b);
    }
  }

  lemma {:induction false} SuffixOneWay(s: string, t: string)
    requires IsSuffix(s, t) && s != t
    ensures !IsSuffix(t, s)
  {
    assert t[0..] == t;
  }

  /** Where b stands, a string whose text s ends b's text t is at the end of b if and only if s does not begin inside
      an escape of t. */
  lemma {:induction false} FoldedReadsBack(big: string, off: int, at: int, s: string, t: string, a: string, b: string)
    ensures && s == Escape(a) && t == Escape(b) && IsSuffix(s, t) && s != t
            && At(big, off, b) && at == off + |b| - |a|
            ==> (At(big, at, a) <==> Begins(b, |t| - |s|))
  {
    EndsByText(a, b);
    EndsByText(b, a);
    if s == Escape(a) && t == Escape(b) && IsSuffix(s, t) && s != t && At(big, off, b) {
      SuffixOneWay(s, t);
      EndIffSuffix(big, off, a, b);
    }
  }

  lemma {:induction false} TargetUnique(strings: set<string>, s: string, t: string, u: string)
    requires IsTarget(strings, s, t) && IsTarget(strings, s, u)
    ensures t == u
  {
    LeqTotal(Reverse(t), Reverse(u));
    ReverseInjective(t, u);
  }

  /** A string that no other ends with is its own target. */
  lemma {:induction false} OwnTarget(strings: set<string>, s: string, t: string)
    requires IsTarget(strings, s, t) && !EndsAnother(strings, s)
    ensures t == s && Aligned(s, t)
  {
    assert t[0..] == t;
  }

  lemma {:induction false} FoldsAlignedByTarget(strings: set<string>, folded: Folds)
    requires Folding(strings, folded)
    ensures FoldsAligned(strings) <==> forall s :: s in folded ==> Aligned(s, folded[s])
  {
    if FoldsAligned(strings) {
      forall s | s in folded ensures Aligned(s, folded[s]) {
        assert s in Endings(strings) && IsTarget(strings, s, folded[s]);
      }
    }
    if forall s :: s in folded ==> Aligned(s, folded[s]) {
      forall s, t | s in strings && IsTarget(strings, s, t) ensures Aligned(s, t) {
        if s in folded {
          TargetUnique(strings, s, t, folded[s]);
        } else {
          assert s !in Endings(strings);
          OwnTarget(strings, s, t);
        }
      }
    }
  }

  /** A string folded into another is taken to stand at the end of it. */
  ghost predicate AtEnd(emitted: map<string, int>, folded: Folds, offsets: map<string, int>, s: string)
    requires s in folded
  {
    && folded[s] in emitted && s in offsets
    && offsets[s] == emitted[folded[s]] + |Unescape(folded[s])| - |Unescape(s)|
  }

  lemma {:induction false} OffsetAtEnd(emitted: map<string, int>, folded: Folds, s: string)
    requires s in folded && s !in emitted && folded[s] in emitted && Measured(s) && Measured(folded[s])
    ensures AtEnd(emitted, folded, AllOffsets(emitted, folded), s)
  {
    MeasuredLen(s);
    MeasuredLen(folded[s]);
  }

  lemma {:induction false} FoldedAt(big: string, off: int, at: int, s: string, t: string)
    requires At(big, off, Unescape(t)) && at == off + |Unescape(t)| - |Unescape(s)|
    requires Measured(s) && Measured(t) && IsSuffix(s, t) && s != t
    ensures At(big, at, Unescape(s)) <==> Aligned(s, t)
  {
    FoldedReadsBack(big, off, at, s, t, Unescape(s), Unescape(t));
  }

  /** Exactly when every string of a table is found at its offset. */
  lemma {:induction false} ReadBackIffAligned(strings: set<string>, big: string, emitted: map<string, int>,
                                              folded: Folds, offsets: map<string, int>)
    requires Folding(strings, folded) && AllMeasured(strings)
    requires emitted.Keys == strings - folded.Keys && AllAt(big, emitted) && offsets.Keys == strings
    requires forall s :: s in emitted ==> offsets[s] == emitted[s]
    requires forall s :: s in folded ==> AtEnd(emitted, folded, offsets, s)
    ensures AllAt(big, offsets) <==> FoldsAligned(strings)
  {
    FoldsAlignedByTarget(strings, folded);
    forall s | s in folded ensures At(big, offsets[s], Unescape(s)) <==> Aligned(s, folded[s]) {
      assert s in Endings(strings) && IsTarget(strings, s, folded[s]);
      assert AtEnd(emitted, folded, offsets, s);
      FoldedAt(big, emitted[folded[s]], offsets[s], s, folded[s]);
    }
    forall s | s in offsets && s !in folded ensures At(big, offsets[s], Unescape(s)) {
      assert s in emitted;
    }
  }
}
