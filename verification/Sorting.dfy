/** Sorting by a total order, as the language's own sorted() and list.sort() do for the code modelled here. */
module Sorting {
  import opened Common

  ghost predicate TotalOrder<T(!new)>(le: (T, T) -> bool) {
    && (forall a, b :: le(a, b) || le(b, a))
    && (forall a, b :: le(a, b) && le(b, a) ==> a == b)
    && (forall a, b, c :: le(a, b) && le(b, c) ==> le(a, c))
  }

  ghost predicate Sorted<T>(le: (T, T) -> bool, s: seq<T>) {
    forall i, j :: 0 <= i < j < |s| ==> le(s[i], s[j])
  }

  /** s lists each element of the set once, in order. */
  ghost predicate SortedListing<T(!new)>(le: (T, T) -> bool, elements: set<T>, s: seq<T>) {
    && Sorted(le, s)
    && NoDuplicates(s)
    && (forall x :: x in s <==> x in elements)
  }

  function Insert<T(!new)>(le: (T, T) -> bool, x: T, s: seq<T>): (r: seq<T>)
    ensures |r| == |s| + 1
    ensures forall y :: y in r <==> y == x || y in s
  {
    if s == [] || le(x, s[0]) then [x] + s
    else
      assert s == [s[0]] + s[1..];
      [s[0]] + Insert(le, x, s[1..])
  }

  lemma {:induction false} InsertSorted<T(!new)>(le: (T, T) -> bool, x: T, s: seq<T>)
    requires TotalOrder(le) && Sorted(le, s) && NoDuplicates(s) && x !in s
    ensures Sorted(le, Insert(le, x, s)) && NoDuplicates(Insert(le, x, s))
  {
    var r := Insert(le, x, s);
    if s == [] || le(x, s[0]) {
      forall j | 0 < j < |r| ensures le(r[0], r[j]) && r[0] != r[j] {
        assert r[j] == s[j - 1];
      }
    } else {
      InsertSorted(le, x, s[1..]);
      var t := Insert(le, x, s[1..]);
      assert r == [s[0]] + t;
      forall j | 0 < j < |r| ensures le(r[0], r[j]) && r[0] != r[j] {
        assert r[j] == t[j - 1] && t[j - 1] in t;
        if r[j] != x {
          var k :| 0 <= k < |s[1..]| && s[1..][k] == r[j];
          assert s[k + 1] == r[j];
        }
      }
    }
  }

  method SortSet<T(==, !new)>(le: (T, T) -> bool, elements: set<T>) returns (s: seq<T>)
    requires TotalOrder(le)
    ensures SortedListing(le, elements, s)
  {
    s := [];
    var todo := elements;
    while todo != {}
      invariant todo <= elements
      invariant SortedListing(le, elements - todo, s)
      decreases |todo|
    {
      var x :| x in todo;
      InsertSorted(le, x, s);
      s := Insert(le, x, s);
      todo := todo - {x};
    }
  }
}
