/** What several modules use: optional values, writing into a sequence, and facts about products. */
module Common {
  datatype Option<+T> = None | Some(value: T)

  /** Assignment to the slice that starts at pos and is as long as d. */
  function Put<T>(buf: seq<T>, pos: nat, d: seq<T>): (r: seq<T>)
    requires pos + |d| <= |buf|
    ensures |r| == |buf|
    ensures forall i :: 0 <= i < |buf| ==> r[i] == if pos <= i < pos + |d| then d[i - pos] else buf[i]
  {
    buf[..pos] + d + buf[pos + |d|..]
  }

  function Zeros(n: nat): (z: seq<nat>)
    ensures |z| == n && forall i :: 0 <= i < n ==> z[i] == 0
  {
    seq<nat>(n, i => 0)
  }

  predicate NoDuplicates<T(==)>(s: seq<T>) {
    forall i, j :: 0 <= i < j < |s| ==> s[i] != s[j]
  }

  /** sub occurs in s. */
  predicate Contains(s: string, sub: string) {
    sub <= s || (s != "" && Contains(s[1..], sub))
  }

  /** sub stands in s from position i on. */
  predicate StandsAt(s: string, sub: string, i: int) { 0 <= i <= |s| - |sub| && s[i..i + |sub|] == sub }

  ghost predicate Within(s: string, sub: string) { exists i :: StandsAt(s, sub, i) }

  lemma {:induction false} StandsBehind(s: string, sub: string, i: int)
    requires s != ""
    ensures StandsAt(s[1..], sub, i) <==> i >= 0 && StandsAt(s, sub, i + 1)
  {
    if 0 <= i <= |s| - 1 - |sub| {
      assert s[1..][i..i + |sub|] == s[i + 1..i + 1 + |sub|];
    }
  }

  lemma {:induction false} ContainsAt(s: string, sub: string)
    ensures Contains(s, sub) <==> Within(s, sub)
  {
    if sub <= s {
      assert StandsAt(s, sub, 0);
    } else if s != "" {
      ContainsAt(s[1..], sub);
      if Contains(s[1..], sub) {
        var i :| StandsAt(s[1..], sub, i);
        StandsBehind(s, sub, i);
      }
      if Within(s, sub) {
        var i :| StandsAt(s, sub, i);
        StandsBehind(s, sub, i - 1);
      }
    }
  }

  lemma {:induction false} MulMonotone(a: nat, b: nat, k: nat)
    requires a <= b
    ensures a * k <= b * k
  {
    assert b * k == a * k + (b - a) * k;
  }
}
