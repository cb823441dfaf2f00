/** The time-range algebra of parallel-perf.py (source/scripts/python/parallel-perf.py): intersecting,
    splitting and recombining lists of closed ranges, and the script's self test.  Times are integers;
    float division and rounding are taken as exact. */
module TimeRanges {
  datatype Range = Range(start: int, end: int)

  type Ranges = seq<Range>

  /** What ValidateTimeRanges accepts: no range is empty, and each starts after its predecessor ends. */
  predicate Valid(rs: Ranges) {
    rs == [] || (rs[0].start <= rs[0].end && (|rs| > 1 ==> rs[0].end < rs[1].start) && Valid(rs[1..]))
  }

  /** There is at least one instant between neighbours. */
  predicate Gapped(rs: Ranges) {
    |rs| < 2 || (rs[0].end + 1 < rs[1].start && Gapped(rs[1..]))
  }

  /** Valid but for ranges [t, t - 1], which are empty. */
  predicate Weak(rs: Ranges) {
    rs == [] || (rs[0].start <= rs[0].end + 1 && (|rs| > 1 ==> rs[0].end < rs[1].start) && Weak(rs[1..]))
  }

  lemma {:induction false} ValidIsWeak(rs: Ranges)
    requires Valid(rs)
    ensures Weak(rs)
  {
    if rs != [] { ValidIsWeak(rs[1..]); }
  }

  predicate In(x: int, r: Range) { r.start <= x <= r.end }

  predicate Covers(rs: Ranges, x: int) {
    rs != [] && (In(x, rs[0]) || Covers(rs[1..], x))
  }

  ghost predicate SameCover(a: Ranges, b: Ranges) {
    forall x :: Covers(a, x) <==> Covers(b, x)
  }

  predicate Inside(a: Range, b: Range) { b.start <= a.start && a.end <= b.end }

  lemma {:induction false} WeakFromStart(rs: Ranges, x: int)
    requires Weak(rs) && Covers(rs, x)
    ensures rs[0].start <= x
  {
    if !In(x, rs[0]) {
      WeakFromStart(rs[1..], x);
    }
  }

  lemma {:induction false} CoveredFromStart(rs: Ranges, x: int)
    requires Valid(rs) && Covers(rs, x)
    ensures rs[0].start <= x
  {
    ValidIsWeak(rs);
    WeakFromStart(rs, x);
  }

  // ---------------------------------------------------------------- intersection

  /** What intersecting leaves, computed from the front. */
  function Intersect(a: Ranges, ts: Ranges): Ranges
    decreases |a| + |ts|, if a != [] && ts != [] && a[0].start <= ts[0].end then 1 else 0
  {
    if a == [] || ts == [] then []
    else if a[0].end < ts[0].start then Intersect(a[1..], ts)
    else if a[0].start > ts[0].end then Intersect(a, ts[1..])
    else
      var start := if a[0].start < ts[0].start then ts[0].start else a[0].start;
      if a[0].end > ts[0].end then
        [Range(start, ts[0].end)] + Intersect([Range(ts[0].end + 1, a[0].end)] + a[1..], ts)
      else
        [Range(start, a[0].end)] + Intersect(a[1..], ts)
  }

  /** The remainder of a[0] after ts[0], as the loop inserts it. */
  function Rest(a: Ranges, ts: Ranges): Ranges
    requires a != [] && ts != []
  {
    [Range(ts[0].end + 1, a[0].end)] + a[1..]
  }

  lemma {:induction false} IntersectCovers(a: Ranges, ts: Ranges, x: int)
    requires Weak(a) && Valid(ts)
    ensures Covers(Intersect(a, ts), x) <==> Covers(a, x) && Covers(ts, x)
    decreases |a| + |ts|, if a != [] && ts != [] && a[0].start <= ts[0].end then 1 else 0
  {
    if a != [] && ts != [] {
      if Covers(a, x) { WeakFromStart(a, x); }
      if Covers(ts, x) { CoveredFromStart(ts, x); }
      if Covers(a[1..], x) { WeakFromStart(a[1..], x); }
      if Covers(ts[1..], x) { CoveredFromStart(ts[1..], x); }
      if a[0].end < ts[0].start {
        IntersectCovers(a[1..], ts, x);
      } else if a[0].start > ts[0].end {
        IntersectCovers(a, ts[1..], x);
      } else if a[0].end > ts[0].end {
        var rest := Rest(a, ts);
        assert rest[1..] == a[1..];
        IntersectCovers(rest, ts, x);
      } else {
        IntersectCovers(a[1..], ts, x);
      }
    }
  }

  lemma {:induction false} IntersectValid(a: Ranges, ts: Ranges)
    requires Valid(a) && Valid(ts)
    ensures Valid(Intersect(a, ts))
    ensures Intersect(a, ts) != [] ==> a != [] && Intersect(a, ts)[0].start >= a[0].start
    ensures Intersect(a, ts) != [] ==> ts != [] && Intersect(a, ts)[0].start >= ts[0].start
    decreases |a| + |ts|, if a != [] && ts != [] && a[0].start <= ts[0].end then 1 else 0
  {
    if a != [] && ts != [] {
      if a[0].end < ts[0].start {
        IntersectValid(a[1..], ts);
      } else if a[0].start > ts[0].end {
        IntersectValid(a, ts[1..]);
      } else if a[0].end > ts[0].end {
        var rest := Rest(a, ts);
        assert rest[1..] == a[1..];
        IntersectValid(rest, ts);
      } else {
        IntersectValid(a[1..], ts);
      }
    }
  }

  ghost predicate InsideSome(r: Range, rs: Ranges) {
    exists i :: 0 <= i < |rs| && Inside(r, rs[i])
  }

  /** Every piece left lies inside one range of each list. */
  lemma {:induction false} IntersectPieces(a: Ranges, ts: Ranges, r: Range)
    requires Valid(a) && r in Intersect(a, ts)
    ensures InsideSome(r, a) && InsideSome(r, ts)
    decreases |a| + |ts|, if a != [] && ts != [] && a[0].start <= ts[0].end then 1 else 0
  {
    if a[0].end < ts[0].start {
      IntersectPieces(a[1..], ts, r);
    } else if a[0].start > ts[0].end {
      IntersectPieces(a, ts[1..], r);
    } else {
      var first := Intersect(a, ts)[0];
      if r == first {
        assert Inside(r, a[0]) && Inside(r, ts[0]);
      } else if a[0].end > ts[0].end {
        var rest := Rest(a, ts);
        assert rest[1..] == a[1..];
        IntersectPieces(rest, ts, r);
        var i :| 0 <= i < |rest| && Inside(r, rest[i]);
        assert Inside(r, a[i]);
      } else {
        IntersectPieces(a[1..], ts, r);
      }
    }
  }

  /** A list that methods change in place. */
  class RangeList {
    var data: Ranges

    constructor (rs: Ranges)
      ensures data == rs
    {
      data := rs;
    }

    method Delete(i: nat)
      requires i < |data|
      modifies this
      ensures data == old(data)[..i] + old(data)[i + 1..]
    {
      data := data[..i] + data[i + 1..];
    }

    method DeleteFrom(n: nat)
      requires n <= |data|
      modifies this
      ensures data == old(data)[..n]
    {
      while n < |data|
        invariant n <= |data| && data[..n] == old(data)[..n]
      {
        ghost var before := data;
        Delete(n);
        assert data[..n] == before[..n];
      }
    }

    method Insert(i: nat, r: Range)
      requires i <= |data|
      modifies this
      ensures data == old(data)[..i] + [r] + old(data)[i..]
    {
      data := data[..i] + [r] + data[i..];
    }
  }

  /** The loop invariant: what is finished, followed by the intersection of what is left, is the goal. */
  ghost predicate Progress(data: Ranges, n: nat, ts: Ranges, p: nat, goal: Ranges) {
    n <= |data| && p <= |ts| && data[..n] + Intersect(data[n..], ts[p..]) == goal
  }

  lemma {:induction false} ProgressSkip(data: Ranges, n: nat, ts: Ranges, p: nat, goal: Ranges)
    requires Progress(data, n, ts, p, goal) && n < |data| && p < |ts|
    requires !(data[n].end < ts[p].start) && data[n].start > ts[p].end
    ensures Progress(data, n, ts, p + 1, goal)
  {
  }

  lemma {:induction false} ProgressDelete(data: Ranges, n: nat, ts: Ranges, p: nat, goal: Ranges)
    requires Progress(data, n, ts, p, goal) && n < |data| && p < |ts| && data[n].end < ts[p].start
    ensures Progress(data[..n] + data[n + 1..], n, ts, p, goal)
  {
    var next := data[..n] + data[n + 1..];
    assert next[..n] == data[..n] && next[n..] == data[n + 1..] == data[n..][1..];
  }

  /** With no range of ts left, what is finished is all. */
  lemma {:induction false} ProgressEnd(data: Ranges, n: nat, ts: Ranges, goal: Ranges)
    requires Progress(data, n, ts, |ts|, goal)
    ensures data[..n] == goal
  {
    assert data[..n] + [] == data[..n];
  }

  lemma {:induction false} ProgressSplit(data: Ranges, n: nat, ts: Ranges, p: nat, goal: Ranges, start: int)
    requires Progress(data, n, ts, p, goal) && n < |data| && p < |ts|
    requires !(data[n].end < ts[p].start) && !(data[n].start > ts[p].end) && data[n].end > ts[p].end
    requires start == if data[n].start < ts[p].start then ts[p].start else data[n].start
    ensures Progress(data[..n] + [Range(start, ts[p].end), Range(ts[p].end + 1, data[n].end)] + data[n + 1..], n + 1, ts, p, goal)
  {
    var (done, rest) := (Range(start, ts[p].end), [Range(ts[p].end + 1, data[n].end)] + data[n + 1..]);
    var next := data[..n] + [done, Range(ts[p].end + 1, data[n].end)] + data[n + 1..];
    assert next[..n + 1] == data[..n] + [done] && next[n + 1..] == rest;
    assert data[..n] + ([done] + Intersect(rest, ts[p..])) == (data[..n] + [done]) + Intersect(rest, ts[p..]);
  }

  lemma {:induction false} ProgressKeep(data: Ranges, n: nat, ts: Ranges, p: nat, goal: Ranges, start: int)
    requires Progress(data, n, ts, p, goal) && n < |data| && p < |ts|
    requires !(data[n].end < ts[p].start) && !(data[n].start > ts[p].end) && !(data[n].end > ts[p].end)
    requires start == if data[n].start < ts[p].start then ts[p].start else data[n].start
    ensures Progress(data[n := Range(start, data[n].end)], n + 1, ts, p, goal)
  {
    var done := Range(start, data[n].end);
    var next := data[n := done];
    assert next[..n + 1] == data[..n] + [done] && next[n + 1..] == data[n + 1..];
    assert data[..n] + ([done] + Intersect(data[n + 1..], ts[p..])) == (data[..n] + [done]) + Intersect(data[n + 1..], ts[p..]);
  }

  /** Cuts list down in place to its intersection with ts, deleting, trimming and splitting its ranges.  A split
      leaves as much to do as before, but what is left then starts after the current range of ts. */
  method IntersectTimeRanges(list: RangeList, ts: Ranges)
    requires ts != []
    modifies list
    ensures list.data == Intersect(old(list.data), ts)
  {
    var pos, newPos := 0, 0;
    ghost var goal := Intersect(list.data, ts);
    while pos < |ts| && newPos < |list.data|
      invariant pos < |ts| && Progress(list.data, newPos, ts, pos, goal)
      decreases |list.data| - newPos + |ts| - pos,
                if newPos < |list.data| && list.data[newPos].start <= ts[pos].end then 1 else 0
    {
      ghost var data := list.data;
      if list.data[newPos].end < ts[pos].start {
        ProgressDelete(data, newPos, ts, pos, goal);
        list.Delete(newPos);
        continue;
      }
      if list.data[newPos].start > ts[pos].end {
        ProgressSkip(data, newPos, ts, pos, goal);
        pos := pos + 1;
        if pos < |ts| {
          continue;
        }
        ProgressEnd(data, newPos, ts, goal);
        list.DeleteFrom(newPos);
        return;
      }
      ghost var start := if data[newPos].start < ts[pos].start then ts[pos].start else data[newPos].start;
      TrimAt(list, newPos, ts[pos]);
      if data[newPos].end > ts[pos].end {
        ProgressSplit(data, newPos, ts, pos, goal, start);
      } else {
        ProgressKeep(data, newPos, ts, pos, goal, start);
      }
      newPos := newPos + 1;
    }
    assert list.data[..newPos] == list.data;
  }

  /** An intersection found: the range is trimmed to t, and what lies behind t is inserted as the next one. */
  method TrimAt(list: RangeList, newPos: nat, t: Range)
    requires newPos < |list.data|
    modifies list
    ensures var (data, r) := (old(list.data), old(list.data[newPos]));
            var start := if r.start < t.start then t.start else r.start;
            list.data == if r.end > t.end
                         then data[..newPos] + [Range(start, t.end), Range(t.end + 1, r.end)] + data[newPos + 1..]
                         else data[newPos := Range(start, r.end)]
  {
    if list.data[newPos].start < t.start {
      list.data := list.data[newPos := Range(t.start, list.data[newPos].end)];
    }
    if list.data[newPos].end > t.end {
      var r := Range(t.end + 1, list.data[newPos].end);
      list.data := list.data[newPos := Range(list.data[newPos].start, t.end)];
      list.Insert(newPos + 1, r);
    }
  }

  // ---------------------------------------------------------------- recombining

  /** Merges neighbours that touch, computed from the front. */
  function Recombine(tr: Ranges): Ranges
    decreases |tr|
  {
    if |tr| < 2 then tr
    else if tr[0].end + 1 == tr[1].start then Recombine([Range(tr[0].start, tr[1].end)] + tr[2..])
    else [tr[0]] + Recombine(tr[1..])
  }

  method RecombineTimeRanges(tr: Ranges) returns (newTr: Ranges)
    ensures newTr == Recombine(tr)
  {
    newTr := tr;
    var i := 1;
    while i < |newTr|
      invariant 1 <= i && (newTr != [] ==> i <= |newTr|)
      invariant newTr == [] ==> tr == []
      invariant newTr != [] ==> newTr[..i - 1] + Recombine(newTr[i - 1..]) == Recombine(tr)
      decreases |newTr| - i
    {
      ghost var before := newTr;
      ghost var rest := before[i - 1..];
      assert rest[0] == before[i - 1] && rest[1] == before[i] && rest[1..] == before[i..] && rest[2..] == before[i + 1..];
      if newTr[i - 1].end + 1 == newTr[i].start {
        newTr := newTr[i := Range(newTr[i - 1].start, newTr[i].end)];
        newTr := newTr[..i - 1] + newTr[i..];
        assert newTr[..i - 1] == before[..i - 1];
        assert newTr[i - 1..] == [Range(before[i - 1].start, before[i].end)] + rest[2..];
      } else {
        i := i + 1;
        assert newTr[..i - 1] == before[..i - 2] + [rest[0]];
      }
    }
    if newTr != [] {
      assert newTr[..i - 1] + newTr[i - 1..] == newTr;
    }
  }

  /** The front two ranges joined. */
  function Joined(tr: Ranges): Ranges
    requires |tr| >= 2
  {
    [Range(tr[0].start, tr[1].end)] + tr[2..]
  }

  /** Valid but for empty ranges [t, t - 1], each of which touches its predecessor. */
  predicate Tame(rs: Ranges) {
    rs == [] || (rs[0].start <= rs[0].end && Follows(rs[0].end, rs[1..]))
  }

  predicate Follows(end: int, rs: Ranges)
    decreases |rs|
  {
    rs == []
    || (end < rs[0].start && (rs[0].start <= rs[0].end || (rs[0].start == end + 1 && rs[0].end == end))
        && Follows(rs[0].end, rs[1..]))
  }

  lemma {:induction false} ValidIsTame(rs: Ranges)
    requires Valid(rs)
    ensures Tame(rs)
  {
    if rs != [] { ValidIsTame(rs[1..]); }
  }

  /** Recombining makes a list valid and leaves a gap between neighbours. */
  lemma {:induction false} RecombineCanonical(tr: Ranges)
    requires Tame(tr)
    ensures Valid(Recombine(tr)) && Gapped(Recombine(tr))
    ensures tr != [] ==> Recombine(tr) != [] && Recombine(tr)[0].start == tr[0].start
    decreases |tr|
  {
    if |tr| >= 2 {
      assert tr[1..][1..] == tr[2..];
      if tr[0].end + 1 == tr[1].start {
        assert Joined(tr)[1..] == tr[2..];
        RecombineCanonical(Joined(tr));
      } else {
        RecombineCanonical(tr[1..]);
        var r := Recombine(tr);
        assert r[1..] == Recombine(tr[1..]);
      }
    }
  }

  lemma {:induction false} RecombineCovers(tr: Ranges, x: int)
    requires Tame(tr)
    ensures Covers(Recombine(tr), x) <==> Covers(tr, x)
    decreases |tr|
  {
    if |tr| >= 2 {
      assert tr[1..][1..] == tr[2..];
      if tr[0].end + 1 == tr[1].start {
        assert Joined(tr)[1..] == tr[2..];
        RecombineCovers(Joined(tr), x);
      } else {
        RecombineCovers(tr[1..], x);
      }
    }
  }

  /** A list with gaps is determined by what it covers. */
  lemma {:induction false} CanonicalUnique(a: Ranges, b: Ranges)
    requires Valid(a) && Gapped(a) && Valid(b) && Gapped(b) && SameCover(a, b)
    ensures a == b
    decreases |a|
  {
    if a == [] {
      NothingCovered(b);
    } else {
      assert Covers(a, a[0].start);
      CoveredFromStart(b, a[0].start);
      assert Covers(b, b[0].start);
      CoveredFromStart(a, b[0].start);
      FirstEnds(a, b);
      FirstEnds(b, a);
      assert a[0] == b[0];
      forall x ensures Covers(a[1..], x) <==> Covers(b[1..], x) {
        CoversTail(a, x);
        CoversTail(b, x);
      }
      CanonicalUnique(a[1..], b[1..]);
    }
  }

  lemma {:induction false} NothingCovered(b: Ranges)
    requires Valid(b) && forall x :: !Covers(b, x)
    ensures b == []
  {
    assert b != [] ==> Covers(b, b[0].start);
  }

  lemma {:induction false} CoversTail(a: Ranges, x: int)
    requires Valid(a) && a != []
    ensures Covers(a[1..], x) <==> Covers(a, x) && !In(x, a[0])
  {
    if Covers(a[1..], x) {
      CoveredFromStart(a[1..], x);
    }
  }

  /** With the same start and cover, the first range of a cannot end before that of b. */
  lemma {:induction false} FirstEnds(a: Ranges, b: Ranges)
    requires Valid(a) && Gapped(a) && Valid(b) && SameCover(a, b) && a != [] && b != [] && a[0].start == b[0].start
    ensures a[0].end >= b[0].end
  {
    var x := a[0].end + 1;
    if a[0].end < b[0].end {
      assert Covers(b, x);
      CoversTail(a, x);
      CoveredFromStart(a[1..], x);
    }
  }

  /** Recombining a valid list that covers the same instants gives back the original ranges exactly when these have gaps. */
  lemma {:induction false} RecombineRestores(tr: Ranges, rs: Ranges)
    requires Tame(tr) && Valid(rs) && SameCover(tr, rs)
    ensures Recombine(tr) == rs <==> Gapped(rs)
  {
    RecombineCanonical(tr);
    if Gapped(rs) {
      forall x ensures Covers(Recombine(tr), x) <==> Covers(rs, x) {
        RecombineCovers(tr, x);
      }
      CanonicalUnique(Recombine(tr), rs);
    }
  }

  // ---------------------------------------------------------------- splitting by interval

  function Duration(r: Range): int { r.end - r.start + 1 }

  /** k pieces of the given duration from start on, the last one ending at end. */
  function Pieces(start: int, end: int, duration: int, k: nat): Ranges
    requires k > 0
    decreases k
  {
    if k == 1 then [Range(start, end)]
    else [Range(start, start + duration - 1)] + Pieces(start + duration, end, duration, k - 1)
  }

  function SplitOne(r: Range, n: int): Ranges {
    if n <= 1 || Duration(r) / n < 1 then [r] else Pieces(r.start, r.end, Duration(r) / n, n)
  }

  method SplitSingleTimeRangeIntoN(r: Range, n: int) returns (pieces: Ranges)
    requires r.start <= r.end
    ensures pieces == SplitOne(r, n)
  {
    if n <= 1 {
      return [r];
    }
    var duration := (r.end - r.start + 1) / n;
    if duration < 1 {
      return [r];
    }
    pieces := CutPieces(r.start, r.end, duration, n);
  }

  /** Cuts n pieces of equal duration and then lets the last one end at end. */
  method CutPieces(first: int, end: int, duration: int, n: nat) returns (pieces: Ranges)
    requires n > 0
    ensures pieces == Pieces(first, end, duration, n)
  {
    pieces := [];
    var start := first;
    for i := 0 to n
      invariant |pieces| == i
      invariant i < n ==> pieces + Pieces(start, end, duration, n - i) == Pieces(first, end, duration, n)
      invariant i == n ==> pieces[n - 1 := Range(pieces[n - 1].start, end)] == Pieces(first, end, duration, n)
    {
      ghost var before := pieces;
      pieces := pieces + [Range(start, start + duration - 1)];
      start := start + duration;
      if i + 1 == n {
        assert pieces[n - 1 := Range(pieces[n - 1].start, end)] == before + [Range(start - duration, end)];
      }
    }
    pieces := pieces[n - 1 := Range(pieces[n - 1].start, end)];
  }

  /** The pieces partition the range. */
  lemma {:induction false} PiecesPartition(start: int, end: int, duration: int, k: nat, x: int)
    requires k > 0 && duration > 0 && start + k * duration - 1 <= end
    ensures var ps := Pieces(start, end, duration, k);
            |ps| == k && Valid(ps) && ps[0].start == start && ps[k - 1].end == end
            && (Covers(ps, x) <==> start <= x <= end)
    decreases k
  {
    if k > 1 {
      assert k * duration == (k - 1) * duration + duration;
      assert (k - 1) * duration >= duration by { MulAtLeast(k - 1, duration); }
      PiecesPartition(start + duration, end, duration, k - 1, x);
      var rest := Pieces(start + duration, end, duration, k - 1);
      var ps := Pieces(start, end, duration, k);
      assert ps[1..] == rest;
    } else {
      assert Pieces(start, end, duration, k)[1..] == [];
    }
  }

  /** All pieces but the last have the given duration; the last one has at least that. */
  lemma {:induction false} PiecesEqual(start: int, end: int, duration: int, k: nat, i: nat)
    requires i < k && start + k * duration - 1 <= end
    ensures |Pieces(start, end, duration, k)| == k
    ensures var d := Duration(Pieces(start, end, duration, k)[i]); if i < k - 1 then d == duration else d >= duration
    decreases k
  {
    if k > 1 {
      assert (k - 1) * duration == k * duration - duration;
      PiecesEqual(start + duration, end, duration, k - 1, if i == 0 then 0 else i - 1);
    }
  }

  lemma {:induction false} MulAtLeast(k: nat, d: int)
    requires k > 0 && d > 0
    ensures k * d >= d
  {
    assert k * d == (k - 1) * d + d;
  }

  lemma {:induction false} SplitOnePartitions(r: Range, n: int, x: int)
    requires r.start <= r.end
    ensures var ps := SplitOne(r, n);
            ps != [] && Valid(ps) && ps[0].start == r.start && ps[|ps| - 1].end == r.end
            && (Covers(ps, x) <==> In(x, r))
  {
    if n > 1 && Duration(r) / n >= 1 {
      var d := Duration(r) / n;
      assert n * d <= Duration(r);
      PiecesPartition(r.start, r.end, d, n, x);
    } else {
      assert SplitOne(r, n)[1..] == [];
    }
  }

  /** Rounding to the nearest integer, halves to the even one. */
  function Round(x: real): int {
    var f := x.Floor;
    var half := x - f as real;
    if half < 0.5 || (half == 0.5 && f % 2 == 0) then f else f + 1
  }

  /** How many pieces of about the interval's length a range is cut into. */
  function PieceCount(r: Range, interval: real): int
    requires interval != 0.0
  {
    Round(Duration(r) as real / interval)
  }

  /** k intervals come nearest to the duration; of two that are equally near, k is the even one. */
  predicate Nearest(k: int, duration: int, interval: real) {
    var off := 2.0 * (k as real * interval - duration as real);
    -interval <= off <= interval && (off == interval || off == -interval ==> k % 2 == 0)
  }

  /** ps are n ranges one behind the other that make up r, all but the last with the n-th part of its duration. */
  predicate EqualParts(r: Range, n: nat, ps: Ranges) {
    && n > 0 && |ps| == n && ps[0].start == r.start && ps[n - 1].end == r.end
    && forall i :: 0 <= i < n - 1 ==> Duration(ps[i]) == Duration(r) / n && ps[i].end + 1 == ps[i + 1].start
  }

  /** r in k parts, if that is at least 2 and leaves no part empty. */
  predicate Parts(k: int, r: Range, ps: Ranges) {
    if 2 <= k <= Duration(r) then EqualParts(r, k, ps) else ps == [r]
  }

  /** How a range is split by an interval: into the nearest number of parts. */
  ghost predicate SplitNearest(r: Range, interval: real, ps: Ranges) {
    exists k: int :: Nearest(k, Duration(r), interval) && Parts(k, r, ps)
  }

  ghost predicate AllNearest(rs: Ranges, interval: real, result: Ranges)
    decreases |rs|
  {
    if rs == [] then result == []
    else exists n: nat :: n <= |result| && SplitNearest(rs[0], interval, result[..n])
                          && AllNearest(rs[1..], interval, result[n..])
  }

  lemma {:induction false} RoundNearest(duration: int, interval: real)
    requires interval > 0.0
    ensures Nearest(Round(duration as real / interval), duration, interval)
  {
    var x := duration as real / interval;
    var k := Round(x);
    var d := k as real - x;
    assert -0.5 <= d <= 0.5 && (d == 0.5 || d == -0.5 ==> k % 2 == 0);
    assert x * interval == duration as real;
    var e := k as real * interval - duration as real;
    assert d * interval == k as real * interval - x * interval == e;
    ScaleBounds(d, interval, e);
  }

  lemma {:induction false} ScaleBounds(d: real, interval: real, e: real)
    requires interval > 0.0 && e == d * interval
    ensures -0.5 <= d <= 0.5 ==> -interval <= 2.0 * e <= interval
    ensures 2.0 * e == interval ==> d == 0.5
    ensures 2.0 * e == -interval ==> d == -0.5
  {
    SameSign(0.5 - d, interval);
    SameSign(d + 0.5, interval);
    assert (0.5 - d) * interval == 0.5 * interval - e;
    assert (d + 0.5) * interval == e + 0.5 * interval;
  }

  lemma {:induction false} SameSign(x: real, y: real)
    requires y > 0.0
    ensures (x > 0.0 <==> x * y > 0.0) && (x == 0.0 <==> x * y == 0.0)
  {
  }

  /** There is only one such number. */
  lemma {:induction false} NearestUnique(k: int, k': int, duration: int, interval: real)
    requires interval > 0.0 && Nearest(k, duration, interval) && Nearest(k', duration, interval)
    ensures k == k'
  {
    if k > k' {
      NotBothNearest(k, k', duration, interval);
    } else if k < k' {
      NotBothNearest(k', k, duration, interval);
    }
  }

  lemma {:induction false} NotBothNearest(k: int, k': int, duration: int, interval: real)
    requires interval > 0.0 && k > k' && Nearest(k', duration, interval)
    ensures !Nearest(k, duration, interval)
  {
    var d := k - k' - 1;
    assert k as real * interval == k' as real * interval + interval + d as real * interval;
    assert d as real * interval >= 0.0 && (d > 0 ==> d as real * interval > 0.0);
  }

  lemma {:induction false} PiecesAreParts(start: int, end: int, duration: int, k: nat)
    requires k > 0
    ensures var ps := Pieces(start, end, duration, k);
            && |ps| == k && ps[0].start == start && ps[k - 1].end == end
            && forall i :: 0 <= i < k - 1 ==> Duration(ps[i]) == duration && ps[i].end + 1 == ps[i + 1].start
    decreases k
  {
    if k > 1 {
      PiecesAreParts(start + duration, end, duration, k - 1);
    }
  }

  lemma {:induction false} SplitOneNearest(r: Range, interval: real)
    requires r.start <= r.end && interval > 0.0
    ensures SplitNearest(r, interval, SplitOne(r, PieceCount(r, interval)))
  {
    var (k, d) := (PieceCount(r, interval), Duration(r));
    RoundNearest(d, interval);
    if k > 1 {
      PartsFit(d, k);
      PiecesAreParts(r.start, r.end, d / k, k);
    }
  }

  lemma {:induction false} PartsFit(d: nat, k: nat)
    requires k > 0
    ensures d / k < 1 <==> d < k
  {
  }

  lemma {:induction false} SplitAllNearest(rs: Ranges, interval: real)
    requires Valid(rs) && interval > 0.0
    ensures AllNearest(rs, interval, SplitAll(rs, interval))
  {
    if rs != [] {
      var ps := SplitOne(rs[0], PieceCount(rs[0], interval));
      var all := SplitAll(rs, interval);
      SplitOneNearest(rs[0], interval);
      SplitAllNearest(rs[1..], interval);
      assert all[..|ps|] == ps && all[|ps|..] == SplitAll(rs[1..], interval);
    }
  }

  function SplitAll(rs: Ranges, interval: real): Ranges
    requires interval != 0.0
  {
    if rs == [] then [] else SplitOne(rs[0], PieceCount(rs[0], interval)) + SplitAll(rs[1..], interval)
  }

  lemma {:induction false} ValidTail(rs: Ranges, k: nat)
    requires Valid(rs) && k <= |rs|
    ensures Valid(rs[k..])
  {
    if k > 0 {
      ValidTail(rs[1..], k - 1);
      assert rs[1..][k - 1..] == rs[k..];
    }
  }

  method SplitTimeRangesByInterval(rs: Ranges, interval: real) returns (newRanges: Ranges)
    requires Valid(rs) && interval > 0.0
    ensures newRanges == SplitAll(rs, interval)
    ensures AllNearest(rs, interval, newRanges)
  {
    newRanges := SplitEach(rs, interval);
    SplitAllNearest(rs, interval);
  }

  method SplitEach(rs: Ranges, interval: real) returns (newRanges: Ranges)
    requires Valid(rs) && interval > 0.0
    ensures newRanges == SplitAll(rs, interval)
  {
    newRanges := [];
    for i := 0 to |rs|
      invariant newRanges + SplitAll(rs[i..], interval) == SplitAll(rs, interval)
    {
      ValidTail(rs, i);
      var pieces := SplitSingleTimeRangeIntoN(rs[i], PieceCount(rs[i], interval));
      newRanges := newRanges + pieces;
    }
  }

  lemma {:induction false} AppendValid(a: Ranges, b: Ranges)
    requires Valid(a) && Valid(b)
    requires a != [] && b != [] ==> a[|a| - 1].end < b[0].start
    ensures Valid(a + b)
  {
    if a == [] {
      assert a + b == b;
    } else {
      AppendValid(a[1..], b);
      assert (a + b)[1..] == a[1..] + b;
    }
  }

  lemma {:induction false} AppendCovers(a: Ranges, b: Ranges, x: int)
    ensures Covers(a + b, x) <==> Covers(a, x) || Covers(b, x)
  {
    if a == [] {
      assert a + b == b;
    } else {
      AppendCovers(a[1..], b, x);
      assert (a + b)[1..] == a[1..] + b;
    }
  }

  /** Splitting by interval cuts valid ranges into valid ranges that cover the same instants. */
  lemma {:induction false} SplitAllPartitions(rs: Ranges, interval: real, x: int)
    requires Valid(rs) && interval > 0.0
    ensures Valid(SplitAll(rs, interval))
    ensures rs != [] ==> SplitAll(rs, interval) != [] && SplitAll(rs, interval)[0].start == rs[0].start
    ensures Covers(SplitAll(rs, interval), x) <==> Covers(rs, x)
  {
    if rs != [] {
      var ps := SplitOne(rs[0], PieceCount(rs[0], interval));
      SplitOnePartitions(rs[0], PieceCount(rs[0], interval), x);
      SplitAllPartitions(rs[1..], interval, x);
      AppendValid(ps, SplitAll(rs[1..], interval));
      AppendCovers(ps, SplitAll(rs[1..], interval), x);
    }
  }

  function TotalDuration(rs: Ranges): int {
    if rs == [] then 0 else Duration(rs[0]) + TotalDuration(rs[1..])
  }

  lemma {:induction false} TotalPositive(rs: Ranges)
    requires Valid(rs)
    ensures TotalDuration(rs) >= 0 && (rs != [] ==> TotalDuration(rs) > 0)
  {
    if rs != [] {
      TotalPositive(rs[1..]);
    }
  }

  /** How many instants from lo up to hi the ranges cover. */
  ghost function CountCovered(rs: Ranges, lo: int, hi: int): nat
    requires lo <= hi
    decreases hi - lo
  {
    if lo == hi then 0 else (if Covers(rs, lo) then 1 else 0) + CountCovered(rs, lo + 1, hi)
  }

  lemma {:induction false} CountRun(rs: Ranges, lo: int, mid: int, hi: int, covered: bool)
    requires lo <= mid <= hi && forall x :: lo <= x < mid ==> (Covers(rs, x) <==> covered)
    ensures CountCovered(rs, lo, hi) == (if covered then mid - lo else 0) + CountCovered(rs, mid, hi)
    decreases mid - lo
  {
    if lo < mid {
      CountRun(rs, lo + 1, mid, hi, covered);
    }
  }

  lemma {:induction false} CountSame(rs: Ranges, rs': Ranges, lo: int, hi: int)
    requires lo <= hi && forall x :: lo <= x < hi ==> (Covers(rs, x) <==> Covers(rs', x))
    ensures CountCovered(rs, lo, hi) == CountCovered(rs', lo, hi)
    decreases hi - lo
  {
    if lo < hi {
      CountSame(rs, rs', lo + 1, hi);
    }
  }

  lemma {:induction false} CoversFrom(rs: Ranges, x: int)
    requires Valid(rs) && Covers(rs, x)
    ensures rs != [] && rs[0].start <= x
  {
    if !In(x, rs[0]) {
      CoversFrom(rs[1..], x);
    }
  }

  /** The total duration is the number of instants covered. */
  lemma {:induction false} TotalIsCovered(rs: Ranges, lo: int, hi: int)
    requires Valid(rs) && lo <= hi && (rs != [] ==> lo <= rs[0].start && rs[|rs| - 1].end < hi)
    ensures CountCovered(rs, lo, hi) == TotalDuration(rs)
    decreases |rs|
  {
    if rs == [] {
      CountRun(rs, lo, hi, hi, false);
    } else {
      var (r, rest) := (rs[0], rs[1..]);
      assert rest != [] ==> rs[|rs| - 1] == rest[|rest| - 1];
      WithinEnds(rs, hi);
      forall x | Covers(rest, x) ensures x > r.end { CoversFrom(rest, x); }
      CountRun(rs, lo, r.start, hi, false);
      CountRun(rs, r.start, r.end + 1, hi, true);
      CountSame(rs, rest, r.end + 1, hi);
      TotalIsCovered(rest, r.end + 1, hi);
    }
  }

  lemma {:induction false} WithinEnds(rs: Ranges, hi: int)
    requires Valid(rs) && rs != [] && rs[|rs| - 1].end < hi
    ensures rs[0].end < hi
  {
    if |rs| > 1 {
      WithinEnds(rs[1..], hi);
    }
  }

  /** The interval is the n-th part of the duration, unless that is less than the minimum. */
  predicate Wanted(duration: int, n: int, minInterval: real, interval: real) {
    if minInterval * n as real <= duration as real then interval * n as real == duration as real
    else interval == minInterval
  }

  /** The interval that gives about n ranges, but not less than the minimum. */
  function IntervalFor(rs: Ranges, n: int, minInterval: real): (interval: real)
    requires Valid(rs) && rs != [] && n > 0
    ensures interval > 0.0 && Wanted(TotalDuration(rs), n, minInterval, interval)
  {
    TotalPositive(rs);
    var interval := TotalDuration(rs) as real / n as real;
    assert interval * n as real == TotalDuration(rs) as real;
    SameSign(interval - minInterval, n as real);
    assert (interval - minInterval) * n as real == interval * n as real - minInterval * n as real;
    if interval < minInterval then minInterval else interval
  }

  /** A single range is to be split into n parts, none empty and none shorter than the minimum. */
  predicate OneWanted(rs: Ranges, n: int, minInterval: real) {
    |rs| == 1 && 1 < n <= Duration(rs[0]) && minInterval * n as real <= Duration(rs[0]) as real
  }

  lemma {:induction false} OneIntoN(rs: Ranges, n: int, minInterval: real, interval: real, result: Ranges)
    requires interval > 0.0 && Wanted(TotalDuration(rs), n, minInterval, interval) && AllNearest(rs, interval, result)
    ensures OneWanted(rs, n, minInterval) ==> EqualParts(rs[0], n, result)
  {
    if OneWanted(rs, n, minInterval) {
      assert rs[1..] == [] && TotalDuration(rs) == Duration(rs[0]);
      ExactIsNearest(n, Duration(rs[0]), interval);
      var m: nat :| m <= |result| && SplitNearest(rs[0], interval, result[..m]) && AllNearest([], interval, result[m..]);
      assert result[..m] == result;
      NearestParts(n, rs[0], interval, result);
    }
  }

  lemma {:induction false} NearestParts(n: int, r: Range, interval: real, ps: Ranges)
    requires interval > 0.0 && Nearest(n, Duration(r), interval) && SplitNearest(r, interval, ps)
    ensures Parts(n, r, ps)
  {
    var k: int :| Nearest(k, Duration(r), interval) && Parts(k, r, ps);
    NearestUnique(k, n, Duration(r), interval);
  }

  lemma {:induction false} ExactIsNearest(n: int, duration: int, interval: real)
    requires interval > 0.0 && interval * n as real == duration as real
    ensures Nearest(n, duration, interval)
  {
    assert n as real * interval == interval * n as real;
  }

  method SplitTimeRangesIntoN(rs: Ranges, n: int, minInterval: real) returns (newRanges: Ranges)
    requires Valid(rs) && rs != []
    ensures newRanges == if n <= |rs| then rs else SplitAll(rs, IntervalFor(rs, n, minInterval))
    ensures Valid(newRanges) && SameCover(newRanges, rs)
    ensures n > |rs| ==> AllNearest(rs, IntervalFor(rs, n, minInterval), newRanges)
    ensures OneWanted(rs, n, minInterval) ==> EqualParts(rs[0], n, newRanges)
  {
    if n <= |rs| {
      return rs;
    }
    var interval := IntervalFor(rs, n, minInterval);
    newRanges := SplitTimeRangesByInterval(rs, interval);
    IntoNCovers(rs, interval);
    OneIntoN(rs, n, minInterval, interval, newRanges);
  }

  lemma {:induction false} IntoNCovers(rs: Ranges, interval: real)
    requires Valid(rs) && interval > 0.0
    ensures Valid(SplitAll(rs, interval)) && SameCover(SplitAll(rs, interval), rs)
  {
    SplitAllPartitions(rs, interval, 0);
    forall x ensures Covers(SplitAll(rs, interval), x) <==> Covers(rs, x) {
      SplitAllPartitions(rs, interval, x);
    }
  }

  // ---------------------------------------------------------------- splitting by data density

  /** The ranges from min to max cut before each of the given times. */
  function FromCuts(min: int, max: int, cuts: seq<int>): (rs: Ranges)
    ensures |rs| == |cuts| + 1
    decreases |cuts|
  {
    if cuts == [] then [Range(min, max)]
    else [Range(min, cuts[0] - 1)] + FromCuts(cuts[0], max, cuts[1..])
  }

  lemma {:induction false} FromCutsAppend(min: int, max: int, cuts: seq<int>, c: int)
    ensures var rs := FromCuts(min, max, cuts);
            var last := |rs| - 1;
            rs[last].end == max &&
            FromCuts(min, max, cuts + [c]) == rs[last := Range(rs[last].start, c - 1)] + [Range(c, max)]
    decreases |cuts|
  {
    if cuts == [] {
      assert (cuts + [c])[1..] == [];
    } else {
      FromCutsAppend(cuts[0], max, cuts[1..], c);
      assert (cuts + [c])[1..] == cuts[1..] + [c];
    }
  }

  predicate Increasing(from: int, cuts: seq<int>, to: int)
    decreases |cuts|
  {
    if cuts == [] then from <= to else from < cuts[0] && Increasing(cuts[0], cuts[1..], to)
  }

  predicate NonDecreasing(from: int, cuts: seq<int>, to: int)
    decreases |cuts|
  {
    if cuts == [] then from <= to else from <= cuts[0] && NonDecreasing(cuts[0], cuts[1..], to)
  }

  lemma {:induction false} IncreasingIsNonDecreasing(from: int, cuts: seq<int>, to: int)
    requires Increasing(from, cuts, to)
    ensures NonDecreasing(from, cuts, to)
    decreases |cuts|
  {
    if cuts != [] { IncreasingIsNonDecreasing(cuts[0], cuts[1..], to); }
  }

  /** Each range starts where its predecessor ends. */
  predicate Contiguous(rs: Ranges) {
    rs == [] || (rs[0].start <= rs[0].end + 1 && (|rs| > 1 ==> rs[0].end + 1 == rs[1].start) && Contiguous(rs[1..]))
  }

  lemma {:induction false} ContiguousIsWeak(rs: Ranges)
    requires Contiguous(rs)
    ensures Weak(rs)
  {
    if rs != [] { ContiguousIsWeak(rs[1..]); }
  }

  /** Cut at times that never go back, the whole time is covered without a gap. */
  lemma {:induction false} FromCutsPartition(min: int, max: int, cuts: seq<int>, x: int)
    requires NonDecreasing(min, cuts, max)
    ensures Contiguous(FromCuts(min, max, cuts)) && FromCuts(min, max, cuts)[0].start == min && min <= max
    ensures Covers(FromCuts(min, max, cuts), x) <==> min <= x <= max
    decreases |cuts|
  {
    if cuts != [] {
      FromCutsPartition(cuts[0], max, cuts[1..], x);
      assert FromCuts(min, max, cuts)[1..] == FromCuts(cuts[0], max, cuts[1..]);
    } else {
      assert FromCuts(min, max, cuts)[1..] == [];
    }
  }

  /** None of the ranges is empty exactly if every cut is later than the one before; equal times make an empty one. */
  lemma {:induction false} FromCutsValid(min: int, max: int, cuts: seq<int>)
    ensures Valid(FromCuts(min, max, cuts)) <==> Increasing(min, cuts, max)
    decreases |cuts|
  {
    if cuts != [] {
      FromCutsValid(cuts[0], max, cuts[1..]);
      assert FromCuts(min, max, cuts)[1..] == FromCuts(cuts[0], max, cuts[1..]);
      assert FromCuts(cuts[0], max, cuts[1..])[0].start == cuts[0];
    } else {
      assert FromCuts(min, max, cuts)[1..] == [];
    }
  }

  /** The time of every d-th sample, but for the last sample: the first k of them. */
  function Cuts(times: seq<int>, d: nat, k: nat): (cuts: seq<int>)
    requires d > 0 && k * d <= |times|
    ensures |cuts| == k
  {
    if k == 0 then []
    else
      assert (k - 1) * d == k * d - d;
      Cuts(times, d, k - 1) + [times[k * d - 1]]
  }

  /** Counts down the samples of one cpu and cuts its time ranges every `interval` samples. */
  class CPUTimeRange {
    var timeRanges: Ranges
    var interval: int
    var intervalRemaining: int
    var remaining: int
    var trPos: nat

    constructor (min: int, max: int, count: int, d: int)
      ensures timeRanges == [Range(min, max)] && trPos == 0
      ensures interval == intervalRemaining == d && remaining == count
    {
      timeRanges, interval, intervalRemaining, remaining, trPos := [Range(min, max)], d, d, count, 0;
    }

    method CalcTimeRangesByCPU(time: int, maxTime: int)
      requires trPos < |timeRanges|
      modifies this
      ensures remaining == old(remaining) - 1 && interval == old(interval)
      ensures old(remaining) == 1 ==>
                timeRanges == old(timeRanges)[old(trPos) := Range(old(timeRanges)[old(trPos)].start, maxTime)]
                && trPos == old(trPos) && intervalRemaining == old(intervalRemaining) - 1
      ensures old(remaining) != 1 && old(intervalRemaining) == 1 ==>
                timeRanges == old(timeRanges)[old(trPos) := Range(old(timeRanges)[old(trPos)].start, time - 1)] + [Range(time, maxTime)]
                && trPos == old(trPos) + 1 && intervalRemaining == interval
      ensures old(remaining) != 1 && old(intervalRemaining) != 1 ==>
                timeRanges == old(timeRanges) && trPos == old(trPos) && intervalRemaining == old(intervalRemaining) - 1
    {
      remaining := remaining - 1;
      intervalRemaining := intervalRemaining - 1;
      if remaining == 0 {
        timeRanges := timeRanges[trPos := Range(timeRanges[trPos].start, maxTime)];
        return;
      }
      if intervalRemaining == 0 {
        timeRanges := timeRanges[trPos := Range(timeRanges[trPos].start, time - 1)];
        timeRanges := timeRanges + [Range(time, maxTime)];
        trPos := trPos + 1;
        intervalRemaining := interval;
      }
    }
  }

  /** Samples per range for a cpu with count samples and n ranges, rounded up. */
  function PerRange(count: nat, n: nat): (d: nat)
    requires count > 0 && n > 0
    ensures d > 0 && d * n >= count > (d - 1) * n
  {
    var d := count / n;
    assert d * n + count % n == count;
    if count % n != 0 then
      assert (d + 1) * n == d * n + n;
      d + 1
    else
      assert d > 0;
      d
  }

  lemma {:induction false} FewerThan(k: nat, d: nat, n: nat)
    requires k * d < n * d
    ensures k < n
  {
    assert k * d == n * d + (k - n) * d;
    assert k >= n ==> (k - n) * d >= 0;
  }

  lemma {:induction false} QuotientIs(m: nat, d: nat, k: nat)
    requires d > 0 && k * d <= m < k * d + d
    ensures m / d == k
  {
    var q := m / d;
    assert q * d + m % d == m;
    assert (q + 1) * d == q * d + d && (k + 1) * d == k * d + d;
    FewerThan(q, d, k + 1);
    FewerThan(k, d, q + 1);
  }

  lemma {:induction false} CutsNext(times: seq<int>, d: nat, k: nat)
    requires d > 0 && k * d + d <= |times|
    ensures (k + 1) * d == k * d + d && Cuts(times, d, k + 1) == Cuts(times, d, k) + [times[k * d + d - 1]]
  {
  }

  /** The times at which n ranges of about equally many samples are cut: every d-th, but not the last sample. */
  function CutTimes(times: seq<int>, n: nat): seq<int>
    requires times != [] && n > 0
  {
    var d := PerRange(|times|, n);
    var k := (|times| - 1) / d;
    assert k * d + (|times| - 1) % d == |times| - 1;
    Cuts(times, d, k)
  }

  /** Splits one cpu's time by its samples: at most n ranges. */
  method SplitBySamples(times: seq<int>, n: nat, min: int, max: int) returns (rs: Ranges)
    requires times != [] && n > 0
    ensures |rs| <= n && rs == FromCuts(min, max, CutTimes(times, n))
  {
    var d := PerRange(|times|, n);
    var c := new CPUTimeRange(min, max, |times|, d);
    ghost var (cuts, base) := ([], 0);
    for j := 0 to |times|
      invariant fresh(c) && c.interval == d && c.remaining == |times| - j
      invariant c.trPos == |c.timeRanges| - 1 == |cuts| && c.trPos * d == base <= j
      invariant j < |times| ==> j == base + d - c.intervalRemaining && 1 <= c.intervalRemaining <= d
      invariant j == |times| ==> base < j <= base + d
      invariant c.timeRanges == FromCuts(min, max, cuts) && cuts == Cuts(times, d, c.trPos)
    {
      ghost var k := c.trPos;
      FromCutsAppend(min, max, cuts, times[j]);
      c.CalcTimeRangesByCPU(times[j], max);
      if c.trPos > k {
        CutsNext(times, d, k);
        cuts, base := cuts + [times[j]], base + d;
      }
    }
    FewerThan(c.trPos, d, n);
    QuotientIs(|times| - 1, d, c.trPos);
    rs := c.timeRanges;
  }

  lemma {:induction false} CutsAt(times: seq<int>, d: nat, k: nat, j: nat)
    requires d > 0 && k * d <= |times| && j < k
    ensures 0 <= (j + 1) * d - 1 < |times| && Cuts(times, d, k)[j] == times[(j + 1) * d - 1]
  {
    assert (k - 1) * d == k * d - d;
    if j < k - 1 {
      CutsAt(times, d, k - 1, j);
    } else {
      assert (j + 1) * d == k * d && k * d >= d;
    }
  }

  lemma {:induction false} FromCutsAt(min: int, max: int, cuts: seq<int>, j: nat)
    requires j <= |cuts|
    ensures FromCuts(min, max, cuts)[j] ==
            Range(if j == 0 then min else cuts[j - 1], if j == |cuts| then max else cuts[j] - 1)
    decreases |cuts|
  {
    if cuts != [] && j > 0 {
      FromCutsAt(cuts[0], max, cuts[1..], j - 1);
    }
  }

  /** Later samples have later times, and all times are from min to max. */
  predicate Strict(times: seq<int>, min: int, max: int) {
    && (forall i, j :: 0 <= i < j < |times| ==> times[i] < times[j])
    && (forall i :: 0 <= i < |times| ==> min <= times[i] <= max)
  }

  /** What the ranges are cut for: as many samples, d, fall into each of them but the first, which has one less, and the
      last.  Sample i is in range j exactly if i is at least j * d - 1 and, unless j is the last, below that of j + 1. */
  lemma {:induction false} SampleInRange(times: seq<int>, n: nat, min: int, max: int, i: nat, j: nat)
    requires times != [] && n > 0 && Strict(times, min, max) && i < |times| && j <= |CutTimes(times, n)|
    ensures In(times[i], FromCuts(min, max, CutTimes(times, n))[j]) <==>
            j * PerRange(|times|, n) <= i + 1
            && (j < |CutTimes(times, n)| ==> i + 1 < (j + 1) * PerRange(|times|, n))
  {
    CutTimesAre(times, n);
    SampleInCut(times, PerRange(|times|, n), |CutTimes(times, n)|, min, max, i, j);
  }

  lemma {:induction false} CutTimesAre(times: seq<int>, n: nat)
    requires times != [] && n > 0
    ensures var (d, k) := (PerRange(|times|, n), |CutTimes(times, n)|);
            k * d < |times| && CutTimes(times, n) == Cuts(times, d, k)
  {
    var d := PerRange(|times|, n);
    assert |CutTimes(times, n)| * d + (|times| - 1) % d == |times| - 1;
  }

  lemma {:induction false} SampleInCut(times: seq<int>, d: nat, k: nat, min: int, max: int, i: nat, j: nat)
    requires d > 0 && k * d <= |times| && Strict(times, min, max) && i < |times| && j <= k
    ensures In(times[i], FromCuts(min, max, Cuts(times, d, k))[j]) <==>
            j * d <= i + 1 && (j < k ==> i + 1 < (j + 1) * d)
  {
    FromCutsAt(min, max, Cuts(times, d, k), j);
    if j == 0 {
      assert j * d == 0;
    } else {
      CutsAt(times, d, k, j - 1);
      LaterSample(times, min, max, j * d - 1, i);
    }
    if j < k {
      CutsAt(times, d, k, j);
      LaterSample(times, min, max, (j + 1) * d - 1, i);
    }
  }

  lemma {:induction false} LaterSample(times: seq<int>, min: int, max: int, a: int, i: nat)
    requires Strict(times, min, max) && 0 <= a < |times| && i < |times|
    ensures times[a] <= times[i] <==> a <= i
  {
  }

  /** The number of ranges that a cpu's samples are to be spread over. */
  function RangeCount(count: nat, interval: int): (n: nat)
    requires interval > 0
    ensures n > 0
    ensures Nearest(n, count, interval as real) || (n == 1 && Nearest(0, count, interval as real))
  {
    RoundNearest(count, interval as real);
    var n := Round(count as real / interval as real);
    if n < 1 then 1 else n
  }

  /** One cpu's share: cut by its samples and intersected with the ranges given; left alone without samples.
      With cut times that never go back, the self test then passes exactly when the ranges given have gaps between
      them. */
  method SplitByDensity(times: seq<int>, interval: int, ts: Ranges) returns (rs: Ranges)
    requires Valid(ts) && ts != [] && interval > 0
    ensures times == [] ==> rs == ts
    ensures times != [] ==>
              var (min, max, cuts) := (ts[0].start, ts[|ts| - 1].end, CutTimes(times, RangeCount(|times|, interval)));
              && rs == Intersect(FromCuts(min, max, cuts), ts) && |cuts| < RangeCount(|times|, interval)
              && (NonDecreasing(min, cuts, max) ==> SameCover(rs, ts) && (Recombine(rs) == ts <==> Gapped(ts)))
              && (Increasing(min, cuts, max) ==> Valid(rs))
  {
    if times == [] {
      return ts;
    }
    var (min, max) := (ts[0].start, ts[|ts| - 1].end);
    var n := RangeCount(|times|, interval);
    var pieces := SplitBySamples(times, n, min, max);
    var list := new RangeList(pieces);
    IntersectTimeRanges(list, ts);
    rs := list.data;
    ghost var cuts := CutTimes(times, n);
    if NonDecreasing(min, cuts, max) {
      DensityCovers(ts, cuts);
      SelfTestAfterDensity(ts, cuts);
    }
    if Increasing(min, cuts, max) {
      FromCutsValid(min, max, cuts);
      IntersectValid(FromCuts(min, max, cuts), ts);
    }
  }

  // ---------------------------------------------------------------- the self test

  /** CheckTimeRanges: false where the original raises. */
  method CheckTimeRanges(splits: seq<Ranges>, rs: Ranges) returns (ok: bool)
    ensures ok <==> forall k :: 0 <= k < |splits| ==> Recombine(splits[k]) == rs
  {
    for k := 0 to |splits|
      invariant forall j :: 0 <= j < k ==> Recombine(splits[j]) == rs
    {
      var newTr := RecombineTimeRanges(splits[k]);
      if newTr != rs {
        return false;
      }
    }
    return true;
  }

  /** After splitting by interval, the self test passes exactly when the ranges given have gaps between them. */
  lemma {:induction false} SelfTestAfterInterval(rs: Ranges, interval: real)
    requires Valid(rs) && interval > 0.0
    ensures Recombine(SplitAll(rs, interval)) == rs <==> Gapped(rs)
  {
    SplitAllPartitions(rs, interval, 0);
    forall x ensures Covers(SplitAll(rs, interval), x) <==> Covers(rs, x) {
      SplitAllPartitions(rs, interval, x);
    }
    ValidIsTame(SplitAll(rs, interval));
    RecombineRestores(SplitAll(rs, interval), rs);
  }

  lemma {:induction false} CoveredToEnd(rs: Ranges, x: int)
    requires Valid(rs) && Covers(rs, x)
    ensures x <= rs[|rs| - 1].end
    ensures rs[0].start <= x
  {
    CoveredFromStart(rs, x);
    if |rs| > 1 {
      if Covers(rs[1..], x) {
        CoveredToEnd(rs[1..], x);
      } else {
        assert Covers(rs[1..], rs[1].start);
        CoveredToEnd(rs[1..], rs[1].start);
      }
    }
  }

  /** What is left of contiguous ranges within ts: an empty one follows its predecessor, or comes first and then
      starts inside ts. */
  lemma {:induction false} IntersectTame(a: Ranges, ts: Ranges)
    requires Contiguous(a) && Valid(ts)
    ensures var r := Intersect(a, ts);
            r != [] ==>
              && a != [] && ts != [] && r[0].start >= a[0].start && Follows(r[0].end, r[1..])
              && (r[0].start <= r[0].end || (r[0].end + 1 == r[0].start == a[0].start && ts[0].start < a[0].start))
    decreases |a| + |ts|, if a != [] && ts != [] && a[0].start <= ts[0].end then 1 else 0
  {
    if a != [] && ts != [] {
      var r := Intersect(a, ts);
      if a[0].end < ts[0].start {
        IntersectTame(a[1..], ts);
      } else if a[0].start > ts[0].end {
        IntersectTame(a, ts[1..]);
      } else if a[0].end > ts[0].end {
        var rest := Rest(a, ts);
        assert rest[1..] == a[1..];
        IntersectTame(rest, ts);
        assert r[1..] == Intersect(rest, ts);
      } else {
        IntersectTame(a[1..], ts);
        assert r[1..] == Intersect(a[1..], ts);
      }
    }
  }

  /** Splitting by density at times that never go back keeps what is covered. */
  lemma {:induction false} DensityCovers(rs: Ranges, cuts: seq<int>)
    requires Valid(rs) && rs != [] && NonDecreasing(rs[0].start, cuts, rs[|rs| - 1].end)
    ensures var split := FromCuts(rs[0].start, rs[|rs| - 1].end, cuts);
            Tame(Intersect(split, rs)) && SameCover(Intersect(split, rs), rs)
  {
    var (min, max) := (rs[0].start, rs[|rs| - 1].end);
    var split := FromCuts(min, max, cuts);
    FromCutsPartition(min, max, cuts, 0);
    IntersectTame(split, rs);
    ContiguousIsWeak(split);
    forall x ensures Covers(Intersect(split, rs), x) <==> Covers(rs, x) {
      FromCutsPartition(min, max, cuts, x);
      IntersectCovers(split, rs, x);
      if Covers(rs, x) {
        CoveredToEnd(rs, x);
      }
    }
  }

  /** After splitting by density at times that never go back, and intersecting with the ranges given, the self test
      passes exactly when these have gaps between them. */
  lemma {:induction false} SelfTestAfterDensity(rs: Ranges, cuts: seq<int>)
    requires Valid(rs) && rs != [] && NonDecreasing(rs[0].start, cuts, rs[|rs| - 1].end)
    ensures var split := FromCuts(rs[0].start, rs[|rs| - 1].end, cuts);
            Recombine(Intersect(split, rs)) == rs <==> Gapped(rs)
  {
    DensityCovers(rs, cuts);
    RecombineRestores(Intersect(FromCuts(rs[0].start, rs[|rs| - 1].end, cuts), rs), rs);
  }

  /** Ranges that touch fail the self test however they are split: [0, 4] and [5, 9], whole or by any interval. */
  lemma {:induction false} TouchingRangesFail(interval: real)
    requires interval > 0.0
    ensures var rs := [Range(0, 4), Range(5, 9)];
            Valid(rs) && Recombine(SplitAll(rs, interval)) != rs && Recombine(rs) == [Range(0, 9)]
  {
    var rs := [Range(0, 4), Range(5, 9)];
    assert rs[1..] == [Range(5, 9)] && rs[2..] == [] && rs[1..][1..] == [];
    SelfTestAfterInterval(rs, interval);
  }
}
