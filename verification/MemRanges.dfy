/** Memory-type counts of physical address samples (source/scripts/python/mem-phys-addr.py): the ranges of
    /proc/iomem kept by indent, the parent links found while reading them, the search for the deepest range
    that holds an address, and the pass that adds the children's counts into their parents. */
module MemRanges {
  import opened Common

  datatype Entry = IomemEntry(begin: nat, end: nat, indent: nat, name: string)

  predicate Holds(e: Entry, a: nat) { e.begin <= a <= e.end }

  predicate Inside(x: Entry, y: Entry) { y.begin <= x.begin && x.end <= y.end && y.indent < x.indent }

  predicate Apart(x: Entry, y: Entry) { x.end < y.begin || y.end < x.begin }

  /** A listing as the kernel prints it: sorted, and of two ranges the later lies beyond the earlier or,
      indented more, within it. */
  ghost predicate Nested(es: seq<Entry>) {
    && (forall i :: 0 <= i < |es| ==> es[i].begin <= es[i].end)
    && (forall i, j :: 0 <= i < j < |es| ==> InOrder(es[i], es[j]))
  }

  predicate InOrder(x: Entry, y: Entry) { x.begin <= y.begin && (Inside(y, x) || x.end < y.begin) }

  ghost predicate HasParent(es: seq<Entry>, j: nat)
    requires j < |es|
  {
    exists i :: 0 <= i < j && Inside(es[j], es[i])
  }

  /** Every indented range lies within an earlier one. */
  ghost predicate Rooted(es: seq<Entry>) { forall j :: 0 <= j < |es| && es[j].indent > 0 ==> HasParent(es, j) }

  /** The range with the largest indent among those that hold an address. */
  ghost predicate IsDeepest(es: seq<Entry>, a: nat, e: Entry) {
    e in es && Holds(e, a) && forall x :: x in es && Holds(x, a) && x != e ==> x.indent < e.indent
  }

  /** The innermost range around another one. */
  ghost predicate IsParent(es: seq<Entry>, p: Entry, c: Entry) {
    p in es && c in es && Inside(c, p) && forall x :: x in es && Inside(c, x) && x != p ==> x.indent < p.indent
  }

  ghost predicate NoneHolds(es: seq<Entry>, a: nat) { forall x :: x in es ==> !Holds(x, a) }

  /** Two ranges of a listing: one within the other, or apart. */
  lemma {:induction false} Pair(es: seq<Entry>, x: Entry, y: Entry)
    requires Nested(es) && x in es && y in es
    ensures x == y || Inside(x, y) || Inside(y, x) || Apart(x, y)
  {
    var i :| 0 <= i < |es| && es[i] == x;
    var j :| 0 <= j < |es| && es[j] == y;
    if i < j { assert InOrder(x, y); } else if j < i { assert InOrder(y, x); }
  }

  // The listing, level by level

  /** The ranges with one indent, in the order of the listing. */
  function Level(es: seq<Entry>, indent: nat): seq<Entry> {
    if es == [] then []
    else Level(es[..|es| - 1], indent) + (if es[|es| - 1].indent == indent then [es[|es| - 1]] else [])
  }

  lemma {:induction false} LevelMembers(es: seq<Entry>, indent: nat, x: Entry)
    ensures x in Level(es, indent) <==> x in es && x.indent == indent
  {
    if es != [] {
      LevelMembers(es[..|es| - 1], indent, x);
      assert es == es[..|es| - 1] + [es[|es| - 1]];
    }
  }

  ghost predicate Ascending(list: seq<Entry>) { forall i, j :: 0 <= i < j < |list| ==> list[i].end < list[j].begin }

  /** Within a level the ranges are sorted and apart. */
  lemma {:induction false} LevelAscends(es: seq<Entry>, indent: nat)
    requires Nested(es)
    ensures Ascending(Level(es, indent))
  {
    if es != [] {
      var n := |es| - 1;
      LevelAscends(es[..n], indent);
      var most := Level(es[..n], indent);
      forall i | 0 <= i < |most| && es[n].indent == indent ensures most[i].end < es[n].begin {
        LevelMembers(es[..n], indent, most[i]);
        var k :| 0 <= k < n && es[k] == most[i];
        assert InOrder(es[k], es[n]);
      }
    }
  }

  lemma {:induction false} LevelPush(es: seq<Entry>, e: Entry, indent: nat)
    ensures Level(es + [e], indent) == Level(es, indent) + (if e.indent == indent then [e] else [])
  {
    assert (es + [e])[..|es|] == es;
  }

  /** The number of ranges, in a sorted list, that begin at an address or before it. */
  function BisectRight(list: seq<Entry>, a: nat): (p: nat)
    ensures p <= |list| && (p > 0 ==> list[p - 1].begin <= a)
    ensures forall i :: p <= i < |list| ==> a < list[i].begin
  {
    if list == [] then 0
    else if list[|list| - 1].begin <= a then |list|
    else BisectRight(list[..|list| - 1], a)
  }

  /** The entry found in one level: the last one at or before the address and, when there is none,
      the very last one, which Python's index -1 denotes. */
  function Candidate(list: seq<Entry>, a: nat): (e: Entry)
    requires list != []
    ensures e in list
  {
    var p := BisectRight(list, a);
    if p == 0 then list[|list| - 1] else list[p - 1]
  }

  /** If any range of the level holds the address, the candidate does. */
  lemma {:induction false} CandidateHolds(list: seq<Entry>, a: nat, x: Entry)
    requires Ascending(list) && x in list && Holds(x, a)
    ensures Candidate(list, a) == x
  {
    var i :| 0 <= i < |list| && list[i] == x;
    var p := BisectRight(list, a);
    assert i == p - 1;
  }

  // Ranges and their children

  lemma {:induction false} SiblingsApart(es: seq<Entry>, p: Entry, c: Entry, d: Entry)
    requires Nested(es) && IsParent(es, p, c) && IsParent(es, p, d) && c != d
    ensures Apart(c, d)
  {
    Pair(es, c, d);
  }

  /** From a range inside e outwards to the child of e around it. */
  lemma {:induction false} ChildAround(es: seq<Entry>, e: Entry, x: Entry, a: nat) returns (c: Entry)
    requires Nested(es) && e in es && x in es && Inside(x, e) && Holds(x, a) && x.begin <= x.end
    ensures IsParent(es, e, c) && Holds(c, a)
    decreases x.indent
  {
    if IsParent(es, e, x) { return x; }
    var y :| y in es && Inside(x, y) && y != e && y.indent >= e.indent;
    Pair(es, e, y);
    c := ChildAround(es, e, y, a);
  }

  /** An address in a range is its own, or belongs to one of its children, and not both. */
  lemma {:induction false} OwnOrChild(es: seq<Entry>, e: Entry, a: nat)
    requires Nested(es) && e in es
    ensures Holds(e, a) <==> IsDeepest(es, a, e) || exists c :: IsParent(es, e, c) && Holds(c, a)
    ensures IsDeepest(es, a, e) ==> !exists c :: IsParent(es, e, c) && Holds(c, a)
  {
    if Holds(e, a) && !IsDeepest(es, a, e) {
      var x :| x in es && Holds(x, a) && x != e && x.indent >= e.indent;
      Pair(es, e, x);
      var c := ChildAround(es, e, x, a);
    }
  }

  /** An address held by any range is held by one without indent. */
  lemma {:induction false} RootAround(es: seq<Entry>, j: nat, a: nat) returns (top: Entry)
    requires Rooted(es) && j < |es| && Holds(es[j], a)
    ensures top in es && top.indent == 0 && Holds(top, a)
    decreases es[j].indent
  {
    if es[j].indent == 0 { return es[j]; }
    var i :| 0 <= i < j && Inside(es[j], es[i]);
    top := RootAround(es, i, a);
  }

  // Counting samples

  ghost predicate HeldBy(a: nat, s: set<Entry>) { exists c :: c in s && Holds(c, a) }

  /** The number of samples held by any of some ranges. */
  ghost function Hits(samples: seq<nat>, s: set<Entry>): nat {
    if samples == [] then 0
    else Hits(samples[..|samples| - 1], s) + (if HeldBy(samples[|samples| - 1], s) then 1 else 0)
  }

  /** The number of samples that have a range as their deepest one. */
  ghost function OwnHits(samples: seq<nat>, es: seq<Entry>, e: Entry): nat {
    if samples == [] then 0
    else OwnHits(samples[..|samples| - 1], es, e) + (if IsDeepest(es, samples[|samples| - 1], e) then 1 else 0)
  }

  ghost predicate AllApart(s: set<Entry>, c: Entry) { forall d :: d in s ==> Apart(d, c) }

  lemma {:induction false} HitsAdd(samples: seq<nat>, s: set<Entry>, c: Entry)
    requires AllApart(s, c)
    ensures Hits(samples, s + {c}) == Hits(samples, s) + Hits(samples, {c})
  {
    if samples != [] {
      var a := samples[|samples| - 1];
      HitsAdd(samples[..|samples| - 1], s, c);
      assert c in {c};
      assert HeldBy(a, {c}) <==> Holds(c, a);
      assert HeldBy(a, s + {c}) <==> HeldBy(a, s) || Holds(c, a) by {
        if HeldBy(a, s) { var d :| d in s && Holds(d, a); assert d in s + {c}; }
        assert c in s + {c};
      }
    }
  }

  lemma {:induction false} HitsNone(samples: seq<nat>)
    ensures Hits(samples, {}) == 0
  {
    if samples != [] { HitsNone(samples[..|samples| - 1]); }
  }

  /** A range's samples are its own and those of its children. */
  lemma {:induction false} HitsSplit(samples: seq<nat>, es: seq<Entry>, e: Entry, kids: set<Entry>)
    requires Nested(es) && e in es && forall c :: c in kids <==> IsParent(es, e, c)
    ensures Hits(samples, {e}) == OwnHits(samples, es, e) + Hits(samples, kids)
  {
    if samples != [] {
      var a := samples[|samples| - 1];
      HitsSplit(samples[..|samples| - 1], es, e, kids);
      OwnOrChild(es, e, a);
      assert e in {e};
      assert HeldBy(a, {e}) <==> Holds(e, a);
    }
  }

  ghost function All(es: seq<Entry>): set<Entry> { set e | e in es }

  /** The samples within any range are those within the ranges without indent. */
  lemma {:induction false} HitsTop(samples: seq<nat>, es: seq<Entry>)
    requires Rooted(es)
    ensures Hits(samples, All(Level(es, 0))) == Hits(samples, All(es))
  {
    if samples != [] {
      var a := samples[|samples| - 1];
      HitsTop(samples[..|samples| - 1], es);
      if HeldBy(a, All(es)) {
        var e :| e in All(es) && Holds(e, a);
        var j :| 0 <= j < |es| && es[j] == e;
        var top := RootAround(es, j, a);
        LevelMembers(es, 0, top);
        assert top in All(Level(es, 0));
      }
      if HeldBy(a, All(Level(es, 0))) {
        var e :| e in All(Level(es, 0)) && Holds(e, a);
        LevelMembers(es, 0, e);
        assert e in All(es);
      }
    }
  }

  // The counter

  function Count(cnt: map<Entry, nat>, e: Entry): nat { if e in cnt then cnt[e] else 0 }

  ghost function SumValues(cnt: map<Entry, nat>): nat
    decreases |cnt|
  {
    if !exists k :: k in cnt then 0
    else var k :| k in cnt; cnt[k] + SumValues(cnt - {k})
  }

  lemma {:induction false} SumRemove(cnt: map<Entry, nat>, k: Entry)
    requires k in cnt
    ensures SumValues(cnt) == cnt[k] + SumValues(cnt - {k})
    decreases |cnt|
  {
    var p :| p in cnt && SumValues(cnt) == cnt[p] + SumValues(cnt - {p});
    if p != k {
      SumRemove(cnt - {p}, k);
      SumRemove(cnt - {k}, p);
      assert cnt - {p} - {k} == cnt - {k} - {p};
    }
  }

  lemma {:induction false} SumBump(cnt: map<Entry, nat>, e: Entry)
    ensures SumValues(cnt[e := Count(cnt, e) + 1]) == SumValues(cnt) + 1
  {
    var more := cnt[e := Count(cnt, e) + 1];
    SumRemove(more, e);
    assert more - {e} == cnt - {e};
    if e in cnt { SumRemove(cnt, e); } else { assert cnt - {e} == cnt; }
  }

  function SumOf(list: seq<Entry>, cnt: map<Entry, nat>): nat {
    if list == [] then 0 else SumOf(list[..|list| - 1], cnt) + Count(cnt, list[|list| - 1])
  }

  lemma {:induction false} SumOfApart(list: seq<Entry>, cnt: map<Entry, nat>, samples: seq<nat>)
    requires Ascending(list) && forall e :: e in list ==> Count(cnt, e) == Hits(samples, {e})
    ensures SumOf(list, cnt) == Hits(samples, All(list))
  {
    if list == [] {
      HitsNone(samples);
      assert All(list) == {};
    } else {
      var n := |list| - 1;
      SumOfApart(list[..n], cnt, samples);
      assert AllApart(All(list[..n]), list[n]);
      HitsAdd(samples, All(list[..n]), list[n]);
      assert All(list) == All(list[..n]) + {list[n]} by { assert list == list[..n] + [list[n]]; }
    }
  }

  // The tables of the program

  ghost predicate IsChild(children: map<Entry, set<Entry>>, p: Entry, c: Entry) { p in children && c in children[p] }

  /** The recorded links are those to the innermost range around each one. */
  ghost predicate Links(es: seq<Entry>, children: map<Entry, set<Entry>>) {
    forall p, c :: IsChild(children, p, c) <==> IsParent(es, p, c)
  }

  /** The ranges are kept by indent. */
  ghost predicate Levels(es: seq<Entry>, iomem: map<nat, seq<Entry>>, maxIndent: nat) {
    && (forall i: nat :: LevelKept(es, iomem, i))
    && (forall e :: e in es ==> e.indent <= maxIndent)
  }

  ghost predicate LevelKept(es: seq<Entry>, iomem: map<nat, seq<Entry>>, i: nat) {
    if i in iomem then iomem[i] == Level(es, i) && iomem[i] != [] else Level(es, i) == []
  }

  function Listed(iomem: map<nat, seq<Entry>>, e: Entry): map<nat, seq<Entry>> {
    iomem[e.indent := (if e.indent in iomem then iomem[e.indent] else []) + [e]]
  }

  lemma {:induction false} LevelsPush(es: seq<Entry>, e: Entry, iomem: map<nat, seq<Entry>>, maxIndent: nat)
    requires Levels(es, iomem, maxIndent) && e.indent <= maxIndent
    ensures Levels(es + [e], Listed(iomem, e), maxIndent)
  {
    forall i: nat ensures LevelKept(es + [e], Listed(iomem, e), i) {
      assert LevelKept(es, iomem, i);
      LevelPush(es, e, i);
    }
  }

  /** The last range of a listing is in no other way placed to an earlier one than in order. */
  lemma {:induction false} LastInOrder(es: seq<Entry>, e: Entry, x: Entry)
    requires Nested(es + [e]) && x in es
    ensures InOrder(x, e) && e.begin <= e.end && x != e
    ensures !Inside(x, e) && (Inside(e, x) <==> Holds(x, e.begin))
  {
    var i :| 0 <= i < |es| && es[i] == x;
    assert InOrder((es + [e])[i], (es + [e])[|es|]);
    assert (es + [e])[|es|] == e && (es + [e])[i] == x;
  }

  /** The parent of a range that is read is the deepest range so far that holds its first address;
      the parents of the others stay. */
  lemma {:induction false} ParentWhenRead(es: seq<Entry>, e: Entry, p: Entry, c: Entry)
    requires Nested(es + [e])
    ensures IsParent(es + [e], p, c) <==> IsParent(es, p, c) || (c == e && IsDeepest(es, e.begin, p))
  {
    forall x | x in es ensures InOrder(x, e) && x != e && !Inside(x, e) && (Inside(e, x) <==> Holds(x, e.begin)) {
      LastInOrder(es, e, x);
    }
    assert forall x :: x in es + [e] <==> x in es || x == e;
    if c in es {
      assert !Inside(c, e);
      assert IsParent(es + [e], p, c) <==> IsParent(es, p, c);
    } else if c == e {
      assert IsParent(es + [e], p, e) <==> IsDeepest(es, e.begin, p);
    }
  }

  function Adopt(children: map<Entry, set<Entry>>, parent: Option<Entry>, e: Entry): map<Entry, set<Entry>> {
    if parent.None? then children
    else children[parent.value := (if parent.value in children then children[parent.value] else {}) + {e}]
  }

  ghost predicate IsFound(es: seq<Entry>, a: nat, r: Option<Entry>) {
    if r.Some? then IsDeepest(es, a, r.value) else NoneHolds(es, a)
  }

  lemma {:induction false} LinksPush(es: seq<Entry>, e: Entry, children: map<Entry, set<Entry>>, parent: Option<Entry>)
    requires Nested(es + [e]) && Links(es, children) && IsFound(es, e.begin, parent)
    ensures Links(es + [e], Adopt(children, parent, e))
  {
    forall p, c ensures IsChild(Adopt(children, parent, e), p, c) <==> IsParent(es + [e], p, c) {
      ParentWhenRead(es, e, p, c);
      assert IsChild(children, p, c) <==> IsParent(es, p, c);
      assert IsDeepest(es, e.begin, p) <==> parent == Some(p);
    }
  }

  /** A listing stays rooted when the next range is not indented or begins within an earlier one. */
  lemma {:induction false} RootedPush(es: seq<Entry>, e: Entry)
    requires Nested(es + [e]) && Rooted(es)
    ensures Rooted(es + [e]) <==> (e.indent > 0 ==> !NoneHolds(es, e.begin))
    ensures e.indent == 0 ==> NoneHolds(es, e.begin)
  {
    var all := es + [e];
    forall x | x in es ensures Inside(e, x) <==> Holds(x, e.begin) { LastInOrder(es, e, x); }
    forall j | 0 <= j < |es| && es[j].indent > 0 ensures HasParent(all, j) {
      assert HasParent(es, j);
      var i :| 0 <= i < j && Inside(es[j], es[i]);
      assert Inside(all[j], all[i]);
    }
    assert all[|es|] == e;
    if !NoneHolds(es, e.begin) {
      var x :| x in es && Holds(x, e.begin);
      var i :| 0 <= i < |es| && es[i] == x;
      assert Inside(all[|es|], all[i]);
    }
  }

  lemma {:induction false} RootedPrefix(es: seq<Entry>, k: nat)
    requires Rooted(es) && k <= |es|
    ensures Rooted(es[..k])
  {
    forall j | 0 <= j < k && es[j].indent > 0 ensures HasParent(es[..k], j) {
      assert HasParent(es, j);
      var i :| 0 <= i < j && Inside(es[j], es[i]);
      assert Inside(es[..k][j], es[..k][i]);
    }
  }

  /** Every sample is counted for the deepest range that holds it, and for no other. */
  ghost predicate CountsOwn(cnt: map<Entry, nat>, es: seq<Entry>, samples: seq<nat>) {
    && (forall e :: OwnCounted(cnt, es, samples, e))
    && SumValues(cnt) == Hits(samples, All(es))
  }

  ghost predicate OwnCounted(cnt: map<Entry, nat>, es: seq<Entry>, samples: seq<nat>, e: Entry) {
    Count(cnt, e) == if e in es then OwnHits(samples, es, e) else 0
  }

  function Counted(cnt: map<Entry, nat>, entry: Option<Entry>): map<Entry, nat> {
    if entry.None? then cnt else cnt[entry.value := Count(cnt, entry.value) + 1]
  }

  lemma {:induction false} CountsPush(cnt: map<Entry, nat>, es: seq<Entry>, samples: seq<nat>, a: nat, entry: Option<Entry>)
    requires CountsOwn(cnt, es, samples) && IsFound(es, a, entry)
    ensures CountsOwn(Counted(cnt, entry), es, samples + [a])
  {
    assert (samples + [a])[..|samples|] == samples;
    assert HeldBy(a, All(es)) <==> entry.Some?;
    if entry.Some? { SumBump(cnt, entry.value); }
    forall e ensures OwnCounted(Counted(cnt, entry), es, samples + [a], e) {
      assert OwnCounted(cnt, es, samples, e);
      assert IsDeepest(es, a, e) <==> entry == Some(e);
    }
  }

  class PhysMem {
    var iomem: map<nat, seq<Entry>>
    var children: map<Entry, set<Entry>>
    var maxIndent: nat
    var loadMemTypeCnt: map<Entry, nat>
    ghost var entries: seq<Entry> // the ranges read
    ghost var samples: seq<nat>   // the addresses sampled

    ghost predicate Loaded()
      reads this`iomem, this`children, this`maxIndent, this`entries
    {
      Nested(entries) && Levels(entries, iomem, maxIndent) && Links(entries, children)
    }

    ghost predicate OwnCounts()
      reads this`loadMemTypeCnt, this`entries, this`samples
    {
      CountsOwn(loadMemTypeCnt, entries, samples)
    }

    constructor ()
      ensures Loaded() && OwnCounts() && entries == [] && samples == []
    {
      iomem, children, maxIndent, loadMemTypeCnt, entries, samples := map[], map[], 0, map[], [], [];
    }

    /** The range with the largest indent that holds the address. */
    method FindMemoryType(physAddr: nat) returns (r: Option<Entry>)
      requires Nested(entries) && Levels(entries, iomem, maxIndent)
      ensures IsFound(entries, physAddr, r)
    {
      for i := maxIndent + 1 downto 0
        invariant forall x :: x in entries && Holds(x, physAddr) ==> x.indent < i
      {
        assert LevelKept(entries, iomem, i);
        if i in iomem {
          var list := iomem[i];
          var e := Candidate(list, physAddr);
          LevelAscends(entries, i);
          forall x | x in entries && x.indent == i && Holds(x, physAddr) ensures x == e {
            LevelMembers(entries, i, x);
            CandidateHolds(list, physAddr, x);
          }
          LevelMembers(entries, i, e);
          if e.begin <= physAddr <= e.end {
            return Some(e);
          }
        } else {
          forall x | x in entries ensures x.indent != i { LevelMembers(entries, i, x); }
        }
      }
      return None;
    }

    /** Reads the listing; the result is false when an indented range has no range around it. */
    method ParseIomem(lines: seq<Entry>) returns (ok: bool)
      requires Loaded() && entries == [] && Nested(lines)
      modifies this`iomem, this`children, this`maxIndent, this`entries
      ensures ok <==> Rooted(lines)
      ensures ok ==> Loaded() && entries == lines
    {
      for k := 0 to |lines|
        invariant Loaded() && entries == lines[..k] && Rooted(entries)
      {
        assert lines[..k + 1] == lines[..k] + [lines[k]];
        RootedPush(entries, lines[k]);
        ok := AddLine(lines[k]);
        if !ok {
          if Rooted(lines) { RootedPrefix(lines, k + 1); }
          return;
        }
      }
      assert lines[..|lines|] == lines;
      ok := true;
    }

    method AddLine(entry: Entry) returns (ok: bool)
      requires Loaded() && Nested(entries + [entry]) && Rooted(entries)
      modifies this`iomem, this`children, this`maxIndent, this`entries
      ensures ok <==> (entry.indent > 0 ==> !NoneHolds(old(entries), entry.begin))
      ensures ok ==> Loaded() && entries == old(entries) + [entry]
    {
      RootedPush(entries, entry);
      if entry.indent > maxIndent {
        maxIndent := entry.indent;
      }
      var parent: Option<Entry> := None;
      if entry.indent > 0 {
        parent := FindMemoryType(entry.begin);
        if parent.None? { return false; }
      }
      LinksPush(entries, entry, children, parent);
      children := Adopt(children, parent, entry);
      LevelsPush(entries, entry, iomem, maxIndent);
      iomem := Listed(iomem, entry);
      entries := entries + [entry];
      ok := true;
    }

    /** Counts a sample that has a physical address. */
    method ProcessEvent(physAddr: Option<nat>)
      requires Loaded() && OwnCounts()
      modifies this`loadMemTypeCnt, this`samples
      ensures OwnCounts()
      ensures samples == if physAddr.None? then old(samples) else old(samples) + [physAddr.value]
    {
      if physAddr.None? { return; }
      var entry := FindMemoryType(physAddr.value);
      CountsPush(loadMemTypeCnt, entries, samples, physAddr.value, entry);
      loadMemTypeCnt := Counted(loadMemTypeCnt, entry);
      samples := samples + [physAddr.value];
    }

    /** The pass over the levels from the deepest outwards: afterwards each count is the number of samples
        that the range holds, and the ranges without indent add up to what was counted before. */
    method AddChildren()
      requires Loaded() && Rooted(entries) && OwnCounts()
      modifies this`loadMemTypeCnt
      ensures forall e :: e in entries ==> Count(loadMemTypeCnt, e) == Hits(samples, {e})
      ensures SumOf(if 0 in iomem then iomem[0] else [], loadMemTypeCnt) == SumValues(old(loadMemTypeCnt))
    {
      forall e | e in entries ensures Count(loadMemTypeCnt, e) == OwnHits(samples, entries, e) {
        assert OwnCounted(loadMemTypeCnt, entries, samples, e);
      }
      for i := maxIndent + 1 downto 0
        invariant RolledUp(i, [])
      {
        assert LevelKept(entries, iomem, i);
        if i in iomem {
          for k := 0 to |iomem[i]|
            invariant RolledUp(i + 1, iomem[i][..k])
          {
            AddKids(iomem[i][k], i, k);
          }
          LevelDone(i);
        } else {
          forall e | e in entries ensures e.indent != i { LevelMembers(entries, i, e); }
        }
      }
      TopsAddUp();
    }

    /** The ranges without indent hold every sample that any range holds, each once. */
    lemma {:induction false} TopsAddUp()
      requires Loaded() && Rooted(entries) && RolledUp(0, [])
      ensures SumOf(if 0 in iomem then iomem[0] else [], loadMemTypeCnt) == Hits(samples, All(entries))
    {
      assert LevelKept(entries, iomem, 0);
      LevelAscends(entries, 0);
      forall e | e in Level(entries, 0) ensures e in entries { LevelMembers(entries, 0, e); }
      SumOfApart(Level(entries, 0), loadMemTypeCnt, samples);
      HitsTop(samples, entries);
    }

    /** The counts are final for the ranges indented at least so far and for those in a list. */
    ghost predicate RolledUp(indent: nat, list: seq<Entry>)
      reads this`loadMemTypeCnt, this`entries, this`samples
    {
      forall e :: e in entries ==> Count(loadMemTypeCnt, e)
                                   == if e.indent >= indent || e in list then Hits(samples, {e}) else OwnHits(samples, entries, e)
    }

    lemma {:induction false} LevelDone(i: nat)
      requires Levels(entries, iomem, maxIndent) && i in iomem && RolledUp(i + 1, iomem[i][..|iomem[i]|])
      ensures RolledUp(i, [])
    {
      assert LevelKept(entries, iomem, i);
      assert iomem[i][..|iomem[i]|] == iomem[i];
      forall e | e in entries ensures e in iomem[i] <==> e.indent == i { LevelMembers(entries, i, e); }
    }

    /** Adds the counts of the children of one range. */
    method AddKids(entry: Entry, ghost i: nat, ghost k: nat)
      requires Loaded() && i in iomem && k < |iomem[i]| && entry == iomem[i][k]
      requires RolledUp(i + 1, iomem[i][..k])
      modifies this`loadMemTypeCnt
      ensures RolledUp(i + 1, iomem[i][..k + 1])
    {
      assert LevelKept(entries, iomem, i);
      LevelMembers(entries, i, entry);
      LevelAscends(entries, i);
      var todo := if entry in children then children[entry] else {};
      ghost var kids := todo;
      ghost var done: set<Entry> := {};
      ghost var before := loadMemTypeCnt;
      forall c ensures c in kids <==> IsParent(entries, entry, c) { assert IsChild(children, entry, c) <==> c in kids; }
      HitsNone(samples);
      while todo != {}
        invariant done + todo == kids && done !! todo
        invariant Count(loadMemTypeCnt, entry) == OwnHits(samples, entries, entry) + Hits(samples, done)
        invariant forall x :: x != entry ==> Count(loadMemTypeCnt, x) == Count(before, x)
        decreases todo
      {
        var child :| child in todo;
        assert Count(loadMemTypeCnt, child) == Hits(samples, {child});
        forall d | d in done ensures Apart(d, child) { SiblingsApart(entries, entry, d, child); }
        HitsAdd(samples, done, child);
        if Count(loadMemTypeCnt, child) > 0 {
          loadMemTypeCnt := loadMemTypeCnt[entry := Count(loadMemTypeCnt, entry) + Count(loadMemTypeCnt, child)];
        }
        todo := todo - {child};
        done := done + {child};
      }
      assert done == kids;
      HitsSplit(samples, entries, entry, kids);
      assert iomem[i][..k + 1] == iomem[i][..k] + [entry];
    }
  }
}
