/** Exactly when the record ring of the SQL viewer (source/scripts/python/exported-sql-viewer.py) delivers records in
    order under every interleaving: when all of them fit the buffer together, so that the head never wraps. */
module SqlOrder {
  import opened SqlRing
  import opened SqlSafety
  import opened SqlRuns

  /** The records that a run takes for the ring, in order. */
  function Takes(acts: seq<Action>): seq<Bytes> {
    if acts == [] then []
    else
      var last := acts[|acts| - 1];
      Takes(acts[..|acts| - 1]) + if last.Take? then [last.rec] else []
  }

  /** The room that records take up with their headers. */
  function Total(c: Codec, recs: seq<Bytes>): nat {
    if recs == [] then 0 else Total(c, recs[..|recs| - 1]) + FrameSize(c, recs[|recs| - 1])
  }

  /** Each record fits its header slot and, by itself, the buffer. */
  ghost predicate AllCarried(c: Codec, size: nat, recs: seq<Bytes>) {
    forall i :: 0 <= i < |recs| ==> Fits(c, recs[i]) && FrameSize(c, recs[i]) < size
  }

  /** In every run that takes some of the first of these records, in order, what has been removed is a prefix of
      what has been added. */
  ghost predicate AlwaysInOrder(c: Codec, size: nat, recs: seq<Bytes>) {
    forall acts :: Run(c, Init(size), acts) && Takes(acts) <= recs ==> IsPrefix(Exec(c, Init(size), acts))
  }

  lemma {:induction false} TotalMonotone(c: Codec, a: seq<Bytes>, b: seq<Bytes>)
    requires a <= b
    ensures Total(c, a) <= Total(c, b)
  {
    if |a| < |b| {
      TotalMonotone(c, a, b[..|b| - 1]);
    } else {
      assert a == b;
    }
  }

  // ---------------------------------------------------------------- what a run takes it adds

  function Added(log: seq<Placed>): (recs: seq<Bytes>)
    ensures |recs| == |log| && forall i :: 0 <= i < |log| ==> recs[i] == log[i].rec
  {
    seq(|log|, i requires 0 <= i < |log| => log[i].rec)
  }

  /** The record taken but not yet added. */
  function Pending(at: ProducerAt): seq<Bytes> {
    match at
    case Seeking(rec) => [rec]
    case Reloading(rec) => [rec]
    case Header(rec) => [rec]
    case Body(rec) => [rec]
    case _ => []
  }

  lemma {:induction false} TakesAreAdded(c: Codec, size: nat, acts: seq<Action>)
    requires Run(c, Init(size), acts)
    ensures var r := Exec(c, Init(size), acts).ring; Takes(acts) == Added(r.log) + Pending(r.at)
  {
    if acts != [] {
      var (init, a) := (acts[..|acts| - 1], acts[|acts| - 1]);
      RunLast(c, Init(size), acts);
      TakesAreAdded(c, size, init);
      var (r, t) := (Exec(c, Init(size), init).ring, Exec(c, Init(size), acts).ring);
      if a.WriteBody? {
        assert Added(t.log) == Added(r.log) + [r.at.rec];
      }
    }
  }

  // ---------------------------------------------------------------- records that fit together

  /** The head has never wrapped: it stands behind all the records added. */
  ghost predicate Unwrapped(c: Codec, size: nat, s: State) {
    Inv(c, s) && s.ring.wrapAt == 0 && |s.ring.buf| == size && s.ring.head == Total(c, Added(s.ring.log))
  }

  /** Where the records that have been taken fit the buffer together, room is found at once. */
  lemma {:induction false} SeekUnwrapped(c: Codec, r: Ring)
    requires RingInv(c, r) && r.wrapAt == 0 && r.at.Seeking? && r.head == Total(c, Added(r.log))
    requires Total(c, Added(r.log) + Pending(r.at)) < |r.buf|
    ensures SeekStep(c, r) == r.(at := Header(r.at.rec))
  {
    assert (Added(r.log) + [r.at.rec])[..|r.log|] == Added(r.log);
  }

  lemma {:induction false} BodyUnwrapped(c: Codec, r: Ring)
    requires r.at.Body? && r.head + FrameSize(c, r.at.rec) <= |r.buf| && r.head == Total(c, Added(r.log))
    ensures BodyStep(c, r).head == Total(c, Added(BodyStep(c, r).log))
  {
    assert Added(BodyStep(c, r).log) == Added(r.log) + [r.at.rec];
    assert (Added(r.log) + [r.at.rec])[..|r.log|] == Added(r.log);
  }

  lemma {:induction false} StepUnwrapped(c: Codec, size: nat, s: State, a: Action)
    requires Unwrapped(c, size, s) && Enabled(c, s, a) && Fitting(c, a)
    requires Total(c, Added(s.ring.log) + Pending(s.ring.at)) < size
    ensures Unwrapped(c, size, Do(c, s, a))
  {
    StepKeeps(c, s, a);
    if a.Seek? {
      SeekUnwrapped(c, s.ring);
    } else if a.WriteBody? {
      BodyUnwrapped(c, s.ring);
    } else if !a.WriteHeader? {
      assert Do(c, s, a).ring.log == s.ring.log && Do(c, s, a).ring.head == s.ring.head;
    }
  }

  lemma {:induction false} NeverWraps(c: Codec, size: nat, recs: seq<Bytes>, acts: seq<Action>)
    requires Pickles(c) && AllCarried(c, size, recs) && Total(c, recs) < size
    requires Run(c, Init(size), acts) && Takes(acts) <= recs
    ensures Unwrapped(c, size, Exec(c, Init(size), acts))
    decreases |acts|
  {
    if acts != [] {
      var (init, a) := (acts[..|acts| - 1], acts[|acts| - 1]);
      RunLast(c, Init(size), acts);
      NeverWraps(c, size, recs, init);
      TakesAreAdded(c, size, init);
      TotalMonotone(c, Takes(init), recs);
      if a.Take? {
        assert a.rec == Takes(acts)[|Takes(acts)| - 1] == recs[|Takes(acts)| - 1];
      }
      StepUnwrapped(c, size, Exec(c, Init(size), init), a);
    }
  }

  // ---------------------------------------------------------------- records that do not

  /** Room is granted at the head, before the end of the buffer. */
  lemma {:induction false} ReachGranted(c: Codec, size: nat, s: State) returns (t: State)
    requires Reachable(c, size, s) && s.ring.at.Seeking? && |c.dumps(0)| <= c.nsz
    requires s.ring.tail <= s.ring.head && s.ring.head + FrameSize(c, s.ring.at.rec) < |s.ring.buf|
    ensures Reachable(c, size, t) && t == s.(ring := s.ring.(at := Header(s.ring.at.rec)))
  {
    ReachStep(c, size, s, Seek);
    t := Do(c, s, Seek);
  }

  /** Records that fit the buffer together are added one behind the other; nothing has been announced. */
  lemma {:induction false} ReachFilled(c: Codec, size: nat, recs: seq<Bytes>) returns (s: State)
    requires Pickles(c) && AllCarried(c, size, recs) && Total(c, recs) < size
    ensures Reachable(c, size, s) && |s.ring.buf| == size && Added(s.ring.log) == recs
    ensures s == Init(size).(ring := Ring(s.ring.buf, Total(c, recs), 0, Choosing, s.ring.log, 0, 0), batch := |recs|)
  {
    if recs == [] {
      ReachInit(c, size);
      s := Init(size);
    } else {
      var (init, rec) := (recs[..|recs| - 1], recs[|recs| - 1]);
      var s0 := ReachFilled(c, size, init);
      ReachStep(c, size, s0, Take(rec));
      var s1 := Do(c, s0, Take(rec));
      var s2 := ReachGranted(c, size, s1);
      s := ReachAdd(c, size, s2);
      assert Added(s.ring.log) == init + [rec] == recs;
    }
  }

  /** The next record does not fit behind them: it is granted room over the first ones, unread, and written there. */
  lemma ReachOverwritten(c: Codec, size: nat, recs: seq<Bytes>, rec: Bytes) returns (s: State)
    requires Pickles(c) && AllCarried(c, size, recs + [rec])
    requires Total(c, recs) < size <= Total(c, recs) + FrameSize(c, rec)
    ensures Reachable(c, size, s) && |s.ring.buf| == size && Added(s.ring.log) == recs + [rec]
    ensures Stored(c, s.ring.buf, Placed(0, rec))
    ensures s == Init(size).(ring := Ring(s.ring.buf, FrameSize(c, rec), 0, Choosing, s.ring.log, 0, |recs|),
                             batch := |recs| + 1)
  {
    assert AllCarried(c, size, recs) by {
      forall i | 0 <= i < |recs| ensures Fits(c, recs[i]) && FrameSize(c, recs[i]) < size {
        assert recs[i] == (recs + [rec])[i];
      }
    }
    assert rec == (recs + [rec])[|recs|];
    var s0 := ReachFilled(c, size, recs);
    ReachStep(c, size, s0, Take(rec));
    var s1 := Do(c, s0, Take(rec));
    ReachStep(c, size, s1, Seek);
    var s2 := Do(c, s1, Seek);
    assert s2.ring == s1.ring.(buf := s2.ring.buf, head := 0, wrapAt := |recs|, at := Reloading(rec));
    ReachStep(c, size, s2, Reload);
    var s3 := Do(c, s2, Reload);
    var s4 := ReachGranted(c, size, s3);
    s := ReachAdd(c, size, s4);
    assert Added(s.ring.log) == Added(s3.ring.log) + [rec];
  }

  /** The failing run: the consumer is handed the last record first. */
  lemma BlindReloadLosesRecord(c: Codec, size: nat, recs: seq<Bytes>, rec: Bytes) returns (s: State)
    requires Pickles(c) && AllCarried(c, size, recs + [rec])
    requires Total(c, recs) < size <= Total(c, recs) + FrameSize(c, rec)
    requires recs != [] ==> rec != recs[0]
    ensures Reachable(c, size, s) && !IsPrefix(s)
    ensures Added(s.ring.log) == recs + [rec] && s.ring.at.Counted? && s.removed == [rec]
  {
    assert rec == (recs + [rec])[|recs|];
    assert recs != [];
    var s0 := ReachOverwritten(c, size, recs, rec);
    var s1 := ReachDrain(c, size, s0);
    s := ReachRemove(c, size, s1);
    LoadsAt(c, s0.ring.buf, 0, |rec|);
    assert Slice(s0.ring.buf, c.nsz, |rec|) == rec;
    assert s.removed == [] + [rec];
    assert s.ring.log[0].rec == Added(s.ring.log)[0] == recs[0];
    assert s.removed[0] != s.ring.log[0].rec;
  }

  /** A blind reload may find nothing unread in its way: the only record has been taken off, but the tail that says
      so is not published yet. */
  lemma BlindGrantMayBeFree(c: Codec, size: nat, first: Bytes, second: Bytes) returns (s: State)
    requires Pickles(c) && AllCarried(c, size, [first, second])
    requires size <= FrameSize(c, first) + FrameSize(c, second)
    ensures Reachable(c, size, s) && Enabled(c, s, Reload) && Blind(s, Reload)
    ensures var u := Do(c, s, Reload);
            Enabled(c, u, Seek) && Do(c, u, Seek).ring.at.Header?
            && !GrantedOverAny(c, Do(c, u, Seek).ring, |s.removed|)
  {
    assert [first, second][0] == first && [first, second][1] == second;
    assert [first][..0] == [] && Total(c, [first]) == FrameSize(c, first);
    var s4 := ReachFilled(c, size, [first]);
    var s5 := ReachDrain(c, size, s4);
    var s6 := ReachRemove(c, size, s5);
    ReachStep(c, size, s6, StoreHead);
    var s7 := Do(c, s6, StoreHead);
    ReachStep(c, size, s7, Take(second));
    var s8 := Do(c, s7, Take(second));
    ReachStep(c, size, s8, Seek);
    s := Do(c, s8, Seek);
    assert |s.removed| == 1 == |s.ring.log|;
  }

  /** A reachable state in which the ring is drained and the producer waits for ever, though its record is smaller than
      the buffer: the two records are too large to follow one another, and the second is not smaller than the first. */
  lemma WaitsForEver(c: Codec, size: nat, first: Bytes, second: Bytes) returns (s: State)
    requires Pickles(c) && AllCarried(c, size, [first, second])
    requires FrameSize(c, first) <= FrameSize(c, second) && size <= FrameSize(c, first) + FrameSize(c, second)
    ensures Reachable(c, size, s) && AllPublished(s) && s.ring.at == Reloading(second)
    ensures Inv(c, s) && !MayBeGranted(c, s)
  {
    assert [first, second][1] == second;
    var s7 := ReachTakenOff(c, size, first, second);
    ReachStep(c, size, s7, Take(second));
    var s8 := Do(c, s7, Take(second));
    ReachStep(c, size, s8, Seek);
    s := Do(c, s8, Seek);
    StepKeeps(c, s7, Take(second));
    StepKeeps(c, s8, Seek);
    WaitsForEverIff(c, s);
  }

  /** A first record is added, announced and removed, and the tail published. */
  lemma ReachTakenOff(c: Codec, size: nat, first: Bytes, second: Bytes) returns (s: State)
    requires Pickles(c) && AllCarried(c, size, [first, second])
    ensures Reachable(c, size, s) && Inv(c, s) && AllPublished(s) && |s.ring.buf| == size && !s.fetchingDone
    ensures s.tail == FrameSize(c, first)
    ensures s.ring == Ring(s.ring.buf, FrameSize(c, first), 0, Choosing, s.ring.log, 0, 0)
  {
    assert [first, second][0] == first && [first][..0] == [] && Total(c, [first]) == FrameSize(c, first);
    var s4 := ReachFilled(c, size, [first]);
    var s5 := ReachDrain(c, size, s4);
    var s6 := ReachRemove(c, size, s5);
    ReachStep(c, size, s6, StoreTail);
    var s7 := Do(c, s6, StoreTail);
    ReachStep(c, size, s7, StoreHead);
    s := Do(c, s7, StoreHead);
    InvWithoutWrap(c, size, s, [first]);
    assert End(c, s.ring.log, 1) == FrameSize(c, first);
  }

  lemma InvWithoutWrap(c: Codec, size: nat, s: State, recs: seq<Bytes>)
    requires Pickles(c) && AllCarried(c, size, recs) && Total(c, recs) < size
    requires Reachable(c, size, s) && Added(s.ring.log) + Pending(s.ring.at) == recs
    ensures Inv(c, s) && s.ring.head == Total(c, Added(s.ring.log))
  {
    var acts :| Run(c, Init(size), acts) && Exec(c, Init(size), acts) == s;
    TakesAreAdded(c, size, acts);
    NeverWraps(c, size, recs, acts);
  }

  /** The first record that does not fit behind those before it. */
  lemma {:induction false} FirstOverflow(c: Codec, size: nat, recs: seq<Bytes>) returns (k: nat)
    requires 0 < size <= Total(c, recs)
    ensures k < |recs| && Total(c, recs[..k]) < size <= Total(c, recs[..k]) + FrameSize(c, recs[k])
  {
    var init := recs[..|recs| - 1];
    if Total(c, init) < size {
      k := |recs| - 1;
    } else {
      k := FirstOverflow(c, size, init);
      assert init[..k] == recs[..k];
    }
  }

  lemma {:induction false} OverflowBreaksOrder(c: Codec, size: nat, recs: seq<Bytes>)
    requires Pickles(c) && AllCarried(c, size, recs) && 0 < size <= Total(c, recs)
    requires forall i :: 0 < i < |recs| ==> recs[i] != recs[0]
    ensures !AlwaysInOrder(c, size, recs)
  {
    var k := FirstOverflow(c, size, recs);
    assert recs[..k] + [recs[k]] == recs[..k + 1];
    assert k > 0;
    var s := BlindReloadLosesRecord(c, size, recs[..k], recs[k]);
    var acts :| Run(c, Init(size), acts) && Exec(c, Init(size), acts) == s;
    TakesAreAdded(c, size, acts);
    assert Takes(acts) == recs[..k + 1] <= recs;
  }

  /** Exactly which records the ring delivers in order whatever the interleaving: of records each of which it can carry
      by itself, and of which the first does not come again, those that fit the buffer all together. */
  lemma {:induction false} InOrderIffAllFit(c: Codec, size: nat, recs: seq<Bytes>)
    requires Pickles(c) && size > 0 && AllCarried(c, size, recs)
    requires forall i :: 0 < i < |recs| ==> recs[i] != recs[0]
    ensures AlwaysInOrder(c, size, recs) <==> Total(c, recs) < size
  {
    if Total(c, recs) < size {
      forall acts | Run(c, Init(size), acts) && Takes(acts) <= recs ensures IsPrefix(Exec(c, Init(size), acts)) {
        NeverWraps(c, size, recs, acts);
      }
    } else {
      OverflowBreaksOrder(c, size, recs);
    }
  }
}
