/** Particular runs of the record ring of the SQL viewer (source/scripts/python/exported-sql-viewer.py): how far the
    ring's promises go, shown by states that the program can reach. */
module SqlRuns {
  import opened SqlRing
  import opened SqlSafety

  lemma {:induction false} RunAppend(c: Codec, s: State, x: seq<Action>, y: seq<Action>)
    requires Run(c, s, x) && Run(c, Exec(c, s, x), y)
    ensures Run(c, s, x + y) && Exec(c, s, x + y) == Exec(c, Exec(c, s, x), y)
    decreases |x|
  {
    if x == [] {
      assert x + y == y;
    } else {
      assert (x + y)[0] == x[0] && (x + y)[1..] == x[1..] + y;
      RunAppend(c, Do(c, s, x[0]), x[1..], y);
    }
  }

  lemma RunOne(c: Codec, s: State, a: Action)
    requires Enabled(c, s, a)
    ensures Run(c, s, [a]) && Exec(c, s, [a]) == Do(c, s, a)
  {
    assert [a][1..] == [];
  }

  /** A run and its last step. */
  lemma {:induction false} RunLast(c: Codec, s: State, acts: seq<Action>)
    requires Run(c, s, acts) && acts != []
    ensures var (init, last) := (acts[..|acts| - 1], acts[|acts| - 1]);
            Run(c, s, init) && Enabled(c, Exec(c, s, init), last)
            && Exec(c, s, acts) == Do(c, Exec(c, s, init), last)
    decreases |acts|
  {
    var n := |acts| - 1;
    if n > 0 {
      assert acts[1..][..n - 1] == acts[..n][1..];
      RunLast(c, Do(c, s, acts[0]), acts[1..]);
    }
  }

  /** State s can be reached by the program. */
  ghost predicate Reachable(c: Codec, size: nat, s: State) {
    exists acts :: Run(c, Init(size), acts) && Exec(c, Init(size), acts) == s
  }

  lemma ReachStep(c: Codec, size: nat, s: State, a: Action)
    requires Reachable(c, size, s) && Enabled(c, s, a)
    ensures Reachable(c, size, Do(c, s, a))
  {
    var acts :| Run(c, Init(size), acts) && Exec(c, Init(size), acts) == s;
    RunOne(c, s, a);
    RunAppend(c, Init(size), acts, [a]);
  }

  lemma ReachInit(c: Codec, size: nat)
    ensures Reachable(c, size, Init(size))
  {
    assert Run(c, Init(size), []);
  }

  /** Adding a record once room for it has been granted.  A length that does not fit the slot is cut off there. */
  lemma ReachAdd(c: Codec, size: nat, s: State) returns (t: State)
    requires Reachable(c, size, s) && s.ring.at.Header? && s.ring.at.rec != []
    requires s.ring.head + FrameSize(c, s.ring.at.rec) <= |s.ring.buf|
    requires s.ring.head + |c.dumps(|s.ring.at.rec|)| <= |s.ring.buf|
    ensures Reachable(c, size, t)
    ensures t == s.(ring := BodyStep(c, HeaderStep(c, s.ring)), batch := s.batch + 1)
    ensures Fits(c, s.ring.at.rec) ==> Stored(c, t.ring.buf, Placed(s.ring.head, s.ring.at.rec))
    ensures !Fits(c, s.ring.at.rec) ==>
              t.ring.buf[s.ring.head..s.ring.head + c.nsz] == c.dumps(|s.ring.at.rec|)[..c.nsz]
  {
    var u := Do(c, s, WriteHeader);
    ReachStep(c, size, s, WriteHeader);
    ReachStep(c, size, u, WriteBody);
    t := Do(c, u, WriteBody);
    var d := c.dumps(|s.ring.at.rec|);
    if Fits(c, s.ring.at.rec) {
      assert t.ring.buf[s.ring.head..s.ring.head + |d|] == d;
    } else {
      assert t.ring.buf[s.ring.head..s.ring.head + c.nsz] == d[..c.nsz];
    }
    assert t.ring.buf[s.ring.head + c.nsz..s.ring.head + FrameSize(c, s.ring.at.rec)] == s.ring.at.rec;
  }

  /** A batch is counted and announced, and the consumer begins to take it off. */
  lemma ReachDrain(c: Codec, size: nat, s: State) returns (t: State)
    requires Reachable(c, size, s) && s.ring.at.Choosing? && s.batch > 0 && s.reader.Looking?
    requires s.lastCount == s.fetchCount && s.queue == [] && s.consumer.Idle?
    ensures Reachable(c, size, t)
    ensures t == s.(fetchCount := s.fetchCount + s.batch, lastCount := s.fetchCount + s.batch, batch := 0,
                    ring := s.ring.(at := Counted), consumer := Draining(s.batch))
  {
    ReachStep(c, size, s, RaiseCount);
    var s1 := Do(c, s, RaiseCount);
    ReachStep(c, size, s1, ReadCount);
    var s2 := Do(c, s1, ReadCount);
    ReachStep(c, size, s2, Notice);
    var s3 := Do(c, s2, Notice);
    assert s3.queue == [s.batch];
    ReachStep(c, size, s3, Begin);
    t := Do(c, s3, Begin);
  }

  /** The consumer takes one announced record off. */
  lemma ReachRemove(c: Codec, size: nat, s: State) returns (t: State)
    requires Reachable(c, size, s) && s.consumer.Draining? && s.consumer.left > 0
    ensures Reachable(c, size, t)
    ensures var taken := TakeAt(c, s.ring.buf, s.consumerTail);
            t == s.(consumerTail := taken.tail, consumer := Draining(s.consumer.left - 1),
                    removed := s.removed + [taken.rec])
  {
    ReachStep(c, size, s, ReadLength);
    var u := Do(c, s, ReadLength);
    if u.consumer.Bottom? {
      ReachStep(c, size, u, ReadBottom);
      u := Do(c, u, ReadBottom);
    }
    ReachStep(c, size, u, ReadRecord);
    t := Do(c, u, ReadRecord);
  }

  /** A pickle that is cut off is not read as what the whole pickle says. */
  predicate CutMisread(c: Codec, n: nat) {
    |c.dumps(n)| > c.nsz ==> c.loads(c.dumps(n)[..c.nsz]) != n
  }

  /** The slot at the bottom holds the record's length, cut off if it is too long, and the record follows. */
  ghost predicate AtBottom(c: Codec, buf: Bytes, rec: Bytes) {
    if Fits(c, rec) then Stored(c, buf, Placed(0, rec))
    else c.nsz <= |buf| && c.nsz <= |c.dumps(|rec|)| && buf[..c.nsz] == c.dumps(|rec|)[..c.nsz]
  }

  /** Exactly which records the ring carries: a record that is added and taken off again, with nothing else going on,
      comes back if and only if its pickled length fits the header slot. */
  lemma DeliveredIffFits(c: Codec, size: nat, rec: Bytes) returns (s: State)
    requires Pickles(c) && rec != [] && FrameSize(c, rec) < size && |c.dumps(|rec|)| <= size
    requires CutMisread(c, |rec|)
    ensures Reachable(c, size, s) && |s.ring.log| == 1 && s.ring.log[0].rec == rec && |s.removed| == 1
    ensures s.removed[0] == rec <==> Fits(c, rec)
  {
    var s0 := Init(size);
    ReachInit(c, size);
    ReachStep(c, size, s0, Take(rec));
    var s1 := Do(c, s0, Take(rec));
    ReachStep(c, size, s1, Seek);
    var s2 := ReachAdd(c, size, Do(c, s1, Seek));
    var s3 := ReachDrain(c, size, s2);
    s := ReachRemove(c, size, s3);
    assert s.removed == [] + [TakeAt(c, s2.ring.buf, 0).rec];
    assert s2.ring.buf[..c.nsz] == s2.ring.buf[0..c.nsz];
    TakenIffFits(c, s2.ring.buf, rec);
  }

  lemma TakenIffFits(c: Codec, buf: Bytes, rec: Bytes)
    requires Pickles(c) && rec != [] && FrameSize(c, rec) < |buf| && CutMisread(c, |rec|) && AtBottom(c, buf, rec)
    ensures TakeAt(c, buf, 0).rec == rec <==> Fits(c, rec)
  {
    assert Slice(buf, 0, c.nsz) == buf[..c.nsz];
    if Fits(c, rec) {
      LoadsAt(c, buf, 0, |rec|);
      assert Slice(buf, c.nsz, |rec|) == rec;
    } else {
      var n := c.loads(Slice(buf, 0, c.nsz));
      assert n != |rec|;
      assert |TakeAt(c, buf, 0).rec| == |Slice(buf, c.nsz, n)| != |rec|;
    }
  }
}
