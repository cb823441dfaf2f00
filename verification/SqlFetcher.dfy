/** The methods of the SQL fetcher process and of the consumer (source/scripts/python/exported-sql-viewer.py) on the
    shared array, proved against the steps of the record ring. */
module SqlFetcher {
  import opened Common
  import opened SqlRing
  import opened SqlSafety

  datatype Drained = Drained(recs: seq<Bytes>, tail: nat)

  /** Records taken off the ring one after the other. */
  function Drain(c: Codec, buf: Bytes, tail: nat, count: nat): Drained {
    if count == 0 then Drained([], tail)
    else
      var d := Drain(c, buf, tail, count - 1);
      var r := TakeAt(c, buf, d.tail);
      Drained(d.recs + [r.rec], r.tail)
  }

  /** The records of the log from k on, count of them. */
  function Recs(log: seq<Placed>, k: nat, count: nat): seq<Bytes>
    requires k + count <= |log|
  {
    if count == 0 then [] else Recs(log, k, count - 1) + [log[k + count - 1].rec]
  }

  datatype Waited = Waited(space: Space, tail: nat)

  /** Asking for room again after each observed value of the shared tail, until it is granted. */
  function WaitSteps(c: Codec, buf: Bytes, head: nat, tail: nat, sz: nat, observed: seq<nat>): (w: Waited)
    requires head <= |buf| && |c.dumps(0)| <= c.nsz
    ensures |w.space.buf| == |buf| && w.space.head <= head
    decreases |observed|
  {
    var r := SpaceFor(c, buf, head, tail, sz);
    if r.ok || observed == [] then Waited(r, tail)
    else WaitSteps(c, r.buf, r.head, observed[0], sz, observed[1..])
  }

  /** Waiting ends with the first tail that leaves room, whatever is still to be observed, and without room it goes on to
      the last one observed, from where it takes up again with the next. */
  lemma {:induction false} WaitStops(c: Codec, buf: Bytes, head: nat, tail: nat, sz: nat, observed: seq<nat>, next: nat)
    requires head <= |buf| && |c.dumps(0)| <= c.nsz
    ensures var w := WaitSteps(c, buf, head, tail, sz, observed);
            && (!w.space.ok ==> w.tail == ([tail] + observed)[|observed|])
            && WaitSteps(c, buf, head, tail, sz, observed + [next])
               == if w.space.ok then w else Waited(SpaceFor(c, w.space.buf, w.space.head, next, sz), next)
    decreases |observed|
  {
    var r := SpaceFor(c, buf, head, tail, sz);
    if !r.ok && observed != [] {
      WaitStops(c, r.buf, r.head, observed[0], sz, observed[1..], next);
      assert (observed + [next])[1..] == observed[1..] + [next];
      assert [observed[0]] + observed[1..] == observed;
    } else if !r.ok {
      assert ([next])[1..] == [] && observed + [next] == [next];
    }
  }

  /** The producer's local state and its view of the shared buffer. */
  class SQLFetcherProcess {
    const buffer: array<byte>
    var localHead: nat
    var localTail: nat

    constructor (shared: array<byte>)
      ensures buffer == shared && localHead == 0 && localTail == 0
    {
      buffer, localHead, localTail := shared, 0, 0;
    }

    /** self.buffer[pos : pos + len(d)] = d */
    method Assign(pos: nat, d: Bytes)
      requires pos + |d| <= buffer.Length
      modifies buffer
      ensures buffer[..] == Put(old(buffer[..]), pos, d)
    {
      forall i | 0 <= i < |d| {
        buffer[pos + i] := d[i];
      }
    }

    method HasSpace(c: Codec, sz: nat) returns (ok: bool)
      requires localHead <= buffer.Length && |c.dumps(0)| <= c.nsz
      modifies this`localHead, buffer
      ensures SpaceFor(c, old(buffer[..]), old(localHead), localTail, sz) == Space(ok, localHead, buffer[..])
    {
      if localTail <= localHead {
        var space := buffer.Length - localHead;
        if space > sz {
          return true;
        }
        if space >= c.nsz {
          Assign(localHead, c.dumps(0));
        }
        localHead := 0;
      }
      return localTail - localHead > sz;
    }

    /** `observed` holds the values that reading the shared tail gives, one for each turn of the loop;
        ok is false if they run out while the producer is still waiting. */
    method WaitForSpace(c: Codec, sz: nat, observed: seq<nat>) returns (ok: bool)
      requires localHead <= buffer.Length && |c.dumps(0)| <= c.nsz
      modifies this, buffer
      ensures WaitSteps(c, old(buffer[..]), old(localHead), old(localTail), sz, observed)
           == Waited(Space(ok, localHead, buffer[..]), localTail)
    {
      ok := HasSpace(c, sz);
      var i := 0;
      while !ok && i < |observed|
        invariant i <= |observed| && localHead <= buffer.Length
        invariant if ok then
            WaitSteps(c, old(buffer[..]), old(localHead), old(localTail), sz, observed)
              == Waited(Space(ok, localHead, buffer[..]), localTail)
          else if i == |observed| then
            WaitSteps(c, old(buffer[..]), old(localHead), old(localTail), sz, observed)
              == Waited(Space(ok, localHead, buffer[..]), localTail)
          else
            WaitSteps(c, old(buffer[..]), old(localHead), old(localTail), sz, observed)
              == WaitSteps(c, buffer[..], localHead, observed[i], sz, observed[i + 1..])
      {
        localTail := observed[i];
        ok := HasSpace(c, sz);
        i := i + 1;
        assert observed[i..] == if i == |observed| then [] else [observed[i]] + observed[i + 1..];
      }
    }

    /** AddToBuffer once WaitForSpace has returned; r is any state of the ring with this buffer and head. */
    method PutRecord(c: Codec, rec: Bytes, ghost r: Ring)
      requires localHead + FrameSize(c, rec) <= buffer.Length && |c.dumps(|rec|)| <= c.nsz
      requires r.buf == buffer[..] && r.head == localHead && r.at == Header(rec)
      modifies this`localHead, buffer
      ensures var t := BodyStep(c, HeaderStep(c, r)); buffer[..] == t.buf && localHead == t.head
    {
      var pos := localHead;
      Assign(pos, c.dumps(|rec|));
      assert buffer[..] == HeaderStep(c, r).buf;
      Assign(pos + c.nsz, rec);
      localHead := localHead + FrameSize(c, rec);
    }
  }

  /** The consumer's local state and its view of the shared buffer and tail. */
  class SQLFetcher {
    const buffer: array<byte>
    var localTail: nat
    var tail: nat

    constructor (shared: array<byte>)
      ensures buffer == shared && localTail == 0 && tail == 0
    {
      buffer, localTail, tail := shared, 0, 0;
    }

    method RemoveFromBuffer(c: Codec) returns (rec: Bytes)
      modifies this`localTail
      ensures TakeAt(c, buffer[..], old(localTail)) == Taken(rec, localTail)
    {
      var pos := localTail;
      if buffer.Length - pos < c.nsz {
        pos := 0;
      }
      var n := c.loads(Slice(buffer[..], pos, c.nsz));
      if n == 0 {
        pos := 0;
        n := c.loads(Slice(buffer[..], 0, c.nsz));
      }
      pos := pos + c.nsz;
      rec := Slice(buffer[..], pos, n);
      localTail := pos + n;
    }

    /** Takes count records off the ring and only then publishes the tail. */
    method ProcessData(c: Codec, count: nat) returns (recs: seq<Bytes>)
      modifies this
      ensures Drained(recs, localTail) == Drain(c, buffer[..], old(localTail), count)
      ensures tail == localTail
    {
      recs := [];
      ghost var buf := buffer[..];
      for i := 0 to count
        invariant buffer[..] == buf && Drained(recs, localTail) == Drain(c, buf, old(localTail), i)
        invariant tail == old(tail)
      {
        var rec := RemoveFromBuffer(c);
        recs := recs + [rec];
      }
      tail := localTail;
    }
  }

  /** At the i-th record the consumer takes that record. */
  ghost predicate TakesOne(c: Codec, r: Ring, i: nat)
    requires i < |r.log|
  {
    TakeAt(c, r.buf, End(c, r.log, i)) == Taken(r.log[i].rec, End(c, r.log, i + 1))
  }

  /** Draining in one go what has been announced yields the next records added, whole and in order. */
  lemma {:induction false} DrainTakesNext(c: Codec, s: State, count: nat)
    requires Inv(c, s) && |s.removed| + count <= |s.ring.log|
    ensures var k := |s.removed|;
            Drain(c, s.ring.buf, s.consumerTail, count) ==
            Drained(Recs(s.ring.log, k, count), End(c, s.ring.log, k + count))
  {
    var k := |s.removed|;
    forall i | k <= i < k + count ensures TakesOne(c, s.ring, i) {
      RemoveTakes(c, s.ring, i);
    }
    DrainTakes(c, s.ring, k, count);
  }

  lemma {:induction false} DrainTakes(c: Codec, r: Ring, k: nat, count: nat)
    requires k + count <= |r.log| && forall i :: k <= i < k + count ==> TakesOne(c, r, i)
    ensures Drain(c, r.buf, End(c, r.log, k), count) == Drained(Recs(r.log, k, count), End(c, r.log, k + count))
  {
    if count > 0 {
      DrainTakes(c, r, k, count - 1);
      assert TakesOne(c, r, k + count - 1);
    }
  }
}
