/** Safety of the record ring of the SQL viewer (source/scripts/python/exported-sql-viewer.py): every step keeps the
    invariant, and so every run delivers a prefix of the records. */
module SqlSafety {
  import opened Common
  import opened SqlRing

  // ---------------------------------------------------------------- geometry of the live records

  /** Two live records with no wrap between them lie in order. */
  lemma {:induction false} Ordered(c: Codec, r: Ring, i: nat, j: nat)
    requires r.known <= i < j < |r.log| && !(i < r.wrapAt <= j)
    requires LiveOk(c, r.buf, r.log, r.wrapAt, r.known)
    ensures End(c, r.log, i + 1) <= r.log[j].pos
    decreases j
  {
    assert RecordOk(c, r.buf, r.log, r.wrapAt, j);
    if i + 1 < j {
      Ordered(c, r, i, j - 1);
    }
  }

  /** Where live record i lies relative to tail and head. */
  lemma Span(c: Codec, r: Ring, i: nat)
    requires RingInv(c, r) && r.known <= i < |r.log|
    ensures (Wrapped(r) ==> i < r.wrapAt) ==> r.tail <= r.log[i].pos
    ensures (Wrapped(r) ==> r.wrapAt <= i) ==> End(c, r.log, i + 1) <= r.head
  {
    assert RecordOk(c, r.buf, r.log, r.wrapAt, i);
    if (Wrapped(r) ==> i < r.wrapAt) && r.known < i {
      assert RecordOk(c, r.buf, r.log, r.wrapAt, r.known);
      Ordered(c, r, r.known, i);
    }
    if (Wrapped(r) ==> r.wrapAt <= i) && i < |r.log| - 1 {
      assert RecordOk(c, r.buf, r.log, r.wrapAt, |r.log| - 1);
      Ordered(c, r, i, |r.log| - 1);
    }
  }

  /** Writing d at pos outside [from, to) leaves a frame stored inside it alone. */
  lemma PutElsewhere(c: Codec, buf: Bytes, pos: nat, d: Bytes, p: Placed)
    requires Stored(c, buf, p) && pos + |d| <= |buf|
    requires p.pos + FrameSize(c, p.rec) <= pos || pos + |d| <= p.pos
    ensures Stored(c, Put(buf, pos, d), p)
  {
    var n := Put(buf, pos, d);
    var k := |c.dumps(|p.rec|)|;
    assert n[p.pos..p.pos + k] == buf[p.pos..p.pos + k];
    assert n[p.pos + c.nsz..p.pos + FrameSize(c, p.rec)] == buf[p.pos + c.nsz..p.pos + FrameSize(c, p.rec)];
  }

  /** A write into the free part of the ring keeps every live record. */
  lemma PutKeepsLive(c: Codec, r: Ring, pos: nat, d: Bytes)
    requires RingInv(c, r) && r.head <= pos && pos + |d| <= |r.buf|
    requires Wrapped(r) ==> pos + |d| <= r.tail
    ensures LiveOk(c, Put(r.buf, pos, d), r.log, r.wrapAt, r.known)
  {
    forall i | r.known <= i < |r.log| ensures RecordOk(c, Put(r.buf, pos, d), r.log, r.wrapAt, i) {
      assert RecordOk(c, r.buf, r.log, r.wrapAt, i);
      Span(c, r, i);
      PutElsewhere(c, r.buf, pos, d, r.log[i]);
    }
  }

  // ---------------------------------------------------------------- every step keeps the invariant

  lemma SeekKeeps(c: Codec, r: Ring)
    requires RingInv(c, r) && r.at.Seeking?
    ensures RingInv(c, SeekStep(c, r))
  {
    var t := SeekStep(c, r);
    var sz := FrameSize(c, r.at.rec);
    if r.tail <= r.head && |r.buf| - r.head <= sz {
      var space := |r.buf| - r.head;
      if space >= c.nsz {
        PutKeepsLive(c, r, r.head, c.dumps(0));
      }
      assert LiveOk(c, t.buf, r.log, r.wrapAt, r.known);
      forall i | t.known <= i < |t.log| ensures RecordOk(c, t.buf, t.log, t.wrapAt, i) {
        assert RecordOk(c, t.buf, r.log, r.wrapAt, i);
      }
      assert Wrapped(t) ==> Marked(c, t.buf, End(c, t.log, t.wrapAt));
    }
  }

  lemma HeaderKeeps(c: Codec, r: Ring)
    requires RingInv(c, r) && r.at.Header?
    ensures r.head + |c.dumps(|r.at.rec|)| <= |r.buf| && RingInv(c, HeaderStep(c, r))
  {
    var t := HeaderStep(c, r);
    PutKeepsLive(c, r, r.head, c.dumps(|r.at.rec|));
    MarkElsewhere(c, r, r.head, c.dumps(|r.at.rec|));
  }

  /** A write below the tail of a wrapped ring keeps the mark at the top. */
  lemma MarkElsewhere(c: Codec, r: Ring, pos: nat, d: Bytes)
    requires RingInv(c, r) && pos + |d| <= |r.buf|
    requires Wrapped(r) ==> pos + |d| <= r.tail
    ensures Wrapped(r) ==> Marked(c, Put(r.buf, pos, d), End(c, r.log, r.wrapAt))
  {
    if Wrapped(r) {
      var x := End(c, r.log, r.wrapAt);
      TailBelowWrap(c, r);
      if x + c.nsz <= |r.buf| {
        var n := Put(r.buf, pos, d);
        assert n[x..x + |c.dumps(0)|] == r.buf[x..x + |c.dumps(0)|];
      }
    }
  }

  lemma TailBelowWrap(c: Codec, r: Ring)
    requires RingInv(c, r) && Wrapped(r)
    ensures r.tail <= End(c, r.log, r.wrapAt)
  {
    if r.known < r.wrapAt {
      Span(c, r, r.wrapAt - 1);
    }
  }

  lemma BodyStored(c: Codec, r: Ring)
    requires RingInv(c, r) && r.at.Body?
    ensures r.head + FrameSize(c, r.at.rec) <= |r.buf|
    ensures Stored(c, BodyStep(c, r).buf, Placed(r.head, r.at.rec))
  {
    var t := BodyStep(c, r);
    var rec := r.at.rec;
    var k := |c.dumps(|rec|)|;
    assert t.buf[r.head..r.head + k] == r.buf[r.head..r.head + k];
    assert t.buf[r.head + c.nsz..r.head + FrameSize(c, rec)] == rec;
  }

  lemma BodyLive(c: Codec, r: Ring)
    requires RingInv(c, r) && r.at.Body?
    requires r.head + FrameSize(c, r.at.rec) <= |r.buf|
    ensures var t := BodyStep(c, r); LiveOk(c, t.buf, t.log, t.wrapAt, t.known)
  {
    var t := BodyStep(c, r);
    PutKeepsLive(c, r, r.head + c.nsz, r.at.rec);
    BodyStored(c, r);
    forall i | t.known <= i < |t.log| ensures RecordOk(c, t.buf, t.log, t.wrapAt, i) {
      if i < |r.log| {
        assert RecordOk(c, t.buf, r.log, r.wrapAt, i);
        assert t.log[i] == r.log[i];
      }
    }
  }

  lemma BodyKeeps(c: Codec, r: Ring)
    requires RingInv(c, r) && r.at.Body?
    ensures r.head + FrameSize(c, r.at.rec) <= |r.buf| && RingInv(c, BodyStep(c, r))
  {
    BodyStored(c, r);
    BodyLive(c, r);
    MarkElsewhere(c, r, r.head + c.nsz, r.at.rec);
    var t := BodyStep(c, r);
    assert t.log[..|r.log|] == r.log;
    assert End(c, t.log, r.known) == End(c, r.log, r.known);
    assert End(c, t.log, r.wrapAt) == End(c, r.log, r.wrapAt);
  }

  /** Re-reading the shared tail, unless it is still 0 after a wrap over waiting records. */
  lemma ReloadKeeps(c: Codec, r: Ring, tail: nat, released: nat)
    requires RingInv(c, r) && r.at.Reloading? && r.known <= released <= |r.log| && tail == End(c, r.log, released)
    requires Ambiguous(r) ==> tail > 0
    ensures RingInv(c, ReloadStep(r, tail, released))
  {
    var t := ReloadStep(r, tail, released);
    forall i | t.known <= i < |t.log| ensures RecordOk(c, t.buf, t.log, t.wrapAt, i) {
      assert RecordOk(c, r.buf, r.log, r.wrapAt, i);
    }
    if r.known < released {
      assert RecordOk(c, r.buf, r.log, r.wrapAt, released - 1);
      Span(c, r, released - 1);
    }
  }

  /** The length read at the consumer's tail, and the one at the bottom after a 0, is that of the next record. */
  lemma LengthTakes(c: Codec, r: Ring, k: nat)
    requires RingInv(c, r) && r.known <= k < |r.log|
    ensures var pos := LengthPos(c, r.buf, End(c, r.log, k));
            var n := LengthAt(c, r.buf, pos);
            if n == 0 then r.log[k].pos == 0 && LengthAt(c, r.buf, 0) == |r.log[k].rec|
            else pos == r.log[k].pos && n == |r.log[k].rec|
  {
    var ct := End(c, r.log, k);
    var p := r.log[k];
    assert RecordOk(c, r.buf, r.log, r.wrapAt, k);
    LoadsAt(c, r.buf, p.pos, |p.rec|);
    if k == r.wrapAt && k > 0 {
      if ct + c.nsz <= |r.buf| {
        assert Marked(c, r.buf, ct);
        LoadsAt(c, r.buf, ct, 0);
      }
    }
  }

  /** What the producer publishes as head after a batch is where the last record added ends, or the bottom if the head has
      wrapped since. */
  lemma HeadPublished(c: Codec, s: State)
    requires Inv(c, s) && Enabled(c, s, StoreHead)
    ensures Do(c, s, StoreHead).head == if s.ring.wrapAt == |s.ring.log| then 0 else End(c, s.ring.log, |s.ring.log|)
  {
  }

  /** What the consumer takes is the record its tail stands at. */
  lemma RemoveTakes(c: Codec, r: Ring, k: nat)
    requires RingInv(c, r) && r.known <= k < |r.log|
    ensures TakeAt(c, r.buf, End(c, r.log, k)) == Taken(r.log[k].rec, End(c, r.log, k + 1))
  {
    var p := r.log[k];
    LengthTakes(c, r, k);
    assert RecordOk(c, r.buf, r.log, r.wrapAt, k);
    assert Slice(r.buf, p.pos + c.nsz, |p.rec|) == p.rec;
  }

  lemma LoadsAt(c: Codec, buf: Bytes, pos: nat, n: nat)
    requires Pickles(c) && pos + c.nsz <= |buf| && |c.dumps(n)| <= c.nsz
    requires buf[pos..pos + |c.dumps(n)|] == c.dumps(n)
    ensures c.loads(Slice(buf, pos, c.nsz)) == n
  {
    var sl := Slice(buf, pos, c.nsz);
    var d := c.dumps(n);
    assert sl == buf[pos..pos + c.nsz];
    assert sl == d + sl[|d|..];
  }

  lemma SumAppend(q: seq<int>, x: int)
    ensures Sum(q + [x]) == Sum(q) + x
  {
    if q == [] {
    } else {
      assert (q + [x])[1..] == q[1..] + [x];
    }
  }

  lemma {:induction false} SumNonNegative(q: seq<int>)
    requires forall i :: 0 <= i < |q| ==> q[i] >= 0
    ensures Sum(q) >= 0
  {
    if q != [] {
      SumNonNegative(q[1..]);
    }
  }

  lemma BodyStepKeeps(c: Codec, s: State)
    requires Inv(c, s) && Enabled(c, s, WriteBody)
    ensures Inv(c, Do(c, s, WriteBody))
  {
    var t := Do(c, s, WriteBody);
    BodyKeeps(c, s.ring);
    assert t.ring.log[..|s.ring.log|] == s.ring.log;
    assert End(c, t.ring.log, s.released) == s.tail;
    assert End(c, t.ring.log, |s.removed|) == s.consumerTail;
  }

  lemma SeekStepKeeps(c: Codec, s: State)
    requires Inv(c, s) && Enabled(c, s, Seek)
    ensures Inv(c, Do(c, s, Seek))
  {
    SeekKeeps(c, s.ring);
  }

  lemma ReloadStepKeeps(c: Codec, s: State)
    requires Inv(c, s) && Enabled(c, s, Reload) && !Blind(s, Reload)
    ensures Inv(c, Do(c, s, Reload))
  {
    ReloadKeeps(c, s.ring, s.tail, s.released);
  }

  lemma HeaderStepKeeps(c: Codec, s: State)
    requires Inv(c, s) && Enabled(c, s, WriteHeader)
    ensures Inv(c, Do(c, s, WriteHeader))
  {
    HeaderKeeps(c, s.ring);
  }

  /** The producer's steps that leave the ring alone. */
  lemma CountStepKeeps(c: Codec, s: State, a: Action)
    requires Inv(c, s) && Enabled(c, s, a) && Fitting(c, a)
    requires a.Take? || a.RaiseCount? || a.StoreHead? || a.Finish?
    ensures Inv(c, Do(c, s, a))
  {
  }

  lemma NoticeCounts(c: Codec, s: State)
    requires Counts(c, s) && Enabled(c, s, Notice)
    ensures Counts(c, Do(c, s, Notice))
  {
    SumNonNegative(s.queue);
    SumAppend(s.queue, s.reader.count - s.lastCount);
    SumAppend(s.queue, 0);
  }

  lemma NoticeKeeps(c: Codec, s: State)
    requires Inv(c, s) && Enabled(c, s, Notice)
    ensures Inv(c, Do(c, s, Notice))
  {
    NoticeCounts(c, s);
    assert Do(c, s, Notice).ring == s.ring;
  }

  lemma ReaderStepKeeps(c: Codec, s: State, a: Action)
    requires Inv(c, s) && Enabled(c, s, a)
    requires a.ReadCount? || a.Begin? || a.StoreTail?
    ensures Inv(c, Do(c, s, a))
  {
    SumNonNegative(s.queue);
    assert Counts(c, Do(c, s, a));
  }

  /** Reading a length, wherever it is found, finds that of the next record. */
  lemma ReadLengthKeeps(c: Codec, s: State, a: Action)
    requires Inv(c, s) && Enabled(c, s, a) && (a.ReadLength? || a.ReadBottom?)
    ensures Inv(c, Do(c, s, a))
  {
    var k := |s.removed|;
    SumNonNegative(s.queue);
    LengthTakes(c, s.ring, k);
    if a.ReadBottom? {
      assert RecordOk(c, s.ring.buf, s.ring.log, s.ring.wrapAt, k);
      LoadsAt(c, s.ring.buf, 0, |s.ring.log[k].rec|);
    }
    assert Counts(c, Do(c, s, a));
  }

  /** The record that is read is the next one. */
  lemma NextRecord(c: Codec, s: State)
    requires Inv(c, s) && s.consumer.Sized?
    ensures var (k, at) := (|s.removed|, s.consumer.pos + c.nsz);
            && k < |s.ring.log|
            && Slice(s.ring.buf, at, s.consumer.n) == s.ring.log[k].rec
            && at + s.consumer.n == End(c, s.ring.log, k + 1)
  {
    var p := s.ring.log[|s.removed|];
    assert RecordOk(c, s.ring.buf, s.ring.log, s.ring.wrapAt, |s.removed|);
    assert Slice(s.ring.buf, p.pos + c.nsz, |p.rec|) == p.rec;
  }

  lemma ReadRecordKeeps(c: Codec, s: State)
    requires Inv(c, s) && Enabled(c, s, ReadRecord)
    ensures Inv(c, Do(c, s, ReadRecord))
  {
    var t := Do(c, s, ReadRecord);
    NextRecord(c, s);
    assert t.removed == s.removed + [s.ring.log[|s.removed|].rec];
    assert Counts(c, t) && t.ring == s.ring;
  }

  /** Every step but the blind one keeps the invariant. */
  lemma StepKeeps(c: Codec, s: State, a: Action)
    requires Inv(c, s) && Enabled(c, s, a) && !Blind(s, a) && Fitting(c, a)
    ensures Inv(c, Do(c, s, a))
  {
    match a
    case Seek => SeekStepKeeps(c, s);
    case Reload => ReloadStepKeeps(c, s);
    case WriteHeader => HeaderStepKeeps(c, s);
    case WriteBody => BodyStepKeeps(c, s);
    case Notice => NoticeKeeps(c, s);
    case ReadCount | Begin | StoreTail => ReaderStepKeeps(c, s, a);
    case ReadLength | ReadBottom => ReadLengthKeeps(c, s, a);
    case ReadRecord => ReadRecordKeeps(c, s);
    case Take(_) | RaiseCount | StoreHead | Finish => CountStepKeeps(c, s, a);
  }

  // ---------------------------------------------------------------- whole runs

  lemma {:induction false} SightedKeeps(c: Codec, s: State, acts: seq<Action>)
    requires Inv(c, s) && Run(c, s, acts) && Sighted(c, s, acts) && AllFit(c, acts)
    ensures Inv(c, Exec(c, s, acts))
    decreases |acts|
  {
    if acts != [] {
      StepKeeps(c, s, acts[0]);
      SightedKeeps(c, Do(c, s, acts[0]), acts[1..]);
    }
  }

  /** Safety over every interleaving: with records that fit and without a blind reload, what was removed is a prefix
      of what was added. */
  lemma FifoSafety(c: Codec, size: nat, acts: seq<Action>)
    requires Pickles(c) && Run(c, Init(size), acts) && Sighted(c, Init(size), acts) && AllFit(c, acts)
    ensures IsPrefix(Exec(c, Init(size), acts))
    ensures Inv(c, Exec(c, Init(size), acts))
  {
    SightedKeeps(c, Init(size), acts);
  }

  lemma {:induction false} TailFirstIsSighted(c: Codec, s: State, acts: seq<Action>)
    requires Inv(c, s) && Run(c, s, acts) && TailFirst(c, s, acts) && AllFit(c, acts)
    requires s.ring.wrapAt > 0 ==> s.tail > 0
    ensures Sighted(c, s, acts)
    decreases |acts|
  {
    if acts != [] {
      StepKeeps(c, s, acts[0]);
      TailFirstIsSighted(c, Do(c, s, acts[0]), acts[1..]);
    }
  }

  /** It is enough that the consumer has published a tail by the time the head first wraps. */
  lemma {:induction false} FifoIfTailFirst(c: Codec, size: nat, acts: seq<Action>)
    requires Pickles(c) && Run(c, Init(size), acts) && TailFirst(c, Init(size), acts) && AllFit(c, acts)
    ensures IsPrefix(Exec(c, Init(size), acts))
  {
    TailFirstIsSighted(c, Init(size), acts);
    FifoSafety(c, size, acts);
  }

  /** No write is ever attempted out of the buffer's range. */
  lemma NeverOutOfRange(c: Codec, s: State)
    requires Inv(c, s)
    ensures s.ring.at.Seeking? ==> Enabled(c, s, Seek)
    ensures s.ring.at.Header? ==> Enabled(c, s, WriteHeader)
    ensures s.ring.at.Body? ==> Enabled(c, s, WriteBody)
  {
  }

  lemma GrantMissesLive(c: Codec, r: Ring, i: nat)
    requires RingInv(c, r) && (r.at.Header? || r.at.Body?) && r.known <= i < |r.log|
    ensures !GrantedOver(c, r, i)
  {
    Span(c, r, i);
  }

  /** No step overwrites a byte of a frame that the consumer has not removed. */
  lemma UnreadBytesKept(c: Codec, s: State, a: Action, i: nat, j: nat)
    requires Inv(c, s) && Enabled(c, s, a)
    requires |s.removed| <= i < |s.ring.log| && s.ring.log[i].pos <= j < End(c, s.ring.log, i + 1)
    ensures |Do(c, s, a).ring.buf| == |s.ring.buf|
    ensures j < |s.ring.buf| && Do(c, s, a).ring.buf[j] == s.ring.buf[j]
  {
    var r := s.ring;
    assert RecordOk(c, r.buf, r.log, r.wrapAt, i);
    Span(c, r, i);
    if a.WriteHeader? || a.WriteBody? {
      GrantMissesLive(c, r, i);
    }
  }

  // ---------------------------------------------------------------- when room is granted

  /** Between the producer's head and the end of what it knows to be removed there are sz bytes and one to spare: at the
      head or, if the head is not below that end, perhaps at the bottom. */
  predicate RoomFor(size: nat, head: nat, tail: nat, sz: nat) {
    if head < tail then head + sz < tail else head + sz < size || sz < tail
  }

  /** Exactly when asking for room succeeds, and where the room then is: at the head if it is there. */
  lemma GrantIffRoom(c: Codec, r: Ring)
    requires RingInv(c, r) && r.at.Seeking?
    ensures var (t, sz, known) := (SeekStep(c, r), FrameSize(c, r.at.rec), End(c, r.log, r.known));
            && (if RoomFor(|r.buf|, r.head, known, sz) then t.at == Header(r.at.rec) else t.at == Reloading(r.at.rec))
            && t.head == (if r.head < known || r.head + sz < |r.buf| then r.head else 0)
  {
  }

  /** The bytes from p on for a frame of sz bytes, and one more, are in the buffer and part of no waiting record. */
  ghost predicate FreeAt(c: Codec, r: Ring, p: nat, sz: nat) {
    && p + sz < |r.buf|
    && forall i :: r.known <= i < |r.log| ==> !Overlap(p, p + sz + 1, r.log[i].pos, End(c, r.log, i + 1))
  }

  /** The same by the records themselves, as long as some wait and the first of them is where the one before it ends:
      room is granted if and only if it is free at the head or, unless the head has wrapped, at the bottom. */
  lemma GrantIffFree(c: Codec, r: Ring)
    requires RingInv(c, r) && r.at.Seeking? && r.known < |r.log| && r.log[r.known].pos == r.tail
    ensures var sz := FrameSize(c, r.at.rec);
            SeekStep(c, r).at.Header? <==> FreeAt(c, r, r.head, sz) || (!Wrapped(r) && FreeAt(c, r, 0, sz))
  {
    var sz := FrameSize(c, r.at.rec);
    assert RecordOk(c, r.buf, r.log, r.wrapAt, r.known);
    assert Overlap(r.head, r.head + sz + 1, r.tail, End(c, r.log, r.known + 1)) ==> !FreeAt(c, r, r.head, sz);
    assert Overlap(0, sz + 1, r.tail, End(c, r.log, r.known + 1)) ==> !FreeAt(c, r, 0, sz);
    forall i | r.known <= i < |r.log|
      ensures r.tail <= r.log[i].pos || (Wrapped(r) && End(c, r.log, i + 1) <= r.head)
      ensures Wrapped(r) || End(c, r.log, i + 1) <= r.head
    {
      Span(c, r, i);
    }
  }

  /** Once told that there is no room, the producer is granted it by the next look at the shared tail if and only if
      that tail leaves room. */
  lemma ReloadGrants(c: Codec, s: State)
    requires Inv(c, s) && s.ring.at.Reloading?
    ensures Enabled(c, s, Reload) && Enabled(c, Do(c, s, Reload), Seek)
    ensures var t := Do(c, Do(c, s, Reload), Seek);
            t.ring.at.Header? <==> RoomFor(|s.ring.buf|, s.ring.head, s.tail, FrameSize(c, s.ring.at.rec))
  {
  }

  /** Everything added has been removed and the tail published. */
  predicate AllPublished(s: State) { |s.removed| == |s.ring.log| && s.released == |s.ring.log| }

  predicate Waiting(at: ProducerAt) { at.Seeking? || at.Reloading? }

  /** The ring is drained and yet the producer waits for more room than there is. */
  ghost predicate Stuck(c: Codec, s: State) {
    && Inv(c, s) && AllPublished(s) && Waiting(s.ring.at)
    && (s.ring.at.Seeking? ==> s.ring.tail == s.tail)
    && !RoomFor(|s.ring.buf|, s.ring.head, s.tail, FrameSize(c, s.ring.at.rec))
  }

  lemma StuckStep(c: Codec, s: State, a: Action)
    requires Stuck(c, s) && Enabled(c, s, a)
    ensures Stuck(c, Do(c, s, a)) && Do(c, s, a).ring.at.rec == s.ring.at.rec
  {
    SumNonNegative(s.queue);
    assert a.Reload? ==> s.released == |s.ring.log|;
    StepKeeps(c, s, a);
  }

  lemma {:induction false} StuckRun(c: Codec, s: State, acts: seq<Action>)
    requires Stuck(c, s) && Run(c, s, acts)
    ensures Waiting(Exec(c, s, acts).ring.at)
    decreases |acts|
  {
    if acts != [] {
      StuckStep(c, s, acts[0]);
      StuckRun(c, Do(c, s, acts[0]), acts[1..]);
    }
  }

  /** Room may still be granted to the producer. */
  ghost predicate MayBeGranted(c: Codec, s: State) {
    exists acts :: Run(c, s, acts) && Exec(c, s, acts).ring.at.Header?
  }

  /** Exactly when a producer that waits on a drained ring waits for ever: when neither the part above the head nor the
      part below the tail has room, however much they have together. */
  lemma WaitsForEverIff(c: Codec, s: State)
    requires Inv(c, s) && AllPublished(s) && s.ring.at.Reloading?
    ensures MayBeGranted(c, s) <==> RoomFor(|s.ring.buf|, s.ring.head, s.tail, FrameSize(c, s.ring.at.rec))
  {
    if RoomFor(|s.ring.buf|, s.ring.head, s.tail, FrameSize(c, s.ring.at.rec)) {
      ReloadGrants(c, s);
      var acts := [Reload, Seek];
      assert acts[1..] == [Seek] && acts[1..][1..] == [];
      assert Run(c, Do(c, s, Reload), [Seek]);
      assert Run(c, s, acts) && Exec(c, s, acts) == Do(c, Do(c, s, Reload), Seek);
    } else if MayBeGranted(c, s) {
      var acts :| Run(c, s, acts) && Exec(c, s, acts).ring.at.Header?;
      StuckRun(c, s, acts);
      assert false;
    }
  }

  /** Exactly when room granted after a wrap over waiting records is not free: it covers a record that the published
      tail does not cover exactly if that tail is 0, and it covers an unread record exactly if besides there is one
      and the consumer has not yet come as far as the room reaches. */
  lemma GrantAfterWrap(c: Codec, s: State)
    requires Inv(c, s) && s.ring.at.Reloading? && Ambiguous(s.ring)
    ensures Enabled(c, s, Reload) && Enabled(c, Do(c, s, Reload), Seek)
    ensures var t := Do(c, Do(c, s, Reload), Seek);
            t.ring.at.Header? ==> (GrantedOverAny(c, t.ring, s.released) <==> s.tail == 0)
    ensures var t := Do(c, Do(c, s, Reload), Seek);
            t.ring.at.Header? ==>
              (GrantedOverAny(c, t.ring, |s.removed|) <==> s.tail == 0 && UnreadBelow(s, FrameSize(c, s.ring.at.rec)))
    ensures var t := Do(c, Do(c, s, Reload), Seek);
            s.tail == 0 ==> (t.ring.at.Header? <==> FrameSize(c, s.ring.at.rec) < |s.ring.buf|)
  {
    var u := Do(c, s, Reload);
    var t := Do(c, u, Seek);
    if s.tail == 0 {
      assert s.released == 0;
      assert RecordOk(c, s.ring.buf, s.ring.log, s.ring.wrapAt, 0);
      if t.ring.at.Header? {
        assert GrantedOver(c, t.ring, 0);
        UnreadInGrant(c, s, t.ring);
      }
    } else {
      ReloadKeeps(c, s.ring, s.tail, s.released);
      SeekKeeps(c, u.ring);
      if t.ring.at.Header? {
        forall i | s.released <= i < |t.ring.log| ensures !GrantedOver(c, t.ring, i) {
          GrantMissesLive(c, t.ring, i);
        }
      }
    }
  }

  /** Of the records in order from the bottom on, room at the bottom covers an unread one exactly if it reaches
      the consumer's tail. */
  lemma {:induction false} UnreadInGrant(c: Codec, s: State, granted: Ring)
    requires Inv(c, s) && s.ring.at.Reloading? && Ambiguous(s.ring)
    requires granted.log == s.ring.log && granted.at == Header(s.ring.at.rec) && granted.head == 0
    ensures GrantedOverAny(c, granted, |s.removed|) <==> UnreadBelow(s, FrameSize(c, s.ring.at.rec))
  {
    var k := |s.removed|;
    if k < |s.ring.log| {
      assert RecordOk(c, s.ring.buf, s.ring.log, s.ring.wrapAt, k);
      assert s.ring.log[k].pos == s.consumerTail;
      forall i | k < i < |s.ring.log| ensures s.consumerTail <= s.ring.log[i].pos {
        Ordered(c, s.ring, k, i);
      }
      assert s.consumerTail < FrameSize(c, s.ring.at.rec) ==> GrantedOver(c, granted, k);
    }
  }
}
