/** The shared-memory record ring between the SQL fetcher process and the user-interface
    thread of the SQL viewer (source/scripts/python/exported-sql-viewer.py).

    A record is the byte string that pickling an object yields.  It is framed by its length,
    itself pickled into a header slot of `nsz` bytes.  Producer, reader thread and consumer
    are interleaved one shared-memory access at a time; the consumer reads a length, perhaps the length at the
    bottom, and the record in steps of their own. */
module SqlRing {
  import opened Common

  type byte = b: int | 0 <= b < 256
  type Bytes = seq<byte>

  /** How integers are pickled: `dumps` writes one, `loads` reads one off the front of a slot. */
  datatype Codec = Codec(nsz: nat, dumps: nat -> Bytes, loads: Bytes -> nat)

  /** Unpickling stops at the end of the pickle, whatever bytes follow it. */
  ghost predicate Pickles(c: Codec) {
    && 0 < |c.dumps(0)| <= c.nsz
    && forall n: nat, junk: Bytes :: c.loads(c.dumps(n) + junk) == n
  }

  /** A record is never empty, and its pickled length must fit the header slot. */
  ghost predicate Fits(c: Codec, rec: Bytes) {
    |rec| > 0 && |c.dumps(|rec|)| <= c.nsz
  }

  /** Reading a slice; a bound past the end is cut off. */
  function Slice(buf: Bytes, from: nat, len: nat): Bytes {
    if from >= |buf| then [] else if from + len >= |buf| then buf[from..] else buf[from..from + len]
  }

  // ---------------------------------------------------------------- the two ring operations

  datatype Space = Space(ok: bool, head: nat, buf: Bytes)

  /** Producer: is there room for sz bytes, and where?  Without room at the top the head wraps,
      even if the answer is no; a 0 header then marks the unused top unless a header does not fit there. */
  function SpaceFor(c: Codec, buf: Bytes, head: nat, tail: nat, sz: nat): (r: Space)
    requires head <= |buf| && |c.dumps(0)| <= c.nsz
    ensures |r.buf| == |buf| && r.head <= head
  {
    if tail <= head then
      var space := |buf| - head;
      if space > sz then Space(true, head, buf)
      else
        Space(tail > sz, 0, if space >= c.nsz then Put(buf, head, c.dumps(0)) else buf)
    else
      Space(tail - head > sz, head, buf)
  }

  datatype Taken = Taken(rec: Bytes, tail: nat)

  /** Where the consumer looks for a length: at its tail, or at the bottom if no header fits there. */
  function LengthPos(c: Codec, buf: Bytes, tail: nat): nat { if |buf| < tail + c.nsz then 0 else tail }

  function LengthAt(c: Codec, buf: Bytes, pos: nat): nat { c.loads(Slice(buf, pos, c.nsz)) }

  /** Consumer: the record that follows tail, skipping to the bottom where the top is unused. */
  function TakeAt(c: Codec, buf: Bytes, tail: nat): Taken {
    var pos := LengthPos(c, buf, tail);
    var n := LengthAt(c, buf, pos);
    var pos' := if n == 0 then 0 else pos;
    var n' := if n == 0 then LengthAt(c, buf, 0) else n;
    Taken(Slice(buf, pos' + c.nsz, n'), pos' + c.nsz + n')
  }

  // ---------------------------------------------------------------- the protocol as a state machine

  /** What the producer does next. */
  datatype ProducerAt =
    | Choosing              // between records of a batch
    | Seeking(rec: Bytes)   // about to ask HasSpace
    | Reloading(rec: Bytes) // told there is no room; about to re-read the shared tail
    | Header(rec: Bytes)    // room granted; about to write the length
    | Body(rec: Bytes)      // about to write the record
    | Counted               // fetch_count raised; about to store the shared head

  /** What the reader thread does next. */
  datatype ReaderAt = Looking | Seen(count: nat) | Exited

  /** What the consumer does next.  Unless it is idle it has `left` more records to remove. */
  datatype ConsumerAt =
    | Idle
    | Draining(left: int)                    // about to read a length, or with none left to store the shared tail
    | Bottom(left: int)                      // having read length 0; about to read the length at the bottom
    | Sized(left: int, pos: nat, n: nat)     // about to read the record of length n whose frame is at pos

  /** A record and where the producer put it. */
  datatype Placed = Placed(pos: nat, rec: Bytes)

  /** The buffer and the producer's own state.  History: `log` holds the records added, `known` is the
      number of them the stale tail covers, `wrapAt` the number there were when the head last wrapped. */
  datatype Ring = Ring(buf: Bytes, head: nat, tail: nat, at: ProducerAt, log: seq<Placed>, known: nat, wrapAt: nat)

  datatype State = State(
    ring: Ring, batch: nat,                                             // producer
    head: nat, tail: nat, fetchCount: nat, fetchingDone: bool,          // shared values
    reader: ReaderAt, lastCount: nat, queue: seq<int>,                  // reader thread and its queued signals
    consumer: ConsumerAt, consumerTail: nat,                            // consumer
    removed: seq<Bytes>, released: nat)   // history: records removed, how many the shared tail covers

  datatype Action =
    | Take(rec: Bytes) | Seek | Reload | WriteHeader | WriteBody | RaiseCount | StoreHead | Finish
    | ReadCount | Notice
    | Begin | ReadLength | ReadBottom | ReadRecord | StoreTail

  function Init(size: nat): State {
    State(Ring(seq(size, i => 0), 0, 0, Choosing, [], 0, 0), 0, 0, 0, 0, false, Looking, 0, [], Idle, 0, [], 0)
  }

  ghost predicate Enabled(c: Codec, s: State, a: Action) {
    var r := s.ring;
    match a
    case Take(rec) => r.at.Choosing? && !s.fetchingDone && rec != []
    case Seek => r.at.Seeking? && r.head <= |r.buf| && |c.dumps(0)| <= c.nsz
    case Reload => r.at.Reloading?
    case WriteHeader => r.at.Header? && r.head + |c.dumps(|r.at.rec|)| <= |r.buf|
    case WriteBody => r.at.Body? && r.head + FrameSize(c, r.at.rec) <= |r.buf|
    case RaiseCount => r.at.Choosing? && s.batch > 0
    case StoreHead => r.at.Counted?
    case Finish => r.at.Choosing? && s.batch == 0
    case ReadCount => s.reader.Looking?
    case Notice => s.reader.Seen?
    case Begin => s.consumer.Idle? && s.queue != []
    case ReadLength => s.consumer.Draining? && s.consumer.left > 0
    case ReadBottom => s.consumer.Bottom?
    case ReadRecord => s.consumer.Sized?
    case StoreTail => s.consumer.Draining? && s.consumer.left <= 0
  }

  function FrameSize(c: Codec, rec: Bytes): nat { |rec| + c.nsz }

  function SeekStep(c: Codec, r: Ring): Ring
    requires r.at.Seeking? && r.head <= |r.buf| && |c.dumps(0)| <= c.nsz
  {
    var h := SpaceFor(c, r.buf, r.head, r.tail, FrameSize(c, r.at.rec));
    r.(buf := h.buf, head := h.head, at := if h.ok then Header(r.at.rec) else Reloading(r.at.rec),
       wrapAt := if h.head == r.head then r.wrapAt else |r.log|)
  }

  function HeaderStep(c: Codec, r: Ring): Ring
    requires r.at.Header? && r.head + |c.dumps(|r.at.rec|)| <= |r.buf|
  {
    r.(buf := Put(r.buf, r.head, c.dumps(|r.at.rec|)), at := Body(r.at.rec))
  }

  function BodyStep(c: Codec, r: Ring): Ring
    requires r.at.Body? && r.head + FrameSize(c, r.at.rec) <= |r.buf|
  {
    r.(buf := Put(r.buf, r.head + c.nsz, r.at.rec), head := r.head + FrameSize(c, r.at.rec),
       at := Choosing, log := r.log + [Placed(r.head, r.at.rec)])
  }

  function ReloadStep(r: Ring, tail: nat, released: nat): Ring
    requires r.at.Reloading?
  {
    r.(tail := tail, known := released, at := Seeking(r.at.rec))
  }

  ghost function Do(c: Codec, s: State, a: Action): State
    requires Enabled(c, s, a)
  {
    var r := s.ring;
    match a
    case Take(rec) => s.(ring := r.(at := Seeking(rec)))
    case Seek => s.(ring := SeekStep(c, r))
    case Reload => s.(ring := ReloadStep(r, s.tail, s.released))
    case WriteHeader => s.(ring := HeaderStep(c, r))
    case WriteBody => s.(ring := BodyStep(c, r), batch := s.batch + 1)
    case RaiseCount => s.(fetchCount := s.fetchCount + s.batch, batch := 0, ring := r.(at := Counted))
    case StoreHead => s.(head := r.head, ring := r.(at := Choosing))
    case Finish => s.(fetchingDone := true)
    case ReadCount => s.(reader := Seen(s.fetchCount))
    case Notice =>
      if s.reader.count != s.lastCount then
        s.(queue := s.queue + [s.reader.count - s.lastCount], lastCount := s.reader.count, reader := Looking)
      else if s.fetchingDone then
        s.(queue := s.queue + [0], reader := Exited)
      else
        s.(reader := Looking)
    case Begin => s.(consumer := Draining(s.queue[0]), queue := s.queue[1..])
    case ReadLength =>
      var pos := LengthPos(c, r.buf, s.consumerTail);
      var n := LengthAt(c, r.buf, pos);
      s.(consumer := if n == 0 then Bottom(s.consumer.left) else Sized(s.consumer.left, pos, n))
    case ReadBottom => s.(consumer := Sized(s.consumer.left, 0, LengthAt(c, r.buf, 0)))
    case ReadRecord =>
      var at := s.consumer.pos + c.nsz;
      s.(consumerTail := at + s.consumer.n, consumer := Draining(s.consumer.left - 1),
         removed := s.removed + [Slice(r.buf, at, s.consumer.n)])
    case StoreTail => s.(tail := s.consumerTail, released := |s.removed|, consumer := Idle)
  }

  // ---------------------------------------------------------------- the invariant

  /** Where the first i records end; the tail after removing i records. */
  function End(c: Codec, log: seq<Placed>, i: nat): nat
    requires i <= |log|
  {
    if i == 0 then 0 else log[i - 1].pos + FrameSize(c, log[i - 1].rec)
  }

  /** The frame of p is in the buffer, byte for byte. */
  ghost predicate Stored(c: Codec, buf: Bytes, p: Placed) {
    var d := c.dumps(|p.rec|);
    && |d| <= c.nsz
    && p.pos + FrameSize(c, p.rec) <= |buf|
    && buf[p.pos..p.pos + |d|] == d
    && buf[p.pos + c.nsz..p.pos + FrameSize(c, p.rec)] == p.rec
  }

  /** Record i is stored, and starts where its predecessor ends unless the head wrapped before it. */
  ghost predicate RecordOk(c: Codec, buf: Bytes, log: seq<Placed>, wrapAt: nat, i: nat)
    requires i < |log|
  {
    && Fits(c, log[i].rec)
    && log[i].pos == (if i == wrapAt then 0 else End(c, log, i))
    && log[i].pos + FrameSize(c, log[i].rec) < |buf|
    && Stored(c, buf, log[i])
  }

  ghost predicate LiveOk(c: Codec, buf: Bytes, log: seq<Placed>, wrapAt: nat, known: nat) {
    forall i :: known <= i < |log| ==> RecordOk(c, buf, log, wrapAt, i)
  }

  /** The top that the last wrap left unused is marked, unless it is too short for a header. */
  ghost predicate Marked(c: Codec, buf: Bytes, x: nat) {
    x + c.nsz <= |buf| ==> |c.dumps(0)| <= c.nsz && buf[x..x + |c.dumps(0)|] == c.dumps(0)
  }

  /** The next record the producer knows to be unremoved lies before the head's last wrap. */
  predicate Wrapped(r: Ring) { r.known <= r.wrapAt && r.wrapAt > 0 }

  /** Head and stale tail are both 0 although records are waiting. */
  predicate Ambiguous(r: Ring) { Wrapped(r) && r.known == 0 }

  /** How the head stands to the stale tail, and what room has been granted. */
  ghost predicate RoomOk(c: Codec, r: Ring) {
    && (!Wrapped(r) ==> r.tail <= r.head)
    && (Wrapped(r) ==> r.head < r.tail || (r.known == 0 && r.wrapAt == |r.log| && r.at.Reloading?))
    && (r.at.Seeking? || r.at.Reloading? || r.at.Header? || r.at.Body? ==> Fits(c, r.at.rec))
    && (r.at.Header? || r.at.Body? ==>
          var end := r.head + FrameSize(c, r.at.rec);
          if Wrapped(r) then end < r.tail else end < |r.buf|)
    && (r.at.Body? ==>
          var d := c.dumps(|r.at.rec|);
          r.head + |d| <= |r.buf| && r.buf[r.head..r.head + |d|] == d)
  }

  ghost predicate RingInv(c: Codec, r: Ring) {
    && Pickles(c)
    && r.known <= |r.log| && r.wrapAt <= |r.log|
    && r.tail == End(c, r.log, r.known)
    && r.head == (if r.wrapAt == |r.log| then 0 else End(c, r.log, |r.log|))
    && r.head <= |r.buf| && r.tail <= |r.buf|
    && LiveOk(c, r.buf, r.log, r.wrapAt, r.known)
    && (Wrapped(r) ==> Marked(c, r.buf, End(c, r.log, r.wrapAt)))
    && RoomOk(c, r)
  }

  /** How many announced records the consumer has yet to remove before it stores the tail. */
  function Left(at: ConsumerAt): int { if at.Idle? then 0 else at.left }

  function Sum(q: seq<int>): int { if q == [] then 0 else q[0] + Sum(q[1..]) }

  /** Each record is in exactly one stage: removed, announced and waiting, counted but not announced, or batched. */
  ghost predicate Counts(c: Codec, s: State) {
    && s.ring.known <= s.released <= |s.removed|
    && s.fetchCount + s.batch == |s.ring.log|
    && s.lastCount <= s.fetchCount
    && (s.reader.Seen? ==> s.lastCount <= s.reader.count <= s.fetchCount)
    && (forall i :: 0 <= i < |s.queue| ==> s.queue[i] >= 0)
    && Left(s.consumer) >= 0
    && |s.removed| + Left(s.consumer) + Sum(s.queue) == s.lastCount
  }

  /** A length that has been read is that of the next record; the top is only skipped where it is unused. */
  ghost predicate ConsumerOk(c: Codec, s: State) {
    s.consumer.Bottom? || s.consumer.Sized? ==>
      && |s.removed| < |s.ring.log| && s.consumer.left > 0
      && var next := s.ring.log[|s.removed|];
         if s.consumer.Bottom? then next.pos == 0
         else s.consumer.pos == next.pos && s.consumer.n == |next.rec|
  }

  /** The records removed so far are the first ones added, in order. */
  ghost predicate IsPrefix(s: State) {
    && |s.removed| <= |s.ring.log|
    && forall i :: 0 <= i < |s.removed| ==> s.removed[i] == s.ring.log[i].rec
  }

  ghost predicate Inv(c: Codec, s: State) {
    && RingInv(c, s.ring)
    && Counts(c, s)
    && IsPrefix(s)
    && s.released <= |s.ring.log|
    && s.tail == End(c, s.ring.log, s.released)
    && s.consumerTail == End(c, s.ring.log, |s.removed|)
    && ConsumerOk(c, s)
  }

  /** The one dangerous step: re-reading the shared tail while it is still 0, after the head wrapped over waiting
      records. */
  predicate Blind(s: State, a: Action) {
    a.Reload? && Ambiguous(s.ring) && s.tail == 0
  }

  /** The records taken for the ring fit it. */
  ghost predicate Fitting(c: Codec, a: Action) { a.Take? ==> Fits(c, a.rec) }

  ghost predicate AllFit(c: Codec, acts: seq<Action>) { forall i :: 0 <= i < |acts| ==> Fitting(c, acts[i]) }

  // ---------------------------------------------------------------- whole runs

  ghost predicate Run(c: Codec, s: State, acts: seq<Action>)
    decreases |acts|
  {
    acts == [] || (Enabled(c, s, acts[0]) && Run(c, Do(c, s, acts[0]), acts[1..]))
  }

  ghost function Exec(c: Codec, s: State, acts: seq<Action>): State
    requires Run(c, s, acts)
    decreases |acts|
  {
    if acts == [] then s else Exec(c, Do(c, s, acts[0]), acts[1..])
  }

  /** No step of the run is blind. */
  ghost predicate Sighted(c: Codec, s: State, acts: seq<Action>)
    requires Run(c, s, acts)
    decreases |acts|
  {
    acts == [] || (!Blind(s, acts[0]) && Sighted(c, Do(c, s, acts[0]), acts[1..]))
  }

  /** The head wraps for the first time, over records that have been added. */
  ghost predicate FirstWrap(c: Codec, s: State, a: Action)
    requires Enabled(c, s, a)
  {
    a.Seek? && s.ring.wrapAt == 0 && Do(c, s, a).ring.wrapAt > 0
  }

  /** The consumer has published a tail by the time the head first wraps. */
  ghost predicate TailFirst(c: Codec, s: State, acts: seq<Action>)
    requires Run(c, s, acts)
    decreases |acts|
  {
    acts == [] || ((FirstWrap(c, s, acts[0]) ==> s.tail > 0) && TailFirst(c, Do(c, s, acts[0]), acts[1..]))
  }

  predicate Overlap(lo: int, hi: int, from: int, to: int) { lo < to && from < hi }

  /** The room granted to the producer overlaps the frame of record i. */
  predicate GrantedOver(c: Codec, r: Ring, i: nat)
    requires (r.at.Header? || r.at.Body?) && i < |r.log|
  {
    Overlap(r.head, r.head + FrameSize(c, r.at.rec), r.log[i].pos, End(c, r.log, i + 1))
  }

  /** Some record from the k-th on would be overwritten. */
  ghost predicate GrantedOverAny(c: Codec, r: Ring, k: nat) {
    (r.at.Header? || r.at.Body?) && exists i :: k <= i < |r.log| && GrantedOver(c, r, i)
  }

  /** There is an unread record, and the consumer stands below the given position. */
  predicate UnreadBelow(s: State, limit: nat) { |s.removed| < |s.ring.log| && s.consumerTail < limit }
}
