/** The concurrent write ledger of the f2fs retry-race test (shared_with_qemu/test/utils/f2fs_retry_race.py).
    Workers write patterns to slots of shared files and log each write when it is finished; replaying the
    log over the files' initial contents is to reproduce the files.  The workers are interleaved one
    partial write, or one log entry, at a time. */
module RetryLedger {
  import opened Common
  import opened Patterns

  datatype Config = Config(fileSize: nat, fsyncChunk: nat, backgroundChunk: nat,
                           fsyncWorkers: nat, backgroundWriters: nat, fileCount: nat, seed: int)

  datatype Worker = Fsync(id: nat) | Background(id: nat)

  // ---------------------------------------------------------------- slots and regions

  function Max(a: int, b: int): int { if a > b then a else b }

  function Half(c: Config): nat { c.fileSize / 2 }

  function ChunkOf(c: Config, w: Worker): nat { if w.Fsync? then c.fsyncChunk else c.backgroundChunk }

  function WorkersLike(c: Config, w: Worker): nat { if w.Fsync? then c.fsyncWorkers else c.backgroundWriters }

  /** The number of slots that the workers of a kind share. */
  function Slots(c: Config, w: Worker): (n: nat)
    requires ChunkOf(c, w) > 0
    ensures n > 0
  {
    if w.Fsync? then Max(1, Half(c) / c.fsyncChunk)
    else Max(1, Max(c.backgroundChunk, c.fileSize - Half(c)) / c.backgroundChunk)
  }

  /** As many slots as fit the half of the file that the kind is for, and at least one. */
  lemma {:induction false} SlotsFill(c: Config, w: Worker)
    requires ChunkOf(c, w) > 0
    ensures var (half, n) := (if w.Fsync? then Half(c) else c.fileSize - Half(c), Slots(c, w));
            if ChunkOf(c, w) <= half then n * ChunkOf(c, w) <= half < (n + 1) * ChunkOf(c, w) else n == 1
    ensures c.fileSize - 1 <= 2 * Half(c) <= c.fileSize
  {
    var (half, d) := (if w.Fsync? then Half(c) else c.fileSize - Half(c), ChunkOf(c, w));
    FloorFill(half, d);
    FloorFill(Max(d, half), d);
  }

  lemma {:induction false} FloorFill(half: nat, d: nat)
    requires d > 0
    ensures var n := Max(1, half / d); if d <= half then n * d <= half < (n + 1) * d else n == 1
    ensures d == half ==> half / d == 1
  {
    var q := half / d;
    DivTimes(half, d);
    assert (q + 1) * d == q * d + d;
    if d > half {
      assert q == 0;
    } else {
      assert q >= 1;
    }
  }

  /** assigned_worker_slots: every worker_count-th slot from worker_id on; None where the original raises. */
  method AssignedWorkerSlots(totalSlots: int, workerId: int, workerCount: int) returns (slots: Option<seq<int>>)
    ensures slots.None? <==> totalSlots <= 0 || workerCount <= 0 || workerId < 0 || workerId >= workerCount || workerCount > totalSlots
    ensures slots.Some? ==> slots.value != []
    ensures slots.Some? ==> forall s :: s in slots.value <==> 0 <= s < totalSlots && s % workerCount == workerId
    ensures slots.Some? ==> forall i, j :: 0 <= i < j < |slots.value| ==> slots.value[i] < slots.value[j]
  {
    if totalSlots <= 0 || workerCount <= 0 || workerId < 0 || workerId >= workerCount || workerCount > totalSlots {
      return None;
    }
    var picked: seq<int> := [];
    var s := workerId;
    ModUnique(s, 0, workerId, workerCount);
    while s < totalSlots
      invariant workerId <= s && s % workerCount == workerId
      invariant forall x :: x in picked <==> workerId <= x < s && x < totalSlots && x % workerCount == workerId
      invariant forall i, j :: 0 <= i < j < |picked| ==> picked[i] < picked[j]
      invariant forall i :: 0 <= i < |picked| ==> picked[i] < s
      invariant s == workerId || picked != []
      decreases totalSlots - s
    {
      picked := picked + [s];
      forall x | s < x < s + workerCount ensures x % workerCount != workerId {
        NoneBetween(s, x, workerCount);
      }
      ModShift(s, 1, workerCount);
      s := s + workerCount;
    }
    forall x | 0 <= x < workerId ensures x % workerCount != workerId {
      ModUnique(x, 0, x, workerCount);
    }
    slots := Some(picked);
  }

  lemma {:induction false} NoneBetween(s: int, x: int, m: int)
    requires m > 0 && s < x < s + m
    ensures x % m != s % m
  {
    ModAdd(s, x - s, m);
    var r := s % m;
    if r + (x - s) < m {
      ModUnique(r + (x - s), 0, r + (x - s), m);
    } else {
      ModUnique(r + (x - s), 1, r + (x - s) - m, m);
    }
  }

  /** Slot `slot` belongs to worker w. */
  predicate Owns(c: Config, w: Worker, slot: nat)
    requires ChunkOf(c, w) > 0 && WorkersLike(c, w) > 0
  {
    w.id < WorkersLike(c, w) && slot < Slots(c, w) && slot % WorkersLike(c, w) == w.id
  }

  /** Where a slot's region starts; a background region that would pass the end of the file is moved back. */
  function Offset(c: Config, w: Worker, slot: nat): int {
    if w.Fsync? then slot * c.fsyncChunk
    else
      var offset := Half(c) + slot * c.backgroundChunk;
      if offset + c.backgroundChunk > c.fileSize then c.fileSize - c.backgroundChunk else offset
  }

  /** Regions of a kind follow one another, those written with fsync from the beginning of the file and the others from
      its middle, unless the first of them would pass its end. */
  lemma {:induction false} RegionsFollow(c: Config, w: Worker, slot: nat)
    requires ChunkOf(c, w) > 0 && slot + 1 < Slots(c, w)
    ensures Offset(c, w, slot + 1) == Offset(c, w, slot) + ChunkOf(c, w)
    ensures Offset(c, Fsync(0), 0) == 0
    ensures w.Background? ==> Offset(c, w, 0) == Half(c)
  {
    SlotsFill(c, w);
    MulMonotone(slot + 2, Slots(c, w), ChunkOf(c, w));
    MulMonotone(0, slot, ChunkOf(c, w));
    assert (slot + 1) * ChunkOf(c, w) == slot * ChunkOf(c, w) + ChunkOf(c, w);
    assert (slot + 2) * ChunkOf(c, w) == (slot + 1) * ChunkOf(c, w) + ChunkOf(c, w);
  }

  /** What the test demands of its configuration before any worker starts.  A chunk may be larger than the file. */
  predicate IsValid(c: Config) {
    && 0 < c.fsyncChunk && 0 < c.backgroundChunk
    && 0 < c.fsyncWorkers <= Slots(c, Fsync(0)) && 0 < c.backgroundWriters <= Slots(c, Background(0))
  }

  type ValidConfig = c: Config | IsValid(c) witness Config(2, 1, 1, 1, 1, 1, 0)

  /** Every slot belongs to just one worker of its kind, and each worker that the test starts, and no other, has some. */
  lemma {:induction false} SlotsShared(c: ValidConfig, w: Worker, v: Worker, slot: nat)
    ensures Owns(c, w, slot) && Owns(c, v, slot) && w.Fsync? == v.Fsync? ==> w == v
    ensures slot < Slots(c, w) ==> exists u: Worker :: u.Fsync? == w.Fsync? && Owns(c, u, slot)
    ensures (exists k :: Owns(c, w, k)) <==> w.id < if w.Fsync? then c.fsyncWorkers else c.backgroundWriters
  {
    var owner := slot % WorkersLike(c, w);
    var u := if w.Fsync? then Fsync(owner) else Background(owner);
    assert slot < Slots(c, w) ==> Owns(c, u, slot);
    if w.id < WorkersLike(c, w) {
      ModUnique(w.id, 0, w.id, WorkersLike(c, w));
      assert Owns(c, w, w.id);
    }
  }

  /** The slots written with fsync end before the background slots begin. */
  predicate Separate(c: ValidConfig) {
    Slots(c, Fsync(0)) * c.fsyncChunk <= Offset(c, Background(0), 0)
  }

  /** No fsync write passes the end of the file, and the two kinds of slots are apart unless the background chunk is
      larger than the file, so that the background workers fail before they write anything. */
  predicate Reliable(c: ValidConfig) {
    c.fsyncChunk <= c.fileSize && (c.backgroundChunk > c.fileSize || Separate(c))
  }

  lemma {:induction false} DivTimes(a: nat, b: nat)
    requires b > 0
    ensures a / b * b <= a < a / b * b + b
  {
  }

  /** Chunks that fit their half of the file keep the two kinds apart. */
  lemma {:induction false} FittingChunksAreSeparate(c: ValidConfig)
    requires c.fsyncChunk <= Half(c) && c.backgroundChunk <= c.fileSize - Half(c)
    ensures Separate(c) && Reliable(c)
  {
    DivTimes(Half(c), c.fsyncChunk);
  }

  /** Every region lies inside the file, the fsync regions below their common end, unless the chunk is larger than
      the file: then a background region starts before the file. */
  lemma {:induction false} RegionBounds(c: ValidConfig, w: Worker, slot: nat)
    requires slot < Slots(c, w)
    ensures 0 <= Offset(c, w, slot) <==> w.Fsync? || c.backgroundChunk <= c.fileSize
    ensures ChunkOf(c, w) <= c.fileSize ==> Offset(c, w, slot) + ChunkOf(c, w) <= c.fileSize
    ensures w.Fsync? ==> Offset(c, w, slot) + c.fsyncChunk <= Slots(c, Fsync(0)) * c.fsyncChunk
    ensures w.Background? ==> Offset(c, Background(0), 0) <= Offset(c, w, slot)
  {
    if w.Fsync? {
      MulMonotone(slot + 1, Slots(c, w), c.fsyncChunk);
      DivTimes(Half(c), c.fsyncChunk);
      assert (slot + 1) * c.fsyncChunk == slot * c.fsyncChunk + c.fsyncChunk;
    } else {
      MulMonotone(0, slot, c.backgroundChunk);
    }
  }

  /** Background regions are only moved back when there is a single one. */
  lemma {:induction false} BackgroundUnmoved(c: ValidConfig, slot: nat)
    requires slot < Slots(c, Background(0)) && Slots(c, Background(0)) > 1
    ensures Offset(c, Background(0), slot) == Half(c) + slot * c.backgroundChunk
  {
    SlotsFill(c, Background(0));
    MulMonotone(slot + 1, Slots(c, Background(0)), c.backgroundChunk);
    assert (slot + 1) * c.backgroundChunk == slot * c.backgroundChunk + c.backgroundChunk;
  }

  predicate In(c: ValidConfig, w: Worker, slot: nat, x: int) {
    Offset(c, w, slot) <= x < Offset(c, w, slot) + ChunkOf(c, w)
  }

  /** Regions in the file of different slots, and of different workers, never overlap. */
  lemma {:induction false} RegionsDisjoint(c: ValidConfig, w: Worker, slot: nat, w': Worker, slot': nat, x: int)
    requires Reliable(c) && Owns(c, w, slot) && Owns(c, w', slot')
    requires 0 <= Offset(c, w, slot) && 0 <= Offset(c, w', slot')
    requires In(c, w, slot, x) && In(c, w', slot', x)
    ensures w == w' && slot == slot'
  {
    RegionBounds(c, w, slot);
    RegionBounds(c, w', slot');
    if w.Fsync? == w'.Fsync? {
      SlotsDisjoint(c, w, slot, w', slot', x);
    }
  }

  lemma {:induction false} SlotsDisjoint(c: ValidConfig, w: Worker, slot: nat, w': Worker, slot': nat, x: int)
    requires w.Fsync? == w'.Fsync? && slot < Slots(c, w) && slot' < Slots(c, w')
    requires In(c, w, slot, x) && In(c, w', slot', x)
    ensures slot == slot'
  {
    var d := ChunkOf(c, w);
    if Slots(c, w) > 1 {
      if w.Background? {
        BackgroundUnmoved(c, slot);
        BackgroundUnmoved(c, slot');
      }
      var base := if w.Fsync? then 0 else Half(c);
      assert base + slot * d <= x < base + slot * d + d && base + slot' * d <= x < base + slot' * d + d;
      SameSlot(slot, slot', d, x - base);
    }
  }

  lemma {:induction false} SameSlot(a: nat, b: nat, d: nat, y: int)
    requires a * d <= y < a * d + d && b * d <= y < b * d + d
    ensures a == b
  {
    assert (a + 1) * d == a * d + d && (b + 1) * d == b * d + d;
    if a < b {
      MulMonotone(a + 1, b, d);
    } else if b < a {
      MulMonotone(b + 1, a, d);
    }
  }

  // ---------------------------------------------------------------- the run as a state machine

  /** What a worker is doing: between writes, having written the first pos bytes of a slot's region, or stopped by
      the failure of a write before the beginning of the file. */
  datatype WorkerState = Idle | Writing(file: nat, slot: nat, offset: nat, seed: int, pos: nat) | Stopped

  datatype Key = Key(file: nat, offset: nat, length: nat)

  /** A log entry: its number, and the seed of the pattern written. */
  datatype Entry = Entry(number: nat, seed: int)

  datatype State = State(files: seq<Bytes>, at: map<Worker, WorkerState>, writeSeq: map<Worker, nat>,
                         ledger: map<Key, Entry>, seqNo: nat)

  datatype Action = Begin(w: Worker, file: nat, slot: nat) | Write(w: Worker, n: nat) | Note(w: Worker)

  function At(s: State, w: Worker): WorkerState { if w in s.at then s.at[w] else Idle }

  function WriteSeq(s: State, w: Worker): nat { if w in s.writeSeq then s.writeSeq[w] else 0 }

  /** The seed of a worker's n-th write, to the given file. */
  function SeedFor(c: ValidConfig, w: Worker, n: nat, file: nat): int {
    (if w.Fsync? then c.seed + 0x1000 + w.id * 97 else c.seed + 0x4000 + w.id * 131) + n * 257 + file
  }

  /** The writes of one worker all have different seeds, as long as there are no more than 257 files. */
  lemma {:induction false} SeedsDiffer(c: ValidConfig, w: Worker, n: nat, file: nat, n': nat, file': nat)
    requires c.fileCount <= 257 && file < c.fileCount && file' < c.fileCount
    ensures SeedFor(c, w, n, file) == SeedFor(c, w, n', file') ==> n == n' && file == file'
  {
  }

  /** Some of them, for the seed that the test starts from. */
  lemma {:induction false} SomeSeeds(c: ValidConfig)
    requires c.seed == 20260504
    ensures SeedFor(c, Fsync(0), 1, 0) == 20264857 && SeedFor(c, Fsync(3), 2, 1) == 20265406
    ensures SeedFor(c, Background(0), 1, 0) == 20277145 && SeedFor(c, Background(1), 2, 1) == 20277534
  {
  }

  function Baseline(c: ValidConfig, file: nat, x: int): nat { Mod251Byte(c.seed + file, x) }

  function InitialFiles(c: ValidConfig): (files: seq<Bytes>)
    ensures |files| == c.fileCount
    ensures forall f :: 0 <= f < c.fileCount ==> files[f] == Mod251Region(c.seed + f, 0, c.fileSize)
  {
    seq<Bytes>(c.fileCount, f requires 0 <= f < c.fileCount => Mod251Region(c.seed + f, 0, c.fileSize))
  }

  function Init(c: ValidConfig): State { State(InitialFiles(c), map[], map[], map[], 0) }

  predicate Enabled(c: ValidConfig, s: State, a: Action) {
    match a
    case Begin(w, file, slot) => At(s, w).Idle? && file < c.fileCount && Owns(c, w, slot)
    case Write(w, n) => At(s, w).Writing? && 0 < n && At(s, w).pos + n <= ChunkOf(c, w) && At(s, w).file < |s.files|
    case Note(w) => At(s, w).Writing? && At(s, w).pos == ChunkOf(c, w)
  }

  function Do(c: ValidConfig, s: State, a: Action): State
    requires Enabled(c, s, a)
  {
    match a
    case Begin(w, file, slot) =>
      var (n, offset) := (WriteSeq(s, w) + 1, Offset(c, w, slot));
      s.(at := s.at[w := if offset < 0 then Stopped else Writing(file, slot, offset, SeedFor(c, w, n, file), 0)],
         writeSeq := s.writeSeq[w := n])
    case Write(w, n) =>
      var p := At(s, w);
      var from := p.offset + p.pos;
      s.(files := s.files[p.file := Written(s.files[p.file], from, Mod251Region(p.seed, from, n))],
         at := s.at[w := p.(pos := p.pos + n)])
    case Note(w) =>
      var p := At(s, w);
      s.(ledger := s.ledger[Key(p.file, p.offset, ChunkOf(c, w)) := Entry(s.seqNo + 1, p.seed)],
         seqNo := s.seqNo + 1, at := s.at[w := Idle])
  }

  /** Worker w has already written byte x of the file in its current write. */
  predicate WrittenBy(s: State, w: Worker, file: nat, x: int) {
    var p := At(s, w);
    p.Writing? && p.file == file && p.offset <= x < p.offset + p.pos
  }

  predicate Logged(key: Key, file: nat, x: int) {
    key.file == file && key.offset <= x < key.offset + key.length
  }

  // ---------------------------------------------------------------- the invariant

  ghost predicate WorkersOk(c: ValidConfig, s: State) {
    forall w :: At(s, w).Writing? ==>
      var p := At(s, w);
      Owns(c, w, p.slot) && p.offset == Offset(c, w, p.slot) && p.pos <= ChunkOf(c, w) && p.file < c.fileCount
  }

  ghost predicate EntriesOk(c: ValidConfig, s: State) {
    forall key :: key in s.ledger ==> IsRegion(c, key)
  }

  /** The key names the region of some worker's slot. */
  ghost predicate IsRegion(c: ValidConfig, key: Key) {
    exists w, slot :: Owns(c, w, slot) && key.offset == Offset(c, w, slot) && key.length == ChunkOf(c, w)
  }

  /** Entries are numbered in the order in which they were made. */
  ghost predicate Numbered(ledger: map<Key, Entry>, seqNo: nat) {
    && (forall key :: key in ledger ==> ledger[key].number <= seqNo)
    && (forall key, key' :: key in ledger && key' in ledger && key != key' ==> ledger[key].number != ledger[key'].number)
  }

  /** Byte x of the file is what its last write left, if the write is in progress or logged, and else as it was at first. */
  ghost predicate ByteOk(c: ValidConfig, s: State, file: nat, x: nat)
    requires file < |s.files| && x < |s.files[file]|
  {
    var b := s.files[file][x];
    && (forall w :: WrittenBy(s, w, file, x) ==> b == Mod251Byte(At(s, w).seed, x))
    && ((forall w :: !WrittenBy(s, w, file, x)) ==>
          && (forall key :: key in s.ledger && Logged(key, file, x) ==> b == Mod251Byte(s.ledger[key].seed, x))
          && ((forall key :: key in s.ledger ==> !Logged(key, file, x)) ==> b == Baseline(c, file, x)))
  }

  /** The files keep their size unless fsync chunks are larger. */
  ghost predicate FilesShaped(c: ValidConfig, s: State) {
    && |s.files| == c.fileCount
    && forall f :: 0 <= f < c.fileCount ==>
         c.fileSize <= |s.files[f]| && (c.fsyncChunk <= c.fileSize ==> |s.files[f]| == c.fileSize)
  }

  /** What holds of every configuration. */
  ghost predicate Shape(c: ValidConfig, s: State) {
    FilesShaped(c, s) && WorkersOk(c, s) && EntriesOk(c, s) && Numbered(s.ledger, s.seqNo)
  }

  ghost predicate Inv(c: ValidConfig, s: State) {
    && Shape(c, s)
    && forall f, x :: 0 <= f < c.fileCount && 0 <= x < c.fileSize ==> ByteOk(c, s, f, x)
  }

  lemma {:induction false} WriteShape(c: ValidConfig, s: State, w: Worker, n: nat)
    requires Shape(c, s) && Enabled(c, s, Write(w, n))
    ensures Shape(c, Do(c, s, Write(w, n)))
  {
    var p := At(s, w);
    RegionBounds(c, w, p.slot);
    WrittenAt(s.files[p.file], p.offset + p.pos, Mod251Region(p.seed, p.offset + p.pos, n), 0);
  }

  lemma {:induction false} ShapeKeeps(c: ValidConfig, s: State, a: Action)
    requires Shape(c, s) && Enabled(c, s, a)
    ensures Shape(c, Do(c, s, a))
  {
    match a
    case Begin(w, file, slot) =>
    case Write(w, n) => WriteShape(c, s, w, n);
    case Note(w) =>
      var p := At(s, w);
      assert Owns(c, w, p.slot);
      assert IsRegion(c, Key(p.file, p.offset, ChunkOf(c, w)));
  }

  lemma {:induction false} BeginByte(c: ValidConfig, s: State, a: Action, f: nat, x: nat)
    requires Inv(c, s) && Enabled(c, s, a) && a.Begin? && f < c.fileCount && x < c.fileSize
    ensures ByteOk(c, Do(c, s, a), f, x)
  {
    var t := Do(c, s, a);
    assert ByteOk(c, s, f, x);
    forall w
      ensures WrittenBy(t, w, f, x) == WrittenBy(s, w, f, x) && (WrittenBy(s, w, f, x) ==> At(t, w) == At(s, w))
    {
    }
  }

  lemma {:induction false} WriteContent(c: ValidConfig, s: State, w: Worker, n: nat, f: nat, x: nat)
    requires FilesShaped(c, s) && Enabled(c, s, Write(w, n)) && f < c.fileCount && x < c.fileSize
    requires FilesShaped(c, Do(c, s, Write(w, n)))
    ensures var (t, p) := (Do(c, s, Write(w, n)), At(s, w));
            t.files[f][x] == if f == p.file && p.offset + p.pos <= x < p.offset + p.pos + n
                             then Mod251Byte(p.seed, x) else s.files[f][x]
  {
    var p := At(s, w);
    if f == p.file {
      WrittenAt(s.files[f], p.offset + p.pos, Mod251Region(p.seed, p.offset + p.pos, n), x);
    }
  }

  lemma {:induction false} WriteInside(c: ValidConfig, s: State, w: Worker, n: nat, f: nat, x: nat)
    requires Reliable(c) && Inv(c, s) && Enabled(c, s, Write(w, n)) && f < c.fileCount && x < c.fileSize
    requires FilesShaped(c, Do(c, s, Write(w, n))) && WorkersOk(c, Do(c, s, Write(w, n)))
    requires f == At(s, w).file && At(s, w).offset + At(s, w).pos <= x < At(s, w).offset + At(s, w).pos + n
    ensures ByteOk(c, Do(c, s, Write(w, n)), f, x)
  {
    var t := Do(c, s, Write(w, n));
    WriteContent(c, s, w, n, f, x);
    assert WrittenBy(t, w, f, x);
    forall v | WrittenBy(t, v, f, x) ensures v == w {
      RegionsDisjoint(c, w, At(t, w).slot, v, At(t, v).slot, x);
    }
  }

  lemma {:induction false} WriteOutside(c: ValidConfig, s: State, w: Worker, n: nat, f: nat, x: nat)
    requires Inv(c, s) && Enabled(c, s, Write(w, n)) && f < c.fileCount && x < c.fileSize
    requires FilesShaped(c, Do(c, s, Write(w, n)))
    requires !(f == At(s, w).file && At(s, w).offset + At(s, w).pos <= x < At(s, w).offset + At(s, w).pos + n)
    ensures ByteOk(c, Do(c, s, Write(w, n)), f, x)
  {
    var t := Do(c, s, Write(w, n));
    WriteContent(c, s, w, n, f, x);
    assert ByteOk(c, s, f, x);
    forall v
      ensures WrittenBy(t, v, f, x) == WrittenBy(s, v, f, x)
      ensures WrittenBy(t, v, f, x) ==> At(t, v).seed == At(s, v).seed
    {
    }
  }

  lemma {:induction false} NoteByte(c: ValidConfig, s: State, w: Worker, f: nat, x: nat)
    requires Reliable(c) && Inv(c, s) && Enabled(c, s, Note(w)) && f < c.fileCount && x < c.fileSize
    ensures FilesShaped(c, Do(c, s, Note(w))) && ByteOk(c, Do(c, s, Note(w)), f, x)
  {
    var t := Do(c, s, Note(w));
    var p := At(s, w);
    var mine := Key(p.file, p.offset, ChunkOf(c, w));
    assert ByteOk(c, s, f, x);
    if Logged(mine, f, x) {
      assert WrittenBy(s, w, f, x);
      forall v ensures !WrittenBy(t, v, f, x) {
        if WrittenBy(t, v, f, x) {
          RegionsDisjoint(c, w, p.slot, v, At(s, v).slot, x);
        }
      }
      forall key | key in t.ledger && Logged(key, f, x) ensures key == mine {
        if key != mine {
          assert IsRegion(c, key);
          var v, slot :| Owns(c, v, slot) && key.offset == Offset(c, v, slot) && key.length == ChunkOf(c, v);
          RegionsDisjoint(c, w, p.slot, v, slot, x);
        }
      }
      assert mine in t.ledger;
    } else {
      forall v
        ensures WrittenBy(t, v, f, x) == WrittenBy(s, v, f, x) && (WrittenBy(t, v, f, x) ==> At(t, v) == At(s, v))
      {
      }
      forall key | Logged(key, f, x) ensures key in t.ledger <==> key in s.ledger {}
    }
  }

  /** Every step of every worker keeps the invariant. */
  lemma {:induction false} StepKeeps(c: ValidConfig, s: State, a: Action)
    requires Reliable(c) && Inv(c, s) && Enabled(c, s, a)
    ensures Inv(c, Do(c, s, a))
  {
    ShapeKeeps(c, s, a);
    forall f, x | 0 <= f < c.fileCount && 0 <= x < c.fileSize ensures ByteOk(c, Do(c, s, a), f, x) {
      match a
      case Begin(_, _, _) => BeginByte(c, s, a, f, x);
      case Write(w, n) =>
        if f == At(s, w).file && At(s, w).offset + At(s, w).pos <= x < At(s, w).offset + At(s, w).pos + n {
          WriteInside(c, s, w, n, f, x);
        } else {
          WriteOutside(c, s, w, n, f, x);
        }
      case Note(w) => NoteByte(c, s, w, f, x);
    }
  }

  // ---------------------------------------------------------------- replaying the log

  datatype Item = Item(number: nat, offset: nat, length: nat, seed: int)

  function ItemOf(key: Key, e: Entry): Item { Item(e.number, key.offset, key.length, e.seed) }

  ghost predicate Ascending(items: seq<Item>) {
    forall i, j :: 0 <= i < j < |items| ==> items[i].number < items[j].number
  }

  /** items lists the entries of one file under the given keys, in the order of their numbers. */
  ghost predicate Lists(ledger: map<Key, Entry>, keys: set<Key>, file: nat, items: seq<Item>) {
    && Ascending(items)
    && (forall key :: key in keys && key in ledger && key.file == file ==> ItemOf(key, ledger[key]) in items)
    && (forall it :: it in items ==> exists key :: key in keys && key in ledger && key.file == file && it == ItemOf(key, ledger[key]))
  }

  function InsertItem(it: Item, items: seq<Item>): (r: seq<Item>)
    ensures forall x :: x in r <==> x == it || x in items
  {
    if items == [] || it.number < items[0].number then [it] + items
    else
      assert items == [items[0]] + items[1..];
      [items[0]] + InsertItem(it, items[1..])
  }

  lemma {:induction false} InsertAscending(it: Item, items: seq<Item>)
    requires Ascending(items) && forall x :: x in items ==> x.number != it.number
    ensures Ascending(InsertItem(it, items))
  {
    var r := InsertItem(it, items);
    if items != [] && it.number >= items[0].number {
      assert items[0] in items;
      InsertAscending(it, items[1..]);
      var t := InsertItem(it, items[1..]);
      forall j | 0 < j < |r| ensures r[0].number < r[j].number {
        assert r[j] == t[j - 1] && t[j - 1] in t;
        if r[j] != it {
          var k :| 0 <= k < |items[1..]| && items[1..][k] == r[j];
          assert items[k + 1] == r[j];
        }
      }
    }
  }

  lemma {:induction false} ListsNext(ledger: map<Key, Entry>, keys: set<Key>, file: nat, items: seq<Item>, key: Key)
    requires Lists(ledger, keys, file, items) && key in ledger && key !in keys
    requires forall k, k' :: k in ledger && k' in ledger && k != k' ==> ledger[k].number != ledger[k'].number
    ensures Lists(ledger, keys + {key}, file,
                  if key.file == file then InsertItem(ItemOf(key, ledger[key]), items) else items)
  {
    if key.file == file {
      InsertAscending(ItemOf(key, ledger[key]), items);
    }
  }

  lemma {:induction false} ListExists(ledger: map<Key, Entry>, keys: set<Key>, file: nat) returns (items: seq<Item>)
    requires keys <= ledger.Keys
    requires forall k, k' :: k in ledger && k' in ledger && k != k' ==> ledger[k].number != ledger[k'].number
    ensures Lists(ledger, keys, file, items)
    decreases |keys|
  {
    if keys == {} {
      items := [];
    } else {
      var key :| key in keys;
      items := ListExists(ledger, keys - {key}, file);
      ListsNext(ledger, keys - {key}, file, items, key);
      items := if key.file == file then InsertItem(ItemOf(key, ledger[key]), items) else items;
      assert keys - {key} + {key} == keys;
    }
  }

  /** The last write of every region, under a lock. */
  class LastWriteLedger {
    var seqNo: nat
    var entries: map<Key, Entry>

    constructor ()
      ensures seqNo == 0 && entries == map[]
    {
      seqNo, entries := 0, map[];
    }

    method NoteWrite(file: nat, offset: nat, length: nat, seed: int)
      requires Numbered(entries, seqNo)
      modifies this
      ensures seqNo == old(seqNo) + 1
      ensures entries == old(entries)[Key(file, offset, length) := Entry(seqNo, seed)]
      ensures Numbered(entries, seqNo)
    {
      seqNo := seqNo + 1;
      entries := entries[Key(file, offset, length) := Entry(seqNo, seed)];
    }

    method OverlaysFor(file: nat) returns (items: seq<Item>)
      requires Numbered(entries, seqNo)
      ensures Lists(entries, entries.Keys, file, items)
    {
      items := [];
      var todo := entries.Keys;
      while todo != {}
        invariant todo <= entries.Keys
        invariant Lists(entries, entries.Keys - todo, file, items)
        decreases |todo|
      {
        var key :| key in todo;
        ListsNext(entries, entries.Keys - todo, file, items, key);
        assert entries.Keys - todo + {key} == entries.Keys - (todo - {key});
        if key.file == file {
          items := InsertItem(ItemOf(key, entries[key]), items);
        }
        todo := todo - {key};
      }
      assert entries.Keys - todo == entries.Keys;
    }
  }

  predicate Covers(it: Item, x: int) { it.offset <= x < it.offset + it.length }

  /** A byte of the baseline with the items laid over it one after the other. */
  function ReplayByte(c: ValidConfig, file: nat, items: seq<Item>, x: int): nat {
    if items == [] then Baseline(c, file, x)
    else
      var last := items[|items| - 1];
      if Covers(last, x) then Mod251Byte(last.seed, x) else ReplayByte(c, file, items[..|items| - 1], x)
  }

  function Replay(c: ValidConfig, file: nat, items: seq<Item>): Bytes {
    seq<nat>(c.fileSize, x requires 0 <= x < c.fileSize => ReplayByte(c, file, items, x))
  }

  lemma {:induction false} ReplayAgrees(c: ValidConfig, file: nat, items: seq<Item>, x: int, b: nat)
    requires forall it :: it in items && Covers(it, x) ==> Mod251Byte(it.seed, x) == b
    requires (forall it :: it in items ==> !Covers(it, x)) ==> b == Baseline(c, file, x)
    ensures ReplayByte(c, file, items, x) == b
  {
    if items != [] {
      var (init, last) := (items[..|items| - 1], items[|items| - 1]);
      assert items == init + [last];
      if !Covers(last, x) {
        ReplayAgrees(c, file, init, x, b);
      } else {
        assert last in items;
      }
    }
  }

  ghost predicate AllIdle(s: State) { forall w :: At(s, w).Idle? }

  /** No worker is in the middle of a write. */
  ghost predicate AtRest(s: State) { forall w :: !At(s, w).Writing? }

  /** With all workers stopped, the log replayed over a file's baseline is the file. */
  lemma {:induction false} LedgerReplays(c: ValidConfig, s: State, file: nat, items: seq<Item>)
    requires Inv(c, s) && AtRest(s) && file < c.fileCount && c.fsyncChunk <= c.fileSize
    requires Lists(s.ledger, s.ledger.Keys, file, items)
    ensures Replay(c, file, items) == s.files[file]
  {
    forall x | 0 <= x < c.fileSize ensures ReplayByte(c, file, items, x) == s.files[file][x] {
      assert ByteOk(c, s, file, x);
      forall w ensures !WrittenBy(s, w, file, x) {}
      forall key | key in s.ledger && Logged(key, file, x) ensures ItemOf(key, s.ledger[key]) in items {}
      ReplayAgrees(c, file, items, x, s.files[file][x]);
    }
  }

  // ---------------------------------------------------------------- all runs

  ghost predicate Run(c: ValidConfig, s: State, acts: seq<Action>)
    decreases |acts|
  {
    acts == [] || (Enabled(c, s, acts[0]) && Run(c, Do(c, s, acts[0]), acts[1..]))
  }

  ghost function Exec(c: ValidConfig, s: State, acts: seq<Action>): State
    requires Run(c, s, acts)
    decreases |acts|
  {
    if acts == [] then s else Exec(c, Do(c, s, acts[0]), acts[1..])
  }

  lemma {:induction false} InitInv(c: ValidConfig)
    ensures Inv(c, Init(c))
  {
    assert FilesShaped(c, Init(c));
    forall f, x | 0 <= f < c.fileCount && 0 <= x < c.fileSize ensures ByteOk(c, Init(c), f, x) {
      assert Init(c).files[f][x] == Mod251Byte(c.seed + f, 0 + x);
    }
  }

  lemma {:induction false} RunKeeps(c: ValidConfig, s: State, acts: seq<Action>)
    requires Reliable(c) && Inv(c, s) && Run(c, s, acts)
    ensures Inv(c, Exec(c, s, acts))
    decreases |acts|
  {
    if acts != [] {
      StepKeeps(c, s, acts[0]);
      RunKeeps(c, Do(c, s, acts[0]), acts[1..]);
    }
  }

  ghost predicate Reachable(c: ValidConfig, s: State) {
    exists acts :: Run(c, Init(c), acts) && Exec(c, Init(c), acts) == s
  }

  /** Replaying any listing of the logs of s gives back the files of s. */
  ghost predicate Replays(c: ValidConfig, s: State) {
    forall file, items :: 0 <= file < c.fileCount && Lists(s.ledger, s.ledger.Keys, file, items) ==>
      file < |s.files| && Replay(c, file, items) == s.files[file]
  }

  /** In every run that has come to rest, every file is its baseline overlaid with its log. */
  ghost predicate AlwaysReplays(c: ValidConfig) {
    forall s :: Reachable(c, s) && AtRest(s) ==> Replays(c, s)
  }

  lemma {:induction false} ReliableReplays(c: ValidConfig)
    requires Reliable(c)
    ensures AlwaysReplays(c)
  {
    forall s | Reachable(c, s) && AtRest(s) ensures Replays(c, s) {
      var acts :| Run(c, Init(c), acts) && Exec(c, Init(c), acts) == s;
      InitInv(c);
      RunKeeps(c, Init(c), acts);
      forall file, items | 0 <= file < c.fileCount && Lists(s.ledger, s.ledger.Keys, file, items)
        ensures file < |s.files| && Replay(c, file, items) == s.files[file]
      {
        LedgerReplays(c, s, file, items);
      }
    }
  }

  // ---------------------------------------------------------------- when the two kinds overlap

  /** There are files, and chunks of either kind fit them. */
  predicate ChunksFitFile(c: ValidConfig) {
    c.fileCount > 0 && c.fsyncChunk <= c.fileSize && c.backgroundChunk <= c.fileSize
  }

  lemma {:induction false} RunOne(c: ValidConfig, s: State, acts: seq<Action>, a: Action)
    requires Run(c, s, acts) && Enabled(c, Exec(c, s, acts), a)
    ensures Run(c, s, acts + [a]) && Exec(c, s, acts + [a]) == Do(c, Exec(c, s, acts), a)
    decreases |acts|
  {
    if acts == [] {
      assert (acts + [a])[1..] == [];
    } else {
      assert (acts + [a])[0] == acts[0] && (acts + [a])[1..] == acts[1..] + [a];
      RunOne(c, Do(c, s, acts[0]), acts[1..], a);
    }
  }

  lemma {:induction false} ReachStep(c: ValidConfig, s: State, a: Action)
    requires Reachable(c, s) && Enabled(c, s, a)
    ensures Reachable(c, Do(c, s, a))
  {
    var acts :| Run(c, Init(c), acts) && Exec(c, Init(c), acts) == s;
    RunOne(c, Init(c), acts, a);
  }

  /** Reachable with its shape known. */
  ghost predicate Reached(c: ValidConfig, s: State) {
    Reachable(c, s) && Shape(c, s)
  }

  lemma {:induction false} ReachedStep(c: ValidConfig, s: State, a: Action)
    requires Reached(c, s) && Enabled(c, s, a)
    ensures Reached(c, Do(c, s, a))
  {
    ReachStep(c, s, a);
    ShapeKeeps(c, s, a);
  }

  /** Worker w writes a whole slot of file 0 and stops short of logging it. */
  lemma {:induction false} WriteSlot(c: ValidConfig, s: State, w: Worker, slot: nat, x: nat) returns (t: State)
    requires Reached(c, s) && At(s, w).Idle? && Owns(c, w, slot) && c.fileCount > 0
    requires w.Fsync? || c.backgroundChunk <= c.fileSize
    requires In(c, w, slot, x) && x < c.fileSize
    ensures Reached(c, t) && Enabled(c, t, Note(w)) && t.ledger == s.ledger && t.seqNo == s.seqNo
    ensures 0 <= Offset(c, w, slot)
    ensures At(t, w) == Writing(0, slot, Offset(c, w, slot), SeedFor(c, w, WriteSeq(s, w) + 1, 0), ChunkOf(c, w))
    ensures forall v :: v != w ==> At(t, v) == At(s, v) && WriteSeq(t, v) == WriteSeq(s, v)
    ensures WriteSeq(t, w) == WriteSeq(s, w) + 1
    ensures t.files[0][x] == Mod251Byte(SeedFor(c, w, WriteSeq(s, w) + 1, 0), x)
  {
    RegionBounds(c, w, slot);
    var u := Do(c, s, Begin(w, 0, slot));
    ReachedStep(c, s, Begin(w, 0, slot));
    t := Do(c, u, Write(w, ChunkOf(c, w)));
    ReachedStep(c, u, Write(w, ChunkOf(c, w)));
    WriteContent(c, u, w, ChunkOf(c, w), 0, x);
  }

  /** The item with the highest number is the last one laid over the file. */
  lemma {:induction false} LatestIsLast(ledger: map<Key, Entry>, seqNo: nat, file: nat, items: seq<Item>, key: Key)
    requires Numbered(ledger, seqNo) && Lists(ledger, ledger.Keys, file, items)
    requires key in ledger && key.file == file && ledger[key].number == seqNo
    ensures items != [] && items[|items| - 1] == ItemOf(key, ledger[key])
  {
    assert ItemOf(key, ledger[key]) in items;
    var last := items[|items| - 1];
    assert last in items;
    var i :| 0 <= i < |items| && items[i] == ItemOf(key, ledger[key]);
    assert i < |items| - 1 ==> items[i].number < last.number;
  }

  /** The last slot written with fsync, its owner, and the first background slot share a byte. */
  lemma {:induction false} OverlapByte(c: ValidConfig) returns (w: Worker, slot: nat, x: nat)
    requires !Separate(c) && ChunksFitFile(c)
    ensures w.Fsync? && Owns(c, w, slot) && Owns(c, Background(0), 0) && x < c.fileSize
    ensures In(c, w, slot, x) && In(c, Background(0), 0, x)
  {
    slot := Slots(c, Fsync(0)) - 1;
    w := Fsync(slot % c.fsyncWorkers);
    LastFsyncSlot(c);
    FirstBackgroundSlot(c);
    x := Max(slot * c.fsyncChunk, Offset(c, Background(0), 0));
  }

  /** The last slot written with fsync starts in the first half of the file. */
  lemma {:induction false} LastFsyncSlot(c: ValidConfig)
    ensures var last := Slots(c, Fsync(0)) - 1;
            last * c.fsyncChunk <= Half(c) && last * c.fsyncChunk + c.fsyncChunk == Slots(c, Fsync(0)) * c.fsyncChunk
  {
    var last := Slots(c, Fsync(0)) - 1;
    DivTimes(Half(c), c.fsyncChunk);
    assert (last + 1) * c.fsyncChunk == last * c.fsyncChunk + c.fsyncChunk;
    assert last == 0 || last + 1 == Half(c) / c.fsyncChunk;
  }

  /** The first background slot takes in the middle of the file. */
  lemma {:induction false} FirstBackgroundSlot(c: ValidConfig)
    requires c.backgroundChunk <= c.fileSize
    ensures 0 <= Offset(c, Background(0), 0) <= Half(c) < Offset(c, Background(0), 0) + c.backgroundChunk <= c.fileSize
  {
  }

  /** A finished write is logged. */
  lemma {:induction false} NoteOne(c: ValidConfig, s: State, w: Worker) returns (t: State)
    requires Reached(c, s) && Enabled(c, s, Note(w))
    ensures Reached(c, t) && t.files == s.files && t.writeSeq == s.writeSeq
    ensures At(t, w).Idle? && forall v :: v != w ==> At(t, v) == At(s, v)
    ensures var key := Key(At(s, w).file, At(s, w).offset, ChunkOf(c, w));
            key in t.ledger && t.ledger[key] == Entry(t.seqNo, At(s, w).seed)
  {
    t := Do(c, s, Note(w));
    ReachedStep(c, s, Note(w));
  }

  /** Two finished writes are logged, b's first. */
  lemma {:induction false} NoteBoth(c: ValidConfig, s: State, b: Worker, w: Worker) returns (t: State)
    requires Reached(c, s) && b != w && Enabled(c, s, Note(b)) && Enabled(c, s, Note(w))
    requires forall v :: v != b && v != w ==> At(s, v).Idle?
    ensures Reached(c, t) && AllIdle(t) && t.files == s.files
    ensures var key := Key(At(s, w).file, At(s, w).offset, ChunkOf(c, w));
            key in t.ledger && t.ledger[key] == Entry(t.seqNo, At(s, w).seed)
  {
    var u := NoteOne(c, s, b);
    assert At(u, w) == At(s, w);
    t := NoteOne(c, u, w);
  }

  /** If the latest entry of file 0 covers a byte with another value than the file's, replaying fails. */
  lemma {:induction false} LatestDisagrees(c: ValidConfig, s: State, key: Key, x: nat)
    requires Shape(c, s) && x < c.fileSize && c.fileCount > 0
    requires key in s.ledger && key.file == 0 && s.ledger[key].number == s.seqNo && Logged(key, 0, x)
    requires s.files[0][x] != Mod251Byte(s.ledger[key].seed, x)
    ensures !Replays(c, s)
  {
    var items := ListExists(s.ledger, s.ledger.Keys, 0);
    LatestIsLast(s.ledger, s.seqNo, 0, items, key);
    assert Replay(c, 0, items)[x] == ReplayByte(c, 0, items, x);
    assert Replay(c, 0, items)[x] != s.files[0][x];
  }

  /** The fsync worker and the first background worker write, in this order, and neither logs yet. */
  lemma {:induction false} WriteBoth(c: ValidConfig, s: State, w: Worker, slot: nat, x: nat) returns (t: State)
    requires Reached(c, s) && AllIdle(s) && ChunksFitFile(c)
    requires w.Fsync? && Owns(c, w, slot) && Owns(c, Background(0), 0) && x < c.fileSize
    requires In(c, w, slot, x) && In(c, Background(0), 0, x)
    ensures Reached(c, t) && Enabled(c, t, Note(w)) && Enabled(c, t, Note(Background(0))) && 0 <= Offset(c, w, slot)
    ensures forall v :: v != w && v != Background(0) ==> At(t, v).Idle?
    ensures At(t, w) == Writing(0, slot, Offset(c, w, slot), SeedFor(c, w, WriteSeq(s, w) + 1, 0), c.fsyncChunk)
    ensures t.files[0][x] == Mod251Byte(SeedFor(c, Background(0), WriteSeq(s, Background(0)) + 1, 0), x)
  {
    var s1 := WriteSlot(c, s, w, slot, x);
    t := WriteSlot(c, s1, Background(0), 0, x);
    assert At(t, w) == At(s1, w);
  }

  /** Both workers write the shared byte and log in the opposite order: the log then disagrees with the file. */
  lemma {:induction false} LogOutOfOrder(c: ValidConfig, s: State, w: Worker, slot: nat, x: nat) returns (t: State)
    requires Reached(c, s) && AllIdle(s) && ChunksFitFile(c)
    requires w.Fsync? && Owns(c, w, slot) && Owns(c, Background(0), 0) && x < c.fileSize
    requires In(c, w, slot, x) && In(c, Background(0), 0, x)
    requires Mod251Byte(SeedFor(c, w, WriteSeq(s, w) + 1, 0), x) != Mod251Byte(SeedFor(c, Background(0), WriteSeq(s, Background(0)) + 1, 0), x)
    ensures Reachable(c, t) && AllIdle(t) && !Replays(c, t)
  {
    var s2 := WriteBoth(c, s, w, slot, x);
    t := NoteBoth(c, s2, Background(0), w);
    LatestDisagrees(c, t, Key(0, Offset(c, w, slot), c.fsyncChunk), x);
  }

  /** One whole write, logged. */
  lemma {:induction false} WriteAndNote(c: ValidConfig, s: State, w: Worker, slot: nat, x: nat) returns (t: State)
    requires Reached(c, s) && AllIdle(s) && ChunksFitFile(c)
    requires Owns(c, w, slot) && In(c, w, slot, x) && x < c.fileSize
    ensures Reached(c, t) && AllIdle(t) && WriteSeq(t, w) == WriteSeq(s, w) + 1
    ensures forall v :: v != w ==> WriteSeq(t, v) == WriteSeq(s, v)
  {
    var u := WriteSlot(c, s, w, slot, x);
    t := NoteOne(c, u, w);
  }

  /** A worker's second pattern differs from its first at every byte. */
  lemma {:induction false} PatternMoves(c: ValidConfig, w: Worker, x: int)
    ensures Mod251Byte(SeedFor(c, w, 2, 0), x) != Mod251Byte(SeedFor(c, w, 1, 0), x)
  {
    var y := SeedFor(c, w, 1, 0) + x;
    assert SeedFor(c, w, 2, 0) + x == y + 257;
    ModAdd(y, 257, 251);
  }

  lemma {:induction false} OverlapFails(c: ValidConfig)
    requires !Separate(c) && ChunksFitFile(c)
    ensures !AlwaysReplays(c)
  {
    var w, slot, x := OverlapByte(c);
    var s := Init(c);
    InitInv(c);
    assert Run(c, s, []);
    assert Reachable(c, s);
    // should the two patterns happen to agree, let the first worker write once more
    if Mod251Byte(SeedFor(c, w, 1, 0), x) == Mod251Byte(SeedFor(c, Background(0), 1, 0), x) {
      s := WriteAndNote(c, s, w, slot, x);
      PatternMoves(c, w, x);
    }
    var t := LogOutOfOrder(c, s, w, slot, x);
  }

  /** A chunk written with fsync that is larger than the file makes the file grow. */
  lemma {:induction false} GrownFileFails(c: ValidConfig)
    requires c.fileCount > 0 && c.fsyncChunk > c.fileSize
    ensures !AlwaysReplays(c)
  {
    var (s, w) := (Init(c), Fsync(0));
    InitInv(c);
    assert Run(c, s, []);
    assert Reachable(c, s);
    var s1 := Do(c, s, Begin(w, 0, 0));
    ReachedStep(c, s, Begin(w, 0, 0));
    var s2 := Do(c, s1, Write(w, c.fsyncChunk));
    ReachedStep(c, s1, Write(w, c.fsyncChunk));
    WrittenAt(s1.files[0], 0, Mod251Region(At(s1, w).seed, 0, c.fsyncChunk), 0);
    var s3 := NoteOne(c, s2, w);
    var items := ListExists(s3.ledger, s3.ledger.Keys, 0);
    assert |Replay(c, 0, items)| < |s3.files[0]|;
  }

  /** Exactly when the log can be relied on: in every run of every interleaving the replay gives back the files if and
      only if there are no files, or no fsync chunk is larger than the file and the slots written with fsync end before
      the background slots begin, unless background chunks are larger than the file. */
  lemma {:induction false} ReplayIffReliable(c: ValidConfig)
    ensures AlwaysReplays(c) <==> c.fileCount == 0 || Reliable(c)
  {
    if c.fileCount > 0 {
      if Reliable(c) {
        ReliableReplays(c);
      } else if c.fsyncChunk > c.fileSize {
        GrownFileFails(c);
      } else {
        OverlapFails(c);
      }
    }
  }

  /** A valid configuration whose log cannot be relied on: one slot of 6 bytes written with fsync in a file of 10. */
  lemma {:induction false} UnreliableConfig()
    ensures var c := Config(10, 6, 5, 1, 1, 1, 0);
            IsValid(c) && !Reliable(c) && !AlwaysReplays(c)
  {
    var c := Config(10, 6, 5, 1, 1, 1, 0);
    assert IsValid(c) && !Separate(c);
    OverlapFails(c);
  }
}
