/** The header-last file writer (write_oatwriter_like_file, shared_with_qemu/test/utils/oatwriter_mmap.py).
    The file is written through two memory maps and flushed before its header is stored.  Background
    writeback may persist any page before any byte is copied; a crash leaves what has been persisted. */
module OatWriter {
  import opened Common

  type Bytes = seq<nat>

  lemma {:induction false} MultipleMod(q: int, m: int)
    requires m > 0
    ensures (q * m) % m == 0
  {
    var (t, r) := ((q * m) / m, (q * m) % m);
    assert (q - t) * m == q * m - t * m == r;
    assert q - t >= 1 ==> (q - t) * m >= m;
    assert t - q >= 1 ==> (t - q) * m >= m;
  }

  /** The least multiple that is not below the value. */
  function RoundUp(value: nat, align: nat): (r: nat)
    requires align > 0
    ensures value <= r < value + align && r % align == 0
  {
    var q := (value + align - 1) / align;
    MultipleMod(q, align);
    assert q * align + (value + align - 1) % align == value + align - 1;
    q * align
  }

  /** Something to be stored at a position. */
  datatype Piece = Piece(pos: nat, data: Bytes)

  function EndOf(p: Piece): nat { p.pos + |p.data| }

  /** The blobs, each aligned to 4 bytes after its predecessor, from start on. */
  function Blobs(start: nat, payloads: seq<Bytes>): seq<Piece>
    decreases |payloads|
  {
    if payloads == [] then []
    else
      var p := Piece(RoundUp(start, 4), payloads[0]);
      [p] + Blobs(EndOf(p), payloads[1..])
  }

  /** Where the last of some pieces ends; start if there is none. */
  function EndAll(start: nat, pieces: seq<Piece>): nat {
    if pieces == [] then start else EndOf(pieces[|pieces| - 1])
  }

  datatype Content = Content(pageSize: nat, header: Bytes, table: Bytes, payloads: seq<Bytes>, extra: Bytes)

  /** The header fills the first page. */
  predicate IsValid(c: Content) {
    c.pageSize > 0 && |c.header| == c.pageSize
  }

  type ValidContent = c: Content | IsValid(c) witness Content(1, [1], [], [], [])

  function Body(c: ValidContent): seq<Piece> {
    [Piece(c.pageSize, c.table)] + Blobs(c.pageSize + |c.table|, c.payloads)
  }

  function OldSize(c: ValidContent): nat { EndAll(c.pageSize, Body(c)) }

  function FinalSize(c: ValidContent): nat { OldSize(c) + |c.extra| }

  /** Everything but the header, in the order in which it is stored. */
  function Pieces(c: ValidContent): seq<Piece> { Body(c) + [Piece(OldSize(c), c.extra)] }

  /** Each piece starts no earlier than its predecessor ends. */
  predicate Ascending(from: nat, pieces: seq<Piece>)
    decreases |pieces|
  {
    pieces == [] || (from <= pieces[0].pos && Ascending(EndOf(pieces[0]), pieces[1..]))
  }

  ghost predicate FitIn(pieces: seq<Piece>, n: nat) {
    forall p :: p in pieces ==> EndOf(p) <= n
  }

  ghost predicate StartAfter(pieces: seq<Piece>, n: nat) {
    forall p :: p in pieces ==> n <= p.pos
  }

  ghost function Lay(img: Bytes, pieces: seq<Piece>): (r: Bytes)
    requires FitIn(pieces, |img|)
    ensures |r| == |img|
    decreases |pieces|
  {
    if pieces == [] then img
    else
      var (init, last) := (pieces[..|pieces| - 1], pieces[|pieces| - 1]);
      assert last in pieces && EndOf(last) <= |img|;
      Put(Lay(img, init), last.pos, last.data)
  }

  lemma {:induction false} BlobsAscending(start: nat, payloads: seq<Bytes>)
    ensures Ascending(start, Blobs(start, payloads))
    ensures |Blobs(start, payloads)| == |payloads|
    decreases |payloads|
  {
    if payloads != [] {
      var p := Piece(RoundUp(start, 4), payloads[0]);
      BlobsAscending(EndOf(p), payloads[1..]);
      assert Blobs(start, payloads)[1..] == Blobs(EndOf(p), payloads[1..]);
    }
  }

  /** Each blob holds its payload and starts at the first multiple of 4 from the end of its predecessor on. */
  lemma {:induction false} BlobsAligned(start: nat, payloads: seq<Bytes>, i: nat)
    requires i < |payloads|
    ensures var bs := Blobs(start, payloads);
            && |bs| == |payloads| && bs[i].data == payloads[i] && bs[i].pos % 4 == 0
            && var from := if i == 0 then start else EndOf(bs[i - 1]); from <= bs[i].pos < from + 4
    decreases |payloads|
  {
    var p := Piece(RoundUp(start, 4), payloads[0]);
    BlobsAscending(EndOf(p), payloads[1..]);
    assert Blobs(start, payloads) == [p] + Blobs(EndOf(p), payloads[1..]);
    if i > 0 {
      BlobsAligned(EndOf(p), payloads[1..], i - 1);
    }
  }

  lemma {:induction false} AscendingAppend(from: nat, pieces: seq<Piece>, p: Piece)
    requires Ascending(from, pieces) && EndAll(from, pieces) <= p.pos
    ensures Ascending(from, pieces + [p])
    decreases |pieces|
  {
    if pieces != [] {
      assert (pieces + [p])[0] == pieces[0] && (pieces + [p])[1..] == pieces[1..] + [p];
      AscendingAppend(EndOf(pieces[0]), pieces[1..], p);
    } else {
      assert (pieces + [p])[1..] == [];
    }
  }

  lemma {:induction false} AscendingBounds(from: nat, pieces: seq<Piece>, i: nat)
    requires Ascending(from, pieces) && i < |pieces|
    ensures from <= pieces[i].pos && EndOf(pieces[i]) <= EndAll(from, pieces)
    ensures from <= EndAll(from, pieces)
    decreases |pieces|
  {
    if i > 0 {
      AscendingBounds(EndOf(pieces[0]), pieces[1..], i - 1);
    } else if |pieces| > 1 {
      AscendingBounds(EndOf(pieces[0]), pieces[1..], 0);
    }
  }

  /** The pieces follow one another from the second page on and end with the file. */
  lemma {:induction false} PiecesAscending(c: ValidContent)
    ensures Ascending(c.pageSize, Body(c)) && Ascending(c.pageSize, Pieces(c))
    ensures c.pageSize <= OldSize(c) && EndAll(c.pageSize, Pieces(c)) == FinalSize(c)
    ensures StartAfter(Body(c), c.pageSize) && FitIn(Body(c), OldSize(c))
    ensures StartAfter(Pieces(c), c.pageSize) && FitIn(Pieces(c), FinalSize(c))
  {
    BlobsAscending(c.pageSize + |c.table|, c.payloads);
    assert Body(c)[1..] == Blobs(c.pageSize + |c.table|, c.payloads);
    assert Ascending(c.pageSize, Body(c));
    AscendingAppend(c.pageSize, Body(c), Piece(OldSize(c), c.extra));
    forall p | p in Body(c) ensures c.pageSize <= p.pos && EndOf(p) <= OldSize(c) {
      var i :| 0 <= i < |Body(c)| && Body(c)[i] == p;
      AscendingBounds(c.pageSize, Body(c), i);
    }
    AscendingBounds(c.pageSize, Body(c), 0);
  }

  /** What the file is to be: zeros, the header, and the pieces over them. */
  ghost function Expected(c: ValidContent): Bytes {
    PiecesAscending(c);
    Lay(Put(Zeros(FinalSize(c)), 0, c.header), Pieces(c))
  }

  lemma {:induction false} PutKeepsBelow(b: Bytes, pos: nat, d: Bytes, from: nat, upto: nat)
    requires pos + |d| <= |b| && from <= upto <= pos
    ensures Put(b, pos, d)[from..upto] == b[from..upto]
  {
  }

  lemma {:induction false} PutHolds(b: Bytes, pos: nat, d: Bytes)
    requires pos + |d| <= |b|
    ensures Put(b, pos, d)[pos..pos + |d|] == d
  {
  }

  lemma {:induction false} AscendingPair(from: nat, pieces: seq<Piece>, i: nat, j: nat)
    requires Ascending(from, pieces) && i < j < |pieces|
    ensures EndOf(pieces[i]) <= pieces[j].pos
    decreases |pieces|
  {
    if i > 0 {
      AscendingPair(EndOf(pieces[0]), pieces[1..], i - 1, j - 1);
    } else {
      AscendingBounds(EndOf(pieces[0]), pieces[1..], j - 1);
    }
  }

  ghost predicate Ordered(pieces: seq<Piece>) {
    forall i, j :: 0 <= i < j < |pieces| ==> EndOf(pieces[i]) <= pieces[j].pos
  }

  lemma {:induction false} AscendingOrdered(from: nat, pieces: seq<Piece>)
    requires Ascending(from, pieces)
    ensures Ordered(pieces)
  {
    forall i, j | 0 <= i < j < |pieces| ensures EndOf(pieces[i]) <= pieces[j].pos {
      AscendingPair(from, pieces, i, j);
    }
  }

  lemma {:induction false} LayNext(img: Bytes, pieces: seq<Piece>, k: nat)
    requires k < |pieces| && FitIn(pieces, |img|)
    ensures FitIn(pieces[..k], |img|) && FitIn(pieces[..k + 1], |img|) && EndOf(pieces[k]) <= |img|
    ensures Lay(img, pieces[..k + 1]) == Put(Lay(img, pieces[..k]), pieces[k].pos, pieces[k].data)
  {
    assert pieces[k] in pieces;
    assert pieces[..k + 1][..k] == pieces[..k];
  }

  /** Pieces in order are all whole after the first k have been laid. */
  lemma {:induction false} LayKeeps(img: Bytes, pieces: seq<Piece>, k: nat, i: nat)
    requires Ordered(pieces) && i < k <= |pieces| && FitIn(pieces, |img|)
    ensures FitIn(pieces[..k], |img|) && EndOf(pieces[i]) <= |img|
    ensures Lay(img, pieces[..k])[pieces[i].pos..EndOf(pieces[i])] == pieces[i].data
  {
    LayNext(img, pieces, k - 1);
    var (p, last) := (pieces[i], pieces[k - 1]);
    assert p in pieces;
    var before := Lay(img, pieces[..k - 1]);
    if i < k - 1 {
      LayKeeps(img, pieces, k - 1, i);
      PutKeepsBelow(before, last.pos, last.data, p.pos, EndOf(p));
    } else {
      PutHolds(before, p.pos, p.data);
    }
  }

  /** The expected file holds the header, the table, every blob and the extra bytes, each whole. */
  lemma {:induction false} ExpectedHoldsAll(c: ValidContent, i: nat)
    requires i < |Pieces(c)|
    ensures var p := Pieces(c)[i]; EndOf(p) <= |Expected(c)| && Expected(c)[p.pos..EndOf(p)] == p.data
    ensures |c.header| <= |Expected(c)| && Expected(c)[..c.pageSize] == c.header
    ensures |Expected(c)| == FinalSize(c)
  {
    PiecesAscending(c);
    AscendingOrdered(c.pageSize, Pieces(c));
    LayKeeps(Put(Zeros(FinalSize(c)), 0, c.header), Pieces(c), |Pieces(c)|, i);
    assert Pieces(c)[..|Pieces(c)|] == Pieces(c);
    LayAbove(Put(Zeros(FinalSize(c)), 0, c.header), Pieces(c), c.pageSize);
  }

  lemma {:induction false} LayAbove(img: Bytes, pieces: seq<Piece>, k: nat)
    requires k <= |img| && StartAfter(pieces, k) && FitIn(pieces, |img|)
    ensures Lay(img, pieces)[..k] == img[..k]
    decreases |pieces|
  {
    if pieces != [] {
      var last := pieces[|pieces| - 1];
      LayAbove(img, pieces[..|pieces| - 1], k);
      assert last in pieces;
      var before := Lay(img, pieces[..|pieces| - 1]);
      assert Put(before, last.pos, last.data)[..k] == before[..k];
    }
  }

  lemma {:induction false} PutCommutes(b: Bytes, p: nat, d: Bytes, q: nat, e: Bytes)
    requires p + |d| <= q && q + |e| <= |b|
    ensures Put(Put(b, p, d), q, e) == Put(Put(b, q, e), p, d)
  {
  }

  lemma {:induction false} PutPrefix(b: Bytes, p: nat, d: Bytes, k: nat)
    requires p + |d| <= k <= |b|
    ensures Put(b, p, d)[..k] == Put(b[..k], p, d)
  {
  }

  /** The header may as well be stored last, and over a longer image. */
  lemma {:induction false} HeaderLast(img: Bytes, header: Bytes, pieces: seq<Piece>, k: nat)
    requires |header| <= k <= |img| && StartAfter(pieces, |header|) && FitIn(pieces, k)
    ensures Put(Lay(img, pieces), 0, header)[..k] == Lay(Put(img[..k], 0, header), pieces)
    decreases |pieces|
  {
    if pieces == [] {
      PutPrefix(img, 0, header, k);
    } else {
      var (init, last) := (pieces[..|pieces| - 1], pieces[|pieces| - 1]);
      assert last in pieces;
      var before := Lay(img, init);
      HeaderLast(img, header, init, k);
      PutCommutes(before, 0, header, last.pos, last.data);
      PutPrefix(Put(before, 0, header), last.pos, last.data, k);
    }
  }

  // ---------------------------------------------------------------- the disk

  /** Every byte of img is the corresponding byte of a, b or c. */
  ghost predicate Among(img: Bytes, a: Bytes, b: Bytes, c: Bytes) {
    |img| == |a| == |b| == |c| && forall i :: 0 <= i < |img| ==> img[i] == a[i] || img[i] == b[i] || img[i] == c[i]
  }

  /** What a crash may leave: if anything of the header page has reached the disk, the rest of the file is there in full. */
  ghost predicate CrashSafe(c: ValidContent, img: Bytes) {
    (exists i :: 0 <= i < c.pageSize && i < |img| && img[i] != 0) ==> BodyThere(c, img)
  }

  /** One page of two images is the same. */
  predicate SamePage(a: Bytes, b: Bytes, page: nat, pageSize: nat) {
    |a| == |b| && forall i :: page * pageSize <= i < page * pageSize + pageSize && i < |a| ==> a[i] == b[i]
  }

  /** What the memory holds after the first bytes have been copied, up to n of them. */
  ghost function CopyImages(m: Bytes, at: nat, data: Bytes, n: nat): (images: seq<Bytes>)
    requires at + |data| <= |m| && n <= |data|
    ensures |images| == n + 1 && forall j :: 0 <= j <= n ==> images[j] == Put(m, at, data[..j])
  {
    if n == 0 then [Put(m, at, data[..0])] else CopyImages(m, at, data, n - 1) + [Put(m, at, data[..n])]
  }

  /** Since a point in the history, the disk has held a page as it is in m. */
  ghost predicate WroteBack(history: seq<Bytes>, from: nat, page: nat, m: Bytes, pageSize: nat) {
    exists t :: from <= t < |history| && SamePage(history[t], m, page, pageSize)
  }

  lemma {:induction false} WroteBackStill(history: seq<Bytes>, later: seq<Bytes>, from: nat, from': nat, page: nat, m: Bytes,
                                          pageSize: nat)
    requires history <= later && from' <= from && WroteBack(history, from, page, m, pageSize)
    ensures WroteBack(later, from', page, m, pageSize)
  {
    var t :| from <= t < |history| && SamePage(history[t], m, page, pageSize);
    assert later[t] == history[t];
  }

  /** A file's page cache and its blocks on disk.  Before every byte that is copied and every page that is flushed,
      the kernel writes back the pages that the schedule names. */
  class Device {
    const pageSize: nat
    const pages: nat
    const schedule: nat -> seq<nat>
    var mem: Bytes
    var disk: Bytes
    var size: nat
    var step: nat
    ghost var crashes: seq<Bytes> // every state the disk has been in

    ghost predicate Valid()
      reads this
    {
      pageSize > 0 && |mem| == |disk| == pages * pageSize && size <= |mem|
    }

    constructor (pageSize: nat, pages: nat, schedule: nat -> seq<nat>)
      requires pageSize > 0
      ensures Valid() && this.pageSize == pageSize && this.pages == pages && this.schedule == schedule
      ensures mem == disk == Zeros(pages * pageSize) && size == 0
      ensures crashes == [disk]
    {
      this.pageSize, this.pages, this.schedule := pageSize, pages, schedule;
      mem, disk, size, step := Zeros(pages * pageSize), Zeros(pages * pageSize), 0, 0;
      crashes := [Zeros(pages * pageSize)];
    }

    ghost predicate CrashesAmong(from: nat, a: Bytes, b: Bytes, c: Bytes)
      reads this
    {
      forall k :: from <= k < |crashes| ==> Among(crashes[k], a, b, c)
    }

    /** Every page that the schedule names for a step has been written back, since a point in the history, as in m. */
    ghost predicate StepTaken(history: seq<Bytes>, from: nat, k: nat, m: Bytes) {
      forall page :: page in schedule(k) && page < pages ==> WroteBack(history, from, page, m, pageSize)
    }

    /** One page reaches the disk. */
    method Persist(page: nat)
      requires Valid() && page < pages
      modifies this`disk, this`crashes
      ensures Valid() && crashes == old(crashes) + [disk]
      ensures forall i :: 0 <= i < |disk| ==>
                disk[i] == if page * pageSize <= i < page * pageSize + pageSize then mem[i] else old(disk)[i]
    {
      InPage(page, pages, pageSize);
      disk := Put(disk, page * pageSize, mem[page * pageSize..page * pageSize + pageSize]);
      crashes := crashes + [disk];
    }

    /** Background writeback of whatever pages the schedule names. */
    method Background()
      requires Valid()
      modifies this`disk, this`crashes, this`step
      ensures Valid() && Among(disk, old(disk), mem, mem)
      ensures |old(crashes)| <= |crashes| && crashes[..|old(crashes)|] == old(crashes)
      ensures CrashesAmong(|old(crashes)|, old(disk), mem, mem)
      ensures step == old(step) + 1 && StepTaken(crashes, |old(crashes)|, old(step), mem)
    {
      var chosen := schedule(step);
      step := step + 1;
      for k := 0 to |chosen|
        invariant Valid() && Among(disk, old(disk), mem, mem)
        invariant |old(crashes)| <= |crashes| && crashes[..|old(crashes)|] == old(crashes)
        invariant CrashesAmong(|old(crashes)|, old(disk), mem, mem)
        invariant step == old(step) + 1
        invariant forall j :: 0 <= j < k && chosen[j] < pages ==>
                    WroteBack(crashes, |old(crashes)|, chosen[j], mem, pageSize)
      {
        if chosen[k] < pages {
          ghost var before := crashes;
          Persist(chosen[k]);
          assert SamePage(crashes[|before|], mem, chosen[k], pageSize);
          forall j | 0 <= j < k && chosen[j] < pages
            ensures WroteBack(crashes, |old(crashes)|, chosen[j], mem, pageSize)
          {
            WroteBackStill(before, crashes, |old(crashes)|, |old(crashes)|, chosen[j], mem, pageSize);
          }
        }
      }
    }

    /** Sets the file's size; what lies beyond it is zero. */
    method Ftruncate(n: nat)
      requires Valid() && n <= |mem|
      modifies this`mem, this`size
      ensures Valid() && size == n && mem == old(mem)[..n] + Zeros(|old(mem)| - n)
    {
      size := n;
      mem := mem[..n] + Zeros(|mem| - n);
    }

    /** Copies bytes into a map of the file that starts at base; false where the original finds them out of range. */
    method Memcpy(base: nat, mapLen: nat, offset: int, data: Bytes) returns (ok: bool)
      requires Valid() && base + mapLen <= |mem|
      modifies this`mem, this`disk, this`crashes, this`step
      ensures Valid() && (ok <==> 0 <= offset && offset + |data| <= mapLen)
      ensures mem == if ok then Put(old(mem), base + offset, data) else old(mem)
      ensures Among(disk, old(disk), old(mem), mem)
      ensures |old(crashes)| <= |crashes| && crashes[..|old(crashes)|] == old(crashes)
      ensures CrashesAmong(|old(crashes)|, old(disk), old(mem), mem)
      ensures ok ==> forall i :: 0 <= i < |data| ==>
                StepTaken(crashes, |old(crashes)|, old(step) + i, Put(old(mem), base + offset, data[..i]))
    {
      if offset < 0 || offset + |data| > mapLen {
        return false;
      }
      ghost var goal := Put(mem, base + offset, data);
      for i := 0 to |data|
        invariant Valid() && mem == Put(old(mem), base + offset, data[..i])
        invariant Among(disk, old(disk), old(mem), goal)
        invariant |old(crashes)| <= |crashes| && crashes[..|old(crashes)|] == old(crashes)
        invariant CrashesAmong(|old(crashes)|, old(disk), old(mem), goal)
        invariant step == old(step) + i
        invariant forall j :: 0 <= j < i ==>
                    StepTaken(crashes, |old(crashes)|, old(step) + j, Put(old(mem), base + offset, data[..j]))
      {
        ghost var before := crashes;
        Background();
        StepsStill(before, |old(crashes)|, old(step), i, CopyImages(old(mem), base + offset, data, i));
        mem := mem[base + offset + i := data[i]];
      }
      assert data[..|data|] == data;
      ok := true;
    }

    /** The steps before stay taken, and the last one counts from the same point. */
    lemma {:induction false} StepsStill(before: seq<Bytes>, from: nat, first: nat, i: nat, images: seq<Bytes>)
      requires |images| == i + 1 && from <= |before| && before <= crashes
      requires forall j :: 0 <= j < i ==> StepTaken(before, from, first + j, images[j])
      requires StepTaken(crashes, |before|, first + i, images[i])
      ensures forall j :: 0 <= j <= i ==> StepTaken(crashes, from, first + j, images[j])
    {
      forall j, page | 0 <= j <= i && page in schedule(first + j) && page < pages
        ensures WroteBack(crashes, from, page, images[j], pageSize)
      {
        if j < i {
          assert StepTaken(before, from, first + j, images[j]);
          WroteBackStill(before, crashes, from, from, page, images[j], pageSize);
        } else {
          WroteBackStill(crashes, crashes, |before|, from, page, images[i], pageSize);
        }
      }
    }

    lemma {:induction false} StepsLater(before: seq<Bytes>, from: nat, first: nat, last: nat, m: Bytes)
      requires before <= crashes && forall x :: first <= x < last ==> StepTaken(before, from, x, m)
      ensures forall x :: first <= x < last ==> StepTaken(crashes, from, x, m)
    {
      forall x, page | first <= x < last && page in schedule(x) && page < pages
        ensures WroteBack(crashes, from, page, m, pageSize)
      {
        assert StepTaken(before, from, x, m);
        WroteBackStill(before, crashes, from, from, page, m, pageSize);
      }
    }

    lemma {:induction false} StepSince(from: nat, from': nat, x: nat, m: Bytes)
      requires from' <= from && StepTaken(crashes, from, x, m)
      ensures StepTaken(crashes, from', x, m)
    {
      forall page | page in schedule(x) && page < pages ensures WroteBack(crashes, from', page, m, pageSize) {
        WroteBackStill(crashes, crashes, from, from', page, m, pageSize);
      }
    }

    /** Flushes the pages of the first `length` bytes of a map that starts at page `first`. */
    method Msync(first: nat, length: nat)
      requires Valid() && first * pageSize + length <= |mem|
      modifies this`disk, this`crashes, this`step
      ensures Valid() && Among(disk, old(disk), mem, mem)
      ensures forall i :: first * pageSize <= i < first * pageSize + length ==> disk[i] == mem[i]
      ensures |old(crashes)| <= |crashes| && crashes[..|old(crashes)|] == old(crashes)
      ensures CrashesAmong(|old(crashes)|, old(disk), mem, mem)
      ensures old(step) <= step && length <= (step - old(step)) * pageSize
      ensures forall x :: old(step) <= x < step ==> StepTaken(crashes, |old(crashes)|, x, mem)
    {
      if length == 0 {
        return;
      }
      var page := first;
      while page * pageSize < first * pageSize + length
        invariant Valid() && first <= page && Among(disk, old(disk), mem, mem)
        invariant forall i :: first * pageSize <= i < page * pageSize && i < |disk| ==> disk[i] == mem[i]
        invariant |old(crashes)| <= |crashes| && crashes[..|old(crashes)|] == old(crashes)
        invariant CrashesAmong(|old(crashes)|, old(disk), mem, mem)
        invariant step == old(step) + page - first
        invariant forall x :: old(step) <= x < step ==> StepTaken(crashes, |old(crashes)|, x, mem)
        decreases first * pageSize + length - page * pageSize
      {
        ghost var before := crashes;
        Background();
        StepsLater(before, |old(crashes)|, old(step), step - 1, mem);
        StepSince(|before|, |old(crashes)|, step - 1, mem);
        ghost var taken := crashes;
        PageBelow(page, pages, pageSize);
        Persist(page);
        StepsLater(taken, |old(crashes)|, old(step), step, mem);
        assert (page + 1) * pageSize == page * pageSize + pageSize;
        page := page + 1;
      }
      assert page * pageSize == first * pageSize + (page - first) * pageSize;
    }
  }

  lemma {:induction false} InPage(page: nat, pages: nat, pageSize: nat)
    requires page < pages
    ensures page * pageSize + pageSize <= pages * pageSize
  {
    MulMonotone(page + 1, pages, pageSize);
    assert (page + 1) * pageSize == page * pageSize + pageSize;
  }

  lemma {:induction false} PageBelow(page: nat, pages: nat, pageSize: nat)
    requires page * pageSize < pages * pageSize
    ensures page < pages
  {
    assert page >= pages ==> (page - pages) * pageSize >= 0;
  }

  // ---------------------------------------------------------------- writing the file

  function PageCount(bytes: nat, pageSize: nat): nat
    requires pageSize > 0
  {
    (bytes + pageSize - 1) / pageSize
  }

  lemma {:induction false} PagesGrow(a: nat, b: nat, pageSize: nat)
    requires pageSize > 0 && a <= b
    ensures RoundUp(a, pageSize) == PageCount(a, pageSize) * pageSize <= PageCount(b, pageSize) * pageSize
  {
    var (q, r) := (PageCount(a, pageSize), PageCount(b, pageSize));
    assert q <= r by { DivMonotone(a + pageSize - 1, b + pageSize - 1, pageSize); }
    MulMonotone(q, r, pageSize);
  }

  lemma {:induction false} DivMonotone(x: nat, y: nat, m: nat)
    requires m > 0 && x <= y
    ensures x / m <= y / m
  {
    var (q, r) := (x / m, y / m);
    assert q * m <= x && y < r * m + m && (r + 1) * m == r * m + m;
    if r < q {
      MulMonotone(r + 1, q, m);
    }
  }

  /** Nothing of the header page is set, in memory or on disk, and nothing ever was. */
  ghost predicate HeaderClear(d: Device)
    reads d
  {
    && d.Valid()
    && (forall i :: 0 <= i < d.pageSize && i < |d.mem| ==> d.mem[i] == 0 && d.disk[i] == 0)
    && (forall k, i :: 0 <= k < |d.crashes| && 0 <= i < d.pageSize && i < |d.crashes[k]| ==> d.crashes[k][i] == 0)
  }

  /** A copy above the header page keeps the header page clear. */
  method StoreAbove(d: Device, base: nat, mapLen: nat, offset: nat, data: Bytes)
    requires HeaderClear(d) && d.pageSize <= base + offset
    requires offset + |data| <= mapLen && base + mapLen <= |d.mem|
    modifies d`mem, d`disk, d`crashes, d`step
    ensures HeaderClear(d) && d.mem == Put(old(d.mem), base + offset, data)
  {
    ghost var before := d.crashes;
    var ok := d.Memcpy(base, mapLen, offset, data);
    ClearKept(before, d.crashes, d.pageSize);
  }

  lemma {:induction false} ClearKept(before: seq<Bytes>, after: seq<Bytes>, n: nat)
    requires |before| <= |after| && after[..|before|] == before
    requires forall k, i :: 0 <= k < |before| && 0 <= i < n && i < |before[k]| ==> before[k][i] == 0
    requires forall k, i :: |before| <= k < |after| && 0 <= i < n && i < |after[k]| ==> after[k][i] == 0
    ensures forall k, i :: 0 <= k < |after| && 0 <= i < n && i < |after[k]| ==> after[k][i] == 0
  {
    forall k, i | 0 <= k < |after| && 0 <= i < n && i < |after[k]| ensures after[k][i] == 0 {
      if k < |before| {
        assert after[k] == before[k];
      }
    }
  }

  method FlushAbove(d: Device, first: nat, length: nat)
    requires HeaderClear(d) && first * d.pageSize + length <= |d.mem|
    modifies d`disk, d`crashes, d`step
    ensures HeaderClear(d) && Among(d.disk, old(d.disk), d.mem, d.mem)
    ensures forall i :: first * d.pageSize <= i < first * d.pageSize + length ==> d.disk[i] == d.mem[i]
  {
    ghost var before := d.crashes;
    d.Msync(first, length);
    ClearKept(before, d.crashes, d.pageSize);
  }

  /** The first phase: everything but the header is stored through the two maps and flushed. */
  method WriteBody(c: ValidContent, d: Device)
    requires HeaderClear(d) && d.pageSize == c.pageSize
    requires d.pages == PageCount(FinalSize(c), c.pageSize) && d.mem == Zeros(d.pages * d.pageSize)
    modifies d
    ensures HeaderClear(d) && d.size == FinalSize(c) <= |d.mem|
    ensures FitIn(Pieces(c), |d.mem|) && d.mem == Lay(old(d.mem), Pieces(c))
    ensures forall i :: 0 <= i < FinalSize(c) ==> d.disk[i] == d.mem[i]
  {
    PiecesAscending(c);
    ghost var zeros := d.mem;
    var oldSize := OldSize(c);
    var aligned := RoundUp(oldSize, c.pageSize);
    SizesFit(c, d.pages);
    StoreBody(c, d, aligned);
    StoreExtra(d, oldSize, aligned, c.extra);
    LayPieces(c, zeros);
    FlushAll(d, PageCount(oldSize, c.pageSize), aligned, FinalSize(c));
  }

  lemma {:induction false} SizesFit(c: ValidContent, pages: nat)
    requires pages == PageCount(FinalSize(c), c.pageSize)
    ensures RoundUp(OldSize(c), c.pageSize) == PageCount(OldSize(c), c.pageSize) * c.pageSize <= pages * c.pageSize
    ensures c.pageSize <= OldSize(c) <= FinalSize(c) <= pages * c.pageSize
  {
    PiecesAscending(c);
    PagesGrow(OldSize(c), FinalSize(c), c.pageSize);
    PagesGrow(FinalSize(c), FinalSize(c), c.pageSize);
  }

  /** Laying the body and then the extra bytes lays all pieces. */
  lemma {:induction false} LayPieces(c: ValidContent, img: Bytes)
    requires FinalSize(c) <= |img|
    ensures FitIn(Body(c), |img|) && FitIn(Pieces(c), |img|) && OldSize(c) + |c.extra| <= |img|
    ensures Lay(img, Pieces(c)) == Put(Lay(img, Body(c)), OldSize(c), c.extra)
  {
    PiecesAscending(c);
    assert Pieces(c)[..|Body(c)|] == Body(c) && Pieces(c)[..|Body(c)| + 1] == Pieces(c);
    LayNext(img, Pieces(c), |Body(c)|);
  }

  /** Everything up to the old end is stored while the file has the size of the first map; the file then gets its
      final size, which cuts nothing off. */
  method StoreBody(c: ValidContent, d: Device, aligned: nat)
    requires HeaderClear(d) && d.pageSize == c.pageSize
    requires OldSize(c) <= aligned <= |d.mem| && FinalSize(c) <= |d.mem| && d.mem == Zeros(|d.mem|)
    modifies d
    ensures HeaderClear(d) && d.size == FinalSize(c)
    ensures FitIn(Body(c), |old(d.mem)|) && d.mem == Lay(old(d.mem), Body(c))
  {
    PiecesAscending(c);
    ghost var zeros := d.mem;
    d.Ftruncate(aligned);
    assert d.mem == zeros;
    StoreAll(d, Body(c), aligned);
    LayLeavesZeros(zeros, Body(c), FinalSize(c));
    ghost var body := d.mem;
    d.Ftruncate(FinalSize(c));
    assert d.mem == body;
  }

  /** Copies the section table and the blobs into the first map. */
  method StoreAll(d: Device, pieces: seq<Piece>, mapLen: nat)
    requires HeaderClear(d) && mapLen <= |d.mem|
    requires StartAfter(pieces, d.pageSize) && FitIn(pieces, mapLen)
    modifies d`mem, d`disk, d`crashes, d`step
    ensures HeaderClear(d) && FitIn(pieces, |old(d.mem)|) && d.mem == Lay(old(d.mem), pieces)
  {
    ghost var img := d.mem;
    assert FitIn(pieces, |img|);
    for k := 0 to |pieces|
      invariant HeaderClear(d) && |d.mem| == |img|
      invariant FitIn(pieces[..k], |img|) && d.mem == Lay(img, pieces[..k])
    {
      assert pieces[k] in pieces;
      LayNext(img, pieces, k);
      StoreAbove(d, 0, mapLen, pieces[k].pos, pieces[k].data);
    }
    assert pieces[..|pieces|] == pieces;
  }

  /** Copies the extra bytes: what fits behind the old end through the first map, the rest through the second. */
  method StoreExtra(d: Device, oldSize: nat, aligned: nat, extra: Bytes)
    requires HeaderClear(d) && d.pageSize <= oldSize <= aligned <= |d.mem| && oldSize + |extra| <= |d.mem|
    modifies d`mem, d`disk, d`crashes, d`step
    ensures HeaderClear(d) && d.mem == Put(old(d.mem), oldSize, extra)
  {
    ghost var before := d.mem;
    var first := if |extra| < aligned - oldSize then |extra| else aligned - oldSize;
    PutInTwo(before, oldSize, extra, first);
    if first > 0 {
      StoreAbove(d, 0, aligned, oldSize, extra[..first]);
    }
    assert d.mem == Put(before, oldSize, extra[..first]);
    if first != |extra| {
      StoreAbove(d, aligned, |extra| - first, 0, extra[first..]);
    } else {
      assert extra[..first] == extra;
    }
  }

  /** Flushes both maps. */
  method FlushAll(d: Device, pagesOld: nat, aligned: nat, finalSize: nat)
    requires HeaderClear(d) && aligned == pagesOld * d.pageSize <= |d.mem| && finalSize <= |d.mem|
    modifies d`disk, d`crashes, d`step
    ensures HeaderClear(d)
    ensures forall i :: 0 <= i < finalSize ==> d.disk[i] == d.mem[i]
  {
    FlushAbove(d, 0, aligned);
    if aligned < finalSize {
      FlushAbove(d, pagesOld, finalSize - aligned);
    }
  }

  lemma {:induction false} LayLeavesZeros(zeros: Bytes, pieces: seq<Piece>, n: nat)
    requires n <= |zeros| && (forall i :: 0 <= i < |zeros| ==> zeros[i] == 0)
    requires FitIn(pieces, n)
    ensures forall i :: n <= i < |zeros| ==> Lay(zeros, pieces)[i] == 0
    decreases |pieces|
  {
    if pieces != [] {
      LayLeavesZeros(zeros, pieces[..|pieces| - 1], n);
      assert pieces[|pieces| - 1] in pieces;
    }
  }

  lemma {:induction false} PutInTwo(b: Bytes, pos: nat, d: Bytes, k: nat)
    requires k <= |d| && pos + |d| <= |b|
    ensures Put(Put(b, pos, d[..k]), pos + k, d[k..]) == Put(b, pos, d)
    ensures k == 0 ==> Put(b, pos, d[..k]) == b
  {
  }

  /** The second phase: the header is stored and flushed.  Whatever happens meanwhile, the rest is already on disk. */
  method WriteHeader(c: ValidContent, d: Device)
    requires HeaderClear(d) && d.pageSize == c.pageSize && c.pageSize <= FinalSize(c) <= |d.mem|
    requires |Expected(c)| == FinalSize(c)
    requires forall i :: c.pageSize <= i < FinalSize(c) ==> d.mem[i] == d.disk[i] == Expected(c)[i]
    modifies d
    ensures d.Valid() && d.mem == Put(old(d.mem), 0, c.header) && d.size == old(d.size)
    ensures forall i :: 0 <= i < FinalSize(c) ==> d.disk[i] == d.mem[i]
    ensures AllSafe(c, d.crashes)
  {
    StoreHeader(c, d);
    ghost var (stored, disk) := (d.crashes, d.disk);
    d.Msync(0, c.pageSize);
    CrashesSafe(c, stored, d.crashes, disk, d.mem, d.mem);
  }

  method StoreHeader(c: ValidContent, d: Device)
    requires HeaderClear(d) && d.pageSize == c.pageSize && c.pageSize <= FinalSize(c)
    requires BodyThere(c, d.mem) && BodyThere(c, d.disk)
    modifies d`mem, d`disk, d`crashes, d`step
    ensures d.Valid() && d.mem == Put(old(d.mem), 0, c.header)
    ensures BodyThere(c, d.mem) && BodyThere(c, d.disk) && AllSafe(c, d.crashes)
  {
    ghost var (clear, disk, mem) := (d.crashes, d.disk, d.mem);
    var ok := d.Memcpy(0, c.pageSize, 0, c.header);
    CrashesSafe(c, clear, d.crashes, disk, mem, d.mem);
  }

  ghost predicate AllSafe(c: ValidContent, crashes: seq<Bytes>) {
    forall k :: 0 <= k < |crashes| ==> CrashSafe(c, crashes[k])
  }

  /** The rest of the file, behind the header page, is as expected. */
  ghost predicate BodyThere(c: ValidContent, img: Bytes) {
    && FinalSize(c) <= |img| && |Expected(c)| == FinalSize(c)
    && forall i :: c.pageSize <= i < FinalSize(c) ==> img[i] == Expected(c)[i]
  }

  lemma {:induction false} CrashesSafe(c: ValidContent, before: seq<Bytes>, after: seq<Bytes>, x: Bytes, y: Bytes, z: Bytes)
    requires BodyThere(c, x) && BodyThere(c, y) && BodyThere(c, z)
    requires AllSafe(c, before)
    requires |before| <= |after| && after[..|before|] == before
    requires forall k :: |before| <= k < |after| ==> Among(after[k], x, y, z)
    ensures AllSafe(c, after)
  {
    forall k | 0 <= k < |after| ensures CrashSafe(c, after[k]) {
      if k < |before| {
        assert after[k] == before[k];
      } else {
        assert BodyThere(c, after[k]);
      }
    }
  }

  /** For every schedule of background writeback: no crash leaves a header without the rest of the file, and in the end
      the file and the disk hold exactly what is expected. */
  method WriteOatwriterLikeFile(c: ValidContent, schedule: nat -> seq<nat>) returns (d: Device)
    ensures fresh(d) && d.Valid() && d.size == |Expected(c)|
    ensures d.mem[..d.size] == Expected(c) && d.disk[..d.size] == Expected(c)
    ensures AllSafe(c, d.crashes)
  {
    PiecesAscending(c);
    d := new Device(c.pageSize, PageCount(FinalSize(c), c.pageSize), schedule);
    WriteBody(c, d);
    ghost var zeros := Zeros(d.pages * d.pageSize);
    ghost var img := d.mem;
    HeaderLast(zeros, c.header, Pieces(c), FinalSize(c));
    assert zeros[..FinalSize(c)] == Zeros(FinalSize(c));
    assert Put(img, 0, c.header)[..FinalSize(c)] == Expected(c);
    forall i | c.pageSize <= i < FinalSize(c) ensures img[i] == Expected(c)[i] {
      assert Put(img, 0, c.header)[i] == img[i];
    }
    WriteHeader(c, d);
  }
}
