/** Position-determined test patterns (shared_with_qemu/test/utils/patterns.py) and writing them with
    short writes (shared_with_qemu/test/utils/io.py). */
module Patterns {
  import opened Common

  type Bytes = seq<nat>

  datatype Mode = Counter | Mod251 | FilePos | Repeat

  datatype PatternConfig = PatternConfig(mode: Mode, token: Bytes, seed: int, chunkSize: int)

  // ---------------------------------------------------------------- what a pattern is

  function Mod251Byte(seed: int, pos: int): nat { (seed + pos) % 251 }

  /** A pattern can be rendered unless it repeats an empty token. */
  predicate Renderable(c: PatternConfig) { (c.mode == FilePos || c.mode == Repeat) ==> c.token != [] }

  /** The byte at an absolute position, which alone determines it; a repeated token starts at the overlay offset. */
  function ByteAt(c: PatternConfig, pos: int, overlayOff: int := 0): nat
    requires Renderable(c)
  {
    match c.mode
    case Counter => (c.seed + pos) % 256
    case Mod251 => Mod251Byte(c.seed, pos)
    case FilePos => c.token[pos % |c.token|]
    case Repeat => c.token[(pos - overlayOff) % |c.token|]
  }

  function Region(c: PatternConfig, offset: int, n: nat, overlayOff: int := 0): (r: Bytes)
    requires Renderable(c)
    ensures |r| == n && forall i :: 0 <= i < n ==> r[i] == ByteAt(c, offset + i, overlayOff)
  {
    seq<nat>(n, i requires 0 <= i < n => ByteAt(c, offset + i, overlayOff))
  }

  /** Counters count up in their ring, from 0 at the place opposite to the seed. */
  lemma {:induction false} CounterBytes(c: PatternConfig, pos: int)
    requires c.mode == Counter || c.mode == Mod251
    ensures var last := if c.mode == Counter then 255 else 250;
            && ByteAt(c, -c.seed) == 0 && ByteAt(c, pos) <= last
            && ByteAt(c, pos + 1) == if ByteAt(c, pos) == last then 0 else ByteAt(c, pos) + 1
  {
    var m := if c.mode == Counter then 256 else 251;
    var x := c.seed + pos;
    var (q, r) := (x / m, x % m);
    assert x == q * m + r;
    if r == m - 1 {
      assert x + 1 == (q + 1) * m + 0;
      ModUnique(x + 1, q + 1, 0, m);
    } else {
      ModUnique(x + 1, q, r + 1, m);
    }
  }

  /** Token modes hold the token whole wherever it starts anew: at the multiples of its length from the beginning of the
      file or, repeated for an overlay, from the overlay. */
  lemma {:induction false} TokenBytes(c: PatternConfig, k: int, overlayOff: int)
    requires Renderable(c) && (c.mode == FilePos || c.mode == Repeat)
    ensures var from := if c.mode == FilePos then 0 else overlayOff;
            Region(c, from + k * |c.token|, |c.token|, overlayOff) == c.token
  {
    forall i | 0 <= i < |c.token|
      ensures ByteAt(c, (if c.mode == FilePos then 0 else overlayOff) + k * |c.token| + i, overlayOff) == c.token[i]
    {
      TokenByte(c, k, overlayOff, i);
    }
  }

  lemma {:induction false} TokenByte(c: PatternConfig, k: int, overlayOff: int, i: nat)
    requires Renderable(c) && (c.mode == FilePos || c.mode == Repeat) && i < |c.token|
    ensures ByteAt(c, (if c.mode == FilePos then 0 else overlayOff) + k * |c.token| + i, overlayOff) == c.token[i]
  {
    ModUnique(k * |c.token| + i, k, i, |c.token|);
    assert overlayOff + k * |c.token| + i - overlayOff == k * |c.token| + i;
  }

  // ---------------------------------------------------------------- rendering

  lemma {:induction false} ModShift(a: int, k: int, m: int)
    requires m > 0
    ensures (a + k * m) % m == a % m
  {
    var (q, r) := (a / m, a % m);
    assert a + k * m == (q + k) * m + r;
    ModUnique(a + k * m, q + k, r, m);
  }

  lemma {:induction false} ModUnique(x: int, q: int, r: int, m: int)
    requires m > 0 && 0 <= r < m && x == q * m + r
    ensures x % m == r
  {
    var (q', r') := (x / m, x % m);
    assert (q - q') * m == r' - r;
    assert q - q' >= 1 ==> (q - q') * m >= m;
    assert q' - q >= 1 ==> (q' - q) * m >= m;
  }

  lemma {:induction false} ModAdd(a: int, i: int, m: int)
    requires m > 0
    ensures (a % m + i) % m == (a + i) % m
  {
    ModShift(a % m + i, a / m, m);
  }

  /** The k-th byte of a token repeated for ever. */
  function Cyclic(token: Bytes, k: int): nat
    requires token != []
  {
    token[k % |token|]
  }

  /** One whole token stands wherever the repetition is at its start. */
  lemma {:induction false} CyclicFromStart(token: Bytes, base: int, i: nat)
    requires i < |token| && base % |token| == 0
    ensures Cyclic(token, base + i) == token[i]
  {
    ModAdd(base, i, |token|);
    ModUnique(i, 0, i, |token|);
  }

  lemma {:induction false} CyclicFrom(token: Bytes, start: int, i: nat)
    requires token != [] && start % |token| + i < |token|
    ensures Cyclic(token, start + i) == token[start % |token| + i]
  {
    ModAdd(start, i, |token|);
    ModUnique(start % |token| + i, 0, start % |token| + i, |token|);
  }

  lemma {:induction false} CyclicEnd(m: int, start: int)
    requires m > 0
    ensures (start + (m - start % m)) % m == 0
  {
    ModAdd(start, m - start % m, m);
    ModUnique(m, 1, 0, m);
  }

  /** _repeat_bytes: None where the original raises. */
  method RepeatBytes(token: Bytes, startIdx: int, n: int) returns (out: Option<Bytes>)
    ensures out.None? <==> n > 0 && token == []
    ensures out.Some? ==> |out.value| == if n > 0 then n else 0
    ensures out.Some? ==> forall i :: 0 <= i < |out.value| ==> out.value[i] == Cyclic(token, startIdx + i)
  {
    if n <= 0 {
      return Some([]);
    }
    if token == [] {
      return None;
    }
    var len := |token|;
    var start := startIdx % len;
    var bytes := new nat[n](i => 0);
    var first := if n < len - start then n else len - start;
    forall i | 0 <= i < first {
      bytes[i] := token[start + i];
    }
    forall i | 0 <= i < first ensures bytes[i] == Cyclic(token, startIdx + i) {
      CyclicFrom(token, startIdx, i);
    }
    CyclicEnd(len, startIdx);
    FillTokens(bytes, token, startIdx, first);
    out := Some(bytes[..]);
  }

  /** The loop of _repeat_bytes: whole tokens, the last one perhaps cut, from a place where the repetition starts anew. */
  method FillTokens(bytes: array<nat>, token: Bytes, startIdx: int, first: nat)
    requires token != [] && first <= bytes.Length
    requires first < bytes.Length ==> (startIdx + first) % |token| == 0
    modifies bytes
    ensures forall i :: 0 <= i < first ==> bytes[i] == old(bytes[i])
    ensures forall i :: first <= i < bytes.Length ==> bytes[i] == Cyclic(token, startIdx + i)
  {
    var n := bytes.Length;
    var filled := first;
    while filled < n
      invariant first <= filled <= n
      invariant filled < n ==> (startIdx + filled) % |token| == 0
      invariant forall i :: 0 <= i < first ==> bytes[i] == old(bytes[i])
      invariant forall i :: first <= i < filled ==> bytes[i] == Cyclic(token, startIdx + i)
    {
      var take := if |token| < n - filled then |token| else n - filled;
      forall i | 0 <= i < take {
        bytes[filled + i] := token[i];
      }
      forall i | filled <= i < filled + take ensures bytes[i] == Cyclic(token, startIdx + i) {
        assert bytes[filled + (i - filled)] == token[i - filled];
        CyclicFromStart(token, startIdx + filled, i - filled);
      }
      ModShift(startIdx + filled, 1, |token|);
      filled := filled + take;
    }
  }

  /** bytes(range(251)) */
  const CYCLE: Bytes := seq<nat>(251, i requires 0 <= i < 251 => i)

  /** render_pattern_bytes; None where the original raises. */
  method RenderPatternBytes(absPos: int, size: int, c: PatternConfig, overlayOff: int := 0) returns (out: Option<Bytes>)
    ensures out.None? <==> size > 0 && !Renderable(c)
    ensures out.Some? && size > 0 ==> out.value == Region(c, absPos, size, overlayOff)
    ensures out.Some? && size <= 0 ==> out.value == []
  {
    if size <= 0 {
      return Some([]);
    }
    var n: nat := size;
    match c.mode {
      case Counter =>
        out := Some(seq<nat>(n, i requires 0 <= i < n => (c.seed + absPos + i) % 256));
        assert out.value == Region(c, absPos, n, overlayOff);
      case Mod251 =>
        var base := (c.seed + absPos) % 251;
        out := RepeatBytes(CYCLE, base, n);
        forall i | 0 <= i < n ensures out.value[i] == Mod251Byte(c.seed, absPos + i) {
          ModAdd(c.seed + absPos, i, 251);
        }
        assert out.value == Region(c, absPos, n, overlayOff);
      case FilePos =>
        out := RepeatBytes(c.token, absPos, n);
        if out.Some? && c.token != [] {
          assert out.value == Region(c, absPos, n, overlayOff);
        }
      case Repeat =>
        out := RepeatBytes(c.token, absPos - overlayOff, n);
        if out.Some? && c.token != [] {
          assert out.value == Region(c, absPos, n, overlayOff);
        }
    }
  }

  /** Joins the chunks of iter_expected_chunks: the result is the region, however it is cut into chunks. */
  method GenerateExpectedDirect(offset: int, size: int, c: PatternConfig) returns (out: Option<Bytes>)
    requires c.chunkSize > 0
    ensures out.None? <==> size > 0 && !Renderable(c)
    ensures out.Some? ==> out.value == if size > 0 then Region(c, offset, size) else []
  {
    var parts := [];
    var pos := 0;
    while pos < size
      invariant 0 <= pos && (pos > 0 ==> pos <= size)
      invariant pos > 0 ==> Renderable(c)
      invariant if pos == 0 then parts == [] else parts == Region(c, offset, pos)
    {
      var chunk := if c.chunkSize < size - pos then c.chunkSize else size - pos;
      var bytes := RenderPatternBytes(offset + pos, chunk, c);
      if bytes.None? {
        return None;
      }
      assert parts + bytes.value == Region(c, offset, pos + chunk);
      parts := parts + bytes.value;
      pos := pos + chunk;
    }
    out := Some(parts);
  }

  // ---------------------------------------------------------------- writing

  /** A file whose bytes are written in place; writing past its end fills the gap with zeros. */
  class File {
    var data: Bytes

    constructor (initial: Bytes)
      ensures data == initial
    {
      data := initial;
    }

    /** os.pwrite, of which only the first `wrote` bytes take effect. */
    method Pwrite(view: Bytes, pos: nat, wrote: nat)
      requires wrote <= |view|
      modifies this
      ensures data == Written(old(data), pos, view[..wrote])
    {
      data := Written(data, pos, view[..wrote]);
    }
  }

  /** A file's bytes after d is written at pos. */
  function Written(data: Bytes, pos: nat, d: Bytes): Bytes {
    if d == [] then data
    else
      var padded := if |data| < pos then data + Zeros(pos - |data|) else data;
      padded[..pos] + d + if pos + |d| < |padded| then padded[pos + |d|..] else []
  }

  /** Exactly the bytes from pos on are replaced; everything else is untouched. */
  lemma {:induction false} WrittenAt(data: Bytes, pos: nat, d: Bytes, i: nat)
    requires d != []
    ensures |Written(data, pos, d)| == if |data| < pos + |d| then pos + |d| else |data|
    ensures i < |Written(data, pos, d)| ==>
              Written(data, pos, d)[i] == if pos <= i < pos + |d| then d[i - pos] else if i < |data| then data[i] else 0
  {
  }

  function Mod251Region(seed: int, offset: int, n: nat): (r: Bytes)
    ensures |r| == n
  {
    seq<nat>(n, i requires 0 <= i < n => Mod251Byte(seed, offset + i))
  }

  lemma {:induction false} WrittenTwice(data: Bytes, offset: nat, a: Bytes, b: Bytes)
    ensures Written(Written(data, offset, a), offset + |a|, b) == Written(data, offset, a + b)
  {
    if a == [] {
      assert a + b == b;
    } else if b == [] {
      assert a + b == a;
    } else {
      var twice := Written(Written(data, offset, a), offset + |a|, b);
      var both := Written(data, offset, a + b);
      forall i: nat ensures |twice| == |both| && (i < |both| ==> twice[i] == both[i]) {
        WrittenTwiceAt(data, offset, a, b, i);
      }
      assert |twice| == |both|;
    }
  }

  lemma {:induction false} WrittenTwiceAt(data: Bytes, offset: nat, a: Bytes, b: Bytes, i: nat)
    requires a != [] && b != []
    ensures var (twice, both) := (Written(Written(data, offset, a), offset + |a|, b), Written(data, offset, a + b));
            |twice| == |both| && (i < |both| ==> twice[i] == both[i])
  {
    WrittenAt(data, offset, a, i);
    WrittenAt(Written(data, offset, a), offset + |a|, b, i);
    WrittenAt(data, offset, a + b, i);
  }

  lemma {:induction false} RegionGrows(seed: int, offset: int, total: nat, n: nat, wrote: nat)
    requires wrote <= n
    ensures Mod251Region(seed, offset, total) + Mod251Region(seed, offset + total, n)[..wrote]
         == Mod251Region(seed, offset, total + wrote)
  {
  }

  lemma {:induction false} WriteGrows(data: Bytes, offset: nat, seed: int, total: nat, n: nat, wrote: nat)
    requires wrote <= n
    ensures Written(Written(data, offset, Mod251Region(seed, offset, total)), offset + total,
                    Mod251Region(seed, offset + total, n)[..wrote])
         == Written(data, offset, Mod251Region(seed, offset, total + wrote))
  {
    WrittenTwice(data, offset, Mod251Region(seed, offset, total), Mod251Region(seed, offset + total, n)[..wrote]);
    RegionGrows(seed, offset, total, n, wrote);
  }

  /** One short write of the next piece. */
  method WriteOnce(file: File, ghost before: Bytes, offset: nat, total: nat, view: Bytes, seed: int, wrote: nat)
    requires wrote <= |view| && view == Mod251Region(seed, offset + total, |view|)
    requires file.data == Written(before, offset, Mod251Region(seed, offset, total))
    modifies file
    ensures file.data == Written(before, offset, Mod251Region(seed, offset, total + wrote))
  {
    file.Pwrite(view, offset + total, wrote);
    WriteGrows(before, offset, seed, total, |view|, wrote);
  }

  /** How much is written when `total` bytes are and the next writes return `shorts`, each at most what it was given. */
  function TotalWritten(total: nat, size: nat, bufLen: nat, shorts: seq<int>): (r: nat)
    ensures total <= r && (total <= size ==> r <= size)
    decreases |shorts|
  {
    if total >= size || shorts == [] then total
    else
      var n := if bufLen < size - total then bufLen else size - total;
      var wrote := if shorts[0] < n then shorts[0] else n;
      if wrote <= 0 then total else TotalWritten(total + wrote, size, bufLen, shorts[1..])
  }

  lemma {:induction false} TotalNext(total: nat, size: nat, bufLen: nat, shorts: seq<int>, k: nat)
    requires total < size && k < |shorts|
    ensures var n := if bufLen < size - total then bufLen else size - total;
            var wrote := if shorts[k] < n then shorts[k] else n;
            TotalWritten(total, size, bufLen, shorts[k..]) ==
            if wrote <= 0 then total else TotalWritten(total + wrote, size, bufLen, shorts[k + 1..])
  {
    assert shorts[k..][0] == shorts[k] && shorts[k..][1..] == shorts[k + 1..];
  }

  /** Writes that all make progress write everything, however short they are. */
  lemma {:induction false} ProgressWritesAll(total: nat, size: nat, bufLen: nat, shorts: seq<int>)
    requires bufLen > 0 && total <= size <= total + |shorts| && forall k :: 0 <= k < |shorts| ==> shorts[k] > 0
    ensures TotalWritten(total, size, bufLen, shorts) == size
    decreases |shorts|
  {
    if total < size {
      var n := if bufLen < size - total then bufLen else size - total;
      ProgressWritesAll(total + if shorts[0] < n then shorts[0] else n, size, bufLen, shorts[1..]);
    }
  }

  /** Writes the region piece by piece.  `shorts` holds what each write returns; every one may be short, and one that
      writes nothing ends the loop, as does the end of the list.  Exactly the first `total` bytes are written. */
  method PwritePattern(file: File, offset: nat, size: int, seed: int, chunk: nat, shorts: seq<int>) returns (total: nat)
    requires chunk > 0
    modifies file
    ensures total == if size <= 0 then 0 else TotalWritten(0, size, if chunk < size then chunk else size, shorts)
    ensures file.data == Written(old(file.data), offset, Mod251Region(seed, offset, total))
  {
    total := 0;
    ghost var before := file.data;
    NothingWritten(before, offset, seed);
    if size <= 0 {
      return;
    }
    var bufLen := if chunk < size then chunk else size;
    var k := 0;
    while total < size && k < |shorts|
      invariant 0 <= total <= size && k <= |shorts|
      invariant TotalWritten(total, size, bufLen, shorts[k..]) == TotalWritten(0, size, bufLen, shorts)
      invariant file.data == Written(before, offset, Mod251Region(seed, offset, total))
      decreases |shorts| - k
    {
      TotalNext(total, size, bufLen, shorts, k);
      var n := if bufLen < size - total then bufLen else size - total;
      var view := FillPattern(n, seed, offset + total);
      var wrote := if shorts[k] < n then shorts[k] else n;
      k := k + 1;
      if wrote <= 0 {
        break;
      }
      WriteOnce(file, before, offset, total, view, seed, wrote);
      total := total + wrote;
    }
  }

  /** pwrite_pattern_config: chunk by chunk, None where the original raises, because the pattern cannot be rendered
      or because a write was short.  `shorts` holds what the writes return; beyond its end they are complete.
      In either case exactly the first `done` bytes of the region have been written. */
  method PwritePatternConfig(file: File, offset: nat, size: int, c: PatternConfig, shorts: seq<nat>)
      returns (total: Option<nat>, ghost done: nat)
    requires c.chunkSize > 0
    modifies file
    ensures WrittenTo(old(file.data), file.data, offset, c, done)
    ensures if total.Some? then total.value == done == (if size > 0 then size else 0) else done < size
    ensures size <= 0 || (Renderable(c) && forall k :: 0 <= k < |shorts| ==> shorts[k] >= c.chunkSize) ==> total.Some?
  {
    ghost var before := file.data;
    var (pos, k) := (0, 0);
    done := 0;
    while pos < size
      invariant 0 <= k && 0 <= pos == done && (pos > 0 ==> pos <= size)
      invariant WrittenTo(before, file.data, offset, c, done)
    {
      var chunk := if c.chunkSize < size - pos then c.chunkSize else size - pos;
      var wrote := if k < |shorts| && shorts[k] < chunk then shorts[k] else chunk;
      var ok := WriteChunk(file, before, offset, pos, c, chunk, wrote);
      if !ok {
        return None, done;
      }
      done := done + wrote;
      if wrote != chunk {
        return None, done;
      }
      pos, k := pos + chunk, k + 1;
    }
    total := Some(pos);
  }

  /** Renders and writes one chunk; false if it cannot be rendered. */
  method WriteChunk(file: File, ghost before: Bytes, offset: nat, pos: nat, c: PatternConfig, chunk: nat, wrote: nat)
      returns (ok: bool)
    requires wrote <= chunk && chunk > 0 && WrittenTo(before, file.data, offset, c, pos)
    modifies file
    ensures ok <==> Renderable(c)
    ensures WrittenTo(before, file.data, offset, c, if ok then pos + wrote else pos)
  {
    var bytes := RenderPatternBytes(offset + pos, chunk, c);
    if bytes.None? {
      return false;
    }
    ChunkWritten(before, file.data, offset, c, pos, chunk, wrote);
    file.Pwrite(bytes.value, offset + pos, wrote);
    return true;
  }

  /** The first k bytes of the region, and nothing else, have been written. */
  ghost predicate WrittenTo(before: Bytes, now: Bytes, offset: nat, c: PatternConfig, k: nat) {
    if k == 0 then now == before else Renderable(c) && now == Written(before, offset, Region(c, offset, k))
  }

  lemma {:induction false} PieceGrows(c: PatternConfig, offset: nat, pos: nat, n: nat, wrote: nat)
    requires Renderable(c) && wrote <= n
    ensures Region(c, offset, pos) + Region(c, offset + pos, n)[..wrote] == Region(c, offset, pos + wrote)
  {
    var (a, b, all) := (Region(c, offset, pos), Region(c, offset + pos, n)[..wrote], Region(c, offset, pos + wrote));
    forall i | 0 <= i < pos + wrote ensures (a + b)[i] == all[i] {
      if i >= pos {
        assert b[i - pos] == ByteAt(c, offset + pos + (i - pos));
      }
    }
  }

  lemma {:induction false} ChunkWritten(before: Bytes, now: Bytes, offset: nat, c: PatternConfig, pos: nat, n: nat, wrote: nat)
    requires Renderable(c) && wrote <= n && WrittenTo(before, now, offset, c, pos)
    ensures WrittenTo(before, Written(now, offset + pos, Region(c, offset + pos, n)[..wrote]), offset, c, pos + wrote)
  {
    var piece := Region(c, offset + pos, n)[..wrote];
    PieceGrows(c, offset, pos, n, wrote);
    if pos == 0 {
      assert Region(c, offset, 0) == [];
    } else {
      WrittenTwice(before, offset, Region(c, offset, pos), piece);
    }
  }

  lemma {:induction false} NothingWritten(data: Bytes, offset: nat, seed: int)
    ensures Written(data, offset, Mod251Region(seed, offset, 0)) == data
  {
  }

  method FillPattern(n: nat, seed: int, baseOff: int) returns (view: Bytes)
    ensures view == Mod251Region(seed, baseOff, n)
  {
    var buf := new nat[n](i => 0);
    for i := 0 to n
      invariant forall j :: 0 <= j < i ==> buf[j] == Mod251Byte(seed, baseOff + j)
    {
      buf[i] := (seed + baseOff + i) % 251;
    }
    view := buf[..];
  }

  /** The two writers' pattern is the renderer's mod251 pattern. */
  lemma {:induction false} PatternsAgree(c: PatternConfig, offset: int, n: nat)
    requires c.mode == Mod251
    ensures Region(c, offset, n) == Mod251Region(c.seed, offset, n)
  {
  }
}
