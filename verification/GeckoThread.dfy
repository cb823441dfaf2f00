/** The interned stack tables of the gecko profile builder (source/scripts/python/gecko.py): strings,
    frames and stacks are stored once each, a stack as its leaf frame and the stack below it. */
module GeckoThread {
  import opened Common
  import opened Decimal

  datatype Stack = Stack(prefixId: Option<nat>, frameId: nat)

  /** Of a frame, only what identifies it and its category. */
  datatype Frame = Frame(stringId: nat, kernel: bool)

  datatype Sample = Sample(stackId: nat, time: int)

  /** The key under which a stack is looked up: "frame" or "frame,prefix". */
  function StackKey(frameId: nat, prefixId: Option<nat>): string {
    if prefixId.None? then Str(frameId) else Str(frameId) + "," + Str(prefixId.value)
  }

  /** Different stacks have different keys: decimal numbers hold no comma. */
  lemma {:induction false} KeyInjective(f: nat, p: Option<nat>, g: nat, q: Option<nat>)
    requires StackKey(f, p) == StackKey(g, q)
    ensures f == g && p == q
  {
    var (a, b) := (StackKey(f, p), StackKey(g, q));
    assert p.Some? ==> |Str(f)| < |a| && a[|Str(f)|] == ',';
    assert q.Some? ==> |Str(g)| < |b| && b[|Str(g)|] == ',';
    assert p.None? == q.None?;
    if p.Some? {
      assert |Str(f)| == |Str(g)|;
      assert a[..|Str(f)|] == Str(f) && b[..|Str(g)|] == Str(g);
      assert a[|Str(f)| + 1..] == Str(p.value) && b[|Str(g)| + 1..] == Str(q.value);
      StrInjective(f, g);
      StrInjective(p.value, q.value);
    } else {
      StrInjective(f, g);
    }
  }

  predicate EndsWith(s: string, end: string) { |end| <= |s| && s[|s| - |end|..] == end }

  predicate IsKernel(frame: string) {
    Contains(frame, "kallsyms") || Contains(frame, "/vmlinux") || EndsWith(frame, ".ko)")
  }

  /** The frame names the kernel's symbols or image somewhere, or a module at its end. */
  ghost predicate InKernel(frame: string) {
    Within(frame, "kallsyms") || Within(frame, "/vmlinux") || StandsAt(frame, ".ko)", |frame| - 4)
  }

  lemma {:induction false} KernelFrames(frame: string)
    ensures IsKernel(frame) <==> InKernel(frame)
  {
    ContainsAt(frame, "kallsyms");
    ContainsAt(frame, "/vmlinux");
  }

  /** A table with a value added that it does not hold yet. */
  function Added<T(==)>(table: seq<T>, x: T): seq<T> { if x in table then table else table + [x] }

  /** What a lookup map for a table should be: every entry at its position. */
  function Index(table: seq<string>): map<string, nat> {
    if table == [] then map[] else Index(table[..|table| - 1])[table[|table| - 1] := |table| - 1]
  }

  function Keys(stacks: seq<Stack>): (keys: seq<string>)
    ensures |keys| == |stacks|
    ensures forall i :: 0 <= i < |stacks| ==> keys[i] == StackKey(stacks[i].frameId, stacks[i].prefixId)
  {
    if stacks == [] then [] else
      var last := stacks[|stacks| - 1];
      Keys(stacks[..|stacks| - 1]) + [StackKey(last.frameId, last.prefixId)]
  }

  lemma {:induction false} IndexFinds(table: seq<string>, s: string)
    ensures s in Index(table) <==> s in table
    ensures s in table ==> Index(table)[s] < |table| && table[Index(table)[s]] == s
  {
    if table != [] {
      var most := table[..|table| - 1];
      IndexFinds(most, s);
      assert table == most + [table[|table| - 1]];
    }
  }

  /** A key is in the table exactly when its stack is, and in the same place. */
  lemma {:induction false} KeyFinds(stacks: seq<Stack>, k: Stack)
    ensures var key := StackKey(k.frameId, k.prefixId);
            && (key in Index(Keys(stacks)) <==> k in stacks)
            && (k in stacks ==> Index(Keys(stacks))[key] < |stacks| && stacks[Index(Keys(stacks))[key]] == k)
  {
    var key, keys := StackKey(k.frameId, k.prefixId), Keys(stacks);
    IndexFinds(keys, key);
    if k in stacks {
      var i :| 0 <= i < |stacks| && stacks[i] == k;
      assert keys[i] == key;
    }
    if key in keys {
      var at := stacks[Index(keys)[key]];
      KeyInjective(at.frameId, at.prefixId, k.frameId, k.prefixId);
      assert at == k;
    }
  }

  lemma {:induction false} AddedDistinct<T>(table: seq<T>, x: T)
    requires NoDuplicates(table)
    ensures NoDuplicates(Added(table, x)) && table <= Added(table, x) && x in Added(table, x)
  {
  }

  lemma {:induction false} KeysAdded(stacks: seq<Stack>, k: Stack)
    requires NoDuplicates(stacks)
    ensures NoDuplicates(Added(stacks, k))
    ensures Index(Keys(stacks + [k])) == Index(Keys(stacks))[StackKey(k.frameId, k.prefixId) := |stacks|]
  {
    AddedDistinct(stacks, k);
  }

  lemma {:induction false} LastOff<T>(s: seq<T>)
    requires s != []
    ensures s[..|s| - 1] + [s[|s| - 1]] == s
  {
  }

  /** The frames stand in the order of their strings, one frame a string. */
  ghost predicate FramesMatch(frames: seq<Frame>, strings: seq<string>) {
    && |frames| == |strings|
    && forall i :: 0 <= i < |frames| ==> frames[i].stringId == i
  }

  /** Every frame has the category of its string. */
  ghost predicate Categorized(frames: seq<Frame>, strings: seq<string>) {
    && |frames| <= |strings|
    && forall i :: 0 <= i < |frames| ==> (frames[i].kernel <==> InKernel(strings[i]))
  }

  /** Every link points to an earlier entry. */
  ghost predicate Linked(stacks: seq<Stack>, frames: seq<Frame>, strings: seq<string>) {
    && (forall i :: 0 <= i < |frames| ==> frames[i].stringId < |strings|)
    && (forall i :: 0 <= i < |stacks| ==>
          stacks[i].frameId < |frames| && (stacks[i].prefixId.Some? ==> stacks[i].prefixId.value < i))
  }

  /** The strings of the frames of a stack, root first, found by following the prefix links. */
  ghost function Unwind(stacks: seq<Stack>, frames: seq<Frame>, strings: seq<string>, id: nat): (s: seq<string>)
    requires Linked(stacks, frames, strings) && id < |stacks|
    ensures s != []
    decreases id
  {
    var k := stacks[id];
    var leaf := strings[frames[k.frameId].stringId];
    if k.prefixId.None? then [leaf] else Unwind(stacks, frames, strings, k.prefixId.value) + [leaf]
  }

  lemma {:induction false} LinkedGrows(stacks: seq<Stack>, frames: seq<Frame>, strings: seq<string>,
                                       frames': seq<Frame>, strings': seq<string>)
    requires Linked(stacks, frames, strings) && frames <= frames' && strings <= strings'
    requires forall i :: 0 <= i < |frames'| ==> frames'[i].stringId < |strings'|
    ensures Linked(stacks, frames', strings')
  {
  }

  /** What is added to the tables later does not change a stack. */
  lemma {:induction false} UnwindGrows(stacks: seq<Stack>, frames: seq<Frame>, strings: seq<string>,
                                       stacks': seq<Stack>, frames': seq<Frame>, strings': seq<string>, id: nat)
    requires Linked(stacks, frames, strings) && Linked(stacks', frames', strings') && id < |stacks|
    requires stacks <= stacks' && frames <= frames' && strings <= strings'
    ensures Unwind(stacks', frames', strings', id) == Unwind(stacks, frames, strings, id)
    decreases id
  {
    var k := stacks[id];
    assert stacks'[id] == k && frames'[k.frameId] == frames[k.frameId];
    if k.prefixId.Some? {
      UnwindGrows(stacks, frames, strings, stacks', frames', strings', k.prefixId.value);
    }
  }

  /** Different ids stand for different stacks. */
  lemma {:induction false} UnwindInjective(stacks: seq<Stack>, frames: seq<Frame>, strings: seq<string>, i: nat, j: nat)
    requires Linked(stacks, frames, strings) && i < |stacks| && j < |stacks|
    requires FramesMatch(frames, strings) && NoDuplicates(strings) && NoDuplicates(stacks)
    requires Unwind(stacks, frames, strings, i) == Unwind(stacks, frames, strings, j)
    ensures i == j
    decreases i
  {
    var (a, b) := (stacks[i], stacks[j]);
    var (s, t) := (Unwind(stacks, frames, strings, i), Unwind(stacks, frames, strings, j));
    assert s[|s| - 1] == t[|t| - 1];
    assert a.frameId == b.frameId;
    assert |s| == 1 <==> a.prefixId.None?;
    assert |t| == 1 <==> b.prefixId.None?;
    if a.prefixId.Some? {
      assert s[..|s| - 1] == Unwind(stacks, frames, strings, a.prefixId.value);
      assert t[..|t| - 1] == Unwind(stacks, frames, strings, b.prefixId.value);
      UnwindInjective(stacks, frames, strings, a.prefixId.value, b.prefixId.value);
    }
    assert a == b;
  }

  /** An id leads to the given stack; there is no id for the empty one. */
  ghost predicate LeadsTo(stacks: seq<Stack>, frames: seq<Frame>, strings: seq<string>, id: Option<nat>, stack: seq<string>)
    requires Linked(stacks, frames, strings)
  {
    match id
    case None => stack == []
    case Some(n) => n < |stacks| && Unwind(stacks, frames, strings, n) == stack
  }

  /** Adding a stack whose links point backwards keeps the table linked; it unwinds to its prefix and its leaf. */
  lemma {:induction false} UnwindPush(stacks: seq<Stack>, frames: seq<Frame>, strings: seq<string>,
                                      stacks': seq<Stack>, k: Stack, id: nat, below: seq<string>)
    requires Linked(stacks, frames, strings) && stacks' == Added(stacks, k)
    requires k.frameId < |frames| && LeadsTo(stacks, frames, strings, k.prefixId, below)
    requires id < |stacks'| && stacks'[id] == k
    ensures Linked(stacks', frames, strings) && stacks <= stacks'
    ensures LeadsTo(stacks', frames, strings, Some(id), below + [strings[frames[k.frameId].stringId]])
  {
    if k.prefixId.Some? {
      UnwindGrows(stacks, frames, strings, stacks', frames, strings, k.prefixId.value);
    }
  }

  // ---------------------------------------------------------------- the tables

  datatype Tables = Tables(strings: seq<string>, stringMap: map<string, nat>, frames: seq<Frame>,
                           frameMap: map<string, nat>, stacks: seq<Stack>, stackMap: map<string, nat>)

  /** Nothing is stored twice, the maps say where everything is, and links point backwards. */
  ghost predicate TablesOk(t: Tables) {
    match t
    case Tables(strings, stringMap, frames, frameMap, stacks, stackMap) =>
      && NoDuplicates(strings) && stringMap == Index(strings)
      && FramesMatch(frames, strings) && frameMap == Index(strings)
      && NoDuplicates(stacks) && stackMap == Index(Keys(stacks))
      && Linked(stacks, frames, strings)
  }

  ghost predicate Grown(t: Tables, t': Tables) {
    t.strings <= t'.strings && t.frames <= t'.frames && t.stacks <= t'.stacks
  }

  /** An id leads to the given stack; there is no id for the empty one. */
  ghost predicate Found(t: Tables, id: Option<nat>, stack: seq<string>) {
    TablesOk(t) && LeadsTo(t.stacks, t.frames, t.strings, id, stack)
  }

  datatype Interned = Interned(tables: Tables, id: nat)

  function WithString(t: Tables, s: string): Interned {
    if s in t.stringMap then Interned(t, t.stringMap[s])
    else Interned(t.(strings := t.strings + [s], stringMap := t.stringMap[s := |t.strings|]), |t.strings|)
  }

  /** A frame string interned, with its category. */
  function WithFrame(t: Tables, frame: string, kernel: bool): Interned {
    if frame in t.frameMap then Interned(t, t.frameMap[frame])
    else
      var id := |t.frames|;
      var r := WithString(t.(frameMap := t.frameMap[frame := id]), frame);
      Interned(r.tables.(frames := r.tables.frames + [Frame(r.id, kernel)]), id)
  }

  function WithStack(t: Tables, frameId: nat, prefixId: Option<nat>): Interned {
    var key := StackKey(frameId, prefixId);
    if key in t.stackMap then Interned(t, t.stackMap[key])
    else
      Interned(t.(stacks := t.stacks + [Stack(prefixId, frameId)], stackMap := t.stackMap[key := |t.stacks|]), |t.stacks|)
  }

  datatype Folded = Folded(tables: Tables, prefix: Option<nat>)

  /** One step of the reduction: a frame interned on top of what has been interned. */
  function OnTop(below: Folded, leaf: string): Folded {
    var frame := WithFrame(below.tables, leaf, IsKernel(leaf));
    var top := WithStack(frame.tables, frame.id, below.prefix);
    Folded(top.tables, Some(top.id))
  }

  /** A whole stack interned frame by frame, from the root. */
  function WithFrames(t: Tables, stack: seq<string>): Folded {
    if stack == [] then Folded(t, None)
    else OnTop(WithFrames(t, stack[..|stack| - 1]), stack[|stack| - 1])
  }

  /** A string is added only if the table does not hold it; its id leads to it. */
  lemma {:induction false} StringInterned(t: Tables, s: string)
    requires NoDuplicates(t.strings) && t.stringMap == Index(t.strings)
    ensures var (r, all) := (WithString(t, s), Added(t.strings, s));
            && r.tables == t.(strings := all, stringMap := Index(all)) && NoDuplicates(all)
            && r.id < |all| && all[r.id] == s
  {
    IndexFinds(t.strings, s);
    AddedDistinct(t.strings, s);
  }

  lemma {:induction false} FrameNew(t: Tables, frame: string, kernel: bool)
    requires TablesOk(t) && frame !in t.strings
    ensures var (n, strings) := (|t.frames|, t.strings + [frame]);
            WithFrame(t, frame, kernel) ==
            Interned(Tables(strings, Index(strings), t.frames + [Frame(n, kernel)], Index(strings), t.stacks, t.stackMap), n)
  {
    IndexFinds(t.strings, frame);
  }

  /** A frame string gets one frame, whose id leads to it. */
  lemma {:induction false} FrameInterned(t: Tables, frame: string, kernel: bool)
    requires TablesOk(t)
    ensures var r := WithFrame(t, frame, kernel);
            && TablesOk(r.tables) && Grown(t, r.tables) && r.tables.stacks == t.stacks
            && r.tables.strings == Added(t.strings, frame)
            && r.id < |r.tables.frames| && r.tables.frames[r.id].stringId < |r.tables.strings|
            && r.tables.strings[r.tables.frames[r.id].stringId] == frame
  {
    IndexFinds(t.strings, frame);
    if frame !in t.strings {
      FrameNew(t, frame, kernel);
      var (strings, frames) := (t.strings + [frame], t.frames + [Frame(|t.frames|, kernel)]);
      AddedDistinct(t.strings, frame);
      LinkedGrows(t.stacks, t.frames, t.strings, frames, strings);
    }
  }

  /** Frames keep the category they were interned with, and a new one has that of its string. */
  lemma {:induction false} FrameCategory(t: Tables, frame: string)
    requires TablesOk(t) && Categorized(t.frames, t.strings)
    ensures var r := WithFrame(t, frame, IsKernel(frame)); Categorized(r.tables.frames, r.tables.strings)
  {
    FrameInterned(t, frame, IsKernel(frame));
    var r := WithFrame(t, frame, IsKernel(frame));
    KernelFrames(frame);
    IndexFinds(t.strings, frame);
    forall i | 0 <= i < |t.frames| ensures r.tables.strings[i] == t.strings[i] && r.tables.frames[i] == t.frames[i] {}
  }

  /** A stack gets one entry; its id leads to the stack below it with the frame on top. */
  lemma {:induction false} StackInterned(t: Tables, frameId: nat, prefixId: Option<nat>, below: seq<string>)
    requires TablesOk(t) && frameId < |t.frames| && LeadsTo(t.stacks, t.frames, t.strings, prefixId, below)
    ensures var r := WithStack(t, frameId, prefixId);
            && Grown(t, r.tables) && r.tables.stacks == Added(t.stacks, Stack(prefixId, frameId))
            && Found(r.tables, Some(r.id), below + [t.strings[t.frames[frameId].stringId]])
  {
    var (r, k) := (WithStack(t, frameId, prefixId), Stack(prefixId, frameId));
    KeyFinds(t.stacks, k);
    KeysAdded(t.stacks, k);
    UnwindPush(t.stacks, t.frames, t.strings, r.tables.stacks, k, r.id, below);
  }

  ghost predicate LinkedIn(t: Tables) { Linked(t.stacks, t.frames, t.strings) }

  lemma {:induction false} LeadsToGrows(t: Tables, t': Tables, id: Option<nat>, stack: seq<string>)
    requires LinkedIn(t) && LinkedIn(t') && Grown(t, t') && LeadsTo(t.stacks, t.frames, t.strings, id, stack)
    ensures LeadsTo(t'.stacks, t'.frames, t'.strings, id, stack)
  {
    if id.Some? {
      UnwindGrows(t.stacks, t.frames, t.strings, t'.stacks, t'.frames, t'.strings, id.value);
    }
  }

  lemma {:induction false} FrameOnTop(t: Tables, below: Folded, most: seq<string>, leaf: string)
    requires Grown(t, below.tables) && Found(below.tables, below.prefix, most)
    ensures Grown(t, OnTop(below, leaf).tables)
    ensures Found(OnTop(below, leaf).tables, OnTop(below, leaf).prefix, most + [leaf])
  {
    var frame := WithFrame(below.tables, leaf, IsKernel(leaf));
    FrameInterned(below.tables, leaf, IsKernel(leaf));
    LeadsToGrows(below.tables, frame.tables, below.prefix, most);
    StackInterned(frame.tables, frame.id, below.prefix, most);
  }

  /** A stack interned frame by frame is found at the id of its last frame. */
  lemma {:induction false} FramesInterned(t: Tables, stack: seq<string>)
    requires TablesOk(t)
    ensures Grown(t, WithFrames(t, stack).tables)
    ensures Found(WithFrames(t, stack).tables, WithFrames(t, stack).prefix, stack)
  {
    if stack != [] {
      var (most, leaf) := (stack[..|stack| - 1], stack[|stack| - 1]);
      FramesInterned(t, most);
      FrameOnTop(t, WithFrames(t, most), most, leaf);
      LastOff(stack);
    }
  }

  /** After any stack, every frame still has the category of its string. */
  lemma {:induction false} CategoriesKept(t: Tables, stack: seq<string>)
    requires TablesOk(t) && Categorized(t.frames, t.strings)
    ensures var r := WithFrames(t, stack).tables; Categorized(r.frames, r.strings)
  {
    if stack != [] {
      var (most, leaf) := (stack[..|stack| - 1], stack[|stack| - 1]);
      var below := WithFrames(t, most);
      CategoriesKept(t, most);
      FramesInterned(t, most);
      FrameCategory(below.tables, leaf);
    }
  }

  // ---------------------------------------------------------------- the samples

  /** Each sample's stack id leads to the stack that was recorded. */
  ghost predicate SamplesOk(t: Tables, samples: seq<Sample>, recorded: seq<seq<string>>)
    requires LinkedIn(t)
  {
    |recorded| == |samples| && forall i :: 0 <= i < |samples| ==> SampleOk(t, samples[i], recorded[i])
  }

  ghost predicate SampleOk(t: Tables, sample: Sample, stack: seq<string>)
    requires LinkedIn(t)
  {
    LeadsTo(t.stacks, t.frames, t.strings, Some(sample.stackId), stack)
  }

  /** The tables only grow, and so the samples stay as they are. */
  lemma {:induction false} SamplesKept(t: Tables, t': Tables, samples: seq<Sample>, recorded: seq<seq<string>>)
    requires LinkedIn(t) && SamplesOk(t, samples, recorded) && LinkedIn(t') && Grown(t, t')
    ensures SamplesOk(t', samples, recorded)
  {
    forall i | 0 <= i < |samples| ensures SampleOk(t', samples[i], recorded[i]) {
      LeadsToGrows(t, t', Some(samples[i].stackId), recorded[i]);
    }
  }

  lemma {:induction false} SampleAdded(t: Tables, samples: seq<Sample>, recorded: seq<seq<string>>, sample: Sample, stack: seq<string>)
    requires LinkedIn(t) && SamplesOk(t, samples, recorded) && SampleOk(t, sample, stack)
    ensures SamplesOk(t, samples + [sample], recorded + [stack])
  {
  }

  /** The tables are in order and hold every sample's stack. */
  ghost predicate Recording(t: Tables, samples: seq<Sample>, recorded: seq<seq<string>>) {
    TablesOk(t) && SamplesOk(t, samples, recorded)
  }

  /** The samples after one more, which is dropped if it has no frames. */
  function WithSample(samples: seq<Sample>, prefix: Option<nat>, time: int): seq<Sample> {
    if prefix.None? then samples else samples + [Sample(prefix.value, time)]
  }

  function WithRecorded(recorded: seq<seq<string>>, stack: seq<string>): seq<seq<string>> {
    if stack == [] then recorded else recorded + [stack]
  }

  /** Every sample recorded before and the new one unwind to the stacks that were given. */
  lemma {:induction false} SampleRecorded(t: Tables, samples: seq<Sample>, recorded: seq<seq<string>>,
                                          stack: seq<string>, time: int)
    requires Recording(t, samples, recorded)
    ensures var f := WithFrames(t, stack);
            && Grown(t, f.tables) && (f.prefix.None? <==> stack == [])
            && Recording(f.tables, WithSample(samples, f.prefix, time), WithRecorded(recorded, stack))
  {
    var f := WithFrames(t, stack);
    FramesInterned(t, stack);
    SamplesKept(t, f.tables, samples, recorded);
    if f.prefix.Some? {
      SampleAdded(f.tables, samples, recorded, Sample(f.prefix.value, time), stack);
    }
  }

  class Thread {
    var samples: seq<Sample>
    var frameTable: seq<Frame>
    var stringTable: seq<string>
    var stackTable: seq<Stack>
    var stringMap: map<string, nat>
    var stackMap: map<string, nat>
    var frameMap: map<string, nat>
    ghost var recorded: seq<seq<string>> // the stacks of the samples, as they were given

    function View(): Tables
      reads this
    {
      Tables(stringTable, stringMap, frameTable, frameMap, stackTable, stackMap)
    }

    ghost predicate Valid()
      reads this
    {
      Recording(View(), samples, recorded)
    }

    constructor ()
      ensures Valid() && samples == [] && recorded == []
    {
      samples, frameTable, stringTable, stackTable, recorded := [], [], [], [], [];
      stringMap, stackMap, frameMap := map[], map[], map[];
    }

    /** Two samples share a stack id exactly when their stacks are the same. */
    lemma {:induction false} SharedIffEqual(i: nat, j: nat)
      requires Valid() && i < |samples| && j < |samples|
      ensures samples[i].stackId == samples[j].stackId <==> recorded[i] == recorded[j]
    {
      assert SampleOk(View(), samples[i], recorded[i]) && SampleOk(View(), samples[j], recorded[j]);
      if recorded[i] == recorded[j] {
        UnwindInjective(stackTable, frameTable, stringTable, samples[i].stackId, samples[j].stackId);
      }
    }

    method InternString(s: string) returns (id: nat)
      modifies this`stringTable, this`stringMap
      ensures Interned(View(), id) == WithString(old(View()), s)
    {
      if s in stringMap {
        return stringMap[s];
      }
      id := |stringTable|;
      stringTable := stringTable + [s];
      stringMap := stringMap[s := id];
    }

    method InternFrame(frame: string) returns (id: nat)
      modifies this`stringTable, this`stringMap, this`frameTable, this`frameMap
      ensures Interned(View(), id) == WithFrame(old(View()), frame, IsKernel(frame))
    {
      if frame in frameMap {
        return frameMap[frame];
      }
      id := |frameTable|;
      frameMap := frameMap[frame := id];
      var stringId := InternString(frame);
      frameTable := frameTable + [Frame(stringId, IsKernel(frame))];
    }

    method InternStack(frameId: nat, prefixId: Option<nat>) returns (id: nat)
      modifies this`stackTable, this`stackMap
      ensures Interned(View(), id) == WithStack(old(View()), frameId, prefixId)
    {
      var key := StackKey(frameId, prefixId);
      if key in stackMap {
        return stackMap[key];
      }
      id := |stackTable|;
      stackTable := stackTable + [Stack(prefixId, frameId)];
      stackMap := stackMap[key := id];
    }

    /** The reduction of a stack to the id of its last frame. */
    method Fold(stack: seq<string>) returns (prefix: Option<nat>)
      modifies this`stringTable, this`stringMap, this`frameTable, this`frameMap, this`stackTable, this`stackMap
      ensures Folded(View(), prefix) == WithFrames(old(View()), stack)
    {
      prefix := None;
      ghost var before := View();
      for k := 0 to |stack|
        invariant Folded(View(), prefix) == WithFrames(before, stack[..k])
      {
        assert stack[..k + 1][..k] == stack[..k];
        var frameId := InternFrame(stack[k]);
        var id := InternStack(frameId, prefix);
        prefix := Some(id);
      }
      assert stack[..|stack|] == stack;
    }

    /** Adds a sample; one without frames is not recorded. */
    method AddSample(stack: seq<string>, time: int)
      requires Valid()
      modifies this
      ensures Valid() && Grown(old(View()), View()) && View() == WithFrames(old(View()), stack).tables
      ensures exists prefix: Option<nat> ::
                samples == WithSample(old(samples), prefix, time) && (prefix.None? <==> stack == [])
      ensures recorded == WithRecorded(old(recorded), stack)
    {
      ghost var (t, was, given) := (View(), samples, recorded);
      var prefix := Fold(stack);
      SampleRecorded(t, was, given, stack, time);
      if prefix.Some? {
        samples := samples + [Sample(prefix.value, time)];
      }
      recorded := WithRecorded(recorded, stack);
      assert View() == WithFrames(t, stack).tables && samples == WithSample(was, prefix, time);
    }
  }
}
