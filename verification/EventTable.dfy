/** How an event or metric becomes one string of the table (JsonEvent.build_c_string) and how the
    generated C code takes it apart again (decompress_event, decompress_metric), both in
    source/pmu-events/jevents.py. */
module EventTable {
  import opened Common
  import opened CText
  import opened StringTable

  /** An attribute is text, ended by NUL, or an enumeration value, one digit. */
  datatype Kind = Text | Enum

  /** name, topic, desc, event, compat, deprecated, perpkg, unit, long_desc */
  const EVENT_KINDS: seq<Kind> := [Text, Text, Text, Text, Text, Enum, Enum, Text, Text]

  /** metric_name, metric_group, metric_expr, metric_threshold, desc, long_desc, unit, compat,
      metricgroup_no_group, default_metricgroup_name, aggr_mode, event_grouping */
  const METRIC_KINDS: seq<Kind> := [Text, Text, Text, Text, Text, Text, Text, Text, Text, Text, Enum, Enum]

  type Value = Option<string>

  predicate Present(v: Value) { v.Some? && v.value != "" }

  predicate FieldOk(kind: Kind, v: Value) {
    Present(v) ==>
      match kind
      case Text => NUL !in v.value
      case Enum => |v.value| == 1 && '0' <= v.value[0] <= '9'
  }

  predicate RecordOk(kinds: seq<Kind>, vals: seq<Value>) {
    |kinds| == |vals| && forall i :: 0 <= i < |kinds| ==> FieldOk(kinds[i], vals[i])
  }

  function EncodeField(kind: Kind, v: Value): string {
    match kind
    case Enum => if Present(v) then v.value else "0"
    case Text => if Present(v) then v.value + [NUL] else [NUL]
  }

  function Encode(kinds: seq<Kind>, vals: seq<Value>): string
    requires |kinds| == |vals|
  {
    if kinds == [] then "" else EncodeField(kinds[0], vals[0]) + Encode(kinds[1..], vals[1..])
  }

  // ---------------------------------------------------------------- the text of a record

  /** What the program holds of an attribute: its text, with escapes. */
  function TextOf(v: Value): Value { if v.None? then None else Some(Escape(v.value)) }

  function TextField(kind: Kind, x: Value): string {
    match kind
    case Enum => if Present(x) then x.value else "0"
    case Text => if Present(x) then x.value + "\\000" else "\\000"
  }

  lemma {:induction false} EscapeNul()
    ensures Escape([NUL]) == "\\000" && Escape("0") == "0"
  {
    assert [NUL][1..] == "" && "0"[1..] == "";
    assert EscapeChar(NUL) == "\\000" && EscapeChar('0') == "0";
  }

  lemma {:induction false} TextFieldEscapes(kind: Kind, v: Value)
    ensures TextField(kind, TextOf(v)) == Escape(EncodeField(kind, v))
  {
    EscapeNul();
    if kind.Text? && Present(v) {
      EscapeAppend(v.value, [NUL]);
    }
  }

  /** The loop of build_c_string, over the texts of the attributes; the result is the text of the encoded record. */
  method BuildCString(kinds: seq<Kind>, attrs: seq<Value>, ghost vals: seq<Value>) returns (s: string)
    requires |kinds| == |attrs| == |vals| && forall i :: 0 <= i < |vals| ==> attrs[i] == TextOf(vals[i])
    ensures s == Escape(Encode(kinds, vals))
  {
    s := "";
    for i := 0 to |kinds|
      invariant s + Escape(Encode(kinds[i..], vals[i..])) == Escape(Encode(kinds, vals))
    {
      EscapeRest(kinds, vals, i, s);
      TextFieldEscapes(kinds[i], vals[i]);
      s := s + TextField(kinds[i], attrs[i]);
    }
    assert kinds[|kinds|..] == [];
  }

  lemma {:induction false} EscapeRest(kinds: seq<Kind>, vals: seq<Value>, i: nat, s: string)
    requires i < |kinds| == |vals|
    ensures s + Escape(Encode(kinds[i..], vals[i..])) ==
            (s + Escape(EncodeField(kinds[i], vals[i]))) + Escape(Encode(kinds[i + 1..], vals[i + 1..]))
  {
    var (first, rest) := (EncodeField(kinds[i], vals[i]), Encode(kinds[i + 1..], vals[i + 1..]));
    assert kinds[i..][1..] == kinds[i + 1..] && vals[i..][1..] == vals[i + 1..];
    assert Encode(kinds[i..], vals[i..]) == first + rest;
    EscapeAppend(first, rest);
  }

  /** What the C structure holds: a null pointer, a pointer to a C string, or a number. */
  datatype Field = Null | Str(text: string) | Num(n: int)

  /** What a record's field must come out as: absent and empty text are both null, an absent enumeration value is 0. */
  function Normal(kind: Kind, v: Value): Field
    requires FieldOk(kind, v)
  {
    match kind
    case Text => if Present(v) then Str(v.value) else Null
    case Enum => if Present(v) then Num(v.value[0] as int - '0' as int) else Num(0)
  }

  function NormalRecord(kinds: seq<Kind>, vals: seq<Value>): (fields: seq<Field>)
    requires RecordOk(kinds, vals)
  {
    seq(|kinds|, i requires 0 <= i < |kinds| => Normal(kinds[i], vals[i]))
  }

  /** while (*p++); over the text s at p, which also is the C string a pointer to p denotes. */
  method ReadText(big: string, p: nat, ghost s: string) returns (text: string, next: nat)
    requires At(big, p, s + [NUL]) && NUL !in s
    ensures text == s && next == p + |s| + 1
  {
    text, next := "", p;
    assert forall i :: 0 <= i <= |s| ==> big[p + i] == (s + [NUL])[i];
    while big[next] != NUL
      invariant p <= next <= p + |s|
      invariant text == s[..next - p]
      decreases p + |s| - next
    {
      assert big[next] == (s + [NUL])[next - p];
      text := text + [big[next]];
      next := next + 1;
    }
    assert next == p + |s| by {
      assert forall i :: 0 <= i < |s| ==> big[p + i] == s[i] && s[i] in s;
    }
    next := next + 1;
  }

  /** One attribute: what is assigned, and where the next one starts. */
  method DecompressField(kind: Kind, big: string, p: nat, ghost v: Value) returns (field: Field, next: nat)
    requires FieldOk(kind, v) && At(big, p, EncodeField(kind, v))
    ensures field == Normal(kind, v) && next == p + |EncodeField(kind, v)|
  {
    assert big[p] == EncodeField(kind, v)[0];
    match kind {
      case Enum =>
        field, next := Num(big[p] as int - '0' as int), p + 1;
      case Text =>
        ghost var s := if Present(v) then v.value else "";
        assert EncodeField(kind, v) == s + [NUL];
        var text;
        text, next := ReadText(big, p, s);
        field := if big[p] == NUL then Null else Str(text);
    }
  }

  /** Takes apart the record encoded at offset; every access stays inside that record. */
  method Decompress(kinds: seq<Kind>, big: string, offset: nat, ghost vals: seq<Value>) returns (fields: seq<Field>)
    requires RecordOk(kinds, vals) && At(big, offset, Encode(kinds, vals))
    ensures fields == NormalRecord(kinds, vals)
  {
    fields := [];
    var p := offset;
    ghost var all := NormalRecord(kinds, vals);
    assert kinds[0..] == kinds && vals[0..] == vals;
    for i := 0 to |kinds|
      invariant fields == all[..i]
      invariant i < |kinds| ==> At(big, p, Encode(kinds[i..], vals[i..]))
    {
      var field, next := DecompressNext(kinds, big, p, vals, i);
      fields := fields + [field];
      if i + 1 < |kinds| {
        p := next;
      }
    }
  }

  /** The i-th attribute, which the encoding of the others follows. */
  method DecompressNext(kinds: seq<Kind>, big: string, p: nat, ghost vals: seq<Value>, i: nat)
      returns (field: Field, next: nat)
    requires |kinds| == |vals| && i < |kinds| && FieldOk(kinds[i], vals[i])
    requires At(big, p, Encode(kinds[i..], vals[i..]))
    ensures field == Normal(kinds[i], vals[i]) && At(big, next, Encode(kinds[i + 1..], vals[i + 1..]))
  {
    SplitAt(kinds, vals, i, big, p);
    field, next := DecompressField(kinds[i], big, p, vals[i]);
  }

  /** The encoding at p is the next field's followed by the rest. */
  lemma {:induction false} SplitAt(kinds: seq<Kind>, vals: seq<Value>, i: nat, big: string, p: nat)
    requires |kinds| == |vals| && i < |kinds| && At(big, p, Encode(kinds[i..], vals[i..]))
    ensures At(big, p, EncodeField(kinds[i], vals[i]))
    ensures At(big, p + |EncodeField(kinds[i], vals[i])|, Encode(kinds[i + 1..], vals[i + 1..]))
  {
    var a := EncodeField(kinds[i], vals[i]);
    var b := Encode(kinds[i + 1..], vals[i + 1..]);
    assert kinds[i..][1..] == kinds[i + 1..] && vals[i..][1..] == vals[i + 1..];
    var all := big[p..p + |a| + |b|];
    assert all == a + b;
    assert big[p..p + |a|] == all[..|a|] == a;
    assert big[p + |a|..p + |a| + |b|] == all[|a|..] == b;
  }

  // ---------------------------------------------------------------- from records to table and back

  datatype Record = Record(metric: bool, kinds: seq<Kind>, vals: seq<Value>)

  predicate Sound(r: Record) {
    r.kinds == (if r.metric then METRIC_KINDS else EVENT_KINDS) && RecordOk(r.kinds, r.vals)
  }

  type SoundRecord = r: Record | Sound(r)
    witness Record(false, EVENT_KINDS, [None, None, None, None, None, None, None, None, None])

  function Encoded(r: SoundRecord): string { Encode(r.kinds, r.vals) }

  /** The string of a record in the table. */
  function CString(r: SoundRecord): string { Escape(Encoded(r)) }

  function Fields(r: SoundRecord): seq<Field> { NormalRecord(r.kinds, r.vals) }

  /** The strings of the records, one for each. */
  function TextsOf(records: seq<SoundRecord>): (texts: seq<string>)
    ensures |texts| == |records| && forall k :: 0 <= k < |records| ==> texts[k] == CString(records[k])
  {
    seq(|records|, k requires 0 <= k < |records| => CString(records[k]))
  }

  ghost function Members(texts: seq<string>): set<string> { set s | s in texts }

  lemma {:induction false} MembersNext(texts: seq<string>, k: nat)
    requires k < |texts|
    ensures Members(texts[..k + 1]) == Members(texts[..k]) + {texts[k]}
  {
    assert texts[..k + 1] == texts[..k] + [texts[k]];
  }

  ghost function CStrings(records: seq<SoundRecord>): set<string> { Members(TextsOf(records)) }

  /** c_len measures the records right, and none is folded into another at a place inside an escape: what is needed for
      the table to hold every one of them. */
  ghost predicate Readable(records: seq<SoundRecord>) {
    AllMeasured(CStrings(records)) && FoldsAligned(CStrings(records))
  }

  /** Adds every record to a table, compresses the table, looks each record's offset up by its own encoding and
      decompresses it there: every record comes back, up to the identification of absent and empty text. */
  method CompressAndDecompress(records: seq<SoundRecord>) returns (decoded: seq<seq<Field>>)
    requires Readable(records)
    ensures |decoded| == |records|
    ensures forall k :: 0 <= k < |records| ==> decoded[k] == Fields(records[k])
  {
    var table := AddAll(records);
    decoded := DecompressAll(table, records);
  }

  method DecompressAll(table: BigCString, records: seq<SoundRecord>) returns (decoded: seq<seq<Field>>)
    requires AllAt(Compiled(table.bigString), table.offsets)
    requires CStrings(records) <= table.offsets.Keys
    ensures |decoded| == |records|
    ensures forall k :: 0 <= k < |records| ==> decoded[k] == Fields(records[k])
  {
    decoded := [];
    for k := 0 to |records|
      invariant |decoded| == k
      invariant forall j :: 0 <= j < k ==> decoded[j] == Fields(records[j])
    {
      assert TextsOf(records)[k] in CStrings(records);
      var fields := ToCString(table, records[k]);
      decoded := decoded + [fields];
    }
  }

  /** Looks a record's string up and decompresses it at the offset found. */
  method ToCString(table: BigCString, r: SoundRecord) returns (fields: seq<Field>)
    requires CString(r) in table.offsets && AllAt(Compiled(table.bigString), table.offsets)
    ensures fields == Fields(r)
  {
    var s := BuildCString(r.kinds, seq(|r.vals|, i requires 0 <= i < |r.vals| => TextOf(r.vals[i])), r.vals);
    UnescapeEscape(Encoded(r));
    fields := Decompress(r.kinds, Compiled(table.bigString), table.offsets[s], r.vals);
  }

  /** The table has the strings of the records, and holds them if and only if none is folded inside an escape. */
  method AddAll(records: seq<SoundRecord>) returns (table: BigCString)
    ensures table.offsets.Keys == CStrings(records)
    ensures AllMeasured(CStrings(records)) ==>
              (AllAt(Compiled(table.bigString), table.offsets) <==> FoldsAligned(CStrings(records)))
  {
    table := new BigCString();
    ghost var texts := TextsOf(records);
    for k := 0 to |records|
      invariant table.Valid() && fresh(table)
      invariant table.strings == Members(texts[..k])
    {
      AddRecord(table, records[k]);
      MembersNext(texts, k);
    }
    assert texts[..|records|] == texts;
    ghost var order := table.Compute();
  }

  method AddRecord(table: BigCString, r: SoundRecord)
    requires table.Valid()
    modifies table
    ensures table.Valid() && table.strings == old(table.strings) + {CString(r)}
  {
    var s := BuildCString(r.kinds, seq(|r.vals|, i requires 0 <= i < |r.vals| => TextOf(r.vals[i])), r.vals);
    table.Add(s, r.metric);
  }

  /** Two records share a string of the table exactly when they are the same up to that identification. */
  lemma {:induction false} EncodeInjective(kinds: seq<Kind>, a: seq<Value>, b: seq<Value>)
    requires RecordOk(kinds, a) && RecordOk(kinds, b)
    ensures Encode(kinds, a) == Encode(kinds, b) <==> NormalRecord(kinds, a) == NormalRecord(kinds, b)
  {
    if kinds != [] {
      EncodeInjective(kinds[1..], a[1..], b[1..]);
      FieldPrefixFree(kinds[0], a[0], b[0], Encode(kinds[1..], a[1..]), Encode(kinds[1..], b[1..]));
      NormalSplit(kinds, a);
      NormalSplit(kinds, b);
    }
  }

  lemma {:induction false} NormalSplit(kinds: seq<Kind>, a: seq<Value>)
    requires RecordOk(kinds, a) && kinds != []
    ensures RecordOk(kinds[1..], a[1..])
    ensures NormalRecord(kinds, a)[0] == Normal(kinds[0], a[0])
    ensures NormalRecord(kinds, a)[1..] == NormalRecord(kinds[1..], a[1..])
    ensures NormalRecord(kinds, a) == [Normal(kinds[0], a[0])] + NormalRecord(kinds[1..], a[1..])
  {
  }

  /** No field's encoding runs into what follows it. */
  lemma {:induction false} FieldPrefixFree(kind: Kind, a: Value, b: Value, u: string, v: string)
    requires FieldOk(kind, a) && FieldOk(kind, b)
    ensures EncodeField(kind, a) + u == EncodeField(kind, b) + v <==> Normal(kind, a) == Normal(kind, b) && u == v
  {
    var (x, y) := (EncodeField(kind, a), EncodeField(kind, b));
    match kind
    case Enum =>
      assert (x + u)[0] == x[0] && (y + v)[0] == y[0] && (x + u)[1..] == u && (y + v)[1..] == v;
      assert |x| == 1 && |y| == 1;
      assert x == [x[0]] && y == [y[0]];
    case Text =>
      TextPrefixFree(if Present(a) then a.value else "", u, if Present(b) then b.value else "", v);
  }

  lemma {:induction false} TextPrefixFree(s: string, u: string, t: string, v: string)
    requires NUL !in s && NUL !in t
    ensures s + [NUL] + u == t + [NUL] + v <==> s == t && u == v
  {
    var (x, y) := (s + [NUL] + u, t + [NUL] + v);
    if x == y {
      assert x[|s|] == NUL && y[|t|] == NUL;
      assert forall i :: 0 <= i < |s| ==> x[i] == s[i] && s[i] in s;
      assert forall i :: 0 <= i < |t| ==> y[i] == t[i] && t[i] in t;
      assert s == x[..|s|] && t == y[..|t|] && u == x[|s| + 1..] && v == y[|t| + 1..];
    }
  }
}
