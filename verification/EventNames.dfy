/** A condition on the records themselves under which a table of them is held whole (source/pmu-events/jevents.py): their
    names need no escapes, and no value has a backslash that three zeros follow. */
module EventNames {
  import opened Common
  import opened CText
  import opened StringTable
  import opened EventTable

  predicate NamePlain(r: SoundRecord) { Present(r.vals[0]) ==> Escape(r.vals[0].value) == r.vals[0].value }

  predicate ValueClear(v: Value) { Present(v) ==> Misleading(v.value) == 0 }

  predicate Clear(vals: seq<Value>) { forall i :: 0 <= i < |vals| ==> ValueClear(vals[i]) }

  // ---------------------------------------------------------------- what c_len is misled by

  lemma {:induction false} MisleadingAppend(a: string, rest: string)
    ensures Misleading(a + [NUL] + rest) == Misleading(a) + Misleading(rest)
  {
    var d := a + [NUL] + rest;
    if a == "" {
      assert d == [NUL] + rest && d[1..] == rest;
    } else {
      assert d[0] == a[0] && d[1..] == a[1..] + [NUL] + rest;
      var (x, y) := (a[1..], a[1..] + [NUL] + rest);
      assert y[|x|] == NUL && y[..|x|] == x;
      assert "000" <= x <==> "000" <= y;
      MisleadingAppend(a[1..], rest);
    }
  }

  lemma {:induction false} FieldClear(kind: Kind, v: Value, rest: string)
    requires FieldOk(kind, v) && ValueClear(v)
    ensures Misleading(EncodeField(kind, v) + rest) == Misleading(rest)
  {
    var d := EncodeField(kind, v) + rest;
    match kind
    case Enum =>
      assert '0' <= d[0] <= '9' && d[1..] == rest;
    case Text =>
      var a := if Present(v) then v.value else "";
      assert d == a + [NUL] + rest;
      MisleadingAppend(a, rest);
  }

  lemma {:induction false} RecordClear(kinds: seq<Kind>, vals: seq<Value>)
    requires RecordOk(kinds, vals) && Clear(vals)
    ensures Misleading(Encode(kinds, vals)) == 0
  {
    if kinds != [] {
      RecordClear(kinds[1..], vals[1..]);
      assert FieldOk(kinds[0], vals[0]) && ValueClear(vals[0]);
      FieldClear(kinds[0], vals[0], Encode(kinds[1..], vals[1..]));
    }
  }

  // ---------------------------------------------------------------- how many NULs a record has

  function Texts(kinds: seq<Kind>): nat {
    if kinds == [] then 0 else (if kinds[0].Text? then 1 else 0) + Texts(kinds[1..])
  }

  lemma {:induction false} NulsAppend(a: string, b: string)
    ensures Nuls(a + b) == Nuls(a) + Nuls(b)
  {
    if a == "" {
      assert a + b == b;
    } else {
      assert (a + b)[0] == a[0] && (a + b)[1..] == a[1..] + b;
      NulsAppend(a[1..], b);
    }
  }

  lemma {:induction false} NoNuls(s: string)
    requires NUL !in s
    ensures Nuls(s) == 0
  {
    if s != "" {
      assert s[0] in s;
      NoNuls(s[1..]);
    }
  }

  lemma {:induction false} FieldNuls(kind: Kind, v: Value)
    requires FieldOk(kind, v)
    ensures Nuls(EncodeField(kind, v)) == if kind.Text? then 1 else 0
  {
    var s := if Present(v) then v.value else if kind.Text? then "" else "0";
    assert NUL !in s;
    NoNuls(s);
    if kind.Text? {
      assert EncodeField(kind, v) == s + [NUL];
      assert [NUL][1..] == "" && Nuls([NUL]) == 1;
      NulsAppend(s, [NUL]);
    }
  }

  lemma {:induction false} RecordNuls(kinds: seq<Kind>, vals: seq<Value>)
    requires RecordOk(kinds, vals)
    ensures Nuls(Encode(kinds, vals)) == Texts(kinds)
  {
    if kinds != [] {
      RecordNuls(kinds[1..], vals[1..]);
      assert FieldOk(kinds[0], vals[0]);
      FieldNuls(kinds[0], vals[0]);
      NulsAppend(EncodeField(kinds[0], vals[0]), Encode(kinds[1..], vals[1..]));
    }
  }

  lemma {:induction false} TextCounts()
    ensures Texts(EVENT_KINDS) == 7 && Texts(METRIC_KINDS) == 10
    ensures Texts(EVENT_KINDS[1..]) == 6 && Texts(METRIC_KINDS[1..]) == 9
  {
    assert EVENT_KINDS[1..] == [Text, Text, Text, Text, Enum, Enum, Text, Text];
    SixTexts();
    assert METRIC_KINDS[1..] == [Text, Text, Text, Text, Text, Text, Text, Text, Text, Enum, Enum];
    NineTexts();
  }

  lemma {:induction false} SixTexts()
    ensures Texts([Text, Text, Text, Text, Enum, Enum, Text, Text]) == 6
  {
    assert Texts([Text, Text]) == 2;
    assert Texts([Enum, Enum, Text, Text]) == 2;
    assert Texts([Text, Text, Enum, Enum, Text, Text]) == 4;
  }

  lemma {:induction false} NineTexts()
    ensures Texts([Text, Text, Text, Text, Text, Text, Text, Text, Text, Enum, Enum]) == 9
  {
    assert Texts([Text, Enum, Enum]) == 1;
    assert Texts([Text, Text, Text, Enum, Enum]) == 3;
    assert Texts([Text, Text, Text, Text, Text, Enum, Enum]) == 5;
    assert Texts([Text, Text, Text, Text, Text, Text, Text, Enum, Enum]) == 7;
  }

  /** The escaped NULs that can be seen in the text of a record are its own. */
  lemma {:induction false} VisibleNuls(kinds: seq<Kind>, vals: seq<Value>)
    requires RecordOk(kinds, vals) && Clear(vals)
    ensures Count(Escape(Encode(kinds, vals)), "\\000") == Texts(kinds)
  {
    RecordClear(kinds, vals);
    RecordNuls(kinds, vals);
    CountNuls(Encode(kinds, vals));
  }

  /** A text has no more of them than what it is the end of. */
  lemma {:induction false} CountOfEnd(t: string, k: nat)
    requires k <= |t|
    ensures Count(t[k..], "\\000") <= Count(t, "\\000")
    decreases k
  {
    if k > 0 {
      assert t[1..][k - 1..] == t[k..];
      CountOfEnd(t[1..], k - 1);
      if "\\000" <= t {
        assert "000" <= t[1..] && t[1..][3..] == t[4..];
        CountPastZeros(t[1..]);
      }
    } else {
      assert t[k..] == t;
    }
  }

  // ---------------------------------------------------------------- how records begin and end

  function NameOf(r: SoundRecord): string { if Present(r.vals[0]) then r.vals[0].value else "" }

  /** The text of a record: its name, a NUL, and the other attributes. */
  lemma {:induction false} NameFirst(r: SoundRecord)
    requires NamePlain(r)
    ensures CString(r) == NameOf(r) + "\\000" + Escape(Encode(r.kinds[1..], r.vals[1..]))
    ensures NameOf(r) <= Encoded(r) && Escape(NameOf(r)) == NameOf(r)
  {
    var (n, rest) := (NameOf(r), Encode(r.kinds[1..], r.vals[1..]));
    assert r.kinds[0] == Text;
    assert EncodeField(Text, r.vals[0]) == n + [NUL];
    assert Encoded(r) == (n + [NUL]) + rest;
    EscapeNul();
    EscapeAppend(n, [NUL]);
    EscapeAppend(n + [NUL], rest);
  }

  lemma {:induction false} NameLeads(r: SoundRecord)
    requires NamePlain(r)
    ensures NameOf(r) <= Encoded(r) && Escape(NameOf(r)) == NameOf(r)
  {
    NameFirst(r);
  }

  lemma {:induction false} PlainPrefix(d: string, n: string, k: nat)
    requires n <= d && Escape(n) == n && k <= |n|
    ensures Begins(d, k)
  {
    assert n == n[..k] + n[k..];
    EscapeAppend(n[..k], n[k..]);
    assert d == n[..k] + d[k..];
    BeginsBehind(n[..k], d[k..]);
  }

  predicate IsDigit(ch: char) { '0' <= ch <= '9' }

  lemma {:induction false} EndsWithText(kinds: seq<Kind>, vals: seq<Value>)
    requires RecordOk(kinds, vals) && kinds != [] && kinds[|kinds| - 1] == Text
    ensures var e := Encode(kinds, vals); e != "" && e[|e| - 1] == NUL
  {
    if |kinds| > 1 {
      EndsWithText(kinds[1..], vals[1..]);
    }
  }

  lemma {:induction false} ThreeFields(kinds: seq<Kind>, vals: seq<Value>)
    requires |kinds| == |vals| == 3
    ensures Encode(kinds, vals) ==
            EncodeField(kinds[0], vals[0]) + (EncodeField(kinds[1], vals[1]) + EncodeField(kinds[2], vals[2]))
  {
    var (k1, v1) := (kinds[1..], vals[1..]);
    var (k2, v2) := (k1[1..], v1[1..]);
    assert Encode(k2, v2) == EncodeField(kinds[2], vals[2]) + "";
    assert Encode(k1, v1) == EncodeField(kinds[1], vals[1]) + Encode(k2, v2);
  }

  /** A NUL and two digits are the last characters. */
  predicate DigitsLast(e: string) {
    |e| >= 3 && e[|e| - 3] == NUL && IsDigit(e[|e| - 2]) && IsDigit(e[|e| - 1])
  }

  lemma {:induction false} DigitsLastBehind(x: string, e: string)
    requires DigitsLast(e)
    ensures DigitsLast(x + e)
  {
  }

  lemma {:induction false} DigitsBehindText(v0: Value, v1: Value, v2: Value)
    requires FieldOk(Enum, v1) && FieldOk(Enum, v2)
    ensures DigitsLast(EncodeField(Text, v0) + (EncodeField(Enum, v1) + EncodeField(Enum, v2)))
  {
  }

  lemma {:induction false} EndsWithEnums(kinds: seq<Kind>, vals: seq<Value>)
    requires RecordOk(kinds, vals) && |kinds| >= 3 && kinds[|kinds| - 3..] == [Text, Enum, Enum]
    ensures DigitsLast(Encode(kinds, vals))
  {
    if |kinds| > 3 {
      assert kinds[1..][|kinds| - 4..] == kinds[|kinds| - 3..];
      EndsWithEnums(kinds[1..], vals[1..]);
      DigitsLastBehind(EncodeField(kinds[0], vals[0]), Encode(kinds[1..], vals[1..]));
    } else {
      assert kinds == [Text, Enum, Enum];
      ThreeFields(kinds, vals);
      DigitsBehindText(vals[0], vals[1], vals[2]);
    }
  }

  lemma {:induction false} EscapeLast(d: string)
    requires d != ""
    ensures Escape(d) == Escape(d[..|d| - 1]) + EscapeChar(d[|d| - 1])
  {
    var (init, last) := (d[..|d| - 1], [d[|d| - 1]]);
    assert d == init + last && last[1..] == "";
    EscapeAppend(init, last);
  }

  /** The text of an event ends with an escaped NUL. */
  lemma {:induction false} EventEnd(r: SoundRecord)
    requires !r.metric
    ensures var s := CString(r); |s| >= 4 && s[|s| - 4] == '\\'
  {
    EndsWithText(r.kinds, r.vals);
    EscapeLast(Encoded(r));
  }

  lemma {:induction false} NulAndDigitsLast(d: string)
    requires DigitsLast(d)
    ensures var s := Escape(d); |s| >= 4 && s[|s| - 4] == '0'
  {
    var (d1, d2) := (d[..|d| - 1], d[..|d| - 2]);
    EscapeLast(d);
    EscapeLast(d1);
    EscapeLast(d2);
    assert d1[..|d1| - 1] == d2 && d2[|d2| - 1] == NUL;
    var x := Escape(d2[..|d2| - 1]);
    assert Escape(d2) == x + "\\000";
    assert Escape(d) == x + "\\000" + [d[|d| - 2]] + [d[|d| - 1]];
  }

  /** The text of a metric ends with two digits behind an escaped NUL. */
  lemma {:induction false} MetricEnd(r: SoundRecord)
    requires r.metric
    ensures var s := CString(r); |s| >= 4 && s[|s| - 4] == '0'
  {
    assert r.kinds[|r.kinds| - 3..] == [Text, Enum, Enum];
    EndsWithEnums(r.kinds, r.vals);
    NulAndDigitsLast(Encoded(r));
  }

  // ---------------------------------------------------------------- the records of a table

  /** What begins behind the first character of an escaped NUL does not have that one. */
  lemma {:induction false} CountBehind(t: string, n: string, rest: string, k: nat)
    requires t == n + "\\000" + rest && |n| < k <= |t|
    ensures Count(t[k..], "\\000") <= Count(rest, "\\000")
  {
    var behind := t[|n| + 1..];
    assert behind == "000" + rest;
    assert behind[k - (|n| + 1)..] == t[k..];
    CountOfEnd(behind, k - (|n| + 1));
    CountPastZeros(behind);
    assert behind[3..] == rest;
  }

  /** A text that begins behind the name of a record whose text it ends has fewer escaped NULs. */
  lemma {:induction false} FewerNuls(r: SoundRecord, k: nat)
    requires NamePlain(r) && Clear(r.vals) && |NameOf(r)| < k <= |CString(r)|
    ensures Count(CString(r)[k..], "\\000") <= Texts(r.kinds[1..])
  {
    NameFirst(r);
    CountBehind(CString(r), NameOf(r), Escape(Encode(r.kinds[1..], r.vals[1..])), k);
    VisibleNuls(r.kinds[1..], r.vals[1..]);
  }

  lemma {:induction false} EndsDiffer(s: string, t: string)
    requires |s| >= 4 && |t| >= 4 && s[|s| - 4] != t[|t| - 4]
    ensures !IsSuffix(s, t)
  {
    assert |s| <= |t| ==> t[|t| - |s|..][|s| - 4] == t[|t| - 4];
  }

  /** An event's text ends no metric's. */
  lemma {:induction false} EventEndsNoMetric(r: SoundRecord, r': SoundRecord)
    requires !r.metric && r'.metric
    ensures !IsSuffix(CString(r), CString(r'))
  {
    EventEnd(r);
    MetricEnd(r');
    EndsDiffer(CString(r), CString(r'));
  }

  lemma {:induction false} NulsOf(r: SoundRecord)
    requires Clear(r.vals)
    ensures Count(CString(r), "\\000") == if r.metric then 10 else 7
    ensures Texts(r.kinds[1..]) == if r.metric then 9 else 6
  {
    VisibleNuls(r.kinds, r.vals);
    TextCounts();
  }

  /** A record whose text ends another one's begins in the name of that one. */
  lemma {:induction false} BeginsInName(r: SoundRecord, r': SoundRecord)
    requires NamePlain(r') && Clear(r.vals) && Clear(r'.vals) && IsSuffix(CString(r), CString(r'))
    ensures |CString(r')| - |CString(r)| <= |NameOf(r')|
  {
    var k := |CString(r')| - |CString(r)|;
    NulsOf(r);
    NulsOf(r');
    if k > |NameOf(r')| {
      FewerNuls(r', k);
      if r'.metric && !r.metric {
        EventEndsNoMetric(r, r');
      }
    }
  }

  lemma {:induction false} BeginsAt(r: SoundRecord, k: nat)
    requires NamePlain(r) && k <= |NameOf(r)|
    ensures Begins(Encoded(r), k)
  {
    NameLeads(r);
    PlainPrefix(Encoded(r), NameOf(r), k);
  }

  /** A text that begins in the plain name of a record does not begin inside an escape. */
  lemma {:induction false} NameAligned(s: string, r: SoundRecord)
    requires NamePlain(r)
    ensures 0 <= |CString(r)| - |s| <= |NameOf(r)| ==> Aligned(s, CString(r))
  {
    if 0 <= |CString(r)| - |s| <= |NameOf(r)| {
      BeginsAt(r, |CString(r)| - |s|);
      UnescapeEscape(Encoded(r));
    }
  }

  lemma {:induction false} RecordAligned(r: SoundRecord, r': SoundRecord)
    requires NamePlain(r') && Clear(r.vals) && Clear(r'.vals) && IsSuffix(CString(r), CString(r'))
    ensures Aligned(CString(r), CString(r'))
  {
    BeginsInName(r, r');
    NameAligned(CString(r), r');
  }

  lemma {:induction false} TextMeasured(r: SoundRecord)
    requires Clear(r.vals)
    ensures Measured(CString(r))
  {
    UnescapeEscape(Encoded(r));
    RecordClear(r.kinds, r.vals);
  }

  /** Records whose names need no escapes, and of which c_len measures every value right, are all held by a table. */
  lemma {:induction false} PlainNamesReadable(records: seq<SoundRecord>)
    requires forall k :: 0 <= k < |records| ==> NamePlain(records[k]) && Clear(records[k].vals)
    ensures Readable(records)
  {
    var texts := TextsOf(records);
    var strings := CStrings(records);
    forall s | s in strings ensures Measured(s) {
      var i :| 0 <= i < |texts| && s == texts[i];
      TextMeasured(records[i]);
    }
    forall s, t | s in strings && t in strings && IsSuffix(s, t) ensures Aligned(s, t) {
      var i :| 0 <= i < |texts| && s == texts[i];
      var j :| 0 <= j < |texts| && t == texts[j];
      RecordAligned(records[i], records[j]);
    }
    NoneInside(strings);
  }
}
