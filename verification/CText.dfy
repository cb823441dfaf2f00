/** Strings as they stand between the quotes of generated C code (source/pmu-events/jevents.py): NUL, backslash, quote,
    newline and carriage return are written as escapes.  Characters are bytes. */
module CText {
  import opened Common

  const NUL: char := '\0'

  /** How one character is written. */
  function EscapeChar(ch: char): (t: string)
    ensures t != ""
  {
    if ch == NUL then "\\000"
    else if ch == '\n' then "\\n"
    else if ch == '\r' then "\\r"
    else if ch == '\\' || ch == '\"' then ['\\', ch]
    else [ch]
  }

  function Escape(d: string): (t: string)
    ensures |t| >= |d|
  {
    if d == "" then "" else EscapeChar(d[0]) + Escape(d[1..])
  }

  predicate ZerosAt(t: string) { |t| >= 4 && t[1] == '0' && t[2] == '0' && t[3] == '0' }

  /** How many characters of source text the compiler takes for the first one. */
  function CharLen(t: string): (n: nat)
    requires t != ""
    ensures 0 < n <= |t|
  {
    if t[0] != '\\' || |t| == 1 then 1 else if ZerosAt(t) then 4 else 2
  }

  function FirstChar(t: string): char
    requires t != ""
  {
    if t[0] != '\\' || |t| == 1 then t[0]
    else if ZerosAt(t) then NUL
    else if t[1] == 'n' then '\n'
    else if t[1] == 'r' then '\r'
    else t[1]
  }

  /** The characters that the compiler makes of a text. */
  function Unescape(t: string): string {
    if t == "" then "" else [FirstChar(t)] + Unescape(t[CharLen(t)..])
  }

  /** The compiler takes an escaped character back off a text. */
  lemma {:induction false} FirstOfEscape(ch: char, rest: string)
    ensures var t := EscapeChar(ch) + rest;
            CharLen(t) == |EscapeChar(ch)| && FirstChar(t) == ch && t[CharLen(t)..] == rest
  {
    var (x, t) := (EscapeChar(ch), EscapeChar(ch) + rest);
    assert t[0] == x[0] && (|x| > 1 ==> t[1] == x[1]);
    if ch == NUL {
      assert t[..4] == x;
    }
  }

  lemma {:induction false} UnescapeEscape(d: string)
    ensures Unescape(Escape(d)) == d
  {
    if d != "" {
      FirstOfEscape(d[0], Escape(d[1..]));
      UnescapeEscape(d[1..]);
    }
  }

  /** A text has no NUL and no line break in it. */
  lemma {:induction false} EscapeClear(d: string, ch: char)
    requires ch in Escape(d)
    ensures ch != NUL && ch != '\n' && ch != '\r'
  {
    if ch !in EscapeChar(d[0]) {
      EscapeClear(d[1..], ch);
    }
  }

  lemma {:induction false} EscapeAppend(a: string, b: string)
    ensures Escape(a + b) == Escape(a) + Escape(b)
  {
    if a == "" {
      assert a + b == b;
    } else {
      assert (a + b)[0] == a[0] && (a + b)[1..] == a[1..] + b;
      EscapeAppend(a[1..], b);
    }
  }

  lemma {:induction false} EscapeInjective(a: string, b: string)
    requires Escape(a) == Escape(b)
    ensures a == b
  {
    UnescapeEscape(a);
    UnescapeEscape(b);
  }

  // ---------------------------------------------------------------- ends of texts and ends of strings

  predicate IsSuffix(s: string, t: string) { |s| <= |t| && t[|t| - |s|..] == s }

  /** Position k of the text of d is where a character begins, or its end. */
  predicate Begins(d: string, k: int) { k == 0 || (d != "" && Begins(d[1..], k - |EscapeChar(d[0])|)) }

  lemma {:induction false} BeginsBehind(p: string, d: string)
    ensures Begins(p + d, |Escape(p)|)
  {
    if p != "" {
      var all := p + d;
      assert all[0] == p[0] && all[1..] == p[1..] + d;
      BeginsBehind(p[1..], d);
      assert |Escape(p)| - |EscapeChar(all[0])| == |Escape(p[1..])|;
      assert Begins(all[1..], |Escape(p)| - |EscapeChar(all[0])|);
    }
  }

  lemma {:induction false} BeginsSplit(d: string, k: int) returns (i: nat)
    requires Begins(d, k)
    ensures i <= |d| && |Escape(d[..i])| == k
  {
    if k == 0 {
      i := 0;
    } else {
      var j := BeginsSplit(d[1..], k - |EscapeChar(d[0])|);
      i := j + 1;
      assert d[..i][0] == d[0] && d[..i][1..] == d[1..][..j];
    }
  }

  /** A string ends with another exactly if its text ends with the other's text and that does not begin inside
      an escape. */
  lemma {:induction false} EndsByText(a: string, b: string)
    ensures IsSuffix(a, b) <==> IsSuffix(Escape(a), Escape(b)) && Begins(b, |Escape(b)| - |Escape(a)|)
  {
    if IsSuffix(a, b) {
      var p := b[..|b| - |a|];
      assert b == p + a;
      EscapeAppend(p, a);
      BeginsBehind(p, a);
    } else if IsSuffix(Escape(a), Escape(b)) && Begins(b, |Escape(b)| - |Escape(a)|) {
      var i := BeginsSplit(b, |Escape(b)| - |Escape(a)|);
      assert b == b[..i] + b[i..];
      EscapeAppend(b[..i], b[i..]);
      assert Escape(b[i..]) == Escape(a);
      EscapeInjective(b[i..], a);
      assert false;
    }
  }

  // ---------------------------------------------------------------- the length of a C string

  /** str.count: occurrences that do not overlap, from the left. */
  function Count(t: string, sub: string): nat
    requires sub != ""
  {
    if |t| < |sub| then 0 else if sub <= t then 1 + Count(t[|sub|..], sub) else Count(t[1..], sub)
  }

  /** c_len */
  function CLen(t: string): int { |t| - Count(t, "\\") + Count(t, "\\\\") - 2 * Count(t, "\\000") }

  /** Three zeros follow a backslash of the string itself: its text looks like an escaped NUL. */
  predicate LooksLikeNul(d: string) { d != "" && d[0] == '\\' && "000" <= d[1..] }

  function Misleading(d: string): nat {
    if d == "" then 0 else (if LooksLikeNul(d) then 1 else 0) + Misleading(d[1..])
  }

  function Backslashes(d: string): nat {
    if d == "" then 0 else (if d[0] == '\\' then 1 else 0) + Backslashes(d[1..])
  }

  function Escapes(d: string): nat {
    if d == "" then 0 else (if |EscapeChar(d[0])| > 1 then 1 else 0) + Escapes(d[1..])
  }

  function Nuls(d: string): nat {
    if d == "" then 0 else (if d[0] == NUL then 1 else 0) + Nuls(d[1..])
  }

  lemma {:induction false} TextLength(d: string)
    ensures |Escape(d)| == |d| + Escapes(d) + 2 * Nuls(d)
  {
    if d != "" {
      TextLength(d[1..]);
    }
  }

  lemma {:induction false} CountFirst(ch: char, rest: string)
    ensures Count(EscapeChar(ch) + rest, "\\") ==
            (if |EscapeChar(ch)| > 1 then 1 else 0) + (if ch == '\\' then 1 else 0) + Count(rest, "\\")
    ensures Count(EscapeChar(ch) + rest, "\\\\") == (if ch == '\\' then 1 else 0) + Count(rest, "\\\\")
  {
    var (x, t) := (EscapeChar(ch), EscapeChar(ch) + rest);
    assert t[0] == x[0] && (|x| > 1 ==> t[1] == x[1]);
    if ch == NUL {
      assert t[1] == t[2] == t[3] == '0';
      assert t[1..][1..][1..][1..] == rest;
    } else if |x| == 2 {
      assert t[1..][1..] == t[2..] == rest;
    } else {
      assert t[1..] == rest;
    }
  }

  lemma {:induction false} CountBackslashes(d: string)
    ensures Count(Escape(d), "\\") == Escapes(d) + Backslashes(d)
    ensures Count(Escape(d), "\\\\") == Backslashes(d)
  {
    if d == "" {
      assert Escape(d) == "";
    } else {
      assert Escape(d) == EscapeChar(d[0]) + Escape(d[1..]);
      CountBackslashes(d[1..]);
      CountFirst(d[0], Escape(d[1..]));
    }
  }

  lemma {:induction false} ZeroFirst(d: string)
    ensures "0" <= Escape(d) <==> "0" <= d
    ensures "0" <= d ==> Escape(d)[1..] == Escape(d[1..])
  {
    if d != "" {
      assert Escape(d)[0] == EscapeChar(d[0])[0];
    }
  }

  /** A text begins with zeros exactly if the string does. */
  lemma {:induction false} ZerosFirst(d: string)
    ensures "000" <= Escape(d) <==> "000" <= d
  {
    ZeroFirst(d);
    if "0" <= d {
      ZeroFirst(d[1..]);
      if "0" <= d[1..] {
        ZeroFirst(d[2..]);
        assert Escape(d)[1..][1..] == Escape(d)[2..];
      }
    }
  }

  lemma {:induction false} CountPast(t: string)
    requires t != "" && t[0] != '\\'
    ensures Count(t, "\\000") == Count(t[1..], "\\000")
  {
  }

  /** Zeros are no part of an occurrence that begins behind them. */
  lemma {:induction false} CountPastZeros(t: string)
    requires "000" <= t
    ensures Count(t, "\\000") == Count(t[3..], "\\000")
  {
    CountPast(t);
    CountPast(t[1..]);
    assert t[1..][1..] == t[2..] && t[2..][1..] == t[3..];
    CountPast(t[2..]);
  }

  lemma {:induction false} PrefixBehind(ch: char, a: string, b: string)
    ensures [ch] + a <= [ch] + b <==> a <= b
  {
    if [ch] + a <= [ch] + b {
      assert a == ([ch] + a)[1..] <= ([ch] + b)[1..] == b;
    }
  }

  lemma {:induction false} CountBackslash(d: string)
    requires d != "" && d[0] == '\\'
    ensures Count(Escape(d), "\\000") == (if LooksLikeNul(d) then 1 else 0) + Count(Escape(d[1..]), "\\000")
  {
    var rest := Escape(d[1..]);
    var t := Escape(d);
    ZerosFirst(d[1..]);
    PrefixBehind('\\', "000", rest);
    assert t == "\\\\" + rest && t[1] == '\\';
    assert t[1..] == "\\" + rest && t[1..][1..] == rest;
    assert "\\000" == "\\" + "000";
    if "000" <= rest {
      assert t[1..][4..] == rest[3..];
      CountPastZeros(rest);
    }
  }

  lemma {:induction false} CountOther(ch: char, rest: string)
    requires ch != '\\'
    ensures Count(EscapeChar(ch) + rest, "\\000") == (if ch == NUL then 1 else 0) + Count(rest, "\\000")
  {
    var (x, t) := (EscapeChar(ch), EscapeChar(ch) + rest);
    assert t[0] == x[0] && (|x| > 1 ==> t[1] == x[1]);
    if ch == NUL {
      assert t[..4] == "\\000" && t[4..] == rest;
    } else if |x| == 2 {
      assert t[1..][1..] == rest;
    } else {
      assert t[1..] == rest;
    }
  }

  lemma {:induction false} CountNuls(d: string)
    ensures Count(Escape(d), "\\000") == Nuls(d) + Misleading(d)
  {
    if d != "" {
      CountNuls(d[1..]);
      if d[0] == '\\' {
        CountBackslash(d);
      } else {
        CountOther(d[0], Escape(d[1..]));
      }
    }
  }

  /** What c_len gives: the length of the string, less two for every backslash that three zeros follow. */
  lemma {:induction false} CLenExact(d: string)
    ensures CLen(Escape(d)) == |d| - 2 * Misleading(d)
  {
    TextLength(d);
    CountBackslashes(d);
    CountNuls(d);
  }
}
