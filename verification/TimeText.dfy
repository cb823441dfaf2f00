/** Times as text (NanoSecsToSecsStr and TimeVal, source/scripts/python/parallel-perf.py): nanoseconds
    printed as seconds with nine decimals, and read back. */
module TimeText {
  import opened Common
  import opened Decimal

  const NANO: int := 1_000_000_000

  // ---------------------------------------------------------------- printing

  function PadTen(s: string): (t: string)
    ensures |t| >= 10
  {
    if |s| < 10 then ZeroDigits(10 - |s|) + s else s
  }

  /** An open end prints as the empty string. */
  function NanoSecsToSecsStr(x: Option<nat>): string {
    if x.None? then ""
    else
      Dotted(PadTen(Str(x.value)))
  }

  /** Puts a point before the last nine digits. */
  function Dotted(t: string): string
    requires |t| >= 9
  {
    t[..|t| - 9] + "." + t[|t| - 9..]
  }

  // ---------------------------------------------------------------- reading

  /** The blanks among ASCII characters, as str.strip() and int() take them. */
  predicate IsSpace(c: char) { c == ' ' || 9 <= c as int <= 13 || 28 <= c as int <= 31 }

  function StripLeft(s: string): string {
    if s != "" && IsSpace(s[0]) then StripLeft(s[1..]) else s
  }

  function StripRight(s: string): string {
    if s != "" && IsSpace(s[|s| - 1]) then StripRight(s[..|s| - 1]) else s
  }

  function Strip(s: string): string { StripRight(StripLeft(s)) }

  /** s.split(".") */
  function SplitDots(s: string): (parts: seq<string>)
    ensures |parts| > 0
  {
    if s == "" then [""]
    else
      var rest := SplitDots(s[1..]);
      if s[0] == '.' then [""] + rest else [[s[0]] + rest[0]] + rest[1..]
  }

  /** int(s): an optional sign and digits, with blanks around them; None where the original raises. */
  function ParseInt(s: string): Option<int> {
    var t := Strip(s);
    var signed := t != "" && (t[0] == '-' || t[0] == '+');
    var digits := if signed then t[1..] else t;
    if digits == "" || !AllDigits(digits) then None
    else Some(if signed && t[0] == '-' then 0 - Number(digits) else Number(digits))
  }

  /** Nine decimals: zeros are added, and what is beyond is cut off. */
  function Nine(b: string): (t: string)
    ensures |t| == 9 && (AllDigits(b) ==> AllDigits(t))
  {
    (b + "000000000")[..9]
  }

  /** None where the original raises. */
  function TimeVal(s: string, dflt: int): Option<int> {
    var t := Strip(s);
    if t == "" then Some(dflt)
    else
      var a := SplitDots(t);
      if |a| > 2 then None
      else
        var x := ParseInt(a[0]);
        if x.None? || x.value < 0 then None
        else if |a| == 1 then Some(x.value * NANO)
        else
          var fraction := ParseInt(Nine(a[1]));
          if fraction.None? then None else Some(x.value * NANO + fraction.value)
  }

  // ---------------------------------------------------------------- round trip

  lemma {:induction false} StripNothing(s: string)
    requires s != "" && !IsSpace(s[0]) && !IsSpace(s[|s| - 1])
    ensures Strip(s) == s
  {
  }

  lemma {:induction false} DigitsParse(s: string)
    requires s != "" && AllDigits(s)
    ensures ParseInt(s) == Some(Number(s))
  {
    StripNothing(s);
  }

  lemma {:induction false} SplitDigits(s: string)
    requires AllDigits(s)
    ensures SplitDots(s) == [s]
  {
    if s != "" {
      SplitDigits(s[1..]);
      assert [s[0]] + s[1..] == s;
    }
  }

  lemma {:induction false} SplitAtDot(a: string, b: string)
    requires AllDigits(a) && AllDigits(b)
    ensures SplitDots(a + "." + b) == [a, b]
  {
    var s := a + "." + b;
    if a == "" {
      assert s[1..] == b;
      SplitDigits(b);
    } else {
      assert s[1..] == a[1..] + "." + b;
      SplitAtDot(a[1..], b);
      assert [a[0]] + a[1..] == a;
    }
  }

  lemma {:induction false} ShiftNine(n: nat)
    ensures Shift(n, 9) == n * NANO
  {
    assert Shift(n, 1) == 10 * n;
    assert Shift(n, 2) == 100 * n;
    assert Shift(n, 3) == 1_000 * n;
    assert Shift(n, 4) == 10_000 * n;
    assert Shift(n, 5) == 100_000 * n;
    assert Shift(n, 6) == 1_000_000 * n;
    assert Shift(n, 7) == 10_000_000 * n;
    assert Shift(n, 8) == 100_000_000 * n;
  }

  /** Splitting off the last nine digits. */
  lemma {:induction false} Halves(t: string)
    requires AllDigits(t) && |t| >= 10
    ensures Number(t) == Number(t[..|t| - 9]) * NANO + Number(t[|t| - 9..])
  {
    var (a, b) := (t[..|t| - 9], t[|t| - 9..]);
    assert a + b == t;
    NumberAppend(a, b);
    ShiftNine(Number(a));
  }

  lemma {:induction false} TimeOfParts(s: string, a: string, b: string, x: nat, y: int, dflt: int)
    requires s != "" && Strip(s) == s && SplitDots(s) == [a, b]
    requires ParseInt(a) == Some(x) && ParseInt(Nine(b)) == Some(y)
    ensures TimeVal(s, dflt) == Some(x * NANO + y)
  {
  }

  lemma {:induction false} DigitsRead(a: string, b: string, dflt: int)
    requires AllDigits(a) && AllDigits(b) && a != "" && b != ""
    ensures TimeVal(a + "." + b, dflt) == Some(Number(a) * NANO + Number(Nine(b)))
  {
    var text := a + "." + b;
    var nine := Nine(b);
    assert text[0] == a[0] && text[|text| - 1] == b[|b| - 1];
    StripNothing(text);
    SplitAtDot(a, b);
    DigitsParse(a);
    DigitsParse(nine);
    TimeOfParts(text, a, b, Number(a), Number(nine), dflt);
  }

  /** Seconds with nine decimals are read as nanoseconds. */
  lemma {:induction false} SecondsRead(a: string, b: string, dflt: int)
    requires AllDigits(a) && AllDigits(b) && a != "" && |b| == 9
    ensures TimeVal(a + "." + b, dflt) == Some(Number(a) * NANO + Number(b))
  {
    DigitsRead(a, b, dflt);
    assert Nine(b) == b;
  }

  lemma {:induction false} DottedRead(t: string, x: nat, dflt: int)
    requires AllDigits(t) && |t| >= 10 && Number(t) == x
    ensures TimeVal(Dotted(t), dflt) == Some(x)
  {
    Halves(t);
    SecondsRead(t[..|t| - 9], t[|t| - 9..], dflt);
  }

  /** The printed time of x read back is x, whatever the default. */
  lemma {:induction false} TimeRoundTrip(x: nat, dflt: int)
    ensures TimeVal(NanoSecsToSecsStr(Some(x)), dflt) == Some(x)
  {
    Padded(x);
    DottedRead(PadTen(Str(x)), x, dflt);
  }

  lemma {:induction false} Padded(x: nat)
    ensures AllDigits(PadTen(Str(x))) && Number(PadTen(Str(x))) == x
  {
    var s := Str(x);
    NumberOfStr(x);
    if |s| < 10 {
      NumberAppend(ZeroDigits(10 - |s|), s);
      NumberOfZeros(10 - |s|);
      ShiftZero(|s|);
    }
  }

  /** What a time looks like: whole seconds without superfluous zeros, a point, and the nanoseconds in nine digits. */
  lemma {:induction false} TimeShape(x: nat) returns (a: string, b: string)
    ensures NanoSecsToSecsStr(Some(x)) == a + "." + b
    ensures AllDigits(a) && a != "" && (|a| > 1 ==> a[0] != '0') && Number(a) == x / NANO
    ensures AllDigits(b) && |b| == 9 && Number(b) == x % NANO
  {
    var (s, t) := (Str(x), PadTen(Str(x)));
    a, b := t[..|t| - 9], t[|t| - 9..];
    Padded(x);
    Halves(t);
    NumberBound(b);
    ShiftNine(1);
    if |s| > 1 {
      StrLeads(x);
    }
  }

  /** An open end reads back as the default. */
  lemma {:induction false} OpenEndIsDefault(dflt: int)
    ensures TimeVal(NanoSecsToSecsStr(None), dflt) == Some(dflt)
  {
  }

  /** When a time that is read can be negative: only the whole part's sign is tested, so exactly through a negative fraction. */
  lemma {:induction false} NegativeTime(s: string, dflt: int)
    requires Strip(s) != "" && TimeVal(s, dflt).Some?
    ensures var a := SplitDots(Strip(s));
            TimeVal(s, dflt).value < 0 <==>
              |a| == 2 && ParseInt(a[0]) == Some(0)
              && ParseInt(Nine(a[1])).Some? && ParseInt(Nine(a[1])).value < 0
  {
    var a := SplitDots(Strip(s));
    if |a| == 2 {
      FractionBound(Nine(a[1]));
    }
  }

  /** Such a time is "0.-5". */
  lemma {:induction false} NegativeTimeRead(dflt: int)
    ensures TimeVal("0.-5", dflt).Some? && TimeVal("0.-5", dflt).value < 0
  {
    var s := "0.-5";
    StripNothing(s);
    assert s[1..] == ".-5" && s[2..] == "-5" && s[3..] == "5";
    SplitDigits("5");
    assert SplitDots("-5") == ["-5"] by { assert "-5"[1..] == "5"; assert ['-'] + "5" == "-5"; }
    assert SplitDots(".-5") == ["", "-5"] by { assert ".-5"[1..] == "-5"; assert [""] + ["-5"] == ["", "-5"]; }
    assert SplitDots(s) == ["0", "-5"] by { assert ['0'] + "" == "0"; assert ["", "-5"][1..] == ["-5"]; }
    DigitsParse("0");
    NumberOfStr(0);
    var f := Nine("-5");
    assert f == "-50000000";
    StripNothing(f);
    assert f[1..] == "50000000" && AllDigits(f[1..]);
    NumberPositive("50000000");
  }

  lemma {:induction false} NumberPositive(s: string)
    requires AllDigits(s) && s != "" && s[0] != '0'
    ensures Number(s) > 0
  {
    if |s| > 1 {
      NumberPositive(s[..|s| - 1]);
    }
  }

  lemma {:induction false} StripLength(s: string)
    ensures |Strip(s)| <= |s|
  {
    StripLeftLength(s);
    StripRightLength(StripLeft(s));
  }

  lemma {:induction false} StripLeftLength(s: string)
    ensures |StripLeft(s)| <= |s|
  {
    if s != "" {
      StripLeftLength(s[1..]);
    }
  }

  lemma {:induction false} StripRightLength(s: string)
    ensures |StripRight(s)| <= |s|
  {
    if s != "" {
      StripRightLength(s[..|s| - 1]);
    }
  }

  lemma {:induction false} FractionBound(s: string)
    requires |s| <= 9
    ensures ParseInt(s).Some? ==> -NANO < ParseInt(s).value < NANO
  {
    var t := Strip(s);
    StripLength(s);
    ShiftNine(1);
    if ParseInt(s).Some? {
      var digits := if t[0] == '-' || t[0] == '+' then t[1..] else t;
      NumberBound(digits);
      ShiftMonotone(1, |digits|, 9);
    }
  }

  // ---------------------------------------------------------------- what reading means

  predicate Blank(s: string) { forall i :: 0 <= i < |s| ==> IsSpace(s[i]) }

  predicate Trim(s: string) { s == "" || (!IsSpace(s[0]) && !IsSpace(s[|s| - 1])) }

  lemma {:induction false} StripLeftOf(x: string, s: string)
    requires Blank(x) && (s == "" || !IsSpace(s[0]))
    ensures StripLeft(x + s) == s
  {
    if x == "" {
      assert x + s == s;
    } else {
      assert (x + s)[1..] == x[1..] + s;
      StripLeftOf(x[1..], s);
    }
  }

  lemma {:induction false} StripRightOf(s: string, y: string)
    requires Blank(y) && (s == "" || !IsSpace(s[|s| - 1]))
    ensures StripRight(s + y) == s
  {
    if y == "" {
      assert s + y == s;
    } else {
      assert (s + y)[..|s + y| - 1] == s + y[..|y| - 1];
      StripRightOf(s, y[..|y| - 1]);
    }
  }

  /** Blanks around a text, and only those, are stripped off. */
  lemma {:induction false} StripBlanks(x: string, s: string, y: string)
    requires Blank(x) && Trim(s) && Blank(y)
    ensures Strip(x + s + y) == s
  {
    assert x + s + y == x + (s + y);
    if s == "" {
      assert x + (s + y) == (x + y) + "" && Blank(x + y);
      StripLeftOf(x + y, "");
    } else {
      StripLeftOf(x, s + y);
      StripRightOf(s, y);
    }
  }

  /** Every blank of ASCII counts: space, tab, the line breaks, and the separators of files, groups, records and units. */
  lemma {:induction false} Blanks(c: char)
    ensures IsSpace(c) <==> c in " \t\n\U{000b}\U{000c}\r\U{001c}\U{001d}\U{001e}\U{001f}"
  {
    var blanks := " \t\n\U{000b}\U{000c}\r\U{001c}\U{001d}\U{001e}\U{001f}";
    assert blanks[0] as int == 32 && blanks[5] as int == 13 && blanks[9] as int == 31;
    assert forall i :: 1 <= i <= 5 ==> blanks[i] as int == 8 + i;
    assert forall i :: 6 <= i <= 9 ==> blanks[i] as int == 22 + i;
    if IsSpace(c) {
      var n := c as int;
      assert c == blanks[if n == 32 then 0 else if n <= 13 then n - 8 else n - 22];
    }
  }

  /** Blanks around a time do not matter, and blanks alone are the default. */
  lemma {:induction false} BlanksIgnored(x: string, s: string, y: string, dflt: int)
    requires Blank(x) && Trim(s) && Blank(y)
    ensures TimeVal(x + s + y, dflt) == TimeVal(s, dflt) && TimeVal(x, dflt) == Some(dflt)
  {
    StripBlanks(x, s, y);
    assert "" + s + "" == s;
    StripBlanks("", s, "");
    assert x + "" + "" == x;
    StripBlanks(x, "", "");
  }

  /** A sign, or none, and digits are read as the integer that they denote. */
  lemma {:induction false} SignedParse(s: string)
    requires s != "" && AllDigits(s)
    ensures ParseInt(s) == Some(Number(s)) && ParseInt("+" + s) == Some(Number(s)) && ParseInt("-" + s) == Some(0 - Number(s))
  {
    DigitsParse(s);
    StripNothing("+" + s);
    StripNothing("-" + s);
    assert ("+" + s)[1..] == s && ("-" + s)[1..] == s;
  }

  /** Whole seconds. */
  lemma {:induction false} WholeSeconds(a: string, dflt: int)
    requires AllDigits(a) && a != ""
    ensures TimeVal(a, dflt) == Some(Number(a) * NANO)
  {
    StripNothing(a);
    SplitDigits(a);
    DigitsParse(a);
  }

  /** Decimals that stop short of nanoseconds go on as zeros, and those beyond are cut off. */
  lemma {:induction false} FractionRead(a: string, b: string, dflt: int)
    requires AllDigits(a) && AllDigits(b) && a != "" && b != ""
    ensures TimeVal(a + "." + b, dflt) ==
            Some(Number(a) * NANO + if |b| <= 9 then Shift(Number(b), 9 - |b|) else Number(b[..9]))
  {
    DigitsRead(a, b, dflt);
    NineDigits(b);
  }

  lemma {:induction false} NineDigits(b: string)
    requires AllDigits(b)
    ensures Number(Nine(b)) == if |b| <= 9 then Shift(Number(b), 9 - |b|) else Number(b[..9])
  {
    var nine := Nine(b);
    if |b| <= 9 {
      assert nine == b + ZeroDigits(9 - |b|);
      NumberAppend(b, ZeroDigits(9 - |b|));
      NumberOfZeros(9 - |b|);
    } else {
      assert nine == b[..9];
    }
  }

  /** With two points or more, or a negative number of whole seconds, there is no time. */
  lemma {:induction false} NoTime(s: string, dflt: int)
    requires Strip(s) != ""
    requires |SplitDots(Strip(s))| > 2 || ParseInt(SplitDots(Strip(s))[0]).None? || ParseInt(SplitDots(Strip(s))[0]).value < 0
    ensures TimeVal(s, dflt).None?
  {
  }

  function Join(parts: seq<string>): string
    requires parts != []
  {
    if |parts| == 1 then parts[0] else parts[0] + "." + Join(parts[1..])
  }

  lemma {:induction false} JoinFirst(ch: char, parts: seq<string>)
    requires parts != []
    ensures Join([[ch] + parts[0]] + parts[1..]) == [ch] + Join(parts)
  {
    var longer := [[ch] + parts[0]] + parts[1..];
    assert longer[1..] == parts[1..];
    if |parts| > 1 {
      assert Join(longer) == [ch] + parts[0] + "." + Join(parts[1..]);
      assert [ch] + parts[0] + "." + Join(parts[1..]) == [ch] + (parts[0] + "." + Join(parts[1..]));
    }
  }

  /** The parts have no point in them and, joined with points, are the text. */
  lemma {:induction false} SplitJoins(s: string)
    ensures Join(SplitDots(s)) == s && forall k :: 0 <= k < |SplitDots(s)| ==> '.' !in SplitDots(s)[k]
  {
    if s != "" {
      var rest := SplitDots(s[1..]);
      SplitJoins(s[1..]);
      assert s == [s[0]] + s[1..];
      if s[0] == '.' {
        assert ([""] + rest)[1..] == rest && Join([""] + rest) == "" + "." + Join(rest);
      } else {
        JoinFirst(s[0], rest);
      }
    }
  }
}
