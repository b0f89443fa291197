/** Wall-clock strings as the tracker reads them: `datetime.strptime(s, '%H:%M')`
    turned into minutes after midnight, and Python's `str.strip()` applied to
    the shift-time inputs before they are parsed. */
module Clock {
  import opened Wrappers

  const MinutesPerDay: int := 1440

  predicate IsDigit(c: char) {
    '0' <= c <= '9'
  }

  function Digit(c: char): int
    requires IsDigit(c)
  {
    c as int - '0' as int
  }

  /** The minute field of '%H:%M', Python's pattern `[0-5]\d|\d`; after it
      nothing may remain, or strptime raises "unconverted data remains". */
  function ParseMinuteField(t: string): (r: Option<int>)
    ensures r.Some? ==> 0 <= r.value < 60
    ensures r.Some? ==> 1 <= |t| <= 2
  {
    if |t| == 2 && '0' <= t[0] <= '5' && IsDigit(t[1]) then Some(10 * Digit(t[0]) + Digit(t[1]))
    else if |t| == 1 && IsDigit(t[0]) then Some(Digit(t[0]))
    else None
  }

  /** `strptime(s, '%H:%M')` as minutes after midnight, or None where strptime
      raises ValueError. The hour field is Python's `2[0-3]|[0-1]\d|\d`: the
      one-digit form is taken exactly when the colon is the second character. */
  function ParseHHMM(s: string): (r: Option<int>)
    ensures r.Some? ==> 0 <= r.value < MinutesPerDay
    ensures r.Some? ==> 3 <= |s| <= 5
  {
    if |s| >= 2 && IsDigit(s[0]) && s[1] == ':' then
      match ParseMinuteField(s[2..])
      case None => None
      case Some(m) => Some(60 * Digit(s[0]) + m)
    else if |s| >= 3 && IsDigit(s[0]) && IsDigit(s[1]) && s[2] == ':'
            && (s[0] <= '1' || (s[0] == '2' && s[1] <= '3')) then
      match ParseMinuteField(s[3..])
      case None => None
      case Some(m) => Some(60 * (10 * Digit(s[0]) + Digit(s[1])) + m)
    else None
  }

  function DigitChar(d: int): (c: char)
    requires 0 <= d < 10
    ensures IsDigit(c) && Digit(c) == d
  {
    ('0' as int + d) as char
  }

  /** A field spelling of `n` that '%H' and '%M' accept: two digits, or one
      digit when `n` is below 10. */
  predicate SpellsField(t: string, n: int)
    requires 0 <= n < 100
  {
    t == [DigitChar(n / 10), DigitChar(n % 10)] || (n < 10 && t == [DigitChar(n)])
  }

  /** `s` spells the minute of the day `v` as hour field, colon, minute field. */
  predicate SpellsTime(s: string, v: int)
    requires 0 <= v < MinutesPerDay
  {
    || (|s| >= 2 && s[1] == ':' && SpellsField(s[..1], v / 60) && SpellsField(s[2..], v % 60))
    || (|s| >= 3 && s[2] == ':' && SpellsField(s[..2], v / 60) && SpellsField(s[3..], v % 60))
  }

  lemma DigitRoundTrip(c: char)
    requires IsDigit(c)
    ensures DigitChar(Digit(c)) == c
  {
  }

  /** The minute field accepts exactly the spellings of the minutes 0 .. 59
      and reads each as its value. */
  lemma {:induction false} MinuteFieldSpellings(t: string, m: int)
    ensures ParseMinuteField(t) == Some(m) <==> 0 <= m < 60 && SpellsField(t, m)
  {
    if ParseMinuteField(t) == Some(m) {
      if |t| == 2 {
        DigitRoundTrip(t[0]);
        DigitRoundTrip(t[1]);
        assert m / 10 == Digit(t[0]) && m % 10 == Digit(t[1]);
        assert t == [t[0], t[1]];
      } else {
        DigitRoundTrip(t[0]);
        assert t == [t[0]];
      }
    }
    if 0 <= m < 60 && SpellsField(t, m) {
      if t == [DigitChar(m / 10), DigitChar(m % 10)] {
        assert Digit(t[0]) == m / 10 <= 5;
        assert 10 * (m / 10) + m % 10 == m;
      }
    }
  }

  /** `strptime(s, '%H:%M')` accepts exactly the spellings of the minutes of
      the day (each field with or without its leading zero) and yields the
      minute spelled. */
  lemma ParseHHMMSpellings(s: string, v: int)
    ensures ParseHHMM(s) == Some(v) <==> 0 <= v < MinutesPerDay && SpellsTime(s, v)
  {
    if ParseHHMM(s) == Some(v) {
      ParsedIsSpelled(s, v);
    }
    if 0 <= v < MinutesPerDay && SpellsTime(s, v) {
      SpelledIsParsed(s, v);
    }
  }

  lemma ParsedIsSpelled(s: string, v: int)
    requires ParseHHMM(s) == Some(v)
    ensures 0 <= v < MinutesPerDay && SpellsTime(s, v)
  {
    DigitRoundTrip(s[0]);
    if IsDigit(s[0]) && s[1] == ':' {
      var h, m := Digit(s[0]), ParseMinuteField(s[2..]).value;
      MinuteFieldSpellings(s[2..], m);
      assert v == 60 * h + m;
      assert v / 60 == h && v % 60 == m;
      assert s[..1] == [DigitChar(h)];
    } else {
      DigitRoundTrip(s[1]);
      var h, m := 10 * Digit(s[0]) + Digit(s[1]), ParseMinuteField(s[3..]).value;
      MinuteFieldSpellings(s[3..], m);
      assert v == 60 * h + m;
      assert v / 60 == h && v % 60 == m;
      assert h / 10 == Digit(s[0]) && h % 10 == Digit(s[1]);
      assert s[..2] == [DigitChar(h / 10), DigitChar(h % 10)];
    }
  }

  lemma SpelledIsParsed(s: string, v: int)
    requires 0 <= v < MinutesPerDay && SpellsTime(s, v)
    ensures ParseHHMM(s) == Some(v)
  {
    var h, m := v / 60, v % 60;
    assert v == 60 * h + m && 0 <= h < 24;
    if |s| >= 2 && s[1] == ':' && SpellsField(s[..1], h) && SpellsField(s[2..], m) {
      assert s[0] == s[..1][0];
      MinuteFieldSpellings(s[2..], m);
    } else {
      assert s[0] == s[..2][0] && s[1] == s[..2][1];
      MinuteFieldSpellings(s[3..], m);
      if s[..2] == [DigitChar(h / 10), DigitChar(h % 10)] {
        assert Digit(s[0]) == h / 10 && Digit(s[1]) == h % 10;
        assert 10 * (h / 10) + h % 10 == h;
      }
    }
  }

  /** The zero-padded form `strftime('%H:%M')` produces for a minute of the day. */
  function Format(minute: int): (s: string)
    requires 0 <= minute < MinutesPerDay
    ensures |s| == 5 && s[2] == ':'
  {
    var h, m := minute / 60, minute % 60;
    [DigitChar(h / 10), DigitChar(h % 10), ':', DigitChar(m / 10), DigitChar(m % 10)]
  }

  /** Every minute of the day survives formatting and parsing back. */
  lemma ParseFormat(minute: int)
    requires 0 <= minute < MinutesPerDay
    ensures ParseHHMM(Format(minute)) == Some(minute)
  {
    var s := Format(minute);
    var h, m := minute / 60, minute % 60;
    assert Digit(s[0]) == h / 10 && Digit(s[1]) == h % 10;
    assert Digit(s[3]) == m / 10 && Digit(s[4]) == m % 10;
    assert s[3..] == [s[3], s[4]];
    assert ParseMinuteField(s[3..]) == Some(m);
    assert 10 * Digit(s[0]) + Digit(s[1]) == h;
  }

  /** A five-character string that parses is the zero-padded form of its value:
      the two-digit spelling of a time is unique. */
  lemma FiveCharFormIsCanonical(s: string)
    requires |s| == 5 && ParseHHMM(s).Some?
    ensures s == Format(ParseHHMM(s).value)
  {
    assert s[2] == ':';
    assert s[3..] == [s[3], s[4]];
    var h := 10 * Digit(s[0]) + Digit(s[1]);
    var m := 10 * Digit(s[3]) + Digit(s[4]);
    assert ParseHHMM(s).value == 60 * h + m;
    var t := Format(60 * h + m);
    assert (60 * h + m) / 60 == h && (60 * h + m) % 60 == m;
    assert t[0] == s[0] && t[1] == s[1] && t[3] == s[3] && t[4] == s[4];
  }

  /** Python's short spellings are accepted; out-of-range fields and trailing
      text are not. */
  lemma ParseExamples()
    ensures ParseHHMM("9:05") == Some(545)
    ensures ParseHHMM("9:5") == Some(545)
    ensures ParseHHMM("23:59") == Some(1439)
    ensures ParseHHMM("24:00") == None
    ensures ParseHHMM("12:60") == None
    ensures ParseHHMM("12:30 ") == None
    ensures ParseHHMM(" 12:30") == None
  {
    assert "9:05"[2..] == "05";
    assert "9:5"[2..] == "5";
    assert "23:59"[3..] == "59";
    assert "12:60"[3..] == "60";
    assert "12:30 "[3..] == "30 ";
  }

  /** Python's `str.isspace()` characters (the ASCII and Unicode white space). */
  predicate IsSpace(c: char) {
    || ('\t' <= c <= '\r')
    || ('\U{1c}' <= c <= ' ')
    || c == '\U{85}' || c == '\U{a0}' || c == '\U{1680}'
    || ('\U{2000}' <= c <= '\U{200a}')
    || c == '\U{2028}' || c == '\U{2029}' || c == '\U{202f}' || c == '\U{205f}' || c == '\U{3000}'
  }

  /** `s.lstrip()`: the suffix of `s` left after its leading white space. */
  function StripStart(s: string): (r: string)
    ensures |r| <= |s| && r == s[|s| - |r|..]
    ensures forall i :: 0 <= i < |s| - |r| ==> IsSpace(s[i])
    ensures r != [] ==> !IsSpace(r[0])
  {
    if |s| > 0 && IsSpace(s[0]) then StripStart(s[1..]) else s
  }

  /** `s.rstrip()`: the prefix of `s` left after its trailing white space. */
  function StripEnd(s: string): (r: string)
    ensures |r| <= |s| && r == s[..|r|]
    ensures forall i :: |r| <= i < |s| ==> IsSpace(s[i])
    ensures r != [] ==> !IsSpace(r[|r| - 1])
  {
    if |s| > 0 && IsSpace(s[|s| - 1]) then StripEnd(s[..|s| - 1]) else s
  }

  /** `r` is the slice of `s` starting at `i`, with only white space before
      and after it. */
  ghost predicate StrippedAt(s: string, r: string, i: int) {
    && 0 <= i <= |s| - |r|
    && s[i..][..|r|] == r
    && (forall k :: 0 <= k < i ==> IsSpace(s[k]))
    && (forall k :: i + |r| <= k < |s| ==> IsSpace(s[k]))
  }

  /** `s.strip()`: the middle of `s` with white space removed from both ends. */
  function Strip(s: string): (r: string)
    ensures exists i :: StrippedAt(s, r, i)
    ensures r != [] ==> !IsSpace(r[0]) && !IsSpace(r[|r| - 1])
  {
    var a := StripStart(s);
    var r := StripEnd(a);
    StripAt(s, a, r);
    r
  }

  lemma StripAt(s: string, a: string, r: string)
    requires a == StripStart(s) && r == StripEnd(a)
    ensures StrippedAt(s, r, |s| - |a|)
  {
    var i := |s| - |a|;
    assert s[i..] == a;
    forall k | i + |r| <= k < |s|
      ensures IsSpace(s[k])
    {
      assert s[k] == a[k - i];
    }
  }
}
