/** Text-level iCalendar helpers: escaping of TEXT values (section 3.3.11 of
    RFC 5545) and the local DATE-TIME form used with a TZID parameter
    (section 3.3.5 of RFC 5545). */
module IcsText {
  import opened Wrappers
  import opened Text
  import opened Events

  /** `str.replace(c, rep)` for a one-character pattern: every occurrence of
      `c`, left to right, becomes `rep`. */
  function Replace(s: string, c: char, rep: string): string {
    if s == [] then ""
    else (if s[0] == c then rep else [s[0]]) + Replace(s[1..], c, rep)
  }

  lemma {:induction false} ReplaceAppend(a: string, b: string, c: char, rep: string)
    ensures Replace(a + b, c, rep) == Replace(a, c, rep) + Replace(b, c, rep)
  {
    if a == [] {
      assert a + b == b;
    } else {
      assert (a + b)[1..] == a[1..] + b;
      ReplaceAppend(a[1..], b, c, rep);
    }
  }

  /** The replacements `ics_escape` makes, in the order it makes them. */
  const EscapeRules: seq<(char, string)> := [('\\', "\\\\"), ('\n', "\\n"), (',', "\\,"), (';', "\\;")]

  /** Chained `str.replace` calls: each rule applies to the result of the
      previous one. */
  function ReplaceAll(s: string, rules: seq<(char, string)>): string
    decreases |rules|
  {
    if rules == [] then s else ReplaceAll(Replace(s, rules[0].0, rules[0].1), rules[1..])
  }

  /** `ics_escape`: `None` gives the empty string; otherwise backslash is
      replaced first, then newline, comma and semicolon. */
  function Escape(value: Option<string>): string {
    match value
    case None => ""
    case Some(v) => ReplaceAll(v, EscapeRules)
  }

  /** The escape sequence one character turns into. */
  function EscapeChar(c: char): string {
    if c == '\\' then "\\\\"
    else if c == '\n' then "\\n"
    else if c == ',' then "\\,"
    else if c == ';' then "\\;"
    else [c]
  }

  /** Single left-to-right pass of `EscapeChar`. */
  function EscapeText(s: string): string {
    if s == [] then "" else EscapeChar(s[0]) + EscapeText(s[1..])
  }

  /** Because the backslash is replaced first, the four chained replaces do
      the same as escaping each character once. */
  lemma {:induction false} EscapeIsSinglePass(s: string)
    ensures Escape(Some(s)) == EscapeText(s)
  {
    if s != [] {
      assert s == [s[0]] + s[1..];
      ReplaceAllAppend([s[0]], s[1..], EscapeRules);
      EscapeOneChar(s[0]);
      EscapeIsSinglePass(s[1..]);
    }
  }

  /** Chained replaces of single characters work piece by piece. */
  lemma {:induction false} ReplaceAllAppend(a: string, b: string, rules: seq<(char, string)>)
    ensures ReplaceAll(a + b, rules) == ReplaceAll(a, rules) + ReplaceAll(b, rules)
    decreases |rules|
  {
    if rules != [] {
      ReplaceAppend(a, b, rules[0].0, rules[0].1);
      ReplaceAllAppend(Replace(a, rules[0].0, rules[0].1), Replace(b, rules[0].0, rules[0].1), rules[1..]);
    }
  }

  /** One character goes through the chain as its escape sequence: the
      backslashes the later rules add are never replaced again. */
  lemma {:induction false} EscapeOneChar(c: char)
    ensures Escape(Some([c])) == EscapeChar(c)
  {
    var r := EscapeRules;
    var s1 := Replace([c], '\\', "\\\\");
    ReplaceOne(c, '\\', "\\\\");
    var s2 := Replace(s1, '\n', "\\n");
    if c == '\n' { ReplaceOne(c, '\n', "\\n"); } else { ReplaceAbsent(s1, '\n', "\\n"); }
    var s3 := Replace(s2, ',', "\\,");
    if c == ',' { ReplaceOne(c, ',', "\\,"); } else { ReplaceAbsent(s2, ',', "\\,"); }
    if c == ';' { ReplaceOne(c, ';', "\\;"); } else { ReplaceAbsent(s3, ';', "\\;"); }
    assert ReplaceAll([c], r) == ReplaceAll(s1, r[1..]);
    assert ReplaceAll(s1, r[1..]) == ReplaceAll(s2, r[2..]);
    assert ReplaceAll(s2, r[2..]) == ReplaceAll(s3, r[3..]);
    assert ReplaceAll(s3, r[3..]) == Replace(s3, ';', "\\;");
  }

  lemma {:induction false} ReplaceOne(x: char, c: char, rep: string)
    ensures Replace([x], c, rep) == if x == c then rep else [x]
  {
    assert [x][1..] == [];
  }

  lemma {:induction false} ReplaceAbsent(s: string, c: char, rep: string)
    requires c !in s
    ensures Replace(s, c, rep) == s
  {
    if s != [] {
      ReplaceAbsent(s[1..], c, rep);
      assert s == [s[0]] + s[1..];
    }
  }

  /** Reading TEXT back: `\\`, `\,`, `\;` stand for the character after the
      backslash, `\n` and `\N` for a newline; anything else is itself. */
  function Unescape(s: string): string {
    if s == [] then ""
    else if s[0] == '\\' && |s| >= 2 && (s[1] == '\\' || s[1] == ',' || s[1] == ';') then
      [s[1]] + Unescape(s[2..])
    else if s[0] == '\\' && |s| >= 2 && (s[1] == 'n' || s[1] == 'N') then
      "\n" + Unescape(s[2..])
    else
      [s[0]] + Unescape(s[1..])
  }

  /** Unescaping left to right restores the original value. */
  lemma {:induction false} UnescapeEscape(s: string)
    ensures Unescape(Escape(Some(s))) == s
  {
    EscapeIsSinglePass(s);
    UnescapeEscapeText(s);
  }

  lemma {:induction false} UnescapeEscapeText(s: string)
    ensures Unescape(EscapeText(s)) == s
  {
    if s != [] {
      var c, rest := s[0], s[1..];
      var e := EscapeChar(c) + EscapeText(rest);
      UnescapeEscapeText(rest);
      if c == '\\' || c == '\n' || c == ',' || c == ';' {
        assert e[2..] == EscapeText(rest);
      } else {
        assert e[1..] == EscapeText(rest);
      }
      assert s == [c] + rest;
    }
  }

  /** The escaped text holds no raw newline, and every comma and semicolon in
      it directly follows a backslash. */
  lemma {:induction false} EscapeShape(s: string)
    ensures '\n' !in Escape(Some(s))
    ensures forall i :: 0 <= i < |Escape(Some(s))| && Escape(Some(s))[i] in {',', ';'} ==>
              i > 0 && Escape(Some(s))[i - 1] == '\\'
  {
    EscapeIsSinglePass(s);
    EscapeTextShape(s);
  }

  lemma {:induction false} EscapeTextShape(s: string)
    ensures '\n' !in EscapeText(s)
    ensures forall i :: 0 <= i < |EscapeText(s)| && EscapeText(s)[i] in {',', ';'} ==>
              i > 0 && EscapeText(s)[i - 1] == '\\'
  {
    if s != [] {
      EscapeTextShape(s[1..]);
      var h, t := EscapeChar(s[0]), EscapeText(s[1..]);
      assert EscapeText(s) == h + t;
      forall i | 0 <= i < |h + t| && (h + t)[i] in {',', ';'}
        ensures i > 0 && (h + t)[i - 1] == '\\'
      {
        if i >= |h| {
          assert (h + t)[i] == t[i - |h|];
          if i - |h| > 0 {
            assert (h + t)[i - 1] == t[i - |h| - 1];
          }
        }
      }
    }
  }

  /** `YYYY-MM-DD` with year 0001-9999, month 01-12 and day 01-31: the form
      of the calendar page's dates that `strptime("%Y-%m-%d")` accepts. */
  predicate ValidDate(d: string) {
    && |d| == 10
    && IsDigit(d[0]) && IsDigit(d[1]) && IsDigit(d[2]) && IsDigit(d[3]) && d[4] == '-'
    && IsDigit(d[5]) && IsDigit(d[6]) && d[7] == '-' && IsDigit(d[8]) && IsDigit(d[9])
    && d[..4] != "0000"
    && 1 <= TwoDigits(d[5], d[6]) <= 12
    && 1 <= TwoDigits(d[8], d[9]) <= 31
  }

  /** `HH:MM` with hour 00-23 and minute 00-59 (`%H:%M`). */
  predicate ValidTime(t: string) {
    && |t| == 5
    && IsDigit(t[0]) && IsDigit(t[1]) && t[2] == ':' && IsDigit(t[3]) && IsDigit(t[4])
    && TwoDigits(t[0], t[1]) <= 23
    && TwoDigits(t[3], t[4]) <= 59
  }

  function TwoDigits(a: char, b: char): int {
    (a as int - '0' as int) * 10 + (b as int - '0' as int)
  }

  /** `to_ics_dt`: parse `date hhmm`, then write `%Y%m%dT%H%M%S`, seconds zero. */
  function ToIcsDt(date: string, hhmm: string): (r: Result<string, Failure>)
    ensures r.Ok? <==> ValidDate(date) && ValidTime(hhmm)
    ensures r.Err? ==> r.error == TimestampError(date + " " + hhmm)
  {
    if ValidDate(date) && ValidTime(hhmm) then
      Ok(date[0..4] + date[5..7] + date[8..10] + "T" + hhmm[0..2] + hhmm[3..5] + "00")
    else
      Err(TimestampError(date + " " + hhmm))
  }

  /** The compact form `YYYYMMDDTHHMMSS`. */
  predicate IsIcsDateTime(s: string) {
    && |s| == 15 && s[8] == 'T'
    && forall k :: 0 <= k < 15 && k != 8 ==> IsDigit(s[k])
  }

  /** Reading a compact timestamp back into `YYYY-MM-DD` and `HH:MM`. */
  function FromIcsDt(s: string): (string, string)
    requires |s| == 15
  {
    (s[0..4] + "-" + s[4..6] + "-" + s[6..8], s[9..11] + ":" + s[11..13])
  }

  /** A valid date and time give a compact timestamp with zero seconds that
      reads back as the same date and time. */
  lemma {:induction false} ToIcsDtRoundTrip(date: string, hhmm: string)
    requires ValidDate(date) && ValidTime(hhmm)
    ensures ToIcsDt(date, hhmm).Ok?
    ensures IsIcsDateTime(ToIcsDt(date, hhmm).value)
    ensures ToIcsDt(date, hhmm).value[13..] == "00"
    ensures FromIcsDt(ToIcsDt(date, hhmm).value) == (date, hhmm)
  {
    var s := ToIcsDt(date, hhmm).value;
    assert |s| == 15;
    assert s[0..4] == date[0..4] && s[4..6] == date[5..7] && s[6..8] == date[8..10];
    assert date == date[0..4] + "-" + date[5..7] + "-" + date[8..10];
    assert s[9..11] == hhmm[0..2] && s[11..13] == hhmm[3..5];
    assert hhmm == hhmm[0..2] + ":" + hhmm[3..5];
  }

  /** `datetime` has no year 0, so `strptime` refuses it. */
  lemma {:induction false} RejectsYearZero()
    ensures ToIcsDt("0000-01-01", "09:00") == Err(TimestampError("0000-01-01 09:00"))
  {
    var d := "0000-01-01";
    assert d[..4] == "0000";
    assert !ValidDate(d);
    assert d + " " + "09:00" == "0000-01-01 09:00";
  }
}
