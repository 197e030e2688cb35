/** `build_ics`: one VCALENDAR object (section 3.4 of RFC 5545) holding one
    VEVENT component (section 3.6.1) per event, in input order, every content
    line ended by CRLF (section 3.1). As in the source, there is no line
    folding, no DTSTAMP and no VTIMEZONE. */
module IcsCalendar {
  import opened Wrappers
  import opened Text
  import opened Events
  import opened IcsText

  const TZ: string := "Europe/Paris"
  const CRLF: string := "\r\n"
  const Footer: string := "END:VCALENDAR"

  /** The six lines that open the calendar. */
  const Header: seq<string> := [
    "BEGIN:VCALENDAR",
    "VERSION:2.0",
    "PRODID:-//ENT CESI Scraper//FR",
    "CALSCALE:GREGORIAN",
    "METHOD:PUBLISH",
    "X-WR-TIMEZONE:" + TZ
  ]

  /** Assembles one VEVENT from its already formatted values; the LOCATION
      line is there only when a location is given. */
  function VEvent(uid: string, summary: string, dtstart: string, dtend: string, location: Option<string>): seq<string> {
    ["BEGIN:VEVENT",
     "UID:" + uid,
     "SUMMARY:" + summary,
     "DTSTART;TZID=" + TZ + ":" + dtstart,
     "DTEND;TZID=" + TZ + ":" + dtend]
    + (if location.Some? then ["LOCATION:" + location.value] else [])
    + ["END:VEVENT"]
  }

  /** The content lines of one event; `uid` stands for `uuid.uuid4()`. The
      location is stripped and the LOCATION line left out when that leaves
      nothing. */
  function EventLines(ev: Event, uid: string): Result<seq<string>, Failure> {
    var dtstart :- ToIcsDt(ev.date, ev.start);
    var dtend :- ToIcsDt(ev.date, ev.end);
    var loc := Strip(ev.location);
    Ok(VEvent(uid, Escape(Some(ev.title)), dtstart, dtend,
              if loc != "" then Some(Escape(Some(loc))) else None))
  }

  /** The value of a content line whose name and parameters are `name`. */
  function PropertyValue(line: string, name: string): Option<string> {
    if |name| <= |line| && line[..|name|] == name then Some(line[|name|..]) else None
  }

  lemma {:induction false} VEventLines(uid: string, summary: string, dtstart: string, dtend: string, location: Option<string>)
    ensures var b := VEvent(uid, summary, dtstart, dtend, location);
      && |b| == (if location.Some? then 7 else 6)
      && b[0] == "BEGIN:VEVENT" && b[|b| - 1] == "END:VEVENT"
      && b[1] == "UID:" + uid
      && b[2][..8] == "SUMMARY:" && b[2][8..] == summary
      && b[3][..26] == "DTSTART;TZID=Europe/Paris:" && b[3][26..] == dtstart
      && b[4][..24] == "DTEND;TZID=Europe/Paris:" && b[4][24..] == dtend
      && (location.Some? ==> b[5][..9] == "LOCATION:" && b[5][9..] == location.value)
  {
  }

  lemma {:induction false} VEventNoLineFeed(uid: string, summary: string, dtstart: string, dtend: string, location: Option<string>)
    requires '\n' !in uid && '\n' !in summary && '\n' !in dtstart && '\n' !in dtend
    requires location.Some? ==> '\n' !in location.value
    ensures forall k :: 0 <= k < |VEvent(uid, summary, dtstart, dtend, location)| ==>
              '\n' !in VEvent(uid, summary, dtstart, dtend, location)[k]
  {
  }

  /** The VEVENT lines of all events, event `i` taking `uids(i)`; the first
      event whose timestamp `strptime` refuses aborts. */
  function BodyLines(events: seq<Event>, uids: nat -> string): Result<seq<string>, Failure> {
    if events == [] then Ok([])
    else
      var n := |events| - 1;
      var prefix :- BodyLines(events[..n], uids);
      var block :- EventLines(events[n], uids(n));
      Ok(prefix + block)
  }

  function IcsLines(events: seq<Event>, uids: nat -> string): Result<seq<string>, Failure> {
    var body :- BodyLines(events, uids);
    Ok(Header + body + [Footer])
  }

  /** `"\r\n".join(lines) + "\r\n"` */
  function Render(lines: seq<string>): string {
    Join(lines, CRLF) + CRLF
  }

  function CalendarText(events: seq<Event>, uids: nat -> string): Result<string, Failure> {
    var lines :- IcsLines(events, uids);
    Ok(Render(lines))
  }

  /** Every line followed by its own CRLF. */
  function Terminated(lines: seq<string>): string {
    if lines == [] then "" else lines[0] + CRLF + Terminated(lines[1..])
  }

  /** Every line of the output, the last one included, ends with CRLF. */
  lemma {:induction false} RenderTerminatesEveryLine(lines: seq<string>)
    requires lines != []
    ensures Render(lines) == Terminated(lines)
  {
    if |lines| > 1 {
      RenderTerminatesEveryLine(lines[1..]);
    }
  }

  function Located(events: seq<Event>): nat {
    if events == [] then 0
    else Located(events[..|events| - 1]) + (if Strip(events[|events| - 1].location) != "" then 1 else 0)
  }

  predicate ValidTimes(ev: Event) {
    ValidDate(ev.date) && ValidTime(ev.start) && ValidTime(ev.end)
  }

  /** Every event has a valid date and valid times. */
  predicate AllValid(events: seq<Event>) {
    forall i :: 0 <= i < |events| ==> ValidTimes(events[i])
  }

  lemma {:induction false} AllValidSplit(events: seq<Event>)
    requires events != []
    ensures AllValid(events) <==> AllValid(events[..|events| - 1]) && ValidTimes(events[|events| - 1])
  {
    var n := |events| - 1;
    assert forall i :: 0 <= i < n ==> events[..n][i] == events[i];
  }

  /** An event's lines are produced exactly when its date and times are valid. */
  lemma {:induction false} EventLinesOk(ev: Event, uid: string)
    ensures EventLines(ev, uid).Ok? <==> ValidTimes(ev)
  {
  }

  /** One VEVENT: BEGIN, UID, SUMMARY (the escaped title, which unescapes
      back to the title), DTSTART and DTEND with the TZID parameter (whose
      values read back as the event's date and times), a LOCATION line exactly
      when the stripped location is non-empty, and END. It fails exactly when
      a date or time is invalid. */
  lemma {:induction false} EventBlock(ev: Event, uid: string)
    requires ValidTimes(ev)
    ensures
      var b := EventLines(ev, uid).value;
      && |b| == (if Strip(ev.location) != "" then 7 else 6)
      && b[0] == "BEGIN:VEVENT" && b[|b| - 1] == "END:VEVENT"
      && b[1] == "UID:" + uid
      && PropertyValue(b[2], "SUMMARY:").Some?
      && Unescape(PropertyValue(b[2], "SUMMARY:").value) == ev.title
      && PropertyValue(b[3], "DTSTART;TZID=Europe/Paris:").Some?
      && IsIcsDateTime(PropertyValue(b[3], "DTSTART;TZID=Europe/Paris:").value)
      && FromIcsDt(PropertyValue(b[3], "DTSTART;TZID=Europe/Paris:").value) == (ev.date, ev.start)
      && PropertyValue(b[4], "DTEND;TZID=Europe/Paris:").Some?
      && IsIcsDateTime(PropertyValue(b[4], "DTEND;TZID=Europe/Paris:").value)
      && FromIcsDt(PropertyValue(b[4], "DTEND;TZID=Europe/Paris:").value) == (ev.date, ev.end)
      && (|b| == 7 ==> PropertyValue(b[5], "LOCATION:").Some?
                       && Unescape(PropertyValue(b[5], "LOCATION:").value) == Strip(ev.location))
  {
    EventBlockText(ev, uid);
    EventBlockTimes(ev, uid);
  }

  /** The values an event's lines are assembled from, once its timestamps are
      valid. */
  lemma {:induction false} EventLinesOfValid(ev: Event, uid: string)
    requires ValidTimes(ev)
    ensures ToIcsDt(ev.date, ev.start).Ok? && ToIcsDt(ev.date, ev.end).Ok?
    ensures var loc := Strip(ev.location);
      EventLines(ev, uid) == Ok(VEvent(uid, Escape(Some(ev.title)),
        ToIcsDt(ev.date, ev.start).value, ToIcsDt(ev.date, ev.end).value,
        if loc != "" then Some(Escape(Some(loc))) else None))
  {
    ToIcsDtRoundTrip(ev.date, ev.start);
    ToIcsDtRoundTrip(ev.date, ev.end);
    EventLinesCases(ev, uid);
  }

  lemma {:induction false} EventBlockText(ev: Event, uid: string)
    requires ValidTimes(ev)
    ensures
      var b := EventLines(ev, uid).value;
      && |b| == (if Strip(ev.location) != "" then 7 else 6)
      && b[0] == "BEGIN:VEVENT" && b[|b| - 1] == "END:VEVENT"
      && b[1] == "UID:" + uid
      && PropertyValue(b[2], "SUMMARY:").Some?
      && Unescape(PropertyValue(b[2], "SUMMARY:").value) == ev.title
      && (|b| == 7 ==> PropertyValue(b[5], "LOCATION:").Some?
                       && Unescape(PropertyValue(b[5], "LOCATION:").value) == Strip(ev.location))
  {
    EventLinesOfValid(ev, uid);
    UnescapeEscape(ev.title);
    var loc := Strip(ev.location);
    UnescapeEscape(loc);
    var l := if loc != "" then Some(Escape(Some(loc))) else None;
    VEventLines(uid, Escape(Some(ev.title)), ToIcsDt(ev.date, ev.start).value, ToIcsDt(ev.date, ev.end).value, l);
  }

  lemma {:induction false} EventBlockTimes(ev: Event, uid: string)
    requires ValidTimes(ev)
    ensures
      var b := EventLines(ev, uid).value;
      && |b| >= 6
      && PropertyValue(b[3], "DTSTART;TZID=Europe/Paris:").Some?
      && IsIcsDateTime(PropertyValue(b[3], "DTSTART;TZID=Europe/Paris:").value)
      && FromIcsDt(PropertyValue(b[3], "DTSTART;TZID=Europe/Paris:").value) == (ev.date, ev.start)
      && PropertyValue(b[4], "DTEND;TZID=Europe/Paris:").Some?
      && IsIcsDateTime(PropertyValue(b[4], "DTEND;TZID=Europe/Paris:").value)
      && FromIcsDt(PropertyValue(b[4], "DTEND;TZID=Europe/Paris:").value) == (ev.date, ev.end)
  {
    EventLinesOfValid(ev, uid);
    ToIcsDtRoundTrip(ev.date, ev.start);
    ToIcsDtRoundTrip(ev.date, ev.end);
    var loc := Strip(ev.location);
    var l := if loc != "" then Some(Escape(Some(loc))) else None;
    VEventLines(uid, Escape(Some(ev.title)), ToIcsDt(ev.date, ev.start).value, ToIcsDt(ev.date, ev.end).value, l);
  }

  /** The calendar is built exactly when every date and time is valid; it then
      has the six header lines, six or seven lines per event (seven when the
      event has a location) and the closing line. */
  lemma {:induction false} IcsLinesShape(events: seq<Event>, uids: nat -> string)
    ensures IcsLines(events, uids).Ok? <==> AllValid(events)
    ensures IcsLines(events, uids).Ok? ==>
      var ls := IcsLines(events, uids).value;
      && ls[..6] == Header
      && ls[|ls| - 1] == Footer
      && |ls| == 7 + 6 * |events| + Located(events)
  {
    BodyOk(events, uids);
    if IcsLines(events, uids).Ok? {
      BodyLength(events, uids);
      var ls := IcsLines(events, uids).value;
      assert ls[..6] == Header;
    }
  }

  /** The body is built exactly when every date and time is valid. */
  lemma {:induction false} BodyOk(events: seq<Event>, uids: nat -> string)
    ensures BodyLines(events, uids).Ok? <==> AllValid(events)
  {
    if events != [] {
      var n := |events| - 1;
      BodyOk(events[..n], uids);
      EventLinesOk(events[n], uids(n));
      BodyStepOk(events, uids);
      AllValidSplit(events);
    }
  }

  lemma {:induction false} BodyStepOk(events: seq<Event>, uids: nat -> string)
    requires events != []
    ensures var n := |events| - 1;
      BodyLines(events, uids).Ok? <==> BodyLines(events[..n], uids).Ok? && EventLines(events[n], uids(n)).Ok?
  {
  }

  /** Six lines per event, and a seventh for each located one. */
  lemma {:induction false} BodyLength(events: seq<Event>, uids: nat -> string)
    requires BodyLines(events, uids).Ok?
    ensures |BodyLines(events, uids).value| == 6 * |events| + Located(events)
  {
    if events != [] {
      var n := |events| - 1;
      BodyLength(events[..n], uids);
      EventLinesOk(events[n], uids(n));
      EventBlock(events[n], uids(n));
    }
  }

  /** No line of `lines` holds a line feed. */
  predicate NoLineFeeds(lines: seq<string>) {
    forall k :: 0 <= k < |lines| ==> '\n' !in lines[k]
  }

  lemma {:induction false} NoLineFeedsAppend(a: seq<string>, b: seq<string>)
    requires NoLineFeeds(a) && NoLineFeeds(b)
    ensures NoLineFeeds(a + b)
  {
    forall k | 0 <= k < |a + b| ensures '\n' !in (a + b)[k] {
      if k >= |a| {
        assert (a + b)[k] == b[k - |a|];
      }
    }
  }

  lemma {:induction false} FixedLinesNoLineFeed()
    ensures NoLineFeeds(Header) && NoLineFeeds([Footer])
  {
    OpeningLinesNoLineFeed();
    SettingLinesNoLineFeed();
    assert forall i :: 0 <= i < |Footer| ==> Footer[i] != '\n';
  }

  lemma {:induction false} OpeningLinesNoLineFeed()
    ensures '\n' !in Header[0] && '\n' !in Header[1] && '\n' !in Header[2]
  {
    assert forall i :: 0 <= i < |Header[0]| ==> Header[0][i] != '\n';
    assert forall i :: 0 <= i < |Header[1]| ==> Header[1][i] != '\n';
    assert forall i :: 0 <= i < |Header[2]| ==> Header[2][i] != '\n';
  }

  lemma {:induction false} SettingLinesNoLineFeed()
    ensures '\n' !in Header[3] && '\n' !in Header[4] && '\n' !in Header[5]
  {
    assert forall i :: 0 <= i < |Header[3]| ==> Header[3][i] != '\n';
    assert forall i :: 0 <= i < |Header[4]| ==> Header[4][i] != '\n';
    assert forall i :: 0 <= i < |Header[5]| ==> Header[5][i] != '\n';
  }

  /** With UIDs free of line feeds, no content line holds one: the only line
      feeds of the output are those of the CRLF terminators. */
  lemma {:induction false} NoLineFeedInLines(events: seq<Event>, uids: nat -> string)
    requires forall i: nat :: '\n' !in uids(i)
    requires IcsLines(events, uids).Ok?
    ensures NoLineFeeds(IcsLines(events, uids).value)
  {
    BodyNoLineFeed(events, uids);
    var body := BodyLines(events, uids).value;
    assert IcsLines(events, uids).value == Header + body + [Footer];
    FixedLinesNoLineFeed();
    NoLineFeedsAppend(Header, body);
    NoLineFeedsAppend(Header + body, [Footer]);
  }

  /** The lines of one event hold no line feed when its UID holds none. */
  lemma {:induction false} EventNoLineFeed(ev: Event, uid: string)
    requires '\n' !in uid
    requires EventLines(ev, uid).Ok?
    ensures NoLineFeeds(EventLines(ev, uid).value)
  {
    EscapeShape(ev.title);
    var loc := Strip(ev.location);
    EscapeShape(loc);
    ToIcsDtRoundTrip(ev.date, ev.start);
    ToIcsDtRoundTrip(ev.date, ev.end);
    var d1, d2 := ToIcsDt(ev.date, ev.start).value, ToIcsDt(ev.date, ev.end).value;
    assert '\n' !in d1 && '\n' !in d2;
    var l := if loc != "" then Some(Escape(Some(loc))) else None;
    assert EventLines(ev, uid).value == VEvent(uid, Escape(Some(ev.title)), d1, d2, l);
    VEventNoLineFeed(uid, Escape(Some(ev.title)), d1, d2, l);
  }

  lemma {:induction false} BodyStep(events: seq<Event>, uids: nat -> string)
    requires events != []
    requires BodyLines(events, uids).Ok?
    ensures var n := |events| - 1;
      && BodyLines(events[..n], uids).Ok? && EventLines(events[n], uids(n)).Ok?
      && BodyLines(events, uids).value == BodyLines(events[..n], uids).value + EventLines(events[n], uids(n)).value
  {
  }

  lemma {:induction false} BodyNoLineFeed(events: seq<Event>, uids: nat -> string)
    requires forall i: nat :: '\n' !in uids(i)
    requires BodyLines(events, uids).Ok?
    ensures NoLineFeeds(BodyLines(events, uids).value)
  {
    if events != [] {
      var n := |events| - 1;
      BodyStep(events, uids);
      BodyNoLineFeed(events[..n], uids);
      EventNoLineFeed(events[n], uids(n));
      NoLineFeedsAppend(BodyLines(events[..n], uids).value, EventLines(events[n], uids(n)).value);
    }
  }

  lemma {:induction false} BodyErrorPersists(events: seq<Event>, uids: nat -> string, i: nat)
    requires i <= |events|
    requires BodyLines(events[..i], uids).Err?
    ensures BodyLines(events, uids) == BodyLines(events[..i], uids)
    decreases |events| - i
  {
    if i < |events| {
      assert events[..i + 1][..i] == events[..i];
      BodyErrorPersists(events, uids, i + 1);
    } else {
      assert events[..i] == events;
    }
  }

  /** How `EventLines` reads once both timestamps are known. */
  lemma {:induction false} EventLinesCases(ev: Event, uid: string)
    ensures ToIcsDt(ev.date, ev.start).Err? ==> EventLines(ev, uid) == Err(ToIcsDt(ev.date, ev.start).error)
    ensures ToIcsDt(ev.date, ev.start).Ok? && ToIcsDt(ev.date, ev.end).Err? ==>
              EventLines(ev, uid) == Err(ToIcsDt(ev.date, ev.end).error)
    ensures ToIcsDt(ev.date, ev.start).Ok? && ToIcsDt(ev.date, ev.end).Ok? ==>
              var loc := Strip(ev.location);
              EventLines(ev, uid) == Ok(VEvent(uid, Escape(Some(ev.title)),
                ToIcsDt(ev.date, ev.start).value, ToIcsDt(ev.date, ev.end).value,
                if loc != "" then Some(Escape(Some(loc))) else None))
  {
  }

  /** Extending the events by one extends the body by that event's lines, or
      fails with that event's error. */
  lemma {:induction false} BodyAppend(events: seq<Event>, uids: nat -> string, i: nat)
    requires i < |events|
    requires BodyLines(events[..i], uids).Ok?
    ensures EventLines(events[i], uids(i)).Ok? ==>
              BodyLines(events[..i + 1], uids) == Ok(BodyLines(events[..i], uids).value + EventLines(events[i], uids(i)).value)
    ensures EventLines(events[i], uids(i)).Err? ==>
              BodyLines(events[..i + 1], uids) == Err(EventLines(events[i], uids(i)).error)
  {
    assert events[..i + 1][..i] == events[..i];
  }

  lemma {:induction false} CalendarTextOfBody(events: seq<Event>, uids: nat -> string)
    ensures BodyLines(events, uids).Ok? ==>
              CalendarText(events, uids) == Ok(Render(Header + BodyLines(events, uids).value + [Footer]))
    ensures BodyLines(events, uids).Err? ==>
              CalendarText(events, uids) == Err(BodyLines(events, uids).error)
  {
  }

  /** The body of the loop of `build_ics`: `lines` grown by one event's
      block, or the error of its timestamps. */
  method AppendEvent(lines: seq<string>, ev: Event, uid: string) returns (r: Result<seq<string>, Failure>)
    ensures EventLines(ev, uid).Ok? ==> r == Ok(lines + EventLines(ev, uid).value)
    ensures EventLines(ev, uid).Err? ==> r == Err(EventLines(ev, uid).error)
  {
    EventLinesCases(ev, uid);
    var dtstart := ToIcsDt(ev.date, ev.start);
    if dtstart.Err? {
      return Err(dtstart.error);
    }
    var dtend := ToIcsDt(ev.date, ev.end);
    if dtend.Err? {
      return Err(dtend.error);
    }
    var grown := lines + [
      "BEGIN:VEVENT",
      "UID:" + uid,
      "SUMMARY:" + Escape(Some(ev.title)),
      "DTSTART;TZID=" + TZ + ":" + dtstart.value,
      "DTEND;TZID=" + TZ + ":" + dtend.value
    ];
    var loc := Strip(ev.location);
    if loc != "" {
      grown := grown + ["LOCATION:" + Escape(Some(loc))];
    }
    grown := grown + ["END:VEVENT"];
    ghost var l := if loc != "" then Some(Escape(Some(loc))) else None;
    assert grown == lines + VEvent(uid, Escape(Some(ev.title)), dtstart.value, dtend.value, l);
    return Ok(grown);
  }

  /** Regrouping the lines as its own step keeps the `BuildIcs` loop proof small. */
  lemma {:induction false} AppendAssoc<T>(a: seq<T>, b: seq<T>, c: seq<T>)
    ensures (a + b) + c == a + (b + c)
  {
  }

  /** `build_ics`, the loop that grows `lines` event by event. */
  method BuildIcs(events: seq<Event>, uids: nat -> string) returns (r: Result<string, Failure>)
    ensures r == CalendarText(events, uids)
  {
    var lines := Header;
    ghost var body: seq<string> := [];
    var i := 0;
    while i < |events|
      invariant 0 <= i <= |events|
      invariant BodyLines(events[..i], uids) == Ok(body)
      invariant lines == Header + body
    {
      BodyAppend(events, uids, i);
      var grown := AppendEvent(lines, events[i], uids(i));
      if grown.Err? {
        BodyErrorPersists(events, uids, i + 1);
        CalendarTextOfBody(events, uids);
        return Err(grown.error);
      }
      AppendAssoc(Header, body, EventLines(events[i], uids(i)).value);
      body := body + EventLines(events[i], uids(i)).value;
      lines := grown.value;
      i := i + 1;
    }
    assert events[..i] == events;
    CalendarTextOfBody(events, uids);
    lines := lines + [Footer];
    r := Ok(Join(lines, CRLF) + CRLF);
  }
}
