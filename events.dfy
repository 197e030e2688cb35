/** The event record the extractor builds, the failures the core raises, and
    the `(date, start, title)` order both the per-week list and the final list
    are sorted by. */
module Events {
  import opened Text
  import opened Sorting

  /** One course occurrence, as `scrape_events_week` assembles it. Dates are
      `YYYY-MM-DD` and times `HH:MM` text; nothing checks them here. */
  datatype Event = Event(title: string, date: string, start: string, end: string, location: string)

  /** The exceptions the core lets escape. */
  datatype Failure =
    | FormatError(text: string)     // `parse_time_range` found no time range (ValueError)
    | LayoutError                   // `get_day_columns` resolved no column (RuntimeError)
    | Timeout                       // a bounded wait on the page expired
    | TimestampError(text: string)  // `strptime` refused a date or time in `to_ics_dt`

  /** `key=lambda e: (e["date"], e["start"], e["title"])`: tuples of `str`
      compared lexicographically. */
  predicate EventLe(a: Event, b: Event) {
    || StrLt(a.date, b.date)
    || (a.date == b.date && StrLt(a.start, b.start))
    || (a.date == b.date && a.start == b.start && StrLe(a.title, b.title))
  }

  lemma {:induction false} EventLeTotalPreorder()
    ensures TotalPreorder(EventLe)
  {
    forall a: Event, b: Event ensures EventLe(a, b) || EventLe(b, a) {
      StrLtTotal(a.date, b.date);
      StrLtTotal(a.start, b.start);
      StrLtTotal(a.title, b.title);
    }
    forall a: Event, b: Event, c: Event | EventLe(a, b) && EventLe(b, c) ensures EventLe(a, c) {
      if StrLt(a.date, b.date) && StrLt(b.date, c.date) {
        StrLtTransitive(a.date, b.date, c.date);
      }
      if StrLt(a.start, b.start) && StrLt(b.start, c.start) {
        StrLtTransitive(a.start, b.start, c.start);
      }
      if StrLt(a.title, b.title) && StrLt(b.title, c.title) {
        StrLtTransitive(a.title, b.title, c.title);
      }
    }
  }

  /** `events.sort(key=...)`: Python's sort is stable. */
  function SortEvents(evs: seq<Event>): (r: seq<Event>)
    ensures Sorted(r, EventLe)
    ensures multiset(r) == multiset(evs)
  {
    EventLeTotalPreorder();
    SortSorted(evs, EventLe);
    Sort(evs, EventLe)
  }

  /** Events with the same `(date, start, title)` keep their input order. */
  lemma {:induction false} SortEventsStable(evs: seq<Event>, y: Event)
    ensures Ties(SortEvents(evs), y, EventLe) == Ties(evs, y, EventLe)
  {
    EventLeTotalPreorder();
    SortStable(evs, y, EventLe);
  }
}
