/** `ensure_current_week_visible` and the week loop of `main`: the browser
    becomes an index of the displayed week over a pager that gives, for each
    week index, the page the timetable shows. A bounded wait that expires is
    the `Timeout` failure. */
module Navigation {
  import opened Wrappers
  import opened Sorting
  import opened Events
  import opened Columns
  import opened Extract
  import opened Week
  import opened Store
  import opened IcsCalendar

  /** `NB_SEMAINES` */
  const NbSemaines: nat := 4
  /** `MAX_CLICS_PREV_POUR_TROUVER_SEMAINE_COURANTE` */
  const MaxClicsPrev: nat := 8

  /** The `data-date` values of the page's `td.fc-day[data-date]` cells. */
  function PageDates(p: Page): seq<string> {
    seq(|p.cells|, i requires 0 <= i < |p.cells| => p.cells[i].date)
  }

  /** `get_week_signature` on the page of week `w`. */
  function SigAt(pages: int -> Page, w: int): string {
    Signature(PageDates(pages(w)))
  }

  /** The signature each week shows. */
  function SigsOf(pages: int -> Page): int -> string {
    w => SigAt(pages, w)
  }

  /** What `scrape_events_week` returns on each week. */
  function WeeksOf(pages: int -> Page): int -> Result<seq<Event>, Failure> {
    w => ExtractWeek(pages(w))
  }

  /** Where the backward search stopped, and whether it found today. */
  datatype Seeking = Seeking(week: int, found: bool)

  /** `ensure_current_week_visible` from week `w`, `sigs` giving the signature
      each week shows: the first signature wait, then the bounded backward
      search. */
  function Seek(sigs: int -> string, w: int, today: string): Result<Seeking, Failure> {
    var sig := sigs(w);
    if sig == "" then Err(Timeout)
    else if WeekContainsDate(sig, today) then Ok(Seeking(w, true))
    else SeekBack(sigs, w, sig, today, 0)
  }

  /** The `for` loop of `ensure_current_week_visible` after `clicks` clicks
      on "prev", showing week `w` whose signature is `sig`. */
  function SeekBack(sigs: int -> string, w: int, sig: string, today: string, clicks: nat): Result<Seeking, Failure>
    requires clicks <= MaxClicsPrev
    decreases MaxClicsPrev - clicks
  {
    if clicks == MaxClicsPrev then Ok(Seeking(w, false))
    else
      var next := sigs(w - 1);
      if next == sig then Err(Timeout)
      else if WeekContainsDate(next, today) then Ok(Seeking(w - 1, true))
      else SeekBack(sigs, w - 1, next, today, clicks + 1)
  }

  /** No week in `[from, to)` shows today. */
  ghost predicate TodayAbsent(sigs: int -> string, from: int, to: int, today: string) {
    forall v :: from <= v < to ==> !WeekContainsDate(sigs(v), today)
  }

  /** Each week in `[from, to)` shows a signature that differs from the week
      after it, so a wait for a change after a click succeeds. */
  ghost predicate Changes(sigs: int -> string, from: int, to: int) {
    forall v :: from <= v < to ==> sigs(v) != sigs(v + 1)
  }

  /** The backward search moves back at most the remaining number of clicks,
      stops at the first week that shows today, gives up only after every
      click was spent, fails only by a timed-out wait, and does not fail when
      every click changes the signature. */
  lemma {:induction false} SeekBackSpec(sigs: int -> string, w: int, sig: string, today: string, clicks: nat)
    requires clicks <= MaxClicsPrev && sig == sigs(w)
    ensures var r := SeekBack(sigs, w, sig, today, clicks);
      && (r.Ok? ==> w - (MaxClicsPrev - clicks) <= r.value.week <= w)
      && (r.Ok? && r.value.found ==>
            WeekContainsDate(sigs(r.value.week), today) && TodayAbsent(sigs, r.value.week + 1, w, today))
      && (r.Ok? && !r.value.found ==>
            r.value.week == w - (MaxClicsPrev - clicks) && TodayAbsent(sigs, r.value.week, w, today))
      && (r.Err? ==> r.error == Timeout)
      && (Changes(sigs, w - (MaxClicsPrev - clicks), w) ==> r.Ok?)
    decreases MaxClicsPrev - clicks
  {
    if clicks < MaxClicsPrev {
      var next := sigs(w - 1);
      if next != sig && !WeekContainsDate(next, today) {
        SeekBackSpec(sigs, w - 1, next, today, clicks + 1);
      }
    }
  }

  /** `ensure_current_week_visible` makes no click when the first signature
      already shows today. */
  lemma {:induction false} SeekVisibleNoClick(sigs: int -> string, w: int, today: string)
    requires sigs(w) != "" && WeekContainsDate(sigs(w), today)
    ensures Seek(sigs, w, today) == Ok(Seeking(w, true))
  {
  }

  /** `ensure_current_week_visible` clicks "prev" at most eight times, ends on
      the latest week at or before the start that shows today, or gives up
      eight weeks back when none does; it fails only by a timed-out wait, and
      not when the first page shows dates and every click changes them. */
  lemma {:induction false} SeekSpec(sigs: int -> string, w: int, today: string)
    ensures var r := Seek(sigs, w, today);
      && (r.Ok? ==> w - MaxClicsPrev <= r.value.week <= w)
      && (r.Ok? && r.value.found ==>
            WeekContainsDate(sigs(r.value.week), today) && TodayAbsent(sigs, r.value.week + 1, w + 1, today))
      && (r.Ok? && !r.value.found ==>
            r.value.week == w - MaxClicsPrev && TodayAbsent(sigs, r.value.week, w + 1, today))
      && (r.Err? ==> r.error == Timeout)
      && (sigs(w) != "" && Changes(sigs, w - MaxClicsPrev, w) ==> r.Ok?)
  {
    var sig := sigs(w);
    if sig != "" && !WeekContainsDate(sig, today) {
      SeekBackSpec(sigs, w, sig, today, 0);
    }
  }

  /** When the search finds today, the week shown holds a day cell dated
      today (the dates carry no `|`). */
  lemma {:induction false} SeekFoundShowsToday(pages: int -> Page, w: int, today: string)
    requires Seek(SigsOf(pages), w, today).Ok? && Seek(SigsOf(pages), w, today).value.found
    requires var p := pages(Seek(SigsOf(pages), w, today).value.week);
      forall i :: 0 <= i < |p.cells| ==> '|' !in p.cells[i].date
    ensures today in DateSet(PageDates(pages(Seek(SigsOf(pages), w, today).value.week)))
  {
    SeekSpec(SigsOf(pages), w, today);
    var v := Seek(SigsOf(pages), w, today).value.week;
    var dates := PageDates(pages(v));
    assert SigsOf(pages)(v) == Signature(dates);
    WeekContainsSignature(dates, today);
  }

  /** The events of a week, none when its extraction fails. */
  function EventsOf(r: Result<seq<Event>, Failure>): seq<Event> {
    match r
    case Ok(evs) => evs
    case Err(_) => []
  }

  /** The events of `n` consecutive weeks from `w`, week after week. */
  function WeeksEvents(weeks: int -> Result<seq<Event>, Failure>, w: int, n: nat): seq<Event>
    decreases n
  {
    if n == 0 then [] else EventsOf(weeks(w)) + WeeksEvents(weeks, w + 1, n - 1)
  }

  /** The first half of an iteration of the week loop of `main` on week `w`:
      wait for its dates, scrape it and merge its events into `s`. */
  function Visit(sigs: int -> string, weeks: int -> Result<seq<Event>, Failure>, w: int, s: Store)
    : Result<Store, Failure>
  {
    if sigs(w) == "" then Err(Timeout)
    else match weeks(w)
      case Err(e) => Err(e)
      case Ok(evs) => Ok(MergeAll(s, evs))
  }

  /** The week loop of `main` at iteration `i`, showing week `w`, with the
      events merged so far in `s`; `sigs` and `weeks` give each week's
      signature and extraction. After the last week it stops; otherwise it
      clicks next and waits for the signature to change. */
  function CollectFrom(sigs: int -> string, weeks: int -> Result<seq<Event>, Failure>, w: int, i: nat, s: Store)
    : Result<Store, Failure>
    requires i < NbSemaines
    decreases NbSemaines - i
  {
    match Visit(sigs, weeks, w, s)
    case Err(e) => Err(e)
    case Ok(merged) =>
      if i == NbSemaines - 1 then Ok(merged)
      else if sigs(w + 1) == sigs(w) then Err(Timeout)
      else CollectFrom(sigs, weeks, w + 1, i + 1, merged)
  }

  /** The week loop of `main` from week `w` and an empty dictionary. */
  function Collect(sigs: int -> string, weeks: int -> Result<seq<Event>, Failure>, w: int): Result<Store, Failure> {
    CollectFrom(sigs, weeks, w, 0, Empty)
  }

  /** The `n` weeks from `w` all show dates, all extract, and each but the
      last shows a signature that the next week changes. */
  ghost predicate Clean(sigs: int -> string, weeks: int -> Result<seq<Event>, Failure>, w: int, n: nat) {
    && (forall v :: w <= v < w + n ==> sigs(v) != "" && weeks(v).Ok?)
    && Changes(sigs, w, w + n - 1)
  }

  /** From iteration `i` on, the loop succeeds exactly when the remaining
      weeks are clean, and then holds the merge of their events in week
      order; otherwise it fails by a timed-out wait or with the failure of
      one of the weeks' extraction. */
  lemma {:induction false} CollectFromSpec(sigs: int -> string, weeks: int -> Result<seq<Event>, Failure>,
                        w: int, i: nat, s: Store)
    requires i < NbSemaines
    ensures var r := CollectFrom(sigs, weeks, w, i, s);
      && (r.Ok? <==> Clean(sigs, weeks, w, NbSemaines - i))
      && (r.Ok? ==> r.value == MergeAll(s, WeeksEvents(weeks, w, NbSemaines - i)))
      && (r.Err? ==> r.error == Timeout || exists v :: w <= v < w + NbSemaines - i && weeks(v) == Err(r.error))
  {
    CollectFromClean(sigs, weeks, w, i, s);
    CollectFromMerges(sigs, weeks, w, i, s);
    CollectFromFails(sigs, weeks, w, i, s);
  }

  /** A clean run of `n + 1` weeks is a clean first week whose signature the
      next week changes, then a clean run of `n` weeks. */
  lemma {:induction false} CleanStep(sigs: int -> string, weeks: int -> Result<seq<Event>, Failure>, w: int, n: nat)
    requires n > 0
    ensures Clean(sigs, weeks, w, n + 1) <==>
      sigs(w) != "" && weeks(w).Ok? && sigs(w) != sigs(w + 1) && Clean(sigs, weeks, w + 1, n)
  {
  }

  lemma {:induction false} CollectFromClean(sigs: int -> string, weeks: int -> Result<seq<Event>, Failure>,
                                            w: int, i: nat, s: Store)
    requires i < NbSemaines
    ensures CollectFrom(sigs, weeks, w, i, s).Ok? <==> Clean(sigs, weeks, w, NbSemaines - i)
    decreases NbSemaines - i
  {
    if i < NbSemaines - 1 && sigs(w) != "" && weeks(w).Ok? {
      CollectFromClean(sigs, weeks, w + 1, i + 1, MergeAll(s, weeks(w).value));
      CleanStep(sigs, weeks, w, NbSemaines - i - 1);
    }
  }

  lemma {:induction false} CollectFromMerges(sigs: int -> string, weeks: int -> Result<seq<Event>, Failure>,
                                             w: int, i: nat, s: Store)
    requires i < NbSemaines
    ensures CollectFrom(sigs, weeks, w, i, s).Ok? ==>
      CollectFrom(sigs, weeks, w, i, s).value == MergeAll(s, WeeksEvents(weeks, w, NbSemaines - i))
    decreases NbSemaines - i
  {
    var n := NbSemaines - i;
    if sigs(w) != "" && weeks(w).Ok? {
      var evs := weeks(w).value;
      if i == NbSemaines - 1 {
        assert WeeksEvents(weeks, w, n) == evs + [];
        assert evs + [] == evs;
      } else {
        CollectFromMerges(sigs, weeks, w + 1, i + 1, MergeAll(s, evs));
        MergeAllAppend(s, evs, WeeksEvents(weeks, w + 1, n - 1));
      }
    }
  }

  lemma {:induction false} CollectFromFails(sigs: int -> string, weeks: int -> Result<seq<Event>, Failure>,
                                            w: int, i: nat, s: Store)
    requires i < NbSemaines
    ensures var r := CollectFrom(sigs, weeks, w, i, s);
      r.Err? ==> r.error == Timeout || exists v :: w <= v < w + NbSemaines - i && weeks(v) == Err(r.error)
    decreases NbSemaines - i
  {
    if i < NbSemaines - 1 && sigs(w) != "" && weeks(w).Ok? && sigs(w + 1) != sigs(w) {
      CollectFromFails(sigs, weeks, w + 1, i + 1, MergeAll(s, weeks(w).value));
    }
  }

  /** The week loop collects exactly `NB_SEMAINES` weeks from the week it
      starts on and fails otherwise. */
  lemma {:induction false} CollectSpec(sigs: int -> string, weeks: int -> Result<seq<Event>, Failure>, w: int)
    ensures Collect(sigs, weeks, w).Ok? <==> Clean(sigs, weeks, w, NbSemaines)
    ensures Collect(sigs, weeks, w).Ok? ==>
              Collect(sigs, weeks, w).value == MergeAll(Empty, WeeksEvents(weeks, w, NbSemaines))
  {
    CollectFromClean(sigs, weeks, w, 0, Empty);
    CollectFromMerges(sigs, weeks, w, 0, Empty);
  }

  /** The whole run after login, `sigs` and `weeks` giving what each week
      shows: find the current week, collect the weeks, sort the unique
      events and serialise them. */
  function ExportWith(sigs: int -> string, weeks: int -> Result<seq<Event>, Failure>, w: int, today: string,
                      uids: nat -> string): Result<string, Failure>
  {
    match Seek(sigs, w, today)
    case Err(e) => Err(e)
    case Ok(seeking) =>
      match Collect(sigs, weeks, seeking.week)
      case Err(e) => Err(e)
      case Ok(store) => CalendarText(Finalize(store), uids)
  }

  /** The whole run over the pages of the timetable. */
  function Export(pages: int -> Page, w: int, today: string, uids: nat -> string): Result<string, Failure> {
    ExportWith(SigsOf(pages), WeeksOf(pages), w, today, uids)
  }

  /** A successful run exports, sorted and each once, exactly the events
      scraped from the `NB_SEMAINES` weeks starting at the week the search
      ended on. */
  lemma {:induction false} ExportSpec(pages: int -> Page, w: int, today: string, uids: nat -> string)
    requires Seek(SigsOf(pages), w, today).Ok?
    requires Clean(SigsOf(pages), WeeksOf(pages), Seek(SigsOf(pages), w, today).value.week, NbSemaines)
    ensures var evs := WeeksEvents(WeeksOf(pages), Seek(SigsOf(pages), w, today).value.week, NbSemaines);
      exists final: seq<Event> ::
        && Export(pages, w, today, uids) == CalendarText(final, uids)
        && Sorted(final, EventLe) && Distinct(final)
        && (forall e :: e in final <==> e in evs)
  {
    var start := Seek(SigsOf(pages), w, today).value.week;
    var evs := WeeksEvents(WeeksOf(pages), start, NbSemaines);
    CollectSpec(SigsOf(pages), WeeksOf(pages), start);
    FinalizeOfMerge(evs);
    var final := Finalize(MergeAll(Empty, evs));
    assert Export(pages, w, today, uids) == CalendarText(final, uids);
  }

  /** The week index `0, 1, …` of each of `n` consecutive weeks from `w`. */
  function WeekRange(w: int, n: nat): (r: seq<int>)
    ensures |r| == n && forall k :: 0 <= k < n ==> r[k] == w + k
  {
    if n == 0 then [] else WeekRange(w, n - 1) + [w + n - 1]
  }

  /** The browser on the timetable page. `week` is the week on display;
      `sigs` gives the signature the page script reads on each week and
      `weeks` what `scrape_events_week` returns on it (`SigsOf` and `WeeksOf`
      of the timetable's pages). The click counters and the list of scraped
      weeks are ghost bookkeeping: each click moves `week` by one. */
  class Browser {
    var week: int
    const sigs: int -> string
    const weeks: int -> Result<seq<Event>, Failure>
    ghost var prevClicks: nat
    ghost var nextClicks: nat
    ghost var scraped: seq<int>

    constructor(pages: int -> Page, week: int)
      ensures sigs == SigsOf(pages) && weeks == WeeksOf(pages) && this.week == week
      ensures prevClicks == 0 && nextClicks == 0 && scraped == []
    {
      sigs := SigsOf(pages);
      weeks := WeeksOf(pages);
      this.week := week;
      prevClicks := 0;
      nextClicks := 0;
      scraped := [];
    }

    /** `wait.until(lambda d: get_week_signature(d))` */
    method WaitSignature() returns (r: Result<string, Failure>)
      ensures r == if sigs(week) == "" then Err(Timeout) else Ok(sigs(week))
    {
      var sig := sigs(week);
      if sig == "" {
        return Err(Timeout);
      }
      return Ok(sig);
    }

    /** `wait.until(lambda d: get_week_signature(d) != sig)` */
    method WaitChange(sig: string) returns (changed: bool)
      ensures changed == (sigs(week) != sig)
    {
      changed := sigs(week) != sig;
    }

    /** A click on `button.fc-prev-button`. */
    method Prev()
      modifies this
      ensures week == old(week) - 1 && prevClicks == old(prevClicks) + 1
      ensures nextClicks == old(nextClicks) && scraped == old(scraped)
    {
      week := week - 1;
      prevClicks := prevClicks + 1;
    }

    /** A click on `button.fc-next-button`. */
    method Next()
      modifies this
      ensures week == old(week) + 1 && nextClicks == old(nextClicks) + 1
      ensures prevClicks == old(prevClicks) && scraped == old(scraped)
    {
      week := week + 1;
      nextClicks := nextClicks + 1;
    }

    /** `scrape_events_week(driver)` on the week on display. */
    method Scrape() returns (r: Result<seq<Event>, Failure>)
      modifies this
      ensures r == weeks(week) && scraped == old(scraped) + [week]
      ensures week == old(week) && prevClicks == old(prevClicks) && nextClicks == old(nextClicks)
    {
      r := weeks(week);
      scraped := scraped + [week];
    }

    /** `ensure_current_week_visible`: the result says where the search
        ended and whether it found today. */
    method EnsureCurrentWeekVisible(today: string) returns (r: Result<Seeking, Failure>)
      modifies this
      ensures r == Seek(sigs, old(week), today)
      ensures r.Ok? ==> week == r.value.week
      ensures old(week) - MaxClicsPrev <= week <= old(week)
      ensures WeekContainsDate(sigs(old(week)), today) ==> week == old(week)
      ensures prevClicks == old(prevClicks) + (old(week) - week)
      ensures nextClicks == old(nextClicks) && scraped == old(scraped)
    {
      var first := WaitSignature();
      if first.Err? {
        return Err(first.error);
      }
      if WeekContainsDate(first.value, today) {
        return Ok(Seeking(week, true));
      }
      r := ClickBack(first.value, today);
    }

    /** The bounded `for` loop of `ensure_current_week_visible`, from the
        week on display whose signature is `sig`. */
    method ClickBack(sig: string, today: string) returns (r: Result<Seeking, Failure>)
      requires sig == sigs(week)
      modifies this
      ensures r == SeekBack(sigs, old(week), sig, today, 0)
      ensures r.Ok? ==> week == r.value.week
      ensures old(week) - MaxClicsPrev <= week <= old(week)
      ensures prevClicks == old(prevClicks) + (old(week) - week)
      ensures nextClicks == old(nextClicks) && scraped == old(scraped)
    {
      var current := sig;
      for clicks := 0 to MaxClicsPrev
        invariant week == old(week) - clicks && current == sigs(week)
        invariant prevClicks == old(prevClicks) + clicks
        invariant nextClicks == old(nextClicks) && scraped == old(scraped)
        invariant SeekBack(sigs, old(week), sig, today, 0) == SeekBack(sigs, week, current, today, clicks)
      {
        Prev();
        var changed := WaitChange(current);
        if !changed {
          return Err(Timeout);
        }
        current := sigs(week);
        if WeekContainsDate(current, today) {
          return Ok(Seeking(week, true));
        }
      }
      return Ok(Seeking(week, false));
    }

    /** The week loop of `main`: scrape, merge, and move on to the next week
        until `NB_SEMAINES` weeks are scraped. */
    method CollectWeeks() returns (r: Result<Store, Failure>)
      modifies this
      ensures r == Collect(sigs, weeks, old(week))
      ensures r.Ok? ==> week == old(week) + NbSemaines - 1
      ensures r.Ok? ==> nextClicks == old(nextClicks) + NbSemaines - 1
      ensures r.Ok? ==> scraped == old(scraped) + WeekRange(old(week), NbSemaines)
      ensures prevClicks == old(prevClicks)
    {
      var store := Empty;
      for i := 0 to NbSemaines
        invariant i < NbSemaines
        invariant week == old(week) + i && nextClicks == old(nextClicks) + i
        invariant scraped == old(scraped) + WeekRange(old(week), i)
        invariant prevClicks == old(prevClicks)
        invariant Collect(sigs, weeks, old(week)) == CollectFrom(sigs, weeks, week, i, store)
      {
        var sig, visited := VisitWeek(store);
        if visited.Err? {
          return Err(visited.error);
        }
        store := visited.value;
        if i == NbSemaines - 1 {
          break;
        }
        Next();
        var changed := WaitChange(sig);
        if !changed {
          return Err(Timeout);
        }
      }
      return Ok(store);
    }

    /** The first half of an iteration of the week loop: wait for the
        week's signature, scrape the week and merge its events, counting
        the new ones. */
    method VisitWeek(store: Store) returns (sig: string, r: Result<Store, Failure>)
      modifies this
      ensures r == Visit(sigs, weeks, week, store) && sig == sigs(week)
      ensures r.Ok? ==> scraped == old(scraped) + [week]
      ensures week == old(week) && prevClicks == old(prevClicks) && nextClicks == old(nextClicks)
    {
      var first := WaitSignature();
      if first.Err? {
        return sigs(week), Err(first.error);
      }
      sig := first.value;
      var weekEvents := Scrape();
      if weekEvents.Err? {
        return sig, Err(weekEvents.error);
      }
      var merged, added := MergeWeek(store, weekEvents.value);
      r := Ok(merged);
    }

    /** `main` after login: position on the current week, collect, sort the
        unique events and build the calendar text. */
    method Run(today: string, uids: nat -> string) returns (r: Result<string, Failure>)
      modifies this
      ensures r == ExportWith(sigs, weeks, old(week), today, uids)
    {
      var seeking := EnsureCurrentWeekVisible(today);
      if seeking.Err? {
        return Err(seeking.error);
      }
      var collected := CollectWeeks();
      if collected.Err? {
        return Err(collected.error);
      }
      var finalEvents := Finalize(collected.value);
      r := BuildIcs(finalEvents, uids);
    }
  }
}
