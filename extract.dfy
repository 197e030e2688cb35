/** `scrape_events_week`: one event per `a.fc-time-grid-event` block of the
    displayed week, dated by the column under its middle, then sorted by
    `(date, start, title)`. The page is given as plain data. */
module Extract {
  import opened Wrappers
  import opened Text
  import opened Sorting
  import opened Events
  import opened TimeRange
  import opened Columns

  /** An event block as the page shows it: the `.fc-title` text, the
      `.fc-time` element's `data-full` attribute (absent as `None`) and text,
      the text of the first `.fc-salles` element if there is one, and the
      block's horizontal extent. */
  datatype Block = Block(title: string, timeFull: Option<string>, timeText: string,
                         salle: Option<string>, left: real, right: real)

  /** One rendered week: its day cells and its event blocks. */
  datatype Page = Page(cells: seq<Cell>, blocks: seq<Block>)

  /** `(time_el.get_attribute("data-full") or time_el.text).strip()`: an
      absent or empty attribute falls back to the text. */
  function TimeText(b: Block): string {
    Strip(if b.timeFull.Some? && b.timeFull.value != "" then b.timeFull.value else b.timeText)
  }

  /** `salle_el[0].text.strip() if salle_el else ""` */
  function Location(b: Block): string {
    if b.salle.Some? then Strip(b.salle.value) else ""
  }

  /** The event built from one block, or the `ValueError` of its time text. */
  function BlockEvent(b: Block, cols: seq<Column>): Result<Event, Failure>
    requires |cols| > 0
  {
    var times :- ParseTimeRange(TimeText(b));
    Ok(Event(Strip(b.title), AssignDate(cols, (b.left + b.right) / 2.0), times.0, times.1, Location(b)))
  }

  /** The events of the blocks in page order; the first block whose time
      cannot be parsed aborts the week. */
  function BlockEvents(blocks: seq<Block>, cols: seq<Column>): Result<seq<Event>, Failure>
    requires |cols| > 0
  {
    if blocks == [] then Ok([])
    else
      var n := |blocks| - 1;
      var pre :- BlockEvents(blocks[..n], cols);
      var ev :- BlockEvent(blocks[n], cols);
      Ok(pre + [ev])
  }

  /** What `scrape_events_week` returns or raises for a page. */
  function ExtractWeek(page: Page): Result<seq<Event>, Failure> {
    var cols :- ResolvedColumns(page.cells);
    var evs :- BlockEvents(page.blocks, cols);
    Ok(SortEvents(evs))
  }

  /** `scrape_events_week`: the day columns, the events of the blocks, then
      the in-place sort. */
  method ScrapeEventsWeek(page: Page) returns (r: Result<seq<Event>, Failure>)
    ensures r == ExtractWeek(page)
  {
    ExtractWeekCases(page);
    var dayColumns := ResolveColumns(page.cells);
    if dayColumns.Err? {
      return Err(dayColumns.error);
    }
    var events := CollectBlockEvents(page.blocks, dayColumns.value);
    if events.Err? {
      return Err(events.error);
    }
    return Ok(SortEvents(events.value));
  }

  /** The `for el in event_elements` loop of `scrape_events_week`. */
  method CollectBlockEvents(blocks: seq<Block>, cols: seq<Column>) returns (r: Result<seq<Event>, Failure>)
    requires |cols| > 0
    ensures r == BlockEvents(blocks, cols)
  {
    var events: seq<Event> := [];
    for i := 0 to |blocks|
      invariant BlockEvents(blocks[..i], cols) == Ok(events)
    {
      var el := blocks[i];
      BlockEventCases(el, cols);
      BlockEventsAppend(blocks, cols, i);
      var title := Strip(el.title);
      var timeRange := TimeText(el);
      var times := ParseTimeRange(timeRange);
      if times.Err? {
        BlockEventsErrorPersists(blocks, cols, i + 1);
        return Err(times.error);
      }
      var location := Location(el);
      var date := DateForEventByX(el.left, el.right, cols);
      events := events + [Event(title, date, times.value.0, times.value.1, location)];
    }
    assert blocks[..|blocks|] == blocks;
    return Ok(events);
  }

  lemma {:induction false} ExtractWeekCases(page: Page)
    ensures ResolvedColumns(page.cells).Err? ==> ExtractWeek(page) == Err(ResolvedColumns(page.cells).error)
    ensures ResolvedColumns(page.cells).Ok? ==>
      var evs := BlockEvents(page.blocks, ResolvedColumns(page.cells).value);
      ExtractWeek(page) == if evs.Err? then Err(evs.error) else Ok(SortEvents(evs.value))
  {
  }

  lemma {:induction false} BlockEventCases(b: Block, cols: seq<Column>)
    requires |cols| > 0
    ensures var t := ParseTimeRange(TimeText(b));
      BlockEvent(b, cols) ==
        if t.Err? then Err(t.error)
        else Ok(Event(Strip(b.title), AssignDate(cols, (b.left + b.right) / 2.0), t.value.0, t.value.1, Location(b)))
  {
  }

  lemma {:induction false} BlockEventsAppend(blocks: seq<Block>, cols: seq<Column>, i: nat)
    requires |cols| > 0 && i < |blocks|
    requires BlockEvents(blocks[..i], cols).Ok?
    ensures BlockEvents(blocks[..i + 1], cols) ==
      if BlockEvent(blocks[i], cols).Err? then Err(BlockEvent(blocks[i], cols).error)
      else Ok(BlockEvents(blocks[..i], cols).value + [BlockEvent(blocks[i], cols).value])
  {
    assert blocks[..i + 1][..i] == blocks[..i];
    BlockEventsStep(blocks[..i + 1], cols);
  }

  /** Once a prefix of the blocks fails, the whole list fails the same way. */
  lemma {:induction false} BlockEventsErrorPersists(blocks: seq<Block>, cols: seq<Column>, i: nat)
    requires |cols| > 0 && i <= |blocks|
    requires BlockEvents(blocks[..i], cols).Err?
    ensures BlockEvents(blocks, cols) == BlockEvents(blocks[..i], cols)
    decreases |blocks| - i
  {
    if i < |blocks| {
      assert blocks[..i + 1][..i] == blocks[..i];
      BlockEventsErrorPersists(blocks, cols, i + 1);
    } else {
      assert blocks[..i] == blocks;
    }
  }

  /** The time of a block is parsed exactly when its time text holds a range. */
  predicate Parses(b: Block) {
    ParseTimeRange(TimeText(b)).Ok?
  }

  predicate AllParse(blocks: seq<Block>) {
    forall i :: 0 <= i < |blocks| ==> Parses(blocks[i])
  }

  lemma {:induction false} AllParseSplit(blocks: seq<Block>)
    requires blocks != []
    ensures AllParse(blocks) <==> AllParse(blocks[..|blocks| - 1]) && Parses(blocks[|blocks| - 1])
  {
    var n := |blocks| - 1;
    assert forall i :: 0 <= i < n ==> blocks[..n][i] == blocks[i];
  }

  /** A block yields its event exactly when its time parses, and otherwise
      the `ValueError` of its time text. */
  lemma {:induction false} BlockEventOk(b: Block, cols: seq<Column>)
    requires |cols| > 0
    ensures BlockEvent(b, cols).Ok? <==> Parses(b)
    ensures BlockEvent(b, cols).Err? ==> BlockEvent(b, cols).error == FormatError(TimeText(b))
  {
    ParseTimeRangeSpec(TimeText(b));
  }

  /** One more block: its event is appended, or its error ends the week. */
  lemma {:induction false} BlockEventsStep(blocks: seq<Block>, cols: seq<Column>)
    requires |cols| > 0 && blocks != []
    ensures var n := |blocks| - 1;
      BlockEvents(blocks, cols) ==
        if BlockEvents(blocks[..n], cols).Err? then BlockEvents(blocks[..n], cols)
        else if BlockEvent(blocks[n], cols).Err? then Err(BlockEvent(blocks[n], cols).error)
        else Ok(BlockEvents(blocks[..n], cols).value + [BlockEvent(blocks[n], cols).value])
  {
  }

  /** The week's events are built exactly when every block's time parses. */
  lemma {:induction false} BlockEventsOk(blocks: seq<Block>, cols: seq<Column>)
    requires |cols| > 0
    ensures BlockEvents(blocks, cols).Ok? <==> AllParse(blocks)
  {
    if blocks != [] {
      var n := |blocks| - 1;
      BlockEventsOk(blocks[..n], cols);
      BlockEventOk(blocks[n], cols);
      BlockEventsStep(blocks, cols);
      AllParseSplit(blocks);
    }
  }

  /** The events are the blocks' events, in page order. */
  lemma {:induction false} BlockEventsValues(blocks: seq<Block>, cols: seq<Column>)
    requires |cols| > 0
    requires BlockEvents(blocks, cols).Ok?
    ensures |BlockEvents(blocks, cols).value| == |blocks|
    ensures forall i :: 0 <= i < |blocks| ==> BlockEvent(blocks[i], cols) == Ok(BlockEvents(blocks, cols).value[i])
  {
    if blocks != [] {
      var n := |blocks| - 1;
      BlockEventsStep(blocks, cols);
      BlockEventsValues(blocks[..n], cols);
      var pre := BlockEvents(blocks[..n], cols).value;
      var evs := BlockEvents(blocks, cols).value;
      forall i | 0 <= i < |blocks| ensures BlockEvent(blocks[i], cols) == Ok(evs[i]) {
        if i < n {
          assert blocks[..n][i] == blocks[i];
          assert evs[i] == pre[i];
        }
      }
    }
  }

  /** A failing week fails with the error of its first unparsable block. */
  lemma {:induction false} BlockEventsError(blocks: seq<Block>, cols: seq<Column>)
    requires |cols| > 0
    requires BlockEvents(blocks, cols).Err?
    ensures exists i :: 0 <= i < |blocks| && !Parses(blocks[i]) && AllParse(blocks[..i])
              && BlockEvents(blocks, cols).error == FormatError(TimeText(blocks[i]))
  {
    var n := |blocks| - 1;
    BlockEventsStep(blocks, cols);
    if BlockEvents(blocks[..n], cols).Err? {
      BlockEventsError(blocks[..n], cols);
      var i :| 0 <= i < n && !Parses(blocks[..n][i]) && AllParse(blocks[..n][..i])
               && BlockEvents(blocks[..n], cols).error == FormatError(TimeText(blocks[..n][i]));
      assert blocks[..n][..i] == blocks[..i];
    } else {
      BlockEventOk(blocks[n], cols);
      BlockEventsOk(blocks[..n], cols);
      assert !Parses(blocks[n]) && AllParse(blocks[..n]);
    }
  }

  /** Every event the block yields carries two `HH:MM` clocks and the date of
      one of the columns. */
  lemma {:induction false} BlockEventShape(b: Block, cols: seq<Column>)
    requires |cols| > 0
    requires BlockEvent(b, cols).Ok?
    ensures IsClock(BlockEvent(b, cols).value.start) && IsClock(BlockEvent(b, cols).value.end)
    ensures exists k :: 0 <= k < |cols| && BlockEvent(b, cols).value.date == cols[k].date
  {
    ParseTimeRangeSpec(TimeText(b));
    AssignDateSpec(cols, (b.left + b.right) / 2.0);
  }

  /** `scrape_events_week` raises the layout error exactly when no day cell
      has a date, and otherwise the `ValueError` of the first block whose time
      does not parse. When it returns, the list is sorted by
      `(date, start, title)`, is a permutation of the blocks' events, holds
      one event per block, and every event is dated by one of the week's
      dates and timed by two clocks. */
  lemma {:induction false} ExtractWeekSpec(page: Page)
    ensures ExtractWeek(page) == Err(LayoutError) <==> CellDates(page.cells) == {}
    ensures CellDates(page.cells) != {} ==>
      (ExtractWeek(page).Ok? <==> AllParse(page.blocks))
    ensures CellDates(page.cells) != {} && ExtractWeek(page).Err? ==>
      exists i :: 0 <= i < |page.blocks| && !Parses(page.blocks[i]) && AllParse(page.blocks[..i])
                  && ExtractWeek(page).error == FormatError(TimeText(page.blocks[i]))
    ensures ExtractWeek(page).Ok? ==>
      var evs := ExtractWeek(page).value;
      && Sorted(evs, EventLe)
      && |evs| == |page.blocks|
      && multiset(evs) == multiset(BlockEvents(page.blocks, ResolvedColumns(page.cells).value).value)
      && forall e :: e in evs ==> e.date in CellDates(page.cells) && IsClock(e.start) && IsClock(e.end)
  {
    ExtractWeekFails(page);
    if ExtractWeek(page).Ok? {
      ExtractWeekEvents(page);
    }
  }

  lemma {:induction false} ExtractWeekFails(page: Page)
    ensures ExtractWeek(page) == Err(LayoutError) <==> CellDates(page.cells) == {}
    ensures CellDates(page.cells) != {} ==>
      (ExtractWeek(page).Ok? <==> AllParse(page.blocks))
    ensures CellDates(page.cells) != {} && ExtractWeek(page).Err? ==>
      exists i :: 0 <= i < |page.blocks| && !Parses(page.blocks[i]) && AllParse(page.blocks[..i])
                  && ExtractWeek(page).error == FormatError(TimeText(page.blocks[i]))
  {
    ResolvedColumnsSpec(page.cells);
    if ResolvedColumns(page.cells).Ok? {
      var cols := ResolvedColumns(page.cells).value;
      BlockEventsOk(page.blocks, cols);
      if BlockEvents(page.blocks, cols).Err? {
        BlockEventsError(page.blocks, cols);
      }
    }
  }

  lemma {:induction false} ExtractWeekEvents(page: Page)
    requires ExtractWeek(page).Ok?
    ensures ResolvedColumns(page.cells).Ok? && BlockEvents(page.blocks, ResolvedColumns(page.cells).value).Ok?
    ensures
      var evs := ExtractWeek(page).value;
      && Sorted(evs, EventLe)
      && |evs| == |page.blocks|
      && multiset(evs) == multiset(BlockEvents(page.blocks, ResolvedColumns(page.cells).value).value)
      && forall e :: e in evs ==> e.date in CellDates(page.cells) && IsClock(e.start) && IsClock(e.end)
  {
    ResolvedColumnsSpec(page.cells);
    var cols := ResolvedColumns(page.cells).value;
    var raw := BlockEvents(page.blocks, cols).value;
    BlockEventsValues(page.blocks, cols);
    var evs := SortEvents(raw);
    assert |evs| == |raw| by {
      assert |multiset(evs)| == |multiset(raw)|;
    }
    forall e | e in evs ensures e.date in CellDates(page.cells) && IsClock(e.start) && IsClock(e.end) {
      assert e in multiset(raw);
      var i :| 0 <= i < |raw| && raw[i] == e;
      BlockEventShape(page.blocks[i], cols);
      var k :| 0 <= k < |cols| && e.date == cols[k].date;
      assert e.date in ColumnDates(cols);
    }
  }
}
