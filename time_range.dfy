/** `parse_time_range`: the leftmost match of the regular expression
    `(\d{2}:\d{2})\s*-\s*(\d{2}:\d{2})` in the text of an event's time
    element, written out as a scan. At a fixed start the match is unique: the
    clock has a fixed width, a `-` is not whitespace and a digit is not
    whitespace, so the greedy `\s*` never has to give anything back. */
module TimeRange {
  import opened Wrappers
  import opened Text
  import opened Events

  /** `\d{2}:\d{2}` */
  predicate IsClock(t: string) {
    |t| == 5 && IsDigit(t[0]) && IsDigit(t[1]) && t[2] == ':' && IsDigit(t[3]) && IsDigit(t[4])
  }

  /** Where a greedy `\s*` starting at `i` stops. */
  function SkipSpaces(s: string, i: nat): (j: nat)
    requires i <= |s|
    ensures i <= j <= |s|
    decreases |s| - i
  {
    if i < |s| && IsSpace(s[i]) then SkipSpaces(s, i + 1) else i
  }

  /** The match anchored at `p`, if there is one: the two clocks. */
  function MatchAt(s: string, p: nat): Option<(string, string)>
    requires p <= |s|
  {
    if p + 5 <= |s| && IsClock(s[p..p + 5]) then
      var j := SkipSpaces(s, p + 5);
      if j < |s| && s[j] == '-' then
        var k := SkipSpaces(s, j + 1);
        if k + 5 <= |s| && IsClock(s[k..k + 5]) then Some((s[p..p + 5], s[k..k + 5])) else None
      else None
    else None
  }

  /** `re.search`: the first start position, from `p` on, where the pattern matches. */
  function Search(s: string, p: nat): Option<(string, string)>
    requires p <= |s|
    decreases |s| - p
  {
    if MatchAt(s, p).Some? then MatchAt(s, p)
    else if p == |s| then None
    else Search(s, p + 1)
  }

  /** `parse_time_range`: the start and end clocks, or `ValueError`. */
  function ParseTimeRange(text: string): Result<(string, string), Failure> {
    match Search(text, 0)
    case Some(m) => Ok(m)
    case None => Err(FormatError(text))
  }

  /** The pattern, stated declaratively: `text[p..]` begins with the clock `a`,
      whitespace, `-`, whitespace and the clock `b`. */
  ghost predicate Matches(s: string, p: nat, a: string, b: string) {
    exists j: nat, k: nat :: MatchesWith(s, p, j, k, a, b)
  }

  /** The same, with the dash at `j` and the second clock at `k`. */
  predicate MatchesWith(s: string, p: nat, j: nat, k: nat, a: string, b: string) {
    && p + 5 <= j < k && k + 5 <= |s|
    && a == s[p..p + 5] && IsClock(a)
    && AllSpaces(s[p + 5..j]) && s[j] == '-'
    && AllSpaces(s[j + 1..k])
    && b == s[k..k + 5] && IsClock(b)
  }

  /** A greedy `\s*` stops exactly at the first non-space. */
  lemma {:induction false} SkipSpacesStops(s: string, i: nat, j: nat)
    requires i <= j < |s|
    requires AllSpaces(s[i..j]) && !IsSpace(s[j])
    ensures SkipSpaces(s, i) == j
    decreases j - i
  {
    if i < j {
      assert IsSpace(s[i..j][0]);
      assert s[i + 1..j] == s[i..j][1..];
      SkipSpacesStops(s, i + 1, j);
    }
  }

  /** What a greedy `\s*` skips is whitespace. */
  lemma {:induction false} SkipSpacesSkipsSpaces(s: string, i: nat)
    requires i <= |s|
    ensures AllSpaces(s[i..SkipSpaces(s, i)])
    ensures SkipSpaces(s, i) == |s| || !IsSpace(s[SkipSpaces(s, i)])
    decreases |s| - i
  {
    if i < |s| && IsSpace(s[i]) {
      SkipSpacesSkipsSpaces(s, i + 1);
      var j := SkipSpaces(s, i);
      assert s[i..j] == [s[i]] + s[i + 1..j];
    }
  }

  /** The scan at `p` finds exactly the declarative matches at `p`. */
  lemma {:induction false} MatchAtSound(s: string, p: nat)
    requires p <= |s|
    ensures MatchAt(s, p).Some? ==> Matches(s, p, MatchAt(s, p).value.0, MatchAt(s, p).value.1)
  {
    if MatchAt(s, p).Some? {
      MatchAtParts(s, p);
      var j := SkipSpaces(s, p + 5);
      SkipSpacesSkipsSpaces(s, p + 5);
      var k := SkipSpaces(s, j + 1);
      SkipSpacesSkipsSpaces(s, j + 1);
      assert MatchesWith(s, p, j, k, s[p..p + 5], s[k..k + 5]);
    }
  }

  /** What a successful scan at `p` has checked. */
  lemma {:induction false} MatchAtParts(s: string, p: nat)
    requires p <= |s| && MatchAt(s, p).Some?
    ensures p + 5 <= |s| && IsClock(s[p..p + 5])
    ensures var j := SkipSpaces(s, p + 5);
      && j < |s| && s[j] == '-'
      && var k := SkipSpaces(s, j + 1);
      && k + 5 <= |s| && IsClock(s[k..k + 5])
      && MatchAt(s, p).value == (s[p..p + 5], s[k..k + 5])
  {
  }

  lemma {:induction false} MatchAtComplete(s: string, p: nat, a: string, b: string)
    requires p <= |s|
    requires Matches(s, p, a, b)
    ensures MatchAt(s, p) == Some((a, b))
  {
    var j: nat, k: nat :| MatchesWith(s, p, j, k, a, b);
    NotSpace(s[j]);
    SkipSpacesStops(s, p + 5, j);
    assert s[k] == b[0];
    NotSpace(s[k]);
    SkipSpacesStops(s, j + 1, k);
    MatchAtFound(s, p, j, k);
  }

  /** The scan at `p` succeeds once the clocks are in place and the skips
      stop at the dash and at the second clock. */
  lemma {:induction false} MatchAtFound(s: string, p: nat, j: nat, k: nat)
    requires p + 5 <= |s| && IsClock(s[p..p + 5]) && SkipSpaces(s, p + 5) == j
    requires j < |s| && s[j] == '-' && SkipSpaces(s, j + 1) == k
    requires k + 5 <= |s| && IsClock(s[k..k + 5])
    ensures MatchAt(s, p) == Some((s[p..p + 5], s[k..k + 5]))
  {
  }

  /** Neither the dash nor a digit is whitespace. */
  lemma {:induction false} NotSpace(c: char)
    requires c == '-' || IsDigit(c)
    ensures !IsSpace(c)
  {
  }

  /** No match starts anywhere in `[from, to)`. */
  ghost predicate NoMatchIn(s: string, from: nat, to: nat) {
    forall q: nat, a: string, b: string :: from <= q < to ==> !Matches(s, q, a, b)
  }

  /** The search returns the match at the leftmost start position from `p`
      on, and finds nothing exactly when no start position matches. */
  lemma {:induction false} SearchLeftmost(s: string, p: nat)
    requires p <= |s|
    ensures Search(s, p).Some? ==>
              exists q: nat :: p <= q <= |s| && NoMatchIn(s, p, q)
                && Matches(s, q, Search(s, p).value.0, Search(s, p).value.1)
    ensures Search(s, p).None? <==> NoMatchIn(s, p, |s| + 1)
    decreases |s| - p
  {
    MatchAtSound(s, p);
    forall a: string, b: string | Matches(s, p, a, b) ensures MatchAt(s, p).Some? {
      MatchAtComplete(s, p, a, b);
    }
    if MatchAt(s, p).Some? {
      assert NoMatchIn(s, p, p);
    } else if p < |s| {
      SearchLeftmost(s, p + 1);
      if Search(s, p).Some? {
        var q: nat :| p + 1 <= q <= |s| && NoMatchIn(s, p + 1, q)
                   && Matches(s, q, Search(s, p).value.0, Search(s, p).value.1);
        assert NoMatchIn(s, p, q);
      }
    }
  }

  /** `parse_time_range` returns the two clocks of the leftmost match, and
      raises `ValueError` (carrying the text) exactly when there is none. */
  lemma {:induction false} ParseTimeRangeSpec(text: string)
    ensures ParseTimeRange(text).Ok? ==>
              var (a, b) := ParseTimeRange(text).value;
              && IsClock(a) && IsClock(b)
              && exists q: nat :: q <= |text| && NoMatchIn(text, 0, q) && Matches(text, q, a, b)
    ensures ParseTimeRange(text).Err? <==> NoMatchIn(text, 0, |text| + 1)
    ensures ParseTimeRange(text).Err? ==> ParseTimeRange(text).error == FormatError(text)
  {
    SearchLeftmost(text, 0);
    if ParseTimeRange(text).Ok? {
      var q: nat :| q <= |text| && NoMatchIn(text, 0, q)
                 && Matches(text, q, Search(text, 0).value.0, Search(text, 0).value.1);
    }
  }

  /** An hour range with `h` instead of `:` is refused. */
  lemma {:induction false} RejectsHourNotation()
    ensures ParseTimeRange("09h-10h") == Err(FormatError("09h-10h"))
  {
    var s := "09h-10h";
    forall p: nat | p <= |s| ensures MatchAt(s, p).None? {
      if p + 5 <= |s| {
        assert s[p..p + 5][2] == s[p + 2];
      }
    }
  }

  /** Spaces around the dash are skipped. */
  lemma {:induction false} ParsesSpacedRange()
    ensures ParseTimeRange("09:00 - 10:30") == Ok(("09:00", "10:30"))
  {
    var s := "09:00 - 10:30";
    assert s[0..5] == "09:00";
    assert s[8..13] == "10:30";
    assert IsSpace(s[5]) && !IsSpace(s[6]);
    assert SkipSpaces(s, 6) == 6;
    assert IsSpace(s[7]) && !IsSpace(s[8]);
    assert SkipSpaces(s, 8) == 8;
    MatchAtFound(s, 0, 6, 8);
  }

  /** The order of the two clocks is not checked: an end before the start is
      returned as it is. */
  lemma {:induction false} ParsesReversedRange()
    ensures ParseTimeRange("10:00-09:00") == Ok(("10:00", "09:00"))
  {
    var s := "10:00-09:00";
    assert s[0..5] == "10:00";
    assert s[6..11] == "09:00";
    assert !IsSpace(s[5]) && !IsSpace(s[6]);
    MatchAtFound(s, 0, 5, 6);
  }
}
