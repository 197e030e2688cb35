/** `get_week_signature` and `week_contains_date`: the page's week is
    identified by the `data-date` values of its day cells, deduplicated,
    sorted and joined with `|`. */
module Week {
  import opened Text
  import opened Sorting

  /** `.filter(Boolean)`: drops the empty attribute values. */
  function NonEmpty(dates: seq<string>): seq<string> {
    if dates == [] then []
    else
      var rest := NonEmpty(dates[..|dates| - 1]);
      if dates[|dates| - 1] == "" then rest else rest + [dates[|dates| - 1]]
  }

  /** `[...new Set(xs)]`: each value once, in order of first appearance. */
  function Dedup(xs: seq<string>): seq<string> {
    if xs == [] then []
    else
      var rest := Dedup(xs[..|xs| - 1]);
      if xs[|xs| - 1] in rest then rest else rest + [xs[|xs| - 1]]
  }

  /** `.sort()` of the deduplicated non-empty dates. */
  function SortedDates(dates: seq<string>): seq<string> {
    Sort(Dedup(NonEmpty(dates)), StrLe)
  }

  /** The signature the page script returns (`sig or ""`). */
  function Signature(dates: seq<string>): string {
    Join(SortedDates(dates), "|")
  }

  /** `week_contains_date`: membership in the `|`-split signature, false for
      an empty signature. */
  function WeekContainsDate(sig: string, date: string): bool {
    if sig == "" then false else date in Split(sig, '|')
  }

  /** The non-empty values of a list of dates. */
  ghost function DateSet(dates: seq<string>): set<string> {
    Elements(dates) - {""}
  }

  lemma {:induction false} StrLeOrder()
    ensures TotalPreorder(StrLe) && Antisymmetric(StrLe)
  {
    forall a: string, b: string ensures StrLe(a, b) || StrLe(b, a) {
      StrLtTotal(a, b);
    }
    forall a: string, b: string, c: string | StrLe(a, b) && StrLe(b, c) ensures StrLe(a, c) {
      if StrLt(a, b) && StrLt(b, c) {
        StrLtTransitive(a, b, c);
      }
    }
    forall a: string, b: string | StrLe(a, b) && StrLe(b, a) ensures a == b {
      if StrLt(a, b) {
        StrLtAsymmetric(a, b);
      }
    }
  }

  lemma {:induction false} NonEmptyElements(dates: seq<string>)
    ensures Elements(NonEmpty(dates)) == DateSet(dates)
  {
    if dates != [] {
      var n := |dates| - 1;
      NonEmptyElements(dates[..n]);
      assert dates == dates[..n] + [dates[n]];
      assert Elements(dates) == Elements(dates[..n]) + {dates[n]};
      var rest := NonEmpty(dates[..n]);
      assert Elements(rest + [dates[n]]) == Elements(rest) + {dates[n]};
    }
  }

  lemma {:induction false} DedupElements(xs: seq<string>)
    ensures Distinct(Dedup(xs))
    ensures Elements(Dedup(xs)) == Elements(xs)
  {
    if xs != [] {
      var n := |xs| - 1;
      DedupElements(xs[..n]);
      assert xs == xs[..n] + [xs[n]];
      assert Elements(xs) == Elements(xs[..n]) + {xs[n]};
      var rest := Dedup(xs[..n]);
      assert Elements(rest + [xs[n]]) == Elements(rest) + {xs[n]};
    }
  }

  /** The dates of the signature, in order: strictly ascending, and exactly
      the non-empty `data-date` values. */
  lemma {:induction false} SortedDatesSpec(dates: seq<string>)
    ensures Sorted(SortedDates(dates), StrLe)
    ensures Distinct(SortedDates(dates))
    ensures Elements(SortedDates(dates)) == DateSet(dates)
  {
    StrLeOrder();
    var d := Dedup(NonEmpty(dates));
    DedupElements(NonEmpty(dates));
    NonEmptyElements(dates);
    SortSorted(d, StrLe);
    SortDistinct(d, StrLe);
    ElementsOfMultiset(Sort(d, StrLe), d);
  }

  /** The signature depends only on the set of non-empty dates: not on the
      order of the cells, nor on duplicate cells. */
  lemma {:induction false} SignatureOfSet(d1: seq<string>, d2: seq<string>)
    requires DateSet(d1) == DateSet(d2)
    ensures Signature(d1) == Signature(d2)
  {
    StrLeOrder();
    SortedDatesSpec(d1);
    SortedDatesSpec(d2);
    SortedDistinctUnique(SortedDates(d1), SortedDates(d2), StrLe);
  }

  /** The signature is empty exactly when no cell carries a date, which is
      when `wait.until` keeps polling. */
  lemma {:induction false} SignatureEmptyIff(dates: seq<string>)
    ensures Signature(dates) == "" <==> DateSet(dates) == {}
  {
    SortedDatesSpec(dates);
    var r := SortedDates(dates);
    if r != [] {
      assert r[0] in Elements(r);
      assert |Join(r, "|")| >= |r[0]| > 0;
    } else {
      assert Elements(r) == {};
    }
  }

  /** On a signature, `week_contains_date` is exact membership among the
      non-empty dates, provided no date holds the separator. */
  lemma {:induction false} WeekContainsSignature(dates: seq<string>, date: string)
    requires forall i :: 0 <= i < |dates| ==> '|' !in dates[i]
    ensures WeekContainsDate(Signature(dates), date) <==> date in DateSet(dates)
  {
    SortedDatesSpec(dates);
    SignatureEmptyIff(dates);
    var r := SortedDates(dates);
    if r != [] {
      forall k | 0 <= k < |r| ensures '|' !in r[k] {
        assert r[k] in Elements(r);
      }
      SplitJoin(r, '|');
    }
  }
}
