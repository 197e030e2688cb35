/** Character classes and string helpers shared by the extractor and the
    serialiser: Python's whitespace set, ASCII digits, `str.strip()`,
    `sep.join(...)`, `str.split(sep)` and code-point string ordering. */
module Text {

  /** Python's `str.isspace()`, which is also the class matched by `\s` in a
      `str` regular expression. */
  predicate IsSpace(c: char) {
    if c <= ' ' then ('\t' <= c <= '\r') || ('\U{1C}' <= c)
    else if c < '\U{85}' then false
    else
      || c == '\U{85}' || c == '\U{A0}' || c == '\U{1680}'
      || ('\U{2000}' <= c <= '\U{200A}')
      || c == '\U{2028}' || c == '\U{2029}' || c == '\U{202F}' || c == '\U{205F}'
      || c == '\U{3000}'
  }

  predicate IsDigit(c: char) {
    '0' <= c <= '9'
  }

  predicate AllSpaces(s: string) {
    forall k :: 0 <= k < |s| ==> IsSpace(s[k])
  }

  /** `s.lstrip()` */
  function StripLeft(s: string): string {
    if |s| > 0 && IsSpace(s[0]) then StripLeft(s[1..]) else s
  }

  /** `s.rstrip()` */
  function StripRight(s: string): string {
    if |s| > 0 && IsSpace(s[|s| - 1]) then StripRight(s[..|s| - 1]) else s
  }

  /** `s.strip()`: drops leading and trailing whitespace. Written as one
      recursion so that unfolding it does not nest two recursions. */
  function Strip(s: string): string {
    if |s| > 0 && IsSpace(s[0]) then Strip(s[1..]) else StripRight(s)
  }

  /** `strip()` is `lstrip()` followed by `rstrip()`. */
  lemma {:induction false} StripIsRightOfLeft(s: string)
    ensures Strip(s) == StripRight(StripLeft(s))
  {
    if |s| > 0 && IsSpace(s[0]) {
      StripIsRightOfLeft(s[1..]);
    }
  }

  lemma {:induction false} StripLeftSuffix(s: string)
    ensures var r := StripLeft(s);
      && |r| <= |s| && r == s[|s| - |r|..]
      && AllSpaces(s[..|s| - |r|])
      && (r == [] || !IsSpace(r[0]))
  {
    if |s| > 0 && IsSpace(s[0]) {
      var t := s[1..];
      StripLeftSuffix(t);
      var r := StripLeft(t);
      var m := |t| - |r|;
      assert r == s[m + 1..] by {
        assert t[m..] == s[m + 1..];
      }
      var spaces, rest := s[..m + 1], t[..m];
      forall k | 0 <= k < m + 1 ensures IsSpace(spaces[k]) {
        if k > 0 {
          assert spaces[k] == rest[k - 1];
        }
      }
    }
  }

  lemma {:induction false} StripRightPrefix(s: string)
    ensures var r := StripRight(s);
      && |r| <= |s| && r == s[..|r|]
      && AllSpaces(s[|r|..])
      && (r == [] || !IsSpace(r[|r| - 1]))
  {
    if |s| > 0 && IsSpace(s[|s| - 1]) {
      var t := s[..|s| - 1];
      StripRightPrefix(t);
      var r := StripRight(t);
      assert r == s[..|r|] by {
        assert t[..|r|] == s[..|r|];
      }
      var spaces, rest := s[|r|..], t[|r|..];
      forall k | 0 <= k < |spaces| ensures IsSpace(spaces[k]) {
        if k < |rest| {
          assert spaces[k] == rest[k];
        }
      }
    }
  }

  /** What `strip()` removes is whitespace, and what it keeps is a slice of
      the input that neither starts nor ends with whitespace. */
  lemma {:induction false} StripIsTrimmedSlice(s: string)
    ensures exists i, j :: 0 <= i <= j <= |s| && Strip(s) == s[i..j]
                        && AllSpaces(s[..i]) && AllSpaces(s[j..])
    ensures Strip(s) == [] || (!IsSpace(Strip(s)[0]) && !IsSpace(Strip(s)[|Strip(s)| - 1]))
  {
    StripIsRightOfLeft(s);
    var l := StripLeft(s);
    StripLeftSuffix(s);
    var r := StripRight(l);
    StripRightPrefix(l);
    var i := |s| - |l|;
    var j := i + |r|;
    assert s[i..j] == r;
    assert s[j..] == l[|r|..];
    if r != [] {
      assert r[0] == l[0];
    }
  }

  /** `s.strip()` is empty exactly when `s` is all whitespace. */
  lemma {:induction false} StripEmptyIff(s: string)
    ensures Strip(s) == [] <==> AllSpaces(s)
  {
    StripIsRightOfLeft(s);
    var l := StripLeft(s);
    StripLeftSuffix(s);
    var r := StripRight(l);
    StripRightPrefix(l);
    var i := |s| - |l|;
    assert s == s[..i] + l;
    if r == [] {
      assert AllSpaces(l[|r|..]);
      forall k | 0 <= k < |s| ensures IsSpace(s[k]) {
        assert s[k] == (s[..i] + l)[k];
      }
    }
    if AllSpaces(s) {
      assert l == [];
    }
  }

  /** `sep.join(xs)` */
  function Join(xs: seq<string>, sep: string): string {
    if |xs| == 0 then ""
    else if |xs| == 1 then xs[0]
    else xs[0] + sep + Join(xs[1..], sep)
  }

  /** `s.split(sep)` for a one-character separator: always at least one
      piece, and no piece holds the separator. */
  function Split(s: string, sep: char): (r: seq<string>)
    ensures |r| >= 1
    ensures forall k :: 0 <= k < |r| ==> sep !in r[k]
  {
    if |s| == 0 then [""]
    else if s[0] == sep then [""] + Split(s[1..], sep)
    else
      var rest := Split(s[1..], sep);
      [[s[0]] + rest[0]] + rest[1..]
  }

  /** Splitting a piece without the separator, followed by the separator,
      yields that piece and then the split of the remainder. */
  lemma {:induction false} SplitPrefix(a: string, sep: char, b: string)
    requires sep !in a
    ensures Split(a + [sep] + b, sep) == [a] + Split(b, sep)
  {
    if a == [] {
      assert a + [sep] + b == [sep] + b;
      assert ([sep] + b)[1..] == b;
    } else {
      assert (a + [sep] + b)[1..] == a[1..] + [sep] + b;
      SplitPrefix(a[1..], sep, b);
      assert [a[0]] + a[1..] == a;
    }
  }

  lemma {:induction false} SplitNoSep(a: string, sep: char)
    requires sep !in a
    ensures Split(a, sep) == [a]
  {
    if a != [] {
      SplitNoSep(a[1..], sep);
      assert [a[0]] + a[1..] == a;
    }
  }

  /** `split` undoes `join` when no piece holds the separator. */
  lemma {:induction false} SplitJoin(xs: seq<string>, sep: char)
    requires |xs| >= 1
    requires forall k :: 0 <= k < |xs| ==> sep !in xs[k]
    ensures Split(Join(xs, [sep]), sep) == xs
  {
    if |xs| == 1 {
      SplitNoSep(xs[0], sep);
    } else {
      SplitJoin(xs[1..], sep);
      SplitPrefix(xs[0], sep, Join(xs[1..], [sep]));
      assert [xs[0]] + xs[1..] == xs;
    }
  }

  /** Strict lexicographic order on code points, the order of Python's `<`
      on `str`. */
  predicate StrLt(a: string, b: string) {
    if |a| == 0 then |b| > 0
    else if |b| == 0 then false
    else a[0] < b[0] || (a[0] == b[0] && StrLt(a[1..], b[1..]))
  }

  predicate StrLe(a: string, b: string) {
    a == b || StrLt(a, b)
  }

  /** Strings that agree up to `n` are ordered by their characters at `n`. */
  lemma {:induction false} StrLtCommonPrefix(a: string, b: string, n: nat)
    requires n < |a| && n < |b| && a[..n] == b[..n] && a[n] < b[n]
    ensures StrLt(a, b)
  {
    if n > 0 {
      assert a[0] == a[..n][0] && b[0] == b[..n][0];
      assert a[1..][..n - 1] == a[..n][1..];
      assert b[1..][..n - 1] == b[..n][1..];
      StrLtCommonPrefix(a[1..], b[1..], n - 1);
    }
  }

  lemma {:induction false} StrLtIrreflexive(a: string)
    ensures !StrLt(a, a)
  {
    if |a| > 0 {
      StrLtIrreflexive(a[1..]);
    }
  }

  lemma {:induction false} StrLtTransitive(a: string, b: string, c: string)
    requires StrLt(a, b) && StrLt(b, c)
    ensures StrLt(a, c)
  {
    if |a| > 0 && |b| > 0 && |c| > 0 && a[0] == b[0] && b[0] == c[0] {
      StrLtTransitive(a[1..], b[1..], c[1..]);
    }
  }

  lemma {:induction false} StrLtTotal(a: string, b: string)
    ensures a == b || StrLt(a, b) || StrLt(b, a)
  {
    if |a| > 0 && |b| > 0 && a[0] == b[0] {
      StrLtTotal(a[1..], b[1..]);
      if a[1..] == b[1..] {
        assert a == [a[0]] + a[1..] && b == [b[0]] + b[1..];
      }
    }
  }

  lemma {:induction false} StrLtAsymmetric(a: string, b: string)
    requires StrLt(a, b)
    ensures !StrLt(b, a)
  {
    if StrLt(b, a) {
      StrLtTransitive(a, b, a);
      StrLtIrreflexive(a);
    }
  }
}
