/**
 * Python's `re.findall` for the two fixed patterns the scraper uses:
 *   AccountId  `(?<=\<td>)c[0-9]+`     a `c` and digits right after `<td>`
 *   Score      `(?<=\>)\d+\s\/\s\d+`   digits, blank, `/`, blank, digits right after `>`
 * The scanner tries each position from left to right; where the pattern
 * matches it records the greedy match and resumes at its end, otherwise it
 * moves one character on.
 */
module Regex {
  import opened Wrappers
  import opened Text

  datatype Pattern = AccountId | Score

  /** A match as the half-open index range `s[lo..hi]`. */
  datatype Span = Span(lo: nat, hi: nat)

  const CELL_OPEN := "<td>"

  // ---------------------------------------------------------------------------
  // Declarative meaning of a match

  /** `c[0-9]+` matches all of `t`. */
  ghost predicate AccountText(t: string)
  {
    |t| >= 2 && t[0] == 'c' && AllDigits(t[1..])
  }

  /** `\d+\s/\s\d+` matches all of `t`, the first digit run ending at `d`. */
  ghost predicate ScoreTextAt(t: string, d: int)
  {
    && 1 <= d && d + 4 <= |t|
    && AllDigits(t[..d]) && IsSpace(t[d]) && t[d + 1] == '/' && IsSpace(t[d + 2])
    && AllDigits(t[d + 3..])
  }

  /** `\d+\s/\s\d+` matches all of `t`. */
  ghost predicate ScoreText(t: string)
  {
    exists d :: ScoreTextAt(t, d)
  }

  ghost predicate InLanguage(p: Pattern, t: string)
  {
    match p
    case AccountId => AccountText(t)
    case Score => ScoreText(t)
  }

  /** The lookbehind assertion of `p` holds at index `a`. */
  predicate Lookbehind(p: Pattern, s: string, a: nat)
  {
    match p
    case AccountId => 4 <= a <= |s| && s[a - 4..a] == CELL_OPEN
    case Score => 1 <= a <= |s| && s[a - 1] == '>'
  }

  /**
   * The match `findall` reports at `a`: the lookbehind holds, `s[a..b]` is in
   * the pattern's language and no longer text starting at `a` is (greedy).
   */
  ghost predicate IsMatch(p: Pattern, s: string, a: nat, b: nat)
  {
    && a <= b <= |s|
    && Lookbehind(p, s, a)
    && InLanguage(p, s[a..b])
    && forall b' :: b < b' <= |s| ==> !InLanguage(p, s[a..b'])
  }

  // ---------------------------------------------------------------------------
  // The matcher at one position

  /** End of the greedy match of `p` at `a`, if there is one. */
  function MatchEnd(p: Pattern, s: string, a: nat): (r: Option<nat>)
    requires a <= |s|
    ensures r.Some? ==> a < r.value <= |s|
  {
    match p
    case AccountId =>
      if Lookbehind(p, s, a) && a < |s| && s[a] == 'c' then
        var e := DigitRunEnd(s, a + 1);
        if e > a + 1 then Some(e) else None
      else None
    case Score =>
      if Lookbehind(p, s, a) then
        var d := DigitRunEnd(s, a);
        if d > a && d + 3 < |s| && IsSpace(s[d]) && s[d + 1] == '/' && IsSpace(s[d + 2])
           && IsDigit(s[d + 3])
        then Some(DigitRunEnd(s, d + 3))
        else None
      else None
  }

  lemma DigitsNotSpace(c: char)
    ensures IsDigit(c) ==> !IsSpace(c)
  {
  }

  lemma {:induction false} AccountMatchEnd(s: string, a: nat, b: nat)
    requires a <= |s|
    ensures MatchEnd(AccountId, s, a) == Some(b) <==> IsMatch(AccountId, s, a, b)
  {
    if MatchEnd(AccountId, s, a) == Some(b) {
      assert s[a..b][1..] == s[a + 1..b];
      forall b' | b < b' <= |s| ensures !AccountText(s[a..b']) {
        assert s[a..b'][1..][b - a - 1] == s[b];
      }
    }
    if IsMatch(AccountId, s, a, b) {
      assert s[a] == s[a..b][0];
      assert forall k :: a + 1 <= k < b ==> s[k] == s[a..b][1..][k - a - 1];
      var e := DigitRunEnd(s, a + 1);
      assert e >= b;
      assert s[a..e][1..] == s[a + 1..e];
      assert AccountText(s[a..e]);
    }
  }

  /** In a score text the first digit run is maximal: it can end only where the run of `s` from `a` does. */
  lemma ScoreSplitUnique(s: string, a: nat, b: nat, d: int)
    requires a <= b <= |s|
    ensures ScoreTextAt(s[a..b], d) ==> DigitRunEnd(s, a) == a + d
  {
    if ScoreTextAt(s[a..b], d) {
      var t := s[a..b];
      assert forall k :: a <= k < a + d ==> s[k] == t[..d][k - a];
      assert s[a + d] == t[d];
      DigitsNotSpace(s[a + d]);
    }
  }

  lemma ScoreMatchEndSound(s: string, a: nat, b: nat)
    requires a <= |s| && MatchEnd(Score, s, a) == Some(b)
    ensures IsMatch(Score, s, a, b)
  {
    var d := DigitRunEnd(s, a);
    var t := s[a..b];
    assert b > d + 3;
    assert t[..d - a] == s[a..d];
    assert forall k :: a <= k < d ==> t[..d - a][k - a] == s[k];
    assert t[d - a] == s[d] && t[d - a + 1] == s[d + 1] && t[d - a + 2] == s[d + 2];
    assert t[d - a + 3..] == s[d + 3..b];
    assert forall k :: d + 3 <= k < b ==> t[d - a + 3..][k - d - 3] == s[k];
    assert ScoreTextAt(t, d - a);
    forall b' | b < b' <= |s| ensures !ScoreText(s[a..b']) {
      forall d' ensures !ScoreTextAt(s[a..b'], d') {
        ScoreSplitUnique(s, a, b', d');
        if d' == d - a {
          assert s[a..b'][d' + 3..][b - d - 3] == s[b];
        }
      }
    }
  }

  lemma ScoreMatchEndComplete(s: string, a: nat, b: nat)
    requires a <= |s| && IsMatch(Score, s, a, b)
    ensures MatchEnd(Score, s, a) == Some(b)
  {
    var t := s[a..b];
    var d' :| ScoreTextAt(t, d');
    ScoreSplitUnique(s, a, b, d');
    var d := a + d';
    assert s[d] == t[d'] && s[d + 1] == t[d' + 1] && s[d + 2] == t[d' + 2];
    assert s[d + 3] == t[d' + 3..][0];
    assert forall k :: d + 3 <= k < b ==> s[k] == t[d' + 3..][k - d - 3];
    var e := DigitRunEnd(s, d + 3);
    assert e >= b;
    assert s[a..e][..d'] == t[..d'];
    assert s[a..e][d' + 3..] == s[d + 3..e];
    assert ScoreTextAt(s[a..e], d');
  }

  lemma ScoreMatchEnd(s: string, a: nat, b: nat)
    requires a <= |s|
    ensures MatchEnd(Score, s, a) == Some(b) <==> IsMatch(Score, s, a, b)
  {
    if MatchEnd(Score, s, a) == Some(b) {
      ScoreMatchEndSound(s, a, b);
    }
    if IsMatch(Score, s, a, b) {
      ScoreMatchEndComplete(s, a, b);
    }
  }

  /** The matcher at one position agrees with the declarative meaning of a match. */
  lemma MatchEndIff(p: Pattern, s: string, a: nat, b: nat)
    requires a <= |s|
    ensures MatchEnd(p, s, a) == Some(b) <==> IsMatch(p, s, a, b)
  {
    match p
    case AccountId => AccountMatchEnd(s, a, b);
    case Score => ScoreMatchEnd(s, a, b);
  }

  // ---------------------------------------------------------------------------
  // The scan

  /**
   * The matches `findall` reports from index `i` on: try `i`; on a match record
   * it and resume at its end, otherwise resume at `i + 1`.
   */
  function FindSpans(p: Pattern, s: string, i: nat): (r: seq<Span>)
    requires i <= |s|
    ensures forall k :: 0 <= k < |r| ==> i <= r[k].lo && IsMatch(p, s, r[k].lo, r[k].hi)
    ensures Ordered(r)
    decreases |s| - i
  {
    if i == |s| then []
    else
      match MatchEnd(p, s, i)
      case Some(e) =>
        MatchEndIff(p, s, i, e);
        [Span(i, e)] + FindSpans(p, s, e)
      case None => FindSpans(p, s, i + 1)
  }

  /** Spans in document order, none overlapping the next. */
  ghost predicate Ordered(spans: seq<Span>)
  {
    forall j, k :: 0 <= j < k < |spans| ==> spans[j].hi <= spans[k].lo
  }

  /** `spans` lists every match of `p` in `s`, and nothing else, in document order. */
  ghost predicate AllMatchesInOrder(p: Pattern, s: string, spans: seq<Span>)
  {
    && (forall k :: 0 <= k < |spans| ==> IsMatch(p, s, spans[k].lo, spans[k].hi))
    && Ordered(spans)
    && (forall a: nat, b: nat :: IsMatch(p, s, a, b) ==> Span(a, b) in spans)
  }

  /** The texts of the spans, in order. */
  function Texts(s: string, spans: seq<Span>): (r: seq<string>)
    requires forall k :: 0 <= k < |spans| ==> spans[k].lo <= spans[k].hi <= |s|
    ensures |r| == |spans|
    ensures forall k :: 0 <= k < |r| ==> r[k] == s[spans[k].lo..spans[k].hi]
  {
    seq(|spans|, k requires 0 <= k < |spans| => s[spans[k].lo..spans[k].hi])
  }

  /** `re.findall(p, s)`: the text of each match, in document order. */
  function FindAll(p: Pattern, s: string): (r: seq<string>)
    ensures forall k :: 0 <= k < |r| ==> InLanguage(p, r[k])
  {
    Texts(s, FindSpans(p, s, 0))
  }

  /** No character of a match is `>`. */
  lemma MatchHasNoCloseAngle(p: Pattern, s: string, a: nat, b: nat, k: nat)
    requires IsMatch(p, s, a, b) && a <= k < b
    ensures s[k] != '>'
  {
    var t := s[a..b];
    assert s[k] == t[k - a];
    match p
    case AccountId =>
      if k > a {
        assert t[k - a] == t[1..][k - a - 1];
      }
    case Score =>
      var d :| ScoreTextAt(t, d);
      if k - a < d {
        assert t[k - a] == t[..d][k - a];
      } else if k - a >= d + 3 {
        assert t[k - a] == t[d + 3..][k - a - d - 3];
      }
  }

  /** No match starts strictly inside another: the lookbehind of either pattern needs a `>` just before. */
  lemma NoMatchInside(p: Pattern, s: string, a: nat, b: nat, c: nat)
    requires IsMatch(p, s, a, b) && a < c && Lookbehind(p, s, c)
    ensures b <= c
  {
    if p == AccountId {
      assert s[c - 4..c][3] == s[c - 1];
    }
    if c < b {
      MatchHasNoCloseAngle(p, s, a, b, c - 1);
    }
  }

  /** Every match that starts at or after `i` is reported. */
  lemma {:induction false} FindSpansComplete(p: Pattern, s: string, i: nat, a: nat, b: nat)
    requires i <= a && IsMatch(p, s, a, b)
    ensures Span(a, b) in FindSpans(p, s, i)
    decreases |s| - i
  {
    if i < |s| {
      match MatchEnd(p, s, i)
      case Some(e) =>
        MatchEndIff(p, s, i, e);
        if a == i {
          MatchEndIff(p, s, i, b);
        } else {
          NoMatchInside(p, s, i, e, a);
          FindSpansComplete(p, s, e, a, b);
        }
      case None =>
        MatchEndIff(p, s, i, b);
        FindSpansComplete(p, s, i + 1, a, b);
    }
  }

  ghost predicate NonEmptySpans(spans: seq<Span>)
  {
    forall k :: 0 <= k < |spans| ==> spans[k].lo < spans[k].hi
  }

  /** The first span of an ordered list starts first, and is the only one starting there. */
  lemma FirstIsLeast(x: seq<Span>, sp: Span)
    requires Ordered(x) && NonEmptySpans(x) && sp in x
    ensures x[0].lo <= sp.lo && (sp.lo == x[0].lo ==> sp == x[0])
  {
    var k :| 0 <= k < |x| && x[k] == sp;
    if k > 0 {
      assert x[0].hi <= x[k].lo;
    }
  }

  /** The tail of an ordered list holds exactly the members starting after its head. */
  lemma TailMembers(x: seq<Span>, sp: Span)
    requires Ordered(x) && NonEmptySpans(x) && x != []
    ensures sp in x[1..] <==> sp in x && x[0].lo < sp.lo
  {
    if sp in x[1..] {
      var k :| 0 <= k < |x[1..]| && x[1..][k] == sp;
      assert x[0].hi <= x[k + 1].lo;
    }
    if sp in x && x[0].lo < sp.lo {
      var k :| 0 <= k < |x| && x[k] == sp;
      if k > 0 {
        assert x[1..][k - 1] == sp;
      }
    }
  }

  /** Two ordered lists of non-empty spans with the same members are equal. */
  lemma {:induction false} OrderedUnique(x: seq<Span>, y: seq<Span>)
    requires Ordered(x) && Ordered(y) && NonEmptySpans(x) && NonEmptySpans(y)
    requires forall sp :: sp in x <==> sp in y
    ensures x == y
    decreases |x|
  {
    assert x != [] ==> x[0] in x;
    assert y != [] ==> y[0] in y;
    if x != [] && y != [] {
      FirstIsLeast(x, y[0]);
      FirstIsLeast(y, x[0]);
      forall sp ensures sp in x[1..] <==> sp in y[1..] {
        TailMembers(x, sp);
        TailMembers(y, sp);
      }
      OrderedUnique(x[1..], y[1..]);
      assert x == [x[0]] + x[1..] && y == [y[0]] + y[1..];
    }
  }

  /**
   * The scan returns exactly the matches of `p`, in document order: it lists
   * all of them, and any such list is the scan's.
   */
  lemma FindSpansExact(p: Pattern, s: string, spans: seq<Span>)
    ensures AllMatchesInOrder(p, s, FindSpans(p, s, 0))
    ensures AllMatchesInOrder(p, s, spans) ==> spans == FindSpans(p, s, 0)
  {
    var r := FindSpans(p, s, 0);
    forall a: nat, b: nat | IsMatch(p, s, a, b) ensures Span(a, b) in r {
      FindSpansComplete(p, s, 0, a, b);
    }
    if AllMatchesInOrder(p, s, spans) {
      forall k | 0 <= k < |spans| ensures spans[k].lo < spans[k].hi {
        MatchNonEmpty(p, s, spans[k].lo, spans[k].hi);
      }
      forall k | 0 <= k < |r| ensures r[k].lo < r[k].hi {
        MatchNonEmpty(p, s, r[k].lo, r[k].hi);
      }
      OrderedUnique(spans, r);
    }
  }

  lemma MatchNonEmpty(p: Pattern, s: string, a: nat, b: nat)
    requires IsMatch(p, s, a, b)
    ensures a < b
  {
    if p == Score {
      var d :| ScoreTextAt(s[a..b], d);
    }
  }
}
