/**
 * The Python string operations the scraper relies on: substring test (`pat in s`),
 * `str.replace`, `str.split` and `str.join` with a one-character separator,
 * and ASCII character classes used by its regular expressions.
 */
module Text {

  /** ASCII decimal digit, the class `[0-9]` (and `\d` restricted to ASCII). */
  predicate IsDigit(c: char)
  {
    '0' <= c <= '9'
  }

  /** ASCII whitespace, the class `\s` restricted to ASCII. */
  predicate IsSpace(c: char)
  {
    c == ' ' || c == '\t' || c == '\n' || c == '\r' || c == '\U{B}' || c == '\U{C}'
  }

  predicate AllDigits(t: string)
  {
    forall k :: 0 <= k < |t| ==> IsDigit(t[k])
  }

  /** A non-empty run of digits: what `int()` accepts in this model. */
  predicate IsNumeral(t: string)
  {
    |t| >= 1 && AllDigits(t)
  }

  function DigitValue(c: char): (v: nat)
    requires IsDigit(c)
    ensures v <= 9
  {
    c as int - '0' as int
  }

  /** The number a numeral denotes, read most significant digit first. */
  function Value(t: string): (v: nat)
    requires AllDigits(t)
    decreases |t|
  {
    if t == [] then 0 else Value(t[..|t| - 1]) * 10 + DigitValue(t[|t| - 1])
  }

  /** End of the maximal run of digits that starts at `i`. */
  function DigitRunEnd(s: string, i: nat): (j: nat)
    requires i <= |s|
    ensures i <= j <= |s|
    ensures forall k :: i <= k < j ==> IsDigit(s[k])
    ensures j == |s| || !IsDigit(s[j])
    decreases |s| - i
  {
    if i < |s| && IsDigit(s[i]) then DigitRunEnd(s, i + 1) else i
  }

  // ---------------------------------------------------------------------------
  // Substring test

  /** `pat` occurs in `s` at index `i`. */
  ghost predicate OccursAt(s: string, pat: string, i: int)
  {
    0 <= i && i + |pat| <= |s| && s[i..i + |pat|] == pat
  }

  /** `pat` occurs nowhere in `s`. */
  ghost predicate Free(s: string, pat: string)
  {
    forall i :: !OccursAt(s, pat, i)
  }

  /** A one-character pattern occurs nowhere exactly when the character does not. */
  lemma FreeOfChar(s: string, c: char)
    ensures Free(s, [c]) <==> c !in s
  {
    if c in s {
      var i :| 0 <= i < |s| && s[i] == c;
      assert s[i..i + 1] == [c];
      assert OccursAt(s, [c], i);
    } else {
      forall i | 0 <= i && i + 1 <= |s| ensures !OccursAt(s, [c], i) {
        assert s[i..i + 1][0] == s[i];
      }
    }
  }

  /** Python's `pat in s[i:]`, as a left-to-right scan of candidate positions. */
  function ContainsFrom(s: string, pat: string, i: nat): bool
    decreases |s| - i
  {
    i + |pat| <= |s| && (s[i..i + |pat|] == pat || ContainsFrom(s, pat, i + 1))
  }

  /** Python's `pat in s`: the scan finds `pat` exactly when it occurs at some index. */
  function Contains(s: string, pat: string): (b: bool)
    ensures b <==> !Free(s, pat)
  {
    ContainsFromIff(s, pat, 0);
    ContainsFrom(s, pat, 0)
  }

  lemma {:induction false} ContainsFromIff(s: string, pat: string, i: nat)
    ensures ContainsFrom(s, pat, i) <==> exists j :: i <= j && OccursAt(s, pat, j)
    decreases |s| - i
  {
    if i + |pat| <= |s| && s[i..i + |pat|] != pat {
      ContainsFromIff(s, pat, i + 1);
      if exists j :: i <= j && OccursAt(s, pat, j) {
        var j :| i <= j && OccursAt(s, pat, j);
        assert j != i;
      }
    } else if i + |pat| <= |s| {
      assert OccursAt(s, pat, i);
    }
  }

  // ---------------------------------------------------------------------------
  // str.replace

  /**
   * Python's `s.replace(pat, rep)` for a non-empty `pat`: occurrences are found
   * left to right, without overlap, and each one becomes `rep`.
   */
  function Replace(s: string, pat: string, rep: string): (r: string)
    requires pat != []
    ensures forall c :: c in r ==> c in s || c in rep
    decreases |s|
  {
    if |s| < |pat| then s
    else if s[..|pat|] == pat then rep + Replace(s[|pat|..], pat, rep)
    else [s[0]] + Replace(s[1..], pat, rep)
  }

  /** Slicing a suffix: a window of `s[d..]` is the shifted window of `s`. */
  lemma WindowOfSuffix(s: string, d: nat, i: nat, n: nat)
    requires d + i + n <= |s|
    ensures s[d..][i..i + n] == s[d + i..d + i + n]
  {
  }

  /** Without an occurrence of `pat`, replacing changes nothing. */
  lemma {:induction false} ReplaceFree(s: string, pat: string, rep: string)
    requires pat != []
    requires Free(s, pat)
    ensures Replace(s, pat, rep) == s
    decreases |s|
  {
    if |s| >= |pat| {
      forall i ensures !OccursAt(s[1..], pat, i) {
        if 0 <= i && i + |pat| <= |s| - 1 {
          WindowOfSuffix(s, 1, i, |pat|);
          assert !OccursAt(s, pat, i + 1);
        }
      }
      ReplaceFree(s[1..], pat, rep);
      assert !OccursAt(s, pat, 0);
      assert [s[0]] + s[1..] == s;
    }
  }

  /**
   * The first occurrence is replaced: when `pat` does not occur before the
   * copy of it that follows `a`, the result is `a`, then `rep`, then the
   * replacement of what follows, with no occurrence overlapping the first.
   */
  lemma {:induction false} ReplaceFirst(a: string, pat: string, rep: string, b: string)
    requires pat != []
    requires forall i :: 0 <= i < |a| ==> !OccursAt(a + pat + b, pat, i)
    ensures Replace(a + pat + b, pat, rep) == a + rep + Replace(b, pat, rep)
    decreases |a|
  {
    var s := a + pat + b;
    if a == [] {
      assert s == pat + b;
      assert s[..|pat|] == pat && s[|pat|..] == b;
    } else {
      var t := a[1..] + pat + b;
      assert s[1..] == t;
      assert !OccursAt(s, pat, 0);
      assert |s| >= |pat| && s[..|pat|] != pat;
      assert Replace(s, pat, rep) == [s[0]] + Replace(t, pat, rep);
      ShiftFree(s, pat, |a| - 1);
      ReplaceFirst(a[1..], pat, rep, b);
      assert [a[0]] + a[1..] == a;
    }
  }

  /** No occurrence at indices `1..n` of `s` means none at `0..n-1` of `s[1..]`. */
  lemma ShiftFree(s: string, pat: string, n: nat)
    requires |s| >= 1
    requires forall i :: 0 <= i <= n ==> !OccursAt(s, pat, i)
    ensures forall i :: 0 <= i < n ==> !OccursAt(s[1..], pat, i)
  {
    forall i | 0 <= i < n ensures !OccursAt(s[1..], pat, i) {
      assert !OccursAt(s, pat, i + 1);
      if i + |pat| < |s| {
        WindowOfSuffix(s, 1, i, |pat|);
      }
    }
  }

  /**
   * Characters that no replacement introduces survive only where the input had
   * them: a prefix `w` of the output that avoids `rep[0]` is a prefix of the input.
   */
  lemma {:induction false} ReplacePrefix(t: string, pat: string, rep: string, w: string)
    requires pat != [] && rep != []
    requires rep[0] !in w
    ensures |w| <= |Replace(t, pat, rep)| && Replace(t, pat, rep)[..|w|] == w
            ==> |w| <= |t| && t[..|w|] == w
    decreases |t|
  {
    if w != [] && |t| >= |pat| {
      var r := Replace(t, pat, rep);
      if t[..|pat|] == pat {
        assert r[0] == rep[0];
      } else {
        var r' := Replace(t[1..], pat, rep);
        assert r == [t[0]] + r';
        ReplacePrefix(t[1..], pat, rep, w[1..]);
        if |w| <= |r| && r[..|w|] == w {
          assert r'[..|w| - 1] == w[1..];
          assert t[..|w|] == [t[0]] + t[1..][..|w| - 1];
        }
      }
    }
  }

  /**
   * When the replacement cannot take part in a new occurrence (it starts and
   * ends with characters foreign to `pat` and is no longer than it, or it is
   * empty and `pat` is one character), no occurrence of `pat` is left behind.
   */
  lemma {:induction false} ReplaceLeavesNone(s: string, pat: string, rep: string)
    requires pat != []
    requires || (rep == [] && |pat| == 1)
             || (rep != [] && |rep| <= |pat| && rep[0] !in pat && rep[|rep| - 1] !in pat)
    ensures Free(Replace(s, pat, rep), pat)
    decreases |s|
  {
    var r := Replace(s, pat, rep);
    if |s| < |pat| {
    } else if s[..|pat|] == pat {
      ReplaceLeavesNone(s[|pat|..], pat, rep);
      if rep == [] {
        assert r == Replace(s[|pat|..], pat, rep);
      } else {
        FreeAfterReplacement(rep, Replace(s[|pat|..], pat, rep), pat);
      }
    } else {
      var r' := Replace(s[1..], pat, rep);
      ReplaceLeavesNone(s[1..], pat, rep);
      assert r == [s[0]] + r';
      FreeAfterFirst(s[0], r', pat);
      if |pat| <= |r| {
        if rep == [] {
          assert r[..1] == s[..1];
        } else {
          ReplacePrefix(s[1..], pat, rep, pat[1..]);
          assert r[..|pat|] == [s[0]] + r'[..|pat| - 1];
          assert s[..|pat|] == [s[0]] + s[1..][..|pat| - 1];
        }
        assert !OccursAt(r, pat, 0);
      }
    }
  }

  /** A replacement that ends in a character foreign to `pat`, and is no longer, starts no occurrence. */
  lemma FreeAfterReplacement(rep: string, rest: string, pat: string)
    requires Free(rest, pat)
    requires rep != [] && |rep| <= |pat| && rep[|rep| - 1] !in pat
    ensures Free(rep + rest, pat)
  {
    var r := rep + rest;
    forall i | 0 <= i && i + |pat| <= |r| ensures !OccursAt(r, pat, i) {
      if i >= |rep| {
        assert r[|rep|..] == rest;
        WindowOfSuffix(r, |rep|, i - |rep|, |pat|);
        assert !OccursAt(rest, pat, i - |rep|);
      } else {
        var m := |rep| - 1;
        assert r[i..i + |pat|][m - i] == rep[m];
      }
    }
  }

  /** Prefixing one character can create an occurrence only at index 0. */
  lemma FreeAfterFirst(c: char, rest: string, pat: string)
    requires Free(rest, pat)
    ensures forall i :: 1 <= i ==> !OccursAt([c] + rest, pat, i)
  {
    var r := [c] + rest;
    forall i | 1 <= i && i + |pat| <= |r| ensures !OccursAt(r, pat, i) {
      assert r[1..] == rest;
      WindowOfSuffix(r, 1, i - 1, |pat|);
      assert !OccursAt(rest, pat, i - 1);
    }
  }

  /** Replacing a one-character pattern distributes over concatenation. */
  lemma {:induction false} ReplaceOneCharConcat(a: string, b: string, pat: string, rep: string)
    requires |pat| == 1
    ensures Replace(a + b, pat, rep) == Replace(a, pat, rep) + Replace(b, pat, rep)
    decreases |a|
  {
    if a != [] {
      ReplaceOneCharConcat(a[1..], b, pat, rep);
      assert (a + b)[1..] == a[1..] + b;
      assert (a + b)[..1] == a[..1];
      var tail := Replace(a[1..], pat, rep) + Replace(b, pat, rep);
      if a[..1] == pat {
        assert Replace(a + b, pat, rep) == rep + tail;
        assert Replace(a, pat, rep) == rep + Replace(a[1..], pat, rep);
      } else {
        assert Replace(a + b, pat, rep) == [a[0]] + tail;
        assert Replace(a, pat, rep) == [a[0]] + Replace(a[1..], pat, rep);
      }
    } else {
      assert a + b == b;
    }
  }

  // ---------------------------------------------------------------------------
  // str.split and str.join with a one-character separator

  /** Python's `s.split(sep)`: always at least one piece; the empty string gives `[""]`. */
  function Split(s: string, sep: char): (pieces: seq<string>)
    ensures |pieces| >= 1
    decreases |s|
  {
    if s == [] then [[]]
    else
      var rest := Split(s[1..], sep);
      if s[0] == sep then [[]] + rest else [[s[0]] + rest[0]] + rest[1..]
  }

  /**
   * Python's `sep.join(fields)`: one field is the line itself; with more, the
   * line starts with the first field and the separator.
   */
  function Join(sep: char, fields: seq<string>): (r: string)
    ensures |fields| == 1 ==> r == fields[0]
    ensures |fields| >= 2 ==> fields[0] + [sep] <= r
    decreases |fields|
  {
    if fields == [] then []
    else if |fields| == 1 then fields[0]
    else fields[0] + [sep] + Join(sep, fields[1..])
  }

  /** Joining the pieces of a split gives back the original string. */
  lemma {:induction false} JoinSplit(s: string, sep: char)
    ensures Join(sep, Split(s, sep)) == s
    decreases |s|
  {
    if s != [] {
      var rest := Split(s[1..], sep);
      JoinSplit(s[1..], sep);
      if s[0] == sep {
        assert Join(sep, [[]] + rest) == [] + [sep] + Join(sep, rest);
      } else if |rest| == 1 {
        assert Join(sep, [[s[0]] + rest[0]]) == [s[0]] + rest[0];
      } else {
        var pieces := [[s[0]] + rest[0]] + rest[1..];
        assert pieces[1..] == rest[1..];
        assert Join(sep, rest) == rest[0] + [sep] + Join(sep, rest[1..]);
      }
    }
  }

  /** The first piece of a split is the longest prefix free of `sep`. */
  lemma {:induction false} SplitHead(s: string, sep: char)
    ensures var h := Split(s, sep)[0];
      |h| <= |s| && h == s[..|h|] && sep !in h && (|h| == |s| || s[|h|] == sep)
    decreases |s|
  {
    if s != [] {
      var rest := Split(s[1..], sep);
      SplitHead(s[1..], sep);
      if s[0] == sep {
        assert Split(s, sep)[0] == [];
      } else {
        var h := [s[0]] + rest[0];
        assert Split(s, sep)[0] == h;
        assert s == [s[0]] + s[1..];
        assert h == s[..|h|];
      }
    }
  }

  lemma {:induction false} SplitWithoutSep(a: string, sep: char)
    requires sep !in a
    ensures Split(a, sep) == [a]
    decreases |a|
  {
    if a != [] {
      SplitWithoutSep(a[1..], sep);
      assert [a[0]] + a[1..] == a;
    }
  }

  lemma {:induction false} SplitAfterFirst(a: string, b: string, sep: char)
    requires sep !in a
    ensures Split(a + [sep] + b, sep) == [a] + Split(b, sep)
    decreases |a|
  {
    var s := a + [sep] + b;
    if a == [] {
      assert s[1..] == b;
    } else {
      assert s[1..] == a[1..] + [sep] + b;
      SplitAfterFirst(a[1..], b, sep);
      assert [a[0]] + a[1..] == a;
    }
  }

  /** Splitting a join gives back the fields, provided no field holds the separator. */
  lemma {:induction false} SplitJoin(fields: seq<string>, sep: char)
    requires |fields| >= 1
    requires forall k :: 0 <= k < |fields| ==> sep !in fields[k]
    ensures Split(Join(sep, fields), sep) == fields
    decreases |fields|
  {
    if |fields| == 1 {
      SplitWithoutSep(fields[0], sep);
    } else {
      SplitJoin(fields[1..], sep);
      SplitAfterFirst(fields[0], Join(sep, fields[1..]), sep);
    }
  }
}
