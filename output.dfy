/**
 * The per-record output assembly of the scraper's command-line entry point:
 * the denominator option, the selected fields in their fixed order, and the
 * join with the chosen separator. Argument parsing is reduced to the
 * exercise-list option; printing and the clipboard are not part of this model.
 */
module Output {
  import opened Wrappers
  import opened Text
  import opened Regex
  import opened Grades

  /** The separators the user chooses from, by name. */
  const SEPARATORS: map<string, char> := map["comma" := ',', "space" := ' ', "tab" := '\t']

  /**
   * The user's output options. `exercises` holds the already-converted 0-based
   * indices of `-e`, or None when the option is absent.
   */
  datatype Options = Options(
    noCnumber: bool,
    noDenominator: bool,
    noFinal: bool,
    separator: string,
    exercises: Option<seq<int>>)

  /** A piece of the exercise list that is not a number. */
  datatype ParseError = NotANumber(piece: string)

  // ---------------------------------------------------------------------------
  // The exercise list option

  /** `[int(ex) - 1 for ex in pieces]`: fails at the first piece that is not a numeral. */
  function ToIndices(pieces: seq<string>): (r: Result<seq<int>, ParseError>)
    ensures r.Success? <==> forall k :: 0 <= k < |pieces| ==> IsNumeral(pieces[k])
    ensures r.Success? ==>
      && |r.value| == |pieces|
      && forall k :: 0 <= k < |pieces| ==> IsNumeral(pieces[k]) && r.value[k] == Value(pieces[k]) - 1
    ensures r.Failure? ==>
      exists k :: 0 <= k < |pieces| && pieces[k] == r.error.piece && !IsNumeral(pieces[k])
        && forall j :: 0 <= j < k ==> IsNumeral(pieces[j])
    decreases |pieces|
  {
    if pieces == [] then Success([])
    else if !IsNumeral(pieces[0]) then Failure(NotANumber(pieces[0]))
    else
      match ToIndices(pieces[1..])
      case Success(rest) => Success([Value(pieces[0]) - 1] + rest)
      case Failure(e) => Failure(e)
  }

  /**
   * The `-e` argument: comma-separated 1-based exercise numbers, as 0-based
   * indices. An argument without a comma is one number: it is accepted exactly
   * when it is a numeral, which rules out the empty argument.
   */
  function ExerciseIndices(arg: string): (r: Result<seq<int>, ParseError>)
    ensures r.Success? ==> |r.value| == |Split(arg, ',')|
    ensures ',' !in arg ==> (r.Success? <==> IsNumeral(arg))
    ensures ',' !in arg && r.Success? ==> r.value == [Value(arg) - 1]
  {
    if ',' !in arg then
      SplitWithoutSep(arg, ',');
      ToIndices(Split(arg, ','))
    else
      ToIndices(Split(arg, ','))
  }

  /**
   * Exercise number 0 becomes index -1, which Python reads as the last
   * exercise: `-e 0` selects the last exercise rather than being refused.
   */
  lemma ExerciseZeroIsLast(g: ScoreRecord, opts: Options)
    requires opts.exercises == Some([-1])
    requires |g.exercises| >= 1
    ensures ExerciseIndices("0") == Success([-1])
    ensures ExerciseFields(g, opts) == [Strip(g.exercises[|g.exercises| - 1], opts.noDenominator)]
  {
    assert ',' !in "0" && IsNumeral("0") && Value("0") == 0;
    var scores := StripAll(g.exercises, opts.noDenominator);
    assert Position(-1, |scores|) == |scores| - 1;
    assert ExerciseFields(g, opts) == Pick(scores, [-1]);
    assert Pick(scores, [-1])[0] == scores[|scores| - 1];
  }

  /** A comma-joined list of numerals reads back as those numbers less one. */
  lemma ExerciseIndicesOfList(numerals: seq<string>)
    requires |numerals| >= 1
    requires forall k :: 0 <= k < |numerals| ==> |numerals[k]| >= 1 && AllDigits(numerals[k])
    ensures var r := ExerciseIndices(Join(',', numerals));
      && r.Success? && |r.value| == |numerals|
      && forall k :: 0 <= k < |numerals| ==> r.value[k] == Value(numerals[k]) - 1
  {
    forall k | 0 <= k < |numerals| ensures ',' !in numerals[k] {
    }
    SplitJoin(numerals, ',');
  }

  // ---------------------------------------------------------------------------
  // Denominator handling

  /** `score.split(' ')[0]`: the text before the first space. */
  function Numerator(score: string): (r: string)
    ensures |r| <= |score| && r == score[..|r|]
    ensures ' ' !in r
    ensures |r| == |score| || score[|r|] == ' '
  {
    SplitHead(score, ' ');
    Split(score, ' ')[0]
  }

  /** The characters of `s` other than the space, in order. */
  function DropSpaces(s: string): string
    decreases |s|
  {
    if s == [] then []
    else (if s[0] == ' ' then [] else [s[0]]) + DropSpaces(s[1..])
  }

  /**
   * `score.replace(" ", "")`: the score with every space removed and every
   * other character kept in order; tabs and other blanks stay.
   */
  function Compact(score: string): (r: string)
    ensures r == DropSpaces(score)
    ensures ' ' !in r
    ensures forall c :: c in r ==> c in score
  {
    ReplaceLeavesNone(score, " ", "");
    FreeOfChar(Replace(score, " ", ""), ' ');
    ReplaceDropsSpaces(score);
    Replace(score, " ", "")
  }

  /** Replacing `" "` by nothing is the space filter. */
  lemma {:induction false} ReplaceDropsSpaces(s: string)
    ensures Replace(s, " ", "") == DropSpaces(s)
    decreases |s|
  {
    if s != [] {
      ReplaceDropsSpaces(s[1..]);
      ReplaceOneCharConcat([s[0]], s[1..], " ", "");
      assert [s[0]] + s[1..] == s;
      assert Replace([s[0]], " ", "") == (if s[0] == ' ' then [] else [s[0]]) by {
        assert [s[0]][1..] == [];
      }
    }
  }

  /** A score with its denominator handled as chosen: no space is left, and nothing new appears. */
  function Strip(score: string, noDenominator: bool): (r: string)
    ensures ' ' !in r
    ensures forall c :: c in r ==> c in score
  {
    if noDenominator then
      var n := Numerator(score);
      assert forall c :: c in n ==> c in score[..|n|];
      n
    else Compact(score)
  }

  function StripAll(scores: seq<string>, noDenominator: bool): (r: seq<string>)
    ensures |r| == |scores|
    ensures forall k :: 0 <= k < |r| ==> r[k] == Strip(scores[k], noDenominator)
  {
    seq(|scores|, k requires 0 <= k < |scores| => Strip(scores[k], noDenominator))
  }

  /** `"<n> / <d>"` keeps `<n>` when its denominator is dropped. */
  lemma NumeratorOfScore(t: string, d: int)
    requires ScoreTextAt(t, d) && t[d] == ' '
    ensures Numerator(t) == t[..d]
  {
    var n := Numerator(t);
    assert forall i :: 0 <= i < d ==> t[i] == t[..d][i];
  }

  /** `"<n> / <d>"` becomes `"<n>/<d>"` when its spaces are removed. */
  lemma CompactOfScore(t: string, d: int)
    requires ScoreTextAt(t, d) && t[d] == ' ' && t[d + 2] == ' '
    ensures Compact(t) == t[..d] + "/" + t[d + 3..]
  {
    var head, tail := t[..d], t[d + 3..];
    var mid := [' ', '/', ' '];
    assert t == head + mid + tail;
    FreeOfChar(head, ' ');
    FreeOfChar(tail, ' ');
    ReplaceFree(head, " ", "");
    ReplaceFree(tail, " ", "");
    ReplaceOneCharConcat(head + mid, tail, " ", "");
    ReplaceOneCharConcat(head, mid, " ", "");
    assert Replace(mid, " ", "") == "/" by {
      assert mid[1..] == "/ ";
      assert Replace("/ ", " ", "") == "/" + Replace(" ", " ", "");
    }
  }

  /** `"<n> / <d>"` loses its denominator, or its two spaces. */
  lemma StripScore(t: string, d: int)
    requires ScoreTextAt(t, d) && t[d] == ' ' && t[d + 2] == ' '
    ensures Strip(t, true) == t[..d]
    ensures Strip(t, false) == t[..d] + "/" + t[d + 3..]
  {
    NumeratorOfScore(t, d);
    CompactOfScore(t, d);
  }

  /** The example of the option's help: `8 / 10` becomes `8`, or `8/10`. */
  lemma StripExample()
    ensures Numerator("8 / 10") == "8" && Compact("8 / 10") == "8/10"
  {
    assert ScoreTextAt("8 / 10", 1);
    StripScore("8 / 10", 1);
  }

  // ---------------------------------------------------------------------------
  // Field selection and order

  /** `if args.exercises:` — the option was given and is not empty. */
  predicate Selected(sel: Option<seq<int>>)
  {
    sel.Some? && sel.value != []
  }

  /**
   * A list index as Python reads it: a negative index counts from the end.
   * The position is the one in range that agrees with `i` modulo `n`.
   */
  function Position(i: int, n: nat): (j: nat)
    requires -(n as int) <= i < n
    ensures j < n && j % n == i % n
  {
    if i < 0 then n + i else i
  }

  /**
   * Every selected index names an exercise of a record with `n` of them, as a
   * Python index: from `-n` to `n - 1`.
   */
  predicate SelectionFits(sel: Option<seq<int>>, n: nat)
  {
    Selected(sel) ==> forall k :: 0 <= k < |sel.value| ==> -(n as int) <= sel.value[k] < n
  }

  /** The elements of `xs` at `indices`, in the order of `indices`, repeats kept. */
  function Pick(xs: seq<string>, indices: seq<int>): (r: seq<string>)
    requires forall k :: 0 <= k < |indices| ==> -|xs| <= indices[k] < |xs|
    ensures |r| == |indices|
    ensures forall k :: 0 <= k < |r| ==> r[k] == xs[Position(indices[k], |xs|)]
  {
    seq(|indices|, k requires 0 <= k < |indices| => xs[Position(indices[k], |xs|)])
  }

  /**
   * The fields of one output line. The account comes first unless suppressed,
   * the final score (its denominator handled) comes last unless suppressed, and
   * the exercises fill the rest.
   */
  function Fields(g: ScoreRecord, opts: Options): (r: seq<string>)
    requires SelectionFits(opts.exercises, |g.exercises|)
    ensures |AccountField(g, opts)| == (if opts.noCnumber then 0 else 1)
    ensures |r| == |AccountField(g, opts)| + |ExerciseFields(g, opts)| + (if opts.noFinal then 0 else 1)
    ensures !opts.noCnumber ==> r[0] == g.account
    ensures !opts.noFinal ==> r[|r| - 1] == Strip(g.final, opts.noDenominator)
  {
    AccountField(g, opts) + ExerciseFields(g, opts) + FinalField(g, opts)
  }

  function AccountField(g: ScoreRecord, opts: Options): seq<string>
  {
    if opts.noCnumber then [] else [g.account]
  }

  function ExerciseFields(g: ScoreRecord, opts: Options): seq<string>
    requires SelectionFits(opts.exercises, |g.exercises|)
  {
    var scores := StripAll(g.exercises, opts.noDenominator);
    if Selected(opts.exercises) then Pick(scores, opts.exercises.value) else scores
  }

  function FinalField(g: ScoreRecord, opts: Options): seq<string>
  {
    if opts.noFinal then [] else [Strip(g.final, opts.noDenominator)]
  }

  /**
   * One output line: the fields joined by the chosen separator. It splits back
   * into its fields when there is one and none holds the separator.
   */
  function Entry(g: ScoreRecord, opts: Options): (line: string)
    requires opts.separator in SEPARATORS
    requires SelectionFits(opts.exercises, |g.exercises|)
    ensures var sep, fields := SEPARATORS[opts.separator], Fields(g, opts);
      |fields| >= 1 && (forall k :: 0 <= k < |fields| ==> sep !in fields[k]) ==>
        Split(line, sep) == fields
  {
    var sep, fields := SEPARATORS[opts.separator], Fields(g, opts);
    if |fields| >= 1 && forall k :: 0 <= k < |fields| ==> sep !in fields[k] then
      SplitJoin(fields, sep);
      Join(sep, fields)
    else
      Join(sep, fields)
  }

  /**
   * Field order, in the middle: after the account come the exercises at the
   * user's indices, in the user's order and with repeats, each with its
   * denominator handled; without a selection, all exercises in page order.
   */
  lemma FieldsExercises(g: ScoreRecord, opts: Options, k: nat)
    requires SelectionFits(opts.exercises, |g.exercises|)
    requires k < (if Selected(opts.exercises) then |opts.exercises.value| else |g.exercises|)
    ensures var ex := if Selected(opts.exercises) then opts.exercises.value[k] else k;
      && -|g.exercises| <= ex < |g.exercises|
      && (ex >= 0 || Selected(opts.exercises))
      && |AccountField(g, opts)| + k < |Fields(g, opts)|
      && Fields(g, opts)[|AccountField(g, opts)| + k]
         == Strip(g.exercises[Position(ex, |g.exercises|)], opts.noDenominator)
  {
    var front, middle, back := AccountField(g, opts), ExerciseFields(g, opts), FinalField(g, opts);
    var scores := StripAll(g.exercises, opts.noDenominator);
    if Selected(opts.exercises) {
      var ex := opts.exercises.value[k];
      assert middle[k] == scores[Position(ex, |scores|)];
    } else {
      assert middle[k] == scores[k];
    }
    assert Fields(g, opts) == front + middle + back;
    assert (front + middle + back)[|front| + k] == middle[k];
  }

  /** A scraped score holds digits, blanks and `/` only. */
  lemma ScoreTextChars(t: string, c: char)
    requires ScoreText(t) && c in t
    ensures IsDigit(c) || IsSpace(c) || c == '/'
  {
    var d :| ScoreTextAt(t, d);
    var i :| 0 <= i < |t| && t[i] == c;
    if i < d {
      assert t[..d][i] == c;
    } else if i >= d + 3 {
      assert t[d + 3..][i - d - 3] == c;
    }
  }

  /** A scraped account holds `c` and digits only. */
  lemma AccountTextChars(t: string, c: char)
    requires AccountText(t) && c in t
    ensures c == 'c' || IsDigit(c)
  {
    var i :| 0 <= i < |t| && t[i] == c;
    if i > 0 {
      assert t[1..][i - 1] == c;
    }
  }

  /** A scraped score, after denominator handling, holds no comma and no space. */
  lemma StrippedScoreAvoids(score: string, noDenominator: bool, sep: char)
    requires ScoreText(score)
    requires sep == ',' || sep == ' '
    ensures sep !in Strip(score, noDenominator)
  {
    var r := Strip(score, noDenominator);
    if sep in r {
      assert sep in score;
      ScoreTextChars(score, sep);
    }
  }

  /** No field of a scraped record holds a comma, nor (after denominator handling) a space. */
  lemma ScrapedFieldsAvoid(g: ScoreRecord, opts: Options, sep: char)
    requires AccountText(g.account) && ScoreText(g.final)
    requires forall k :: 0 <= k < |g.exercises| ==> ScoreText(g.exercises[k])
    requires SelectionFits(opts.exercises, |g.exercises|)
    requires sep == ',' || sep == ' '
    ensures forall k :: 0 <= k < |Fields(g, opts)| ==> sep !in Fields(g, opts)[k]
  {
    if sep in g.account {
      AccountTextChars(g.account, sep);
    }
    StrippedScoreAvoids(g.final, opts.noDenominator, sep);
    var scores := StripAll(g.exercises, opts.noDenominator);
    forall k | 0 <= k < |scores| ensures sep !in scores[k] {
      StrippedScoreAvoids(g.exercises[k], opts.noDenominator, sep);
    }
    var middle := ExerciseFields(g, opts);
    assert forall k :: 0 <= k < |middle| ==> sep !in middle[k];
    ConcatAvoids(AccountField(g, opts), middle, FinalField(g, opts), sep);
  }

  lemma ConcatAvoids(front: seq<string>, middle: seq<string>, back: seq<string>, sep: char)
    requires forall k :: 0 <= k < |front| ==> sep !in front[k]
    requires forall k :: 0 <= k < |middle| ==> sep !in middle[k]
    requires forall k :: 0 <= k < |back| ==> sep !in back[k]
    ensures forall k :: 0 <= k < |front + middle + back| ==> sep !in (front + middle + back)[k]
  {
  }

  /**
   * With the comma or the space separator, the line of a scraped record splits
   * back into exactly its fields.
   */
  lemma ScrapedEntrySplitsIntoFields(g: ScoreRecord, opts: Options)
    requires AccountText(g.account) && ScoreText(g.final)
    requires forall k :: 0 <= k < |g.exercises| ==> ScoreText(g.exercises[k])
    requires SelectionFits(opts.exercises, |g.exercises|)
    requires opts.separator == "comma" || opts.separator == "space"
    requires |Fields(g, opts)| >= 1
    ensures Split(Entry(g, opts), SEPARATORS[opts.separator]) == Fields(g, opts)
  {
    ScrapedFieldsAvoid(g, opts, SEPARATORS[opts.separator]);
  }

  // ---------------------------------------------------------------------------
  // The output loop

  /**
   * The body of the output loop for one record: strip the scores, then append
   * the chosen fields one by one and join them.
   */
  method FormatEntry(g: ScoreRecord, opts: Options) returns (line: string)
    requires opts.separator in SEPARATORS
    requires SelectionFits(opts.exercises, |g.exercises|)
    ensures line == Entry(g, opts)
  {
    var cnumber, scores, final := g.account, g.exercises, g.final;
    var entry: seq<string> := [];

    if opts.noDenominator {
      scores := seq(|scores|, k requires 0 <= k < |scores| => Numerator(scores[k]));
      final := Numerator(final);
    } else {
      scores := seq(|scores|, k requires 0 <= k < |scores| => Compact(scores[k]));
      final := Compact(final);
    }
    assert scores == StripAll(g.exercises, opts.noDenominator);

    if !opts.noCnumber {
      entry := entry + [cnumber];
    }
    ghost var front := entry;
    assert front == AccountField(g, opts);
    ghost var middle := ExerciseFields(g, opts);

    if Selected(opts.exercises) {
      entry := AppendSelected(entry, scores, opts.exercises.value);
    } else {
      entry := entry + scores;
    }
    assert entry == front + middle;
    ghost var back := FinalField(g, opts);

    if !opts.noFinal {
      entry := entry + [final];
    }
    assert entry == Fields(g, opts);
    line := Join(SEPARATORS[opts.separator], entry);
  }

  /** `for ex in selection: entry.append(scores[ex])`, with Python's indexing. */
  method AppendSelected(entry: seq<string>, scores: seq<string>, selection: seq<int>)
    returns (extended: seq<string>)
    requires forall k :: 0 <= k < |selection| ==> -|scores| <= selection[k] < |scores|
    ensures extended == entry + Pick(scores, selection)
  {
    extended := entry;
    for j := 0 to |selection|
      invariant |extended| == |entry| + j && extended[..|entry|] == entry
      invariant forall i :: 0 <= i < j ==> extended[|entry| + i] == scores[Position(selection[i], |scores|)]
    {
      var ex := selection[j];
      if ex < 0 {
        extended := extended + [scores[|scores| + ex]];
      } else {
        extended := extended + [scores[ex]];
      }
    }
    assert extended[|entry|..] == Pick(scores, selection);
  }

  /** One output line per record, in record order. */
  method FormatRecords(grades: seq<ScoreRecord>, opts: Options) returns (outlist: seq<string>)
    requires opts.separator in SEPARATORS
    requires forall k :: 0 <= k < |grades| ==> SelectionFits(opts.exercises, |grades[k].exercises|)
    ensures |outlist| == |grades|
    ensures forall k :: 0 <= k < |grades| ==> outlist[k] == Entry(grades[k], opts)
  {
    outlist := [];
    for n := 0 to |grades|
      invariant |outlist| == n
      invariant forall k :: 0 <= k < n ==> outlist[k] == Entry(grades[k], opts)
    {
      var line := FormatEntry(grades[n], opts);
      ghost var done := outlist;
      outlist := outlist + [line];
      forall k | 0 <= k <= n ensures outlist[k] == Entry(grades[k], opts) {
        if k < n {
          assert outlist[k] == done[k];
        }
      }
    }
  }
}
