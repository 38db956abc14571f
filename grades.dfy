/**
 * The text processing of the scraper's three page handlers: the login check,
 * the per-student score page and the account listing. Each response body is a
 * parameter; it is taken to be already HTML-unescaped.
 */
module Grades {
  import opened Wrappers
  import opened Text
  import opened Regex

  /** Text the login page shows when the credentials are refused. */
  const LOGIN_FAILURE_MARKER := "Unable to sign in."
  /** What the score page shows for an exercise that was never attempted. */
  const NO_ATTEMPT := "- - - - - -"
  /** The score that stands in for `NO_ATTEMPT`. */
  const NO_ATTEMPT_SCORE := "0 / 0"

  /** One student's scores: the account, the per-exercise scores, the final score. */
  datatype ScoreRecord = ScoreRecord(account: string, exercises: seq<string>, final: string)

  /** Taking the last match of a score page that has none (an index error in the scraper). */
  datatype ScrapeError = NoScoreFound

  // ---------------------------------------------------------------------------
  // Login

  /** The login succeeded: the response does not contain the failure marker. */
  function LoginSucceeded(body: string): (ok: bool)
    ensures ok <==> Free(body, LOGIN_FAILURE_MARKER)
  {
    !Contains(body, LOGIN_FAILURE_MARKER)
  }

  /** A body shorter than the marker, the empty body in particular, counts as success. */
  lemma ShortBodyLogsIn(body: string)
    requires |body| < |LOGIN_FAILURE_MARKER|
    ensures LoginSucceeded(body)
  {
    forall i ensures !OccursAt(body, LOGIN_FAILURE_MARKER, i) {
    }
  }

  /** Whatever surrounds it, a body containing the marker is a failed login. */
  lemma MarkerMeansFailure(before: string, after: string)
    ensures !LoginSucceeded(before + LOGIN_FAILURE_MARKER + after)
  {
    var body := before + LOGIN_FAILURE_MARKER + after;
    assert body[|before|..|before| + |LOGIN_FAILURE_MARKER|] == LOGIN_FAILURE_MARKER;
    assert OccursAt(body, LOGIN_FAILURE_MARKER, |before|);
  }

  // ---------------------------------------------------------------------------
  // Account listing

  /** The account IDs of the listing page: every `c<digits>` right after `<td>`, in order. */
  function CAccounts(body: string): (ids: seq<string>)
    ensures forall k :: 0 <= k < |ids| ==> AccountText(ids[k])
  {
    FindAll(AccountId, body)
  }

  /**
   * The IDs are the texts of all account cells of the page, in document order,
   * duplicates kept: `spans` is any list of all cell matches in order.
   */
  lemma CAccountsAreAllCells(body: string, spans: seq<Span>)
    requires AllMatchesInOrder(AccountId, body, spans)
    ensures forall k :: 0 <= k < |spans| ==> spans[k].lo <= spans[k].hi <= |body|
    ensures CAccounts(body) == Texts(body, spans)
  {
    FindSpansExact(AccountId, body, spans);
  }

  /** A page without any account cell lists no account. */
  lemma NoCellNoAccounts(body: string)
    requires forall a: nat, b: nat :: !IsMatch(AccountId, body, a, b)
    ensures CAccounts(body) == []
  {
    CAccountsAreAllCells(body, []);
  }

  // ---------------------------------------------------------------------------
  // Score page

  /** Replace every no-attempt placeholder by `0 / 0`, left to right. */
  function Normalize(body: string): (r: string)
    ensures Free(r, NO_ATTEMPT)
  {
    ReplaceLeavesNone(body, NO_ATTEMPT, NO_ATTEMPT_SCORE);
    Replace(body, NO_ATTEMPT, NO_ATTEMPT_SCORE)
  }

  /**
   * Placeholders are replaced left to right: the first one becomes `0 / 0`,
   * the text before it is kept, and the rest of the page is normalized on its own.
   */
  lemma NormalizeFirstPlaceholder(before: string, after: string)
    requires forall i :: 0 <= i < |before| ==> !OccursAt(before + NO_ATTEMPT + after, NO_ATTEMPT, i)
    ensures Normalize(before + NO_ATTEMPT + after) == before + NO_ATTEMPT_SCORE + Normalize(after)
  {
    ReplaceFirst(before, NO_ATTEMPT, NO_ATTEMPT_SCORE, after);
  }

  /** A page without placeholders is left as it is. */
  lemma NormalizeKeepsCleanPage(body: string)
    requires Free(body, NO_ATTEMPT)
    ensures Normalize(body) == body
  {
    ReplaceFree(body, NO_ATTEMPT, NO_ATTEMPT_SCORE);
  }

  /**
   * Normalizing twice is normalizing once: a page that already shows `0 / 0`
   * where the placeholder was yields the same record.
   */
  lemma NormalizeIdempotent(body: string)
    ensures Normalize(Normalize(body)) == Normalize(body)
  {
    NormalizeKeepsCleanPage(Normalize(body));
  }

  /** All `<digits> / <digits>` texts right after a `>` in the normalized page, in order. */
  function ScoreMatches(body: string): (ms: seq<string>)
    ensures forall k :: 0 <= k < |ms| ==> ScoreText(ms[k])
  {
    FindAll(Score, Normalize(body))
  }

  /**
   * The record of one student: every match but the last is an exercise score,
   * the last is the final score; without any match there is no record.
   */
  function Scores(account: string, body: string): (r: Result<ScoreRecord, ScrapeError>)
    ensures var ms := ScoreMatches(body);
      && (r.Success? <==> |ms| >= 1)
      && (r.Success? ==>
            && r.value.account == account
            && |r.value.exercises| == |ms| - 1
            && r.value.exercises + [r.value.final] == ms)
  {
    var ms := ScoreMatches(body);
    if |ms| == 0 then Failure(NoScoreFound)
    else Success(ScoreRecord(account, ms[..|ms| - 1], ms[|ms| - 1]))
  }

  /** The page `>- - - - - -<`, one unattempted exercise cell, yields the one score `0 / 0`. */
  lemma NoAttemptReadsAsZero()
    ensures ScoreMatches(">" + NO_ATTEMPT + "<") == [NO_ATTEMPT_SCORE]
  {
    var body := ">" + NO_ATTEMPT + "<";
    var page := ">0 / 0<";
    assert body[1..][..|NO_ATTEMPT|] == NO_ATTEMPT;
    assert body[1..][|NO_ATTEMPT|..] == "<";
    assert Replace("<", NO_ATTEMPT, NO_ATTEMPT_SCORE) == "<";
    assert body[..|NO_ATTEMPT|][0] != NO_ATTEMPT[0];
    assert Replace(body[1..], NO_ATTEMPT, NO_ATTEMPT_SCORE) == NO_ATTEMPT_SCORE + "<";
    assert Replace(body, NO_ATTEMPT, NO_ATTEMPT_SCORE) == [body[0]] + NO_ATTEMPT_SCORE + "<";
    assert Normalize(body) == page;
    assert DigitRunEnd(page, 1) == 2;
    assert DigitRunEnd(page, 5) == 6;
    assert MatchEnd(Score, page, 0) == None;
    assert MatchEnd(Score, page, 1) == Some(6);
    assert FindSpans(Score, page, 6) == [];
    assert FindSpans(Score, page, 0) == [Span(1, 6)];
    assert page[1..6] == NO_ATTEMPT_SCORE;
  }

  /**
   * The scores are the texts of all score matches of the normalized page, in
   * document order, duplicates kept: `spans` is any list of all those matches in order.
   */
  lemma ScoresAreAllMatches(body: string, spans: seq<Span>)
    requires AllMatchesInOrder(Score, Normalize(body), spans)
    ensures forall k :: 0 <= k < |spans| ==> spans[k].lo <= spans[k].hi <= |Normalize(body)|
    ensures ScoreMatches(body) == Texts(Normalize(body), spans)
  {
    FindSpansExact(Score, Normalize(body), spans);
  }

  /** Every score of a record has the shape `<digits> <blank> / <blank> <digits>`. */
  lemma ScoresHaveScoreShape(account: string, body: string)
    requires Scores(account, body).Success?
    ensures var g := Scores(account, body).value;
      ScoreText(g.final) && forall k :: 0 <= k < |g.exercises| ==> ScoreText(g.exercises[k])
  {
    var ms := ScoreMatches(body);
    var g := Scores(account, body).value;
    assert g.final == ms[|ms| - 1];
    assert forall k :: 0 <= k < |g.exercises| ==> g.exercises[k] == ms[k];
  }

  /** A page already normalized gives the same record as the raw page. */
  lemma ScoresOfNormalizedPage(account: string, body: string)
    ensures Scores(account, Normalize(body)) == Scores(account, body)
  {
    NormalizeIdempotent(body);
  }
}
