/** The two derived views of the scoreboard on the home page (frontend/app/routes/home.tsx):
    the three users with most points, and the users/quizzes/points totals. Both ignore a
    response that is not an array. */
module Home {
  import opened QuizSummary
  import opened Leaderboard
  import QuizRoutes

  /** The parsed scoreboard response: an array of entries, or anything else (an error object). */
  datatype Fetched = EntryArray(entries: seq<Summary>) | NotAnArray

  function Min(a: int, b: int): int {
    if a <= b then a else b
  }

  /** `data.sort((a, b) => b.totalScore - a.totalScore).slice(0, 3)`, or the initial `[]`. */
  function TopScores(data: Fetched): (top: seq<Summary>)
    ensures |top| <= 3
    ensures data.NotAnArray? ==> top == []
    ensures data.EntryArray? ==> |top| == Min(3, |data.entries|)
  {
    match data
    case NotAnArray => []
    case EntryArray(entries) =>
      SortDescPermutation(entries, TotalScoreKey);
      ByTotal(entries)[..Min(3, |entries|)]
  }

  /** The top three are the head of the points board, and no entry left out has more points
      than any entry shown; the shown and left-out entries together are the fetched ones. */
  lemma TopScoresAreHighest(entries: seq<Summary>)
    ensures var top := TopScores(EntryArray(entries));
      && top == ByTotal(entries)[..|top|]
      && SortedDesc(top, TotalScoreKey)
      && multiset(top) <= multiset(entries)
      && (forall x, y | x in top && y in multiset(entries) - multiset(top) :: x.totalScore >= y.totalScore)
  {
    var sorted := ByTotal(entries);
    var top := TopScores(EntryArray(entries));
    var n := |top|;
    SortDescSorted(entries, TotalScoreKey);
    SortDescPermutation(entries, TotalScoreKey);
    PrefixRest(sorted, n);
    SortedSplit(sorted, n);
  }

  /** A prefix and the rest of a sequence share out its elements. */
  lemma PrefixRest(s: seq<Summary>, n: nat)
    requires n <= |s|
    ensures multiset(s) - multiset(s[..n]) == multiset(s[n..])
    ensures multiset(s[..n]) <= multiset(s)
  {
    assert s == s[..n] + s[n..];
  }

  /** In a sorted board every entry of a prefix has at least the points of every later entry. */
  lemma SortedSplit(s: seq<Summary>, n: nat)
    requires SortedDesc(s, TotalScoreKey) && n <= |s|
    ensures forall x, y | x in s[..n] && y in multiset(s[n..]) :: x.totalScore >= y.totalScore
  {
    forall x, y | x in s[..n] && y in multiset(s[n..]) ensures x.totalScore >= y.totalScore {
      var i :| 0 <= i < n && s[..n][i] == x;
      var j :| 0 <= j < |s| - n && s[n..][j] == y;
      assert s[i] == x && s[n + j] == y;
    }
  }

  /** The statistics panel. */
  datatype AppStats = AppStats(users: int, quizzes: int, points: int)

  function SumQuestions(entries: seq<Summary>): int {
    if entries == [] then 0 else SumQuestions(entries[..|entries| - 1]) + entries[|entries| - 1].totalQuestions
  }

  function SumPoints(entries: seq<Summary>): int {
    if entries == [] then 0 else SumPoints(entries[..|entries| - 1]) + entries[|entries| - 1].totalScore
  }

  /** `{ users: data.length, quizzes: Σ totalQuestions, points: Σ totalScore }`, or the initial
      zeros when the response is not an array. */
  function HomeStats(data: Fetched): (s: AppStats)
    ensures data.NotAnArray? ==> s == AppStats(0, 0, 0)
    ensures data.EntryArray? ==> s.users == |data.entries|
  {
    match data
    case NotAnArray => AppStats(0, 0, 0)
    case EntryArray(entries) => AppStats(|entries|, SumQuestions(entries), SumPoints(entries))
  }

  // ---------------------------------------------------------------------------------------
  // The panel against the database behind the scoreboard

  /** The scoreboard the home page fetches, built from one user table and one result table. */
  function Entries(users: seq<QuizRoutes.UserRow>, results: seq<QuizResult>): (es: seq<Summary>)
    ensures |es| == |users|
    ensures forall i | 0 <= i < |users| :: es[i] == QuizRoutes.ScoreboardEntry(results, users[i])
  {
    if users == [] then []
    else Entries(users[..|users| - 1], results) + [QuizRoutes.ScoreboardEntry(results, users[|users| - 1])]
  }

  /** Number of users with the given id. */
  function CountId(users: seq<QuizRoutes.UserRow>, id: UserId): nat {
    if users == [] then 0
    else CountId(users[..|users| - 1], id) + (if users[|users| - 1].id == id then 1 else 0)
  }

  /** The points over the users' own results. */
  function UserPoints(users: seq<QuizRoutes.UserRow>, results: seq<QuizResult>): int {
    if users == [] then 0
    else UserPoints(users[..|users| - 1], results) + SumScores(QuizRoutes.ResultsOf(results, users[|users| - 1].id))
  }

  /** The questions over the users' own results. */
  function UserQuestions(users: seq<QuizRoutes.UserRow>, results: seq<QuizResult>): int {
    if users == [] then 0
    else UserQuestions(users[..|users| - 1], results) + SumTotals(QuizRoutes.ResultsOf(results, users[|users| - 1].id))
  }

  /** The panel's sums are those over the users' own results. */
  lemma {:induction false} EntriesSums(users: seq<QuizRoutes.UserRow>, results: seq<QuizResult>)
    ensures SumPoints(Entries(users, results)) == UserPoints(users, results)
    ensures SumQuestions(Entries(users, results)) == UserQuestions(users, results)
  {
    if users != [] {
      var p := users[..|users| - 1];
      EntriesSums(p, results);
      var es := Entries(users, results);
      assert es[..|es| - 1] == Entries(p, results);
    }
  }

  /** What a result adds to the sums: its score and total once for every user with its id. */
  function ScoreShare(users: seq<QuizRoutes.UserRow>, r: QuizResult): int {
    if users == [] then 0
    else ScoreShare(users[..|users| - 1], r) + (if users[|users| - 1].id == r.userId then r.score else 0)
  }

  function TotalShare(users: seq<QuizRoutes.UserRow>, r: QuizResult): int {
    if users == [] then 0
    else TotalShare(users[..|users| - 1], r) + (if users[|users| - 1].id == r.userId then r.total else 0)
  }

  lemma {:induction false} ShareOfOwner(users: seq<QuizRoutes.UserRow>, r: QuizResult)
    ensures CountId(users, r.userId) == 0 ==> ScoreShare(users, r) == 0 && TotalShare(users, r) == 0
    ensures CountId(users, r.userId) == 1 ==> ScoreShare(users, r) == r.score && TotalShare(users, r) == r.total
  {
    if users != [] {
      ShareOfOwner(users[..|users| - 1], r);
    }
  }

  /** A new result adds its share to the sums over the users' own results. */
  lemma {:induction false} UserSumsSnoc(users: seq<QuizRoutes.UserRow>, results: seq<QuizResult>, r: QuizResult)
    ensures UserPoints(users, results + [r]) == UserPoints(users, results) + ScoreShare(users, r)
    ensures UserQuestions(users, results + [r]) == UserQuestions(users, results) + TotalShare(users, r)
  {
    if users != [] {
      var p, u := users[..|users| - 1], users[|users| - 1];
      UserSumsSnoc(p, results, r);
      var all := results + [r];
      assert all[..|all| - 1] == results;
      var mine := QuizRoutes.ResultsOf(results, u.id);
      assert QuizRoutes.ResultsOf(all, u.id) == mine + (if r.userId == u.id then [r] else []);
      if r.userId == u.id {
        SumsAppend(mine, [r]);
        SumsSingleton(r);
      } else {
        assert mine + [] == mine;
      }
    }
  }

  /** Every result belongs to exactly one user. */
  predicate OwnedOnce(users: seq<QuizRoutes.UserRow>, results: seq<QuizResult>) {
    forall i | 0 <= i < |results| :: CountId(users, results[i].userId) == 1
  }

  /** When every result belongs to exactly one user, the panel's points and quizzes are the
      sums over the whole result table, and its user count is the number of users. */
  lemma HomeStatsOfDatabase(users: seq<QuizRoutes.UserRow>, results: seq<QuizResult>)
    requires OwnedOnce(users, results)
    ensures HomeStats(EntryArray(Entries(users, results)))
      == AppStats(|users|, SumTotals(results), SumScores(results))
  {
    EntriesSums(users, results);
    UserSumsOwned(users, results);
  }

  lemma {:induction false} UserSumsOwned(users: seq<QuizRoutes.UserRow>, results: seq<QuizResult>)
    requires OwnedOnce(users, results)
    ensures UserPoints(users, results) == SumScores(results)
    ensures UserQuestions(users, results) == SumTotals(results)
  {
    if results == [] {
      UserSumsEmpty(users);
    } else {
      var p, r := results[..|results| - 1], results[|results| - 1];
      assert OwnedOnce(users, p) by {
        forall i | 0 <= i < |p| ensures CountId(users, p[i].userId) == 1 {
          assert p[i] == results[i];
        }
      }
      UserSumsOwned(users, p);
      assert results == p + [r];
      UserSumsSnoc(users, p, r);
      ShareOfOwner(users, r);
    }
  }

  lemma {:induction false} UserSumsEmpty(users: seq<QuizRoutes.UserRow>)
    ensures UserPoints(users, []) == 0 && UserQuestions(users, []) == 0
  {
    if users != [] {
      UserSumsEmpty(users[..|users| - 1]);
      assert QuizRoutes.ResultsOf([], users[|users| - 1].id) == [];
    }
  }
}
