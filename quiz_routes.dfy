/** The four handlers of backend/routes/quiz.js around the summary: the trivia query of
    `GET /`, the scoreboard of `GET /scoreboard`, the stats of `GET /stats` and the
    type check and insert of `POST /result`. The database is a user table and a result table
    held as sequences in their stored order. */
module QuizRoutes {
  import opened Js
  import opened QuizSummary

  /** One row of the user table, as far as these handlers read it. */
  datatype UserRow = UserRow(id: UserId, nickname: string)

  /** A reply: a status code with a payload, or a status code with an error message. */
  datatype Response<T> = Ok(status: int, value: T) | Failure(status: int, message: string)

  // ---------------------------------------------------------------------------------------
  // GET /  (query parameters for the Open Trivia API)

  /** The position of a trivia parameter in the order the handler appends them. */
  function ParamRank(key: string): nat {
    if key == "amount" then 0 else if key == "category" then 1 else if key == "difficulty" then 2 else 3
  }

  /** The `URLSearchParams` built from `req.query`: `amount` always (10 when the query has
      none), then `category`, `difficulty` and `type` only when they are truthy. */
  function TriviaParams(amount: Option<string>, category: Option<string>, difficulty: Option<string>,
                        kind: Option<string>): (params: seq<(string, string)>)
    ensures |params| >= 1 && params[0] == ("amount", if amount.Some? then amount.value else "10")
    ensures forall v :: ("category", v) in params <==> Truthy(category) && v == category.value
    ensures forall v :: ("difficulty", v) in params <==> Truthy(difficulty) && v == difficulty.value
    ensures forall v :: ("type", v) in params <==> Truthy(kind) && v == kind.value
    ensures |params| == 1 + (if Truthy(category) then 1 else 0) + (if Truthy(difficulty) then 1 else 0)
      + (if Truthy(kind) then 1 else 0)
  {
    [("amount", if amount.Some? then amount.value else "10")]
      + (if Truthy(category) then [("category", category.value)] else [])
      + (if Truthy(difficulty) then [("difficulty", difficulty.value)] else [])
      + (if Truthy(kind) then [("type", kind.value)] else [])
  }

  /** The parameters come in the order the handler appends them: amount, category, difficulty,
      type. */
  lemma TriviaParamsOrdered(amount: Option<string>, category: Option<string>, difficulty: Option<string>,
                            kind: Option<string>)
    ensures var params := TriviaParams(amount, category, difficulty, kind);
      forall i, j | 0 <= i < j < |params| :: ParamRank(params[i].0) < ParamRank(params[j].0)
  {
    var a := [("amount", if amount.Some? then amount.value else "10")];
    var c := if Truthy(category) then [("category", category.value)] else [];
    var d := if Truthy(difficulty) then [("difficulty", difficulty.value)] else [];
    var t := if Truthy(kind) then [("type", kind.value)] else [];
    ParamRanks();
    OrderedParts(a, c, d, t);
  }

  /** An entry of rank 0, then at most one each of ranks 1, 2 and 3, is in increasing rank. */
  lemma OrderedParts(a: seq<(string, string)>, c: seq<(string, string)>, d: seq<(string, string)>,
                     t: seq<(string, string)>)
    requires |a| == 1 && |c| <= 1 && |d| <= 1 && |t| <= 1
    requires forall k | 0 <= k < |a| :: ParamRank(a[k].0) == 0
    requires forall k | 0 <= k < |c| :: ParamRank(c[k].0) == 1
    requires forall k | 0 <= k < |d| :: ParamRank(d[k].0) == 2
    requires forall k | 0 <= k < |t| :: ParamRank(t[k].0) == 3
    ensures var params := a + c + d + t;
      forall i, j | 0 <= i < j < |params| :: ParamRank(params[i].0) < ParamRank(params[j].0)
  {
    var params := a + c + d + t;
    var nc, nd := |c|, |d|;
    forall i | 0 <= i < |params|
      ensures ParamRank(params[i].0) == SegmentRank(i, nc, nd)
    {
      if i == 0 {
        assert params[i] == a[0];
      } else if i < 1 + nc {
        assert params[i] == c[i - 1];
      } else if i < 1 + nc + nd {
        assert params[i] == d[i - 1 - nc];
      } else {
        assert params[i] == t[i - 1 - nc - nd];
      }
    }
    forall i, j | 0 <= i < j < |params| ensures ParamRank(params[i].0) < ParamRank(params[j].0) {
      SegmentRankIncreasing(i, j, nc, nd);
    }
  }

  lemma ParamRanks()
    ensures ParamRank("amount") == 0 && ParamRank("category") == 1
    ensures ParamRank("difficulty") == 2 && ParamRank("type") == 3
  {
  }

  /** The rank of position `i` in a list of amount, `nc` categories, `nd` difficulties, then types. */
  function SegmentRank(i: nat, nc: nat, nd: nat): nat {
    if i == 0 then 0 else if i < 1 + nc then 1 else if i < 1 + nc + nd then 2 else 3
  }

  lemma SegmentRankIncreasing(i: nat, j: nat, nc: nat, nd: nat)
    requires nc <= 1 && nd <= 1 && i < j < 2 + nc + nd
    ensures SegmentRank(i, nc, nd) < SegmentRank(j, nc, nd)
  {
  }

  // ---------------------------------------------------------------------------------------
  // The database queries

  /** `prisma.quizResult.findMany({ where: { userId } })`, and the `quizResults` a user row
      includes: the results of that user, in stored order. */
  function ResultsOf(results: seq<QuizResult>, id: UserId): (mine: seq<QuizResult>)
    ensures |mine| <= |results|
    ensures forall i | 0 <= i < |mine| :: mine[i].userId == id
    ensures multiset(mine) <= multiset(results)
  {
    if results == [] then []
    else
      var r := results[|results| - 1];
      var front := results[..|results| - 1];
      assert results == front + [r];
      ResultsOf(front, id) + (if r.userId == id then [r] else [])
  }

  /** Every result of the user is kept. */
  lemma {:induction false} ResultsOfComplete(results: seq<QuizResult>, id: UserId, i: nat)
    requires i < |results| && results[i].userId == id
    ensures results[i] in ResultsOf(results, id)
  {
    var front := results[..|results| - 1];
    if i < |results| - 1 {
      ResultsOfComplete(front, id, i);
      assert front[i] == results[i];
    }
  }

  /** Each row of the user is returned as often as it is stored, and no other row: two identical
      results are two rows. */
  lemma {:induction false} ResultsOfCount(results: seq<QuizResult>, id: UserId, r: QuizResult)
    ensures multiset(ResultsOf(results, id))[r] == if r.userId == id then multiset(results)[r] else 0
  {
    if results != [] {
      var front := results[..|results| - 1];
      ResultsOfCount(front, id, r);
      assert results == front + [results[|results| - 1]];
    }
  }

  /** `user?.nickname` for `prisma.user.findUnique({ where: { id } })`: absent when no user
      has that id. */
  function NicknameOf(users: seq<UserRow>, id: UserId): (n: Option<string>)
    ensures n.None? <==> forall i | 0 <= i < |users| :: users[i].id != id
    ensures n.Some? ==> exists i | 0 <= i < |users| :: users[i].id == id && users[i].nickname == n.value
  {
    if users == [] then None
    else if users[0].id == id then Some(users[0].nickname)
    else
      var n := NicknameOf(users[1..], id);
      assert forall i | 1 <= i < |users| :: users[i] == users[1..][i - 1];
      n
  }

  /** User ids are a primary key. */
  predicate UniqueIds(users: seq<UserRow>) {
    forall i, j | 0 <= i < j < |users| :: users[i].id != users[j].id
  }

  /** With unique ids, the lookup finds the nickname of the row at hand. */
  lemma NicknameOfRow(users: seq<UserRow>, i: nat)
    requires UniqueIds(users) && i < |users|
    ensures NicknameOf(users, users[i].id) == Some(users[i].nickname)
  {
    var n := NicknameOf(users, users[i].id);
    var j :| 0 <= j < |users| && users[j].id == users[i].id && users[j].nickname == n.value;
    assert j == i;
  }

  // ---------------------------------------------------------------------------------------
  // GET /scoreboard and GET /stats

  /** The scoreboard entry of one user row. */
  function ScoreboardEntry(results: seq<QuizResult>, u: UserRow): Summary {
    Summarize(Some(u.nickname), ResultsOf(results, u.id))
  }

  /** The stats object of the logged-in user. */
  function StatsOf(users: seq<UserRow>, results: seq<QuizResult>, id: UserId): Summary {
    Summarize(NicknameOf(users, id), ResultsOf(results, id))
  }

  /** `users.map(...)` of the scoreboard handler, running the inline summary code per user. */
  method Scoreboard(users: seq<UserRow>, results: seq<QuizResult>) returns (board: seq<Summary>)
    ensures |board| == |users|
    ensures forall i | 0 <= i < |users| :: board[i] == ScoreboardEntry(results, users[i])
  {
    board := [];
    for i := 0 to |users|
      invariant |board| == i
      invariant forall j | 0 <= j < i :: board[j] == ScoreboardEntry(results, users[j])
    {
      var u := users[i];
      var entry := ComputeSummary(Some(u.nickname), ResultsOf(results, u.id));
      board := board + [entry];
    }
  }

  /** The stats handler, running the same inline summary code on the user's results. */
  method Stats(users: seq<UserRow>, results: seq<QuizResult>, id: UserId) returns (s: Summary)
    ensures s == StatsOf(users, results, id)
  {
    var mine := ResultsOf(results, id);
    var nickname := NicknameOf(users, id);
    s := ComputeSummary(nickname, mine);
  }

  /** For the same database, the scoreboard entry of a user is the stats object of that user. */
  lemma ScoreboardAgreesWithStats(users: seq<UserRow>, results: seq<QuizResult>, i: nat)
    requires UniqueIds(users) && i < |users|
    ensures ScoreboardEntry(results, users[i]) == StatsOf(users, results, users[i].id)
  {
    NicknameOfRow(users, i);
  }

  /** A user without results gets 0 points, 0 questions, 0% and no best category. */
  lemma EntryWithoutResults(results: seq<QuizResult>, u: UserRow)
    requires forall i | 0 <= i < |results| :: results[i].userId != u.id
    ensures ScoreboardEntry(results, u) == Summary(Some(u.nickname), 0, 0, 0, None)
  {
    ResultsOfNone(results, u.id);
  }

  lemma {:induction false} ResultsOfNone(results: seq<QuizResult>, id: UserId)
    requires forall i | 0 <= i < |results| :: results[i].userId != id
    ensures ResultsOf(results, id) == []
  {
    if results != [] {
      ResultsOfNone(results[..|results| - 1], id);
    }
  }

  // ---------------------------------------------------------------------------------------
  // POST /result

  /** The JSON values a request body field can hold. Numbers are integers here. */
  datatype JsonValue = Undefined | Null | Bool(b: bool) | Number(n: int) | Str(s: string)

  /** `{ score, total, category, difficulty } = req.body`. */
  datatype ResultBody = ResultBody(score: JsonValue, total: JsonValue, category: Option<string>,
                                   difficulty: Option<string>)

  /** The guard `typeof score !== 'number' || typeof total !== 'number'` is false. */
  predicate NumbersGiven(body: ResultBody) {
    body.score.Number? && body.total.Number?
  }

  /** The result table that `POST /result` appends to. */
  class ResultStore {
    var results: seq<QuizResult>

    constructor (initial: seq<QuizResult>)
      ensures results == initial
    {
      results := initial;
    }

    /** Reject a body whose score or total is not a number with 400 and store nothing;
        otherwise insert the row (201), unless the database fails (500). */
    method PostResult(userId: UserId, body: ResultBody, databaseUp: bool) returns (resp: Response<QuizResult>)
      modifies this
      ensures !NumbersGiven(body) ==>
        resp == Failure(400, "Score and total must be numbers.") && results == old(results)
      ensures NumbersGiven(body) && !databaseUp ==>
        resp == Failure(500, "Failed to save quiz result.") && results == old(results)
      ensures NumbersGiven(body) && databaseUp ==>
        var row := QuizResult(userId, body.score.n, body.total.n, body.category, body.difficulty);
        resp == Ok(201, row) && results == old(results) + [row]
    {
      if !body.score.Number? || !body.total.Number? {
        return Failure(400, "Score and total must be numbers.");
      }
      if !databaseUp {
        return Failure(500, "Failed to save quiz result.");
      }
      var row := QuizResult(userId, body.score.n, body.total.n, body.category, body.difficulty);
      results := results + [row];
      resp := Ok(201, row);
    }
  }

  /** A stored result is what the user posted, and it shows up in their stats. */
  lemma PostedResultCounted(users: seq<UserRow>, results: seq<QuizResult>, row: QuizResult)
    ensures StatsOf(users, results + [row], row.userId).totalScore
      == StatsOf(users, results, row.userId).totalScore + row.score
    ensures StatsOf(users, results + [row], row.userId).totalQuestions
      == StatsOf(users, results, row.userId).totalQuestions + row.total
  {
    var all := results + [row];
    assert all[..|all| - 1] == results;
    assert ResultsOf(all, row.userId) == ResultsOf(results, row.userId) + [row];
    SumsAppend(ResultsOf(results, row.userId), [row]);
    SumsSingleton(row);
  }
}
