/** The quiz-taking page (frontend/app/routes/QuizPage.tsx): start a quiz, receive the
    questions, answer them one by one, see the score, post the result, restart. The React
    state of the page is the field set of a class; every handler is a method on it. */
module QuizPage {
  import opened Js
  import QuizRoutes

  /** One question of the Open Trivia API. */
  datatype Question = Question(
    question: string, correctAnswer: string, incorrectAnswers: seq<string>,
    kind: string, category: string, difficulty: string)

  /** What the `fetch` of the questions ends in: a parsed response, or a thrown error. */
  datatype FetchOutcome = Fetched(responseCode: int, results: seq<Question>) | FetchFailed

  /** The body `JSON.stringify` sends to `POST /quiz/result`, and its `Authorization` header.
      `category` and `difficulty` are absent when there is no first question. */
  datatype PostedResult = PostedResult(
    authorization: string, score: int, total: int, category: Option<string>, difficulty: Option<string>)

  /** `answers.filter((a, i) => a === questions[i].correct_answer).length`. */
  function Score(answers: seq<string>, qs: seq<Question>): (n: nat)
    requires |answers| <= |qs|
    ensures n <= |answers|
  {
    if answers == [] then 0
    else
      var i := |answers| - 1;
      Score(answers[..i], qs) + (if answers[i] == qs[i].correctAnswer then 1 else 0)
  }

  /** The positions answered correctly. */
  function CorrectPositions(answers: seq<string>, qs: seq<Question>): set<nat>
    requires |answers| <= |qs|
  {
    set i: nat | i < |answers| && answers[i] == qs[i].correctAnswer
  }

  /** The score is the number of positions answered correctly. */
  lemma {:induction false} ScoreCountsCorrect(answers: seq<string>, qs: seq<Question>)
    requires |answers| <= |qs|
    ensures Score(answers, qs) == |CorrectPositions(answers, qs)|
  {
    if answers == [] {
      assert CorrectPositions(answers, qs) == {};
    } else {
      var i := |answers| - 1;
      var front := answers[..i];
      ScoreCountsCorrect(front, qs);
      var before := CorrectPositions(front, qs);
      assert i !in before;
      if answers[i] == qs[i].correctAnswer {
        assert CorrectPositions(answers, qs) == before + {i};
      } else {
        assert CorrectPositions(answers, qs) == before;
      }
    }
  }

  /** The query string of `handleStart`: `amount` always, `category` when it is not 0,
      `difficulty` and `type` when they are not empty. */
  function StartQuery(amount: int, category: int, difficulty: string, kind: string): (q: seq<(string, string)>)
    ensures |q| >= 1 && q[0] == ("amount", IntToString(amount))
    ensures (exists v :: ("category", v) in q) <==> category != 0
    ensures (exists v :: ("difficulty", v) in q) <==> difficulty != ""
    ensures (exists v :: ("type", v) in q) <==> kind != ""
  {
    var q := [("amount", IntToString(amount))]
      + (if category != 0 then [("category", IntToString(category))] else [])
      + (if difficulty != "" then [("difficulty", difficulty)] else [])
      + (if kind != "" then [("type", kind)] else []);
    assert category != 0 ==> ("category", IntToString(category)) in q;
    assert difficulty != "" ==> ("difficulty", difficulty) in q;
    assert kind != "" ==> ("type", kind) in q;
    q
  }

  /** The first value stored under `key` in a query, as `req.query[key]` reads it. */
  function QueryValue(q: seq<(string, string)>, key: string): Option<string> {
    if q == [] then None
    else if q[0].0 == key then Some(q[0].1)
    else QueryValue(q[1..], key)
  }

  /** The backend forwards to the trivia API exactly the parameters the page sent. */
  lemma QueryForwarded(amount: int, category: int, difficulty: string, kind: string)
    ensures var q := StartQuery(amount, category, difficulty, kind);
      QuizRoutes.TriviaParams(QueryValue(q, "amount"), QueryValue(q, "category"),
        QueryValue(q, "difficulty"), QueryValue(q, "type")) == q
  {
    QueryValues(amount, category, difficulty, kind);
  }

  /** What the backend reads back from the page's query, key by key. */
  lemma QueryValues(amount: int, category: int, difficulty: string, kind: string)
    ensures var q := StartQuery(amount, category, difficulty, kind);
      && QueryValue(q, "amount") == Some(IntToString(amount))
      && QueryValue(q, "category") == (if category != 0 then Some(IntToString(category)) else None)
      && QueryValue(q, "difficulty") == (if difficulty != "" then Some(difficulty) else None)
      && QueryValue(q, "type") == (if kind != "" then Some(kind) else None)
  {
    var a := [("amount", IntToString(amount))];
    var c := if category != 0 then [("category", IntToString(category))] else [];
    var d := if difficulty != "" then [("difficulty", difficulty)] else [];
    var t := if kind != "" then [("type", kind)] else [];
    assert StartQuery(amount, category, difficulty, kind) == a + c + d + t;
    QueryValueParts(a, c, d, t);
  }

  /** Lookup in a query made of at most one entry per key, in the order the page appends them. */
  lemma QueryValueParts(a: seq<(string, string)>, c: seq<(string, string)>, d: seq<(string, string)>,
                        t: seq<(string, string)>)
    requires |a| == 1 && a[0].0 == "amount"
    requires |c| <= 1 && (c != [] ==> c[0].0 == "category")
    requires |d| <= 1 && (d != [] ==> d[0].0 == "difficulty")
    requires |t| <= 1 && (t != [] ==> t[0].0 == "type")
    ensures QueryValue(a + c + d + t, "amount") == Some(a[0].1)
    ensures QueryValue(a + c + d + t, "category") == if c == [] then None else Some(c[0].1)
    ensures QueryValue(a + c + d + t, "difficulty") == if d == [] then None else Some(d[0].1)
    ensures QueryValue(a + c + d + t, "type") == if t == [] then None else Some(t[0].1)
  {
    var q := a + c + d + t;
    assert q[0] == a[0];
    LacksShort(a, "category");
    LacksShort(a, "difficulty");
    LacksShort(a, "type");
    LacksShort(c, "difficulty");
    LacksShort(c, "type");
    LacksShort(d, "category");
    LacksShort(d, "type");
    LacksShort(t, "category");
    LacksShort(t, "difficulty");
    LacksAppend(a, c, "difficulty");
    LacksAppend(a, c, "type");
    LacksAppend(a + c, d, "type");
    LacksAppend(d, t, "category");
    LacksShort([], "type");
    QueryValueAt(a, c, d + t, "category");
    QueryValueAt(a + c, d, t, "difficulty");
    QueryValueAt(a + c + d, t, [], "type");
    assert a + c + (d + t) == q;
    assert a + c + d + t + [] == q;
  }

  /** No entry of `q` has the key. */
  predicate Lacks(q: seq<(string, string)>, key: string) {
    q == [] || (q[0].0 != key && Lacks(q[1..], key))
  }

  lemma LacksShort(q: seq<(string, string)>, key: string)
    requires |q| <= 1 && (q != [] ==> q[0].0 != key)
    ensures Lacks(q, key)
  {
    if q != [] {
      assert q[1..] == [];
    }
  }

  lemma {:induction false} LacksAppend(a: seq<(string, string)>, b: seq<(string, string)>, key: string)
    requires Lacks(a, key) && Lacks(b, key)
    ensures Lacks(a + b, key)
  {
    if a == [] {
      assert a + b == b;
    } else {
      LacksAppend(a[1..], b, key);
      assert (a + b)[1..] == a[1..] + b;
    }
  }

  lemma {:induction false} LacksNone(q: seq<(string, string)>, key: string)
    requires Lacks(q, key)
    ensures QueryValue(q, key) == None
  {
    if q != [] {
      LacksNone(q[1..], key);
    }
  }

  /** Looking up a key held at most once, by the middle part of a query. */
  lemma QueryValueAt(pre: seq<(string, string)>, mid: seq<(string, string)>, post: seq<(string, string)>, key: string)
    requires Lacks(pre, key) && Lacks(post, key)
    requires |mid| <= 1 && (mid != [] ==> mid[0].0 == key)
    ensures QueryValue(pre + mid + post, key) == if mid == [] then None else Some(mid[0].1)
  {
    QueryValueSkip(pre, mid + post, key);
    assert pre + mid + post == pre + (mid + post);
    if mid == [] {
      assert mid + post == post;
      LacksNone(post, key);
    } else {
      assert (mid + post)[0] == mid[0];
    }
  }

  /** A key absent from the front of a query is looked up in the rest. */
  lemma {:induction false} QueryValueSkip(front: seq<(string, string)>, rest: seq<(string, string)>, key: string)
    requires Lacks(front, key)
    ensures QueryValue(front + rest, key) == QueryValue(rest, key)
  {
    if front == [] {
      assert front + rest == rest;
    } else {
      QueryValueSkip(front[1..], rest, key);
      assert (front + rest)[1..] == front[1..] + rest;
    }
  }

  class QuizPage {
    var questions: Option<seq<Question>>
    var loading: bool
    var error: string
    var current: int
    var answers: seq<string>
    var showScore: bool
    // the setup form
    var amount: int
    var category: int
    var difficulty: string
    var kind: string

    /** The progression the handlers keep: before the questions arrive nothing is answered;
        while a quiz runs, `current` is the number of answers and points at a question; once
        the score shows, `current` is the last question and every question is answered. */
    ghost predicate Valid()
      reads this
    {
      match questions
      case None => current == 0 && answers == [] && !showScore
      case Some(qs) =>
        if showScore then qs != [] && |answers| == current + 1 && current == |qs| - 1
        else |answers| == current && (current < |qs| || (qs == [] && current == 0))
    }

    constructor ()
      ensures questions == None && !loading && error == "" && current == 0 && answers == []
      ensures !showScore && amount == 10 && category == 9 && difficulty == "" && kind == ""
      ensures Valid()
    {
      questions := None;
      loading := false;
      error := "";
      current := 0;
      answers := [];
      showScore := false;
      amount := 10;
      category := 9;
      difficulty := "";
      kind := "";
    }

    /** `handleStart` up to the `fetch`: reset the quiz and build the query. */
    method StartQuiz() returns (query: seq<(string, string)>)
      modifies this
      ensures loading && error == "" && questions == None && current == 0 && answers == [] && !showScore
      ensures amount == old(amount) && category == old(category)
      ensures difficulty == old(difficulty) && kind == old(kind)
      ensures query == StartQuery(amount, category, difficulty, kind)
      ensures Valid()
    {
      loading := true;
      error := "";
      questions := None;
      current := 0;
      answers := [];
      showScore := false;
      query := [("amount", IntToString(amount))];
      if category != 0 {
        query := query + [("category", IntToString(category))];
      }
      if difficulty != "" {
        query := query + [("difficulty", difficulty)];
      }
      if kind != "" {
        query := query + [("type", kind)];
      }
    }

    /** `handleStart` after the `fetch`: take the questions when `response_code` is 0, else
        set an error; stop loading in every case. */
    method ReceiveQuestions(outcome: FetchOutcome)
      modifies this
      ensures !loading
      ensures outcome.Fetched? && outcome.responseCode == 0 ==>
        questions == Some(outcome.results) && error == old(error)
      ensures outcome.Fetched? && outcome.responseCode != 0 ==>
        questions == old(questions) && error == "No questions found for your selection."
      ensures outcome.FetchFailed? ==> questions == old(questions) && error == "Failed to fetch questions."
      ensures current == old(current) && answers == old(answers) && showScore == old(showScore)
      ensures amount == old(amount) && category == old(category)
      ensures difficulty == old(difficulty) && kind == old(kind)
      ensures old(Valid()) && old(questions).None? ==> Valid()
    {
      match outcome {
        case Fetched(code, results) =>
          if code == 0 {
            questions := Some(results);
          } else {
            error := "No questions found for your selection.";
          }
        case FetchFailed =>
          error := "Failed to fetch questions.";
      }
      loading := false;
    }

    /** `handleAnswer`, offered only while a question is on screen: record the answer, then
        go to the next question or, after the last one, show the score. */
    method HandleAnswer(answer: string)
      requires Valid() && questions.Some? && !showScore && 0 <= current < |questions.value|
      modifies this
      ensures questions == old(questions) && loading == old(loading) && error == old(error)
      ensures answers == old(answers) + [answer]
      ensures old(current) < |questions.value| - 1 ==> current == old(current) + 1 && !showScore
      ensures old(current) == |questions.value| - 1 ==> current == old(current) && showScore
      ensures amount == old(amount) && category == old(category)
      ensures difficulty == old(difficulty) && kind == old(kind)
      ensures Valid()
    {
      answers := answers + [answer];
      if current < |questions.value| - 1 {
        current := current + 1;
      } else {
        showScore := true;
      }
    }

    /** `handleRestart`: back to the setup form. */
    method HandleRestart()
      modifies this
      ensures questions == None && answers == [] && current == 0 && !showScore
      ensures loading == old(loading) && error == old(error)
      ensures amount == old(amount) && category == old(category)
      ensures difficulty == old(difficulty) && kind == old(kind)
      ensures Valid()
    {
      questions := None;
      answers := [];
      current := 0;
      showScore := false;
    }

    /** The score of the results view: 0 unless the score shows. */
    function DisplayedScore(): (n: int)
      requires Valid()
      reads this
      ensures 0 <= n <= |answers|
      ensures showScore && questions.Some? ==> n == Score(answers, questions.value)
      ensures !showScore ==> n == 0
    {
      if showScore && questions.Some? then Score(answers, questions.value) else 0
    }

    /** The request the posting effect sends, when the score shows, there are questions and a
        token is stored; `None` when it returns early. */
    function ResultToPost(token: Option<string>): (p: Option<PostedResult>)
      requires Valid()
      reads this
      ensures p.Some? <==> showScore && questions.Some? && Truthy(token)
      ensures p.Some? ==> p.value.total == |questions.value| && 0 <= p.value.score <= p.value.total
      ensures p.Some? ==> p.value.score == |CorrectPositions(answers, questions.value)|
      ensures p.Some? ==> p.value.authorization == "Bearer " + token.value
      ensures p.Some? ==>
        (p.value.category == Some(questions.value[0].category) && p.value.difficulty == Some(questions.value[0].difficulty))
    {
      if !showScore || questions.None? || !Truthy(token) then None
      else
        var qs := questions.value;
        ScoreCountsCorrect(answers, qs);
        Some(PostedResult("Bearer " + token.value, Score(answers, qs), |qs|,
          if qs == [] then None else Some(qs[0].category),
          if qs == [] then None else Some(qs[0].difficulty)))
    }
  }

  /** Answering every question of a quiz in turn ends on the score view with all answers kept. */
  method TakeQuiz(page: QuizPage, picks: seq<string>)
    requires page.Valid() && page.questions.Some? && !page.showScore && page.current == 0
    requires |picks| == |page.questions.value| > 0
    modifies page
    ensures page.showScore && page.answers == picks && page.current == |picks| - 1
    ensures page.questions == old(page.questions)
  {
    var k := 0;
    while k < |picks|
      invariant 0 <= k <= |picks|
      invariant page.Valid() && page.questions == old(page.questions)
      invariant page.answers == picks[..k]
      invariant k < |picks| ==> page.current == k && !page.showScore
      invariant k == |picks| ==> page.showScore && page.current == k - 1
    {
      page.HandleAnswer(picks[k]);
      assert picks[..k + 1] == picks[..k] + [picks[k]];
      k := k + 1;
    }
    assert picks[..k] == picks;
  }
}
