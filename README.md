# quickQuiz: a Dafny model of the quiz summary and its surroundings

quickQuiz is a quiz web application. An Express/Prisma backend proxies trivia questions, stores
each user's quiz results, and reports per-user summaries. A React frontend lets users take
quizzes, register, log in and view leaderboards.

This project models the logic of that application in Dafny and proves what it promises.

The centre is the **per-user quiz summary**. Both `GET /quiz/scoreboard` and `GET /quiz/stats`
compute it inline from one user's result rows:
- the total score;
- the total number of questions;
- the percentage, rounded;
- the best category. This is the highest per-category accuracy, then the highest raw score,
  then the category seen first.

Module `QuizSummary` defines the summary once, as `Summarize` over a sequence of results.
Accuracies are compared exactly by cross-multiplication. The percentages,
`Math.round((totalScore / totalQuestions) * 100)` and `Math.round(best.pct * 100)`, are rounded
half up from the exact rational value, computed on integers. The `catStats` object is modelled as buckets in first-seen order,
which is the insertion order of a JavaScript object.

The handlers' two loops are methods proved against these functions:
- `FillCatStats` fills the `catStats` map;
- `PickBest` runs the strict best-so-far scan over `Object.entries`.

`QuizRoutes` shows that the scoreboard and the stats handler run this one computation. It also
models the trivia query of `GET /quiz` and the type check and insert of `POST /quiz/result`.

Around the summary:
- **Leaderboard** models the two boards of the scoreboard page: sort by points, and filter then
  sort by percent. JavaScript's stable sort is modelled as insertion sort.
- **Home** models the top three and the users/quizzes/points panel of the home page.
- **QuizPage** is a class with the quiz page's state fields. Its handlers are start, receive
  questions, answer and restart, plus the computed score and the result the page posts.
- **RegisterForm**, **LoginForm** and **ChallengeModal** are classes for the three forms: their
  validation chains and their reply dispatch.
- **EmailPatterns** gives the two email regular expressions. Each is written as it reads, and as
  a structural check proved equal to it.
- **ValidationSchemas** gives the zod request schemas. String bounds count UTF-16 code units, as
  JavaScript's `length` does.
- **AuthRoutes** has a `UserTable` class, a map keyed by email, for `POST /auth/register` and
  `POST /auth/login`.
- **VerifyToken** models the `Authorization` header middleware.
- **Js** holds the JavaScript behaviour the others rely on:
  - truthiness of strings;
  - UTF-16 length;
  - `split` on one character;
  - decimal rendering of numbers.

Three facts about the code follow from lemmas of the model.
- A bucket with total 0 has accuracy 0 and still competes for best category. It wins when it is
  seen first and nothing beats 0 (`QuizSummary.ExampleZeroTotalWins`).
- The best category can depend on the order of results: a full tie goes to the category seen
  first (`QuizSummary.ExampleTieDependsOnOrder`). The totals and the percentage do not depend on
  the order (`QuizSummary.SummaryTotalsPermutation`).
- The summary sums every stored row, whatever its score and total: the totals of `QuizSummary.Summarize` are
  the sums of all rows, and `QuizSummary.SumsAppend` adds each further row's score and total once.

## Model

| member | source | states |
|---|---|---|
| QuizSummary.SumScores | backend/routes/quiz.js:49 | the `reduce` sum of the scores; its properties are SumsAppend, SumsPermutation and SumsBounded |
| QuizSummary.SumTotals | backend/routes/quiz.js:50 | the `reduce` sum of the totals; its properties are SumsAppend, SumsPermutation and SumsBounded |
| QuizSummary.SumsAppend | backend/routes/quiz.js:49-50 | the score and question sums of a concatenation are the sums of the parts |
| QuizSummary.SumsPermutation | backend/routes/quiz.js:124-125 | the two sums depend only on the multiset of results, not on their order |
| QuizSummary.SumsBounded | backend/routes/quiz.js:49-50 | when every result has 0 <= score <= total, 0 <= sum of scores <= sum of totals |
| QuizSummary.MathRound | backend/routes/quiz.js:51 | `Math.round` on an exact value: the floor of x + 1/2 |
| QuizSummary.RoundPercent | backend/routes/quiz.js:51 | the integer p satisfies 2tp - t <= 200s < 2tp + t, i.e. it is 100s/t rounded half up |
| QuizSummary.RoundPercentIsMathRound | backend/routes/quiz.js:51 | the integer formula equals floor(100*s/t + 1/2) on exact rationals, Math.round's definition |
| QuizSummary.RoundPercentBounded | backend/routes/quiz.js:126 | for 0 <= s <= t and t > 0 the rounded percentage lies in 0..100 |
| QuizSummary.Percent | backend/routes/quiz.js:51 | 0 when there are no questions, otherwise the rounded percentage, and within 0..100 for valid sums |
| QuizSummary.RoundPercentMonotone | backend/routes/quiz.js:51 | a proportion at least as high rounds to a percentage at least as high |
| QuizSummary.CrossMultiply | backend/routes/quiz.js:64-65 | with positive denominators, comparing cross-products decides > and == of the two fractions |
| QuizSummary.AccuracyComparison | backend/routes/quiz.js:64-65 | the integer comparison of two buckets agrees with their exact accuracies, a zero-total bucket having accuracy 0 |
| QuizSummary.AccNum | backend/routes/quiz.js:64 | the numerator of `s.total > 0 ? s.score / s.total : 0`: the score, or 0 for a zero total; AccuracyComparison states the fraction it forms |
| QuizSummary.AccDen | backend/routes/quiz.js:64 | the denominator of that accuracy, always positive: the total, or 1 for a zero total |
| QuizSummary.MoreAccurate | backend/routes/quiz.js:65 | `pct > best.pct`; AccuracyComparison states it holds exactly when the first exact accuracy is the higher |
| QuizSummary.SameAccuracy | backend/routes/quiz.js:65 | `pct === best.pct`; AccuracyComparison states it holds exactly when the two exact accuracies are equal |
| QuizSummary.Beats | backend/routes/quiz.js:65 | the replace condition of the scan: strictly higher accuracy, or equal accuracy and a strictly higher score; its meaning is BeatsIsLexicographic |
| QuizSummary.BeatsIsLexicographic | backend/routes/quiz.js:65 | replacing the best-so-far means higher accuracy, or equal accuracy and a higher raw score |
| QuizSummary.BeatsAsymmetric | backend/routes/quiz.js:65 | two buckets never beat each other |
| QuizSummary.BeatsTransitive | backend/routes/quiz.js:65 | if a beats b and c does not beat b, then a beats c |
| QuizSummary.CategoryIndex | backend/routes/quiz.js:58 | the index of the first bucket of a category, or the bucket count when it has none |
| QuizSummary.FirstSeen | backend/routes/quiz.js:56 | the index of the first result of a category, or the result count when there is none |
| QuizSummary.FirstSeenSnoc | backend/routes/quiz.js:56 | appending a result moves the first-seen index of its category only when the category was new |
| QuizSummary.AddResult | backend/routes/quiz.js:56-61 | one iteration of the fill loop on the buckets; AddResultFaithful states what it keeps |
| QuizSummary.Buckets | backend/routes/quiz.js:55-61 | the buckets after the fill loop; BucketsCorrect states they are faithful |
| QuizSummary.HasCategory | backend/routes/quiz.js:57 | the negation of `!r.category`: the category is present and non-empty (Js.Truthy); SkipFaithful states that other results leave the buckets alone, BestCategoryAbsentIff that the best category is null exactly when no result has one |
| QuizSummary.SkipFaithful | backend/routes/quiz.js:57 | a result without a non-empty category leaves the buckets faithful to the longer result list |
| QuizSummary.NewBucketFaithful | backend/routes/quiz.js:58-60 | a result with a new category appends its bucket, keeping the buckets faithful |
| QuizSummary.MergeFaithful | backend/routes/quiz.js:59-60 | a result with a known category adds into that bucket, keeping the buckets faithful |
| QuizSummary.AddResultFaithful | backend/routes/quiz.js:56-61 | one loop step keeps the buckets faithful: one per occurring category, distinct, first-seen order, sums over exactly that category's results |
| QuizSummary.BucketsCorrect | backend/routes/quiz.js:55-61 | the buckets after the loop are faithful to the whole result list |
| QuizSummary.BucketsDistinct | backend/routes/quiz.js:55-61 | no category has two buckets |
| QuizSummary.BestIndex | backend/routes/quiz.js:62-68 | there is a choice exactly when there are buckets, and it is a bucket index |
| QuizSummary.BestIndexIsFirstMaximum | backend/routes/quiz.js:62-68 | no bucket beats the chosen one, and the chosen one beats every bucket before it |
| QuizSummary.BestCategoryOf | backend/routes/quiz.js:53-69 | null for no results or no buckets, otherwise the first maximum's category and rounded accuracy; BestCategoryAbsentIff, BestCategoryChoice and BestCategoryRanking state its meaning |
| QuizSummary.Summarize | backend/routes/quiz.js:48-78 | the summary object of a nickname and a result list, computed the same way at lines 124-155; ComputeSummary, PercentsBounded and SummaryTotalsPermutation state its meaning |
| QuizSummary.BestCategoryAbsentIff | backend/routes/quiz.js:53-69 | the best category is null exactly when no result has a non-empty category |
| QuizSummary.BestCategoryChoice | backend/routes/quiz.js:62-69 | the chosen category occurs, its percent is its bucket's rounded accuracy, no occurring category beats it, and it beats every category seen earlier |
| QuizSummary.BestCategoryRanking | backend/routes/quiz.js:63-68 | every other category has accuracy at most the winner's, at most its score on equal accuracy, and a full tie is decided by first appearance |
| QuizSummary.PercentsBounded | backend/routes/quiz.js:51 | with 0 <= score <= total per row, both the summary percent and the best-category percent lie in 0..100 |
| QuizSummary.PerfectResultNeverLowersPercent | backend/routes/quiz.js:124-126 | with valid rows, adding a result with every question right never lowers the percent |
| QuizSummary.SummaryTotalsPermutation | backend/routes/quiz.js:124-126 | reordering the results changes neither the totals nor the percent |
| QuizSummary.Enter | backend/routes/quiz.js:58-60 | adding a category's score and total to the object adds that key and no other |
| QuizSummary.EnterInTwoSteps | backend/routes/quiz.js:58-60 | creating the zero entry when absent and then adding both fields gives the one-step update |
| QuizSummary.Categories | backend/routes/quiz.js:55-60 | the insertion order of the keys of `catStats`, one per bucket; CategoriesAt states the k-th key is the k-th bucket's category |
| QuizSummary.StatsMap | backend/routes/quiz.js:55-60 | the object `catStats`; StatsMapKeys and StatsMapLookup state its keys are the bucket categories and each maps to its bucket's score and total |
| QuizSummary.CategoriesAt | backend/routes/quiz.js:63 | the k-th key of the object is the category of the k-th bucket |
| QuizSummary.StatsMapKeys | backend/routes/quiz.js:63 | the object's key set is the set of bucket categories |
| QuizSummary.StatsMapLookup | backend/routes/quiz.js:63 | with distinct categories, each bucket's category maps to that bucket's score and total |
| QuizSummary.StatsMapStep | backend/routes/quiz.js:57-60 | one step of the fill loop updates the key order and the object exactly as the bucket update does |
| QuizSummary.StatsMapMerge | backend/routes/quiz.js:59-60 | adding into an existing bucket keeps the keys and their order and updates that entry only |
| QuizSummary.StatsMapNew | backend/routes/quiz.js:58-60 | a new category is absent from the object before, and afterwards it is the last key, holding the result's score and total |
| QuizSummary.FillStep | backend/routes/quiz.js:56-61 | one loop iteration: a result without a category changes nothing, any other one creates and/or adds into its entry |
| QuizSummary.FillCatStats | backend/routes/quiz.js:55-61 | the loop leaves the key order and the object equal to those of the faithful buckets |
| QuizSummary.PickBest | backend/routes/quiz.js:62-69 | the scan over the entries ends with no best when there are none, otherwise with the first maximum |
| QuizSummary.ComputeSummary | backend/routes/quiz.js:48-78 | the inline summary code computes the summary of the nickname and results |
| QuizSummary.ExampleScienceHistory | backend/routes/quiz.js:48-78 | Science 8/10 and History 3/5 give 11 of 15, 73 percent, best Science at 80 |
| QuizSummary.ExampleTieDependsOnOrder | backend/routes/quiz.js:65 | two equal buckets: the first-seen category wins, in either order |
| QuizSummary.ExampleZeroTotalWins | backend/routes/quiz.js:64-65 | a 0/0 bucket seen first beats a later 0/5 bucket |
| QuizRoutes.TriviaParams | backend/routes/quiz.js:18-23 | amount always first, defaulting to 10; category, difficulty and type exactly when truthy, with their values |
| QuizRoutes.TriviaParamsOrdered | backend/routes/quiz.js:20-23 | the parameters come in the order appended: amount, category, difficulty, type |
| QuizRoutes.ResultsOf | backend/routes/quiz.js:121-123 | the user's results are a sub-multiset of the table, all with that user id; ResultsOfCount gives each row's exact count |
| QuizRoutes.ResultsOfCount | backend/routes/quiz.js:121-123 | a row with the user id is returned as often as it is stored, including identical copies, and any other row never |
| QuizRoutes.ResultsOfComplete | backend/routes/quiz.js:121-123 | every row of the user is among their results |
| QuizRoutes.NicknameOf | backend/routes/quiz.js:148 | no nickname exactly when no user has the id, otherwise the nickname of a row with the id |
| QuizRoutes.NicknameOfRow | backend/routes/quiz.js:148 | with unique ids, the lookup returns that row's nickname |
| QuizRoutes.ScoreboardEntry | backend/routes/quiz.js:48-78 | one user's scoreboard entry: the summary of their results under their nickname |
| QuizRoutes.StatsOf | backend/routes/quiz.js:118-155 | the stats reply: the summary of the user's results under the looked-up nickname |
| QuizRoutes.Scoreboard | backend/routes/quiz.js:41-78 | one entry per user, in user order, each the summary of that user's results |
| QuizRoutes.Stats | backend/routes/quiz.js:118-155 | the summary of the user's results under the user's nickname |
| QuizRoutes.ScoreboardAgreesWithStats | backend/routes/quiz.js:48-78 | with unique ids, a user's scoreboard entry equals the stats reply for that user |
| QuizRoutes.EntryWithoutResults | backend/routes/quiz.js:48-78 | a user with no results gets 0, 0, 0 and no best category |
| QuizRoutes.ResultStore.PostResult | backend/routes/quiz.js:92-112 | a non-number score or total gives 400 and stores nothing; a database failure gives 500 and stores nothing; otherwise the row is appended and returned with 201 |
| QuizRoutes.PostedResultCounted | backend/routes/quiz.js:99-108 | after a posted row, the user's stats totals grow by its score and total |
| Leaderboard.Insert | frontend/app/routes/Scoreboard.tsx:31-32 | one step of the stable sort: the entry goes after every entry with a key at least its own; it adds one entry |
| Leaderboard.SortDesc | frontend/app/routes/Scoreboard.tsx:31-32 | the stable descending sort by a key, as the comparators `b.x - a.x` give; SortDescSorted, SortDescPermutation and SortDescStable state its meaning |
| Leaderboard.InsertPermutation | frontend/app/routes/Scoreboard.tsx:31 | inserting one entry adds exactly that entry |
| Leaderboard.InsertSorted | frontend/app/routes/Scoreboard.tsx:31 | inserting into a non-increasing board keeps it non-increasing |
| Leaderboard.SortDescSorted | frontend/app/routes/Scoreboard.tsx:31-32 | the sort is non-increasing in its key |
| Leaderboard.SortDescPermutation | frontend/app/routes/Scoreboard.tsx:31-32 | the sort is a permutation of its input |
| Leaderboard.SortDescStable | frontend/app/routes/Scoreboard.tsx:31-32 | entries with equal key keep their input order |
| Leaderboard.InsertWithKey | frontend/app/routes/Scoreboard.tsx:31 | inserting one entry puts it after every entry of its key that was already there |
| Leaderboard.Qualifies | frontend/app/routes/Scoreboard.tsx:32 | `u.totalQuestions >= 10`; QualifiedCount states that exactly the entries meeting it are kept |
| Leaderboard.Qualified | frontend/app/routes/Scoreboard.tsx:32 | every kept entry has at least 10 questions |
| Leaderboard.QualifiedCount | frontend/app/routes/Scoreboard.tsx:32 | an entry with at least 10 questions is kept as often as it occurs, any other entry never |
| Leaderboard.ByTotal | frontend/app/routes/Scoreboard.tsx:31 | the points board; ByTotalCorrect states its meaning |
| Leaderboard.ByPercent | frontend/app/routes/Scoreboard.tsx:32 | the percent board of the qualified entries; ByPercentCorrect states its meaning |
| Leaderboard.ByTotalCorrect | frontend/app/routes/Scoreboard.tsx:31 | the points board is a permutation of the scores, non-increasing in points, and keeps fetched order among equal points |
| Leaderboard.ByPercentCorrect | frontend/app/routes/Scoreboard.tsx:32 | the percent board holds exactly the qualified entries, non-increasing in percent, in fetched order among equal percents |
| Home.TopScores | frontend/app/routes/home.tsx:35-42 | at most three entries, min(3, n) of them for an array, none for a non-array reply |
| Home.TopScoresAreHighest | frontend/app/routes/home.tsx:40 | the top three are the first entries of the points board, drawn from the reply, with no left-out entry having more points |
| Home.SumQuestions | frontend/app/routes/home.tsx:53 | the `reduce` sum of `totalQuestions` over the entries |
| Home.SumPoints | frontend/app/routes/home.tsx:54 | the `reduce` sum of `totalScore` over the entries |
| Home.HomeStats | frontend/app/routes/home.tsx:45-58 | zeros for a non-array reply, otherwise the user count is the number of entries |
| Home.Entries | backend/routes/quiz.js:48-78 | the scoreboard reply the home page reads: one summary per user |
| Home.EntriesSums | frontend/app/routes/home.tsx:53-54 | the panel's points and quizzes are the sums over each user's own results |
| Home.UserSumsSnoc | frontend/app/routes/home.tsx:53-54 | one more result adds its score and total once for each user owning it |
| Home.UserSumsOwned | frontend/app/routes/home.tsx:53-54 | when every result has exactly one owner, the per-user sums are the sums over the whole table |
| Home.HomeStatsOfDatabase | frontend/app/routes/home.tsx:50-55 | then the panel shows the user count, all questions and all points of the database |
| QuizPage.Score | frontend/app/routes/QuizPage.tsx:130-133 | the count of correct answers is at most the number of answers |
| QuizPage.ScoreCountsCorrect | frontend/app/routes/QuizPage.tsx:103 | the score is the number of positions whose answer equals that question's correct answer |
| QuizPage.StartQuery | frontend/app/routes/QuizPage.tsx:67-71 | amount always first; category exactly when non-zero; difficulty and type exactly when non-empty |
| QuizPage.QueryValues | frontend/app/routes/QuizPage.tsx:67-71 | the value of each key of the query, or its absence |
| QuizPage.QueryForwarded | backend/routes/quiz.js:18-23 | the backend forwards exactly the query the page sends |
| QuizPage.QuizPage.constructor | frontend/app/routes/QuizPage.tsx:45-56 | the initial state: no questions, nothing answered, amount 10, category 9 |
| QuizPage.QuizPage.StartQuiz | frontend/app/routes/QuizPage.tsx:59-71 | sets loading, clears error, questions, current, answers and the score view, and returns the query of the setup fields |
| QuizPage.QuizPage.ReceiveQuestions | frontend/app/routes/QuizPage.tsx:72-84 | questions only on response code 0, otherwise the selection or fetch error; loading cleared in every case |
| QuizPage.QuizPage.HandleAnswer | frontend/app/routes/QuizPage.tsx:88-95 | appends exactly one answer, then advances or, at the last question, shows the score |
| QuizPage.QuizPage.HandleRestart | frontend/app/routes/QuizPage.tsx:122-127 | back to the setup state: no questions, no answers, current 0, no score view |
| QuizPage.QuizPage.DisplayedScore | frontend/app/routes/QuizPage.tsx:130-133 | 0 unless the score is shown, then the count of correct answers |
| QuizPage.QuizPage.ResultToPost | frontend/app/routes/QuizPage.tsx:98-119 | a result is posted exactly when the score is shown and a token is stored: correct count, question count, first question's category and difficulty, bearer header |
| QuizPage.TakeQuiz | frontend/app/routes/QuizPage.tsx:88-95 | answering every question in turn ends on the last question with the score shown and all answers recorded |
| RegisterForm.Set | frontend/app/components/register.tsx:55-58 | the named field takes the value, every other field keeps its own |
| RegisterForm.Validate | frontend/app/components/register.tsx:65-80 | checks email, password length, password equality, name length in that order; exactly the first failure's message |
| RegisterForm.ToBody | frontend/app/components/register.tsx:35 | the posted body is the form data with its five fields |
| RegisterForm.RegisterForm.constructor | frontend/app/components/register.tsx:19-29 | all fields, the error and the success message start empty |
| RegisterForm.RegisterForm.HandleFormChange | frontend/app/components/register.tsx:53-59 | updates the named field only |
| RegisterForm.RegisterForm.HandleSubmit | frontend/app/components/register.tsx:62-82 | posts the form exactly when every check passes, otherwise sets the first failure's message |
| RegisterForm.RegisterForm.HandleReply | frontend/app/components/register.tsx:39-49 | success sets the message and navigates home; else the reply's error; else the generic message |
| RegisterForm.ClientChecksMeetSchema | backend/schemas/validationSchemas.js:4-8 | a form passing the client checks meets the schema's name and password bounds |
| RegisterForm.ClientChecksPassRouteChecks | backend/routes/auth.js:16-24 | a form passing the client checks, with a nickname, passes the route's empty-field and mismatch checks |
| RegisterForm.NicknameUnchecked | frontend/app/components/register.tsx:62-82 | an empty nickname passes every client check |
| LoginForm.Validate | frontend/app/components/loginForm.tsx:25-32 | email first, then password length; exactly the first failure's message |
| LoginForm.SameFirstChecksAsRegister | frontend/app/components/loginForm.tsx:25-32 | an email or password the login form refuses is refused by the register form with the same message |
| LoginForm.LoginForm.constructor | frontend/app/components/loginForm.tsx:15-19 | empty fields and messages |
| LoginForm.LoginForm.SetEmail | frontend/app/components/loginForm.tsx:69 | updates the email only |
| LoginForm.LoginForm.SetPassword | frontend/app/components/loginForm.tsx:79 | updates the password only |
| LoginForm.LoginForm.HandleSubmit | frontend/app/components/loginForm.tsx:22-35 | posts exactly when both checks pass, otherwise sets the first failure's message |
| LoginForm.LoginForm.HandleReply | frontend/app/components/loginForm.tsx:45-59 | a token is stored and logs in, clearing the error, before any error field; else the reply's error or the retry message |
| ChallengeModal.ChallengeModal.constructor | frontend/app/components/ChallengeFriendModal.tsx:11-13 | empty email, not sent, no error |
| ChallengeModal.ChallengeModal.SetEmail | frontend/app/components/ChallengeFriendModal.tsx:58 | updates the email only |
| ChallengeModal.ChallengeModal.HandleSend | frontend/app/components/ChallengeFriendModal.tsx:16-27 | an address the pattern refuses sets the error and leaves it unsent; an accepted one clears the error and is sent |
| ChallengeModal.DialogAddressPassesLogin | frontend/app/components/ChallengeFriendModal.tsx:21 | an address the dialog accepts passes the login form's email check |
| ChallengeModal.LoginAddressRefusedByDialog | frontend/app/components/ChallengeFriendModal.tsx:21 | "a b@c.d" with "secret" passes the login form's handler checks (LoginForm.Validate) but not the dialog's pattern |
| EmailPatterns.MatchesPattern | frontend/app/components/register.tsx:65 | `/^[^@]+@[^@]+\.[^@]+$/` as it reads: some split into three non-empty `@`-free parts around an `@` and a `.` |
| EmailPatterns.ValidEmail | frontend/app/components/register.tsx:65 | exactly one `@`, a non-empty part before it and a domain with an inner `.`; EmailPatternIff proves it is the pattern |
| EmailPatterns.MatchesChallengePattern | frontend/app/components/ChallengeFriendModal.tsx:21 | `/^[^@\s]+@[^@\s]+\.[^@\s]+$/` as it reads: the same split with whitespace-free parts |
| EmailPatterns.ValidChallengeEmail | frontend/app/components/ChallengeFriendModal.tsx:21 | a valid email with no whitespace; ChallengePatternIff proves it is the pattern |
| EmailPatterns.EmailPatternIff | frontend/app/components/register.tsx:65 | the pattern matches exactly when there is one `@`, a non-empty part before it, and a `.` inside the part after it |
| EmailPatterns.ChallengePatternIff | frontend/app/components/ChallengeFriendModal.tsx:21 | the dialog's pattern matches exactly those addresses that also contain no whitespace |
| EmailPatterns.ChallengeStricter | frontend/app/components/ChallengeFriendModal.tsx:21 | any address the dialog's pattern accepts is accepted by the form pattern |
| EmailPatterns.SpaceOnlyRejectedByChallenge | frontend/app/components/ChallengeFriendModal.tsx:21 | "a b@c.d" passes the form check and fails the dialog check |
| EmailPatterns.MalformedRejected | frontend/app/components/loginForm.tsx:25 | two `@` ("a@b@c.d"), an empty local part ("@c.d") and a domain whose only `.` opens it ("a@.d") are refused |
| ValidationSchemas.RegisterSchemaValid | backend/schemas/validationSchemas.js:3-9 | name of at least 2, nickname of 2 to 16, an email, and two passwords of at least 6, counted in UTF-16 code units |
| ValidationSchemas.LoginSchemaValid | backend/schemas/validationSchemas.js:11-14 | an email and a password of at least 6 code units |
| ValidationSchemas.EntrySchemaValid | backend/schemas/validationSchemas.js:16-22 | a title of 1 to 20 and a content of 10 to 300 code units |
| ValidationSchemas.EntryIdValid | backend/schemas/validationSchemas.js:24 | one or more ASCII digits and nothing else |
| ValidationSchemas.RegisterSchemaNonEmpty | backend/schemas/validationSchemas.js:3-9 | a body accepted by the register schema has no empty field |
| ValidationSchemas.LoginSchemaNonEmpty | backend/schemas/validationSchemas.js:11-14 | a body accepted by the login schema has no empty field |
| ValidationSchemas.RegisterSchemaAllowsMismatch | backend/schemas/validationSchemas.js:7-8 | the schema accepts two different passwords |
| ValidationSchemas.NicknameCodePoints | backend/schemas/validationSchemas.js:5 | the 2..16 bounds fit 1 to 16 characters: 2..16 inside the Basic Multilingual Plane, at most 8 beyond it |
| ValidationSchemas.EntryCharacterBounds | backend/schemas/validationSchemas.js:16-22 | an accepted entry has a title of 1 to 20 characters and a content of 5 to 300 characters |
| ValidationSchemas.EntrySchemaEdges | backend/schemas/validationSchemas.js:16-22 | an empty title and a 301-unit content are refused |
| ValidationSchemas.RenderedIdAccepted | backend/schemas/validationSchemas.js:24 | the decimal rendering of any id is accepted |
| ValidationSchemas.EntryIdRoundTrip | backend/schemas/validationSchemas.js:24 | an accepted id without a leading zero is the rendering of its value |
| Js.Truthy | backend/routes/quiz.js:21-23 | a string is truthy exactly when it is present and non-empty |
| Js.IsWhitespace | frontend/app/components/ChallengeFriendModal.tsx:21 | the characters of the regular-expression class `\s` |
| Js.Utf16Length | backend/schemas/validationSchemas.js:4-8 | the code-unit length is between the character count and twice it |
| Js.Utf16LengthBmp | backend/schemas/validationSchemas.js:4-8 | the code-unit length is the character count exactly when no character lies beyond the Basic Multilingual Plane |
| Js.Split | backend/middleware/verifyToken.js:7 | at least one field, none containing the separator |
| Js.JoinSplit | backend/middleware/verifyToken.js:7 | joining the fields with the separator gives back the string |
| Js.SplitJoin | backend/middleware/verifyToken.js:7 | splitting separator-free fields joined by the separator gives back the fields |
| Js.SplitAtFirst | backend/middleware/verifyToken.js:7 | the first field ends at the first separator |
| Js.IntToString | frontend/app/routes/QuizPage.tsx:68-69 | a non-empty rendering, with a minus sign exactly for negative numbers |
| Js.NatToStringRoundTrip | frontend/app/routes/QuizPage.tsx:68-69 | reading a rendered number back gives the number |
| AuthRoutes.NewUser | backend/routes/auth.js:36-43 | the stored row: the email, name and nickname, and the hashed password |
| AuthRoutes.WithoutPassword | backend/routes/auth.js:76 | the user object with the password removed |
| AuthRoutes.RegisterRejection | backend/routes/auth.js:16-24 | the empty-field message exactly when a field is empty, otherwise the mismatch message exactly when the passwords differ |
| AuthRoutes.SchemaValidRegisterRejection | backend/routes/auth.js:13-24 | behind the schema, only a password mismatch is refused |
| AuthRoutes.UserTable.Register | backend/routes/auth.js:13-50 | 400 for the two checks, 409 for a known email, 500 on failure, all leaving the table alone; otherwise 201 and exactly one new row under the email with the hashed password |
| AuthRoutes.UserTable.Login | backend/routes/auth.js:52-83 | 400 for an empty field, 401 for an unknown email or a failed compare; otherwise 200 with the token of the user id and the user without password |
| AuthRoutes.LoginAfterRegister | backend/routes/auth.js:36-82 | after a registration the same credentials log in as the new user |
| AuthRoutes.LoginsDistinguishUsers | backend/routes/auth.js:76-82 | successful logins for two emails carry two different user ids |
| VerifyToken.SecondField | backend/middleware/verifyToken.js:7 | there is a second field exactly when the header has a space, and it has no space |
| VerifyToken.AfterFirstWord | backend/middleware/verifyToken.js:7 | the token is the field after the first word, whatever that word is |
| VerifyToken.LaterFieldsIgnored | backend/middleware/verifyToken.js:7 | fields after the token do not matter |
| VerifyToken.MalformedHeaders | backend/middleware/verifyToken.js:7-8 | "Bearer" has no token, and "Bearer  x" has an empty one |
| VerifyToken.Request.VerifyToken | backend/middleware/verifyToken.js:3-15 | 401 for a missing header, a missing or empty token, or a failed verify, without calling next; otherwise sets the user id and calls next once |
| VerifyToken.BearerHeaderCarriesToken | frontend/app/routes/QuizPage.tsx:108 | the page's bearer header gives the middleware exactly the stored token |

## Left out

- HTTP, Express and Prisma plumbing. Requests and replies are datatypes, and the database is a sequence or map in stored order. Autoincrement ids are a `nextId` field.
- The `try`/`catch` 500 replies of `GET /quiz`, `GET /quiz/scoreboard` and `GET /quiz/stats` are not modelled, nor is the `fetch` of the trivia API. `POST /quiz/result` and register model a failed database call as a `databaseUp` parameter.
- AuthRoutes.UserTable.Register: `databaseUp` covers the hash and create calls. A failure of the email lookup gives the same 500 in the code but is not distinguished.
- AuthRoutes.UserTable.Login: an exception thrown by the user lookup is not modelled. It has no `try` in the code.
- bcrypt hashing and comparison and JWT signing and verification are function parameters (`hash`, `compare`, `sign`, `verify`), since their code belongs to libraries. Expiry of tokens is part of `verify`. `hash` is a function, so AuthRoutes.NewUser hashes a password the same way every time, while `bcrypt.hashSync` draws a random salt and stores different hashes for the same password; no lemma relies on the hashes being equal.
- `z.email()` is the parameter `isEmail`: its definition belongs to the zod library. The model does not require bodies to contain strings; zod's `z.string()` does that check.
- backend/middleware/validationMiddleware.js is not part of this model. Its 400 reply carries `errors`, not `error`, so the forms would show their generic message. backend/middleware/authenticateToken.js is not part of this model either; no route uses it.
- QuizSummary.Percent: rounds the exact rational 100 s / t half up, while the code rounds the IEEE double `(s / t) * 100`. The division is rounded before the multiplication, so a percentage that is exactly x.5 can come out just below it. For 23 right out of 40, the double is 57.49999999999999 and the code shows 57, where the model gives 58.
- QuizSummary.RoundPercent: the integer formula rounds the exact rational 100 s / t, not the double `(s / t) * 100`. It differs from the code on the same inputs as Percent, such as 23 out of 40 (57 in the code, 58 here).
- QuizSummary.BestCategoryOf: the best category's percent, `Math.round(best.pct * 100)`, has the same gap as Percent.
- QuizSummary.MoreAccurate: `pct > best.pct` compares the rounded doubles `score / total`, while the model cross-multiplies the exact fractions. Two different fractions that round to the same double are not ordered in the code, while the model ranks one above the other.
- QuizSummary.SameAccuracy: `pct === best.pct` compares the rounded doubles `score / total`, while the model cross-multiplies the exact fractions. Two different fractions that round to the same double are equal in the code and unequal in the model.
- QuizSummary.Buckets: the buckets are in insertion order. JavaScript lists integer-like keys numerically first. A category named after an `Object.prototype` member such as "constructor" starts from that inherited value. Neither case is modelled.
- Numbers in bodies are integers. Fractional scores are not modelled.
- Js.Utf16Length: a string is a sequence of code points; lone surrogates cannot be written and are not modelled.
- URL encoding of query values is not modelled. The query is a list of key/value pairs.
- `shuffle` in QuizPage.tsx depends on `Math.random`, so the order of answer options is not modelled.
- Rendering is left out, including the loading and error display of the scoreboard page's fetch. Also left out: `dispatchEvent` ("authchange", "quizresult") and `navigate`, which is a `navigatedHome` flag. `localStorage` is a field of the login form, or the `token` parameter of `ResultToPost`.
- The browser's own form validation is not modelled. All three forms submit through `<form onSubmit>` with an `<Input type="email">` (frontend/app/components/loginForm.tsx:63,71, frontend/app/components/register.tsx:85,125, frontend/app/components/ChallengeFriendModal.tsx:53,55), and the dialog's input is also `required` (frontend/app/components/ChallengeFriendModal.tsx:59). If the `ui/input` wrapper, which is not part of this model, passes these through to the native input, the browser refuses an address such as "a b@c.d" and an empty one before any handler runs. The handlers' checks, and lemmas such as ChallengeModal.LoginAddressRefusedByDialog, describe what the handlers do when they are reached.
- ChallengeModal.ChallengeModal.HandleSend: the 700 ms `setTimeout` before `sent` becomes true is collapsed. `sent` is set directly.
- QuizPage.QuizPage.HandleAnswer: requires a running quiz with questions. Outside that state the page shows no answer buttons.
- RegisterForm.RegisterForm.HandleFormChange: the event's field name is one of the five form fields. An arbitrary name would add a new key to the form data.
- Files with no logic to state: navbar.tsx, UserCard.tsx, LoginStatusMarker.tsx, footer.tsx, routes.ts, routes/register.tsx, QuizSetup.tsx and AuthContext.tsx.
