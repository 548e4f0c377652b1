/** The per-user quiz summary computed inline by the `/scoreboard` and `/stats` handlers of
    backend/routes/quiz.js: the total score, the total number of questions, the rounded
    percentage and the best category (highest accuracy, then highest raw score, then the
    category seen first). */
module QuizSummary {
  import opened Js

  type UserId = int

  /** One row of the quiz-result table. `category` and `difficulty` are nullable strings. */
  datatype QuizResult = QuizResult(
    userId: UserId, score: int, total: int, category: Option<string>, difficulty: Option<string>)

  /** One entry `[category, { score, total }]` of the `catStats` object. */
  datatype Bucket = Bucket(category: string, score: int, total: int)

  datatype BestCategory = BestCategory(category: string, percent: int)

  /** The JSON object both handlers respond with. `nickname` is absent when `/stats` finds no user. */
  datatype Summary = Summary(
    nickname: Option<string>, totalScore: int, totalQuestions: int, percent: int,
    bestCategory: Option<BestCategory>)

  /** `!r.category` is false: the result carries a non-empty category. */
  predicate HasCategory(r: QuizResult) {
    Truthy(r.category)
  }

  // ---------------------------------------------------------------------------------------
  // Sums (the two `reduce` calls)

  function SumScores(rs: seq<QuizResult>): int {
    if rs == [] then 0 else SumScores(rs[..|rs| - 1]) + rs[|rs| - 1].score
  }

  function SumTotals(rs: seq<QuizResult>): int {
    if rs == [] then 0 else SumTotals(rs[..|rs| - 1]) + rs[|rs| - 1].total
  }

  /** Both sums split over a concatenation. */
  lemma {:induction false} SumsAppend(a: seq<QuizResult>, b: seq<QuizResult>)
    ensures SumScores(a + b) == SumScores(a) + SumScores(b)
    ensures SumTotals(a + b) == SumTotals(a) + SumTotals(b)
    decreases |b|
  {
    if b == [] {
      assert a + b == a;
    } else {
      var b' := b[..|b| - 1];
      SumsAppend(a, b');
      assert (a + b)[..|a + b| - 1] == a + b';
      assert (a + b)[|a + b| - 1] == b[|b| - 1];
    }
  }

  /** Removing one result from a list takes exactly its score and total off the sums. */
  lemma SumsRemove(rs: seq<QuizResult>, i: nat)
    requires i < |rs|
    ensures SumScores(rs) == SumScores(rs[..i] + rs[i + 1..]) + rs[i].score
    ensures SumTotals(rs) == SumTotals(rs[..i] + rs[i + 1..]) + rs[i].total
  {
    var a, x, b := rs[..i], rs[i], rs[i + 1..];
    var xb := [x] + b;
    assert rs == a + xb;
    assert SumScores(a + xb) == SumScores(a) + SumScores(xb) && SumTotals(a + xb) == SumTotals(a) + SumTotals(xb) by {
      SumsAppend(a, xb);
    }
    assert SumScores(xb) == x.score + SumScores(b) && SumTotals(xb) == x.total + SumTotals(b) by {
      SumsAppend([x], b);
      SumsSingleton(x);
    }
    SumsAppend(a, b);
  }

  /** The sums do not depend on the order of the results. */
  lemma {:induction false} SumsPermutation(a: seq<QuizResult>, b: seq<QuizResult>)
    requires multiset(a) == multiset(b)
    ensures SumScores(a) == SumScores(b) && SumTotals(a) == SumTotals(b)
    decreases |a|
  {
    if a != [] {
      var x := a[|a| - 1];
      assert x in multiset(b) by { assert x in multiset(a); }
      var i :| 0 <= i < |b| && b[i] == x;
      var a' := a[..|a| - 1];
      var b' := b[..i] + b[i + 1..];
      assert a == a' + [x];
      assert b == b[..i] + [x] + b[i + 1..];
      assert multiset(a) == multiset(a') + multiset{x};
      assert multiset(b) == multiset(b[..i]) + multiset{x} + multiset(b[i + 1..]);
      assert multiset(b') == multiset(b[..i]) + multiset(b[i + 1..]);
      assert multiset(a') == multiset(a) - multiset{x};
      assert multiset(b') == multiset(b) - multiset{x};
      SumsPermutation(a', b');
      SumsRemove(b, i);
    } else {
      assert |b| == 0;
    }
  }

  /** If every result has `0 <= score <= total`, so do the sums. */
  lemma {:induction false} SumsBounded(rs: seq<QuizResult>)
    requires forall i | 0 <= i < |rs| :: 0 <= rs[i].score <= rs[i].total
    ensures 0 <= SumScores(rs) <= SumTotals(rs)
  {
    if rs != [] {
      SumsBounded(rs[..|rs| - 1]);
    }
  }

  // ---------------------------------------------------------------------------------------
  // Rounding

  /** JavaScript's `Math.round`: the nearest integer, halves rounded towards +infinity. */
  ghost function MathRound(x: real): int {
    (x + 0.5).Floor
  }

  /** `Math.round(s / t * 100)` computed exactly on integers, for `t > 0`. */
  function RoundPercent(s: int, t: int): (p: int)
    requires t > 0
    ensures 2 * t * p - t <= 200 * s < 2 * t * p + t
  {
    (200 * s + t) / (2 * t)
  }

  /** Multiplying by a positive number keeps the sign. */
  lemma PositiveFactor(e: real, k: real)
    requires k > 0.0
    ensures e > 0.0 ==> e * k > 0.0
    ensures e < 0.0 ==> e * k < 0.0
  {
  }

  lemma MulCast(a: int, b: int)
    ensures (a * b) as real == (a as real) * (b as real)
  {
  }

  /** For a positive divisor, integer division is the floor of the real quotient. */
  lemma DivIsFloor(n: int, d: int)
    requires d > 0
    ensures ((n as real) / (d as real)).Floor == n / d
  {
    var q := (n as real) / (d as real);
    var dr := d as real;
    var p := n / d;
    var pr := p as real;
    assert q * dr == n as real;
    assert d * p <= n < d * p + d;
    MulCast(d, p);
    assert pr * dr <= n as real < pr * dr + dr;
    PositiveFactor(pr - q, dr);
    PositiveFactor(q - pr - 1.0, dr);
    assert pr <= q < pr + 1.0;
  }

  /** The integer formula is `Math.round` applied to the exact percentage. */
  lemma RoundPercentIsMathRound(s: int, t: int)
    requires t > 0
    ensures RoundPercent(s, t) == MathRound(100.0 * (s as real) / (t as real))
  {
    var x := 100.0 * (s as real) / (t as real);
    var n, d := 200 * s + t, 2 * t;
    var y := (n as real) / (d as real);
    assert y * (d as real) == n as real;
    assert x * (t as real) == 100.0 * (s as real);
    assert (x + 0.5) * (d as real) == n as real;
    var e := x + 0.5 - y;
    assert e * (d as real) == 0.0;
    assert e == 0.0;
    DivIsFloor(n, d);
  }

  /** A proportion between 0 and 1 rounds to a percentage between 0 and 100. */
  lemma RoundPercentBounded(s: int, t: int)
    requires 0 <= s <= t && t > 0
    ensures 0 <= RoundPercent(s, t) <= 100
  {
    var p := RoundPercent(s, t);
    assert t * (2 * p) == 2 * t * p && t * 201 == 200 * t + t && t * (2 * p + 1) == 2 * t * p + t;
    CancelPositive(2 * p, 201, t);
    assert t * 0 == 0;
    CancelPositiveStrict(0, 2 * p + 1, t);
  }

  /** A positive factor can be cancelled on both sides of an inequality. */
  lemma CancelPositive(a: int, b: int, t: int)
    requires t > 0 && t * a <= t * b
    ensures a <= b
  {
    assert t * (b - a) == t * b - t * a;
  }

  lemma CancelPositiveStrict(a: int, b: int, t: int)
    requires t > 0 && t * a < t * b
    ensures a < b
  {
    assert t * (b - a) == t * b - t * a;
  }

  /** A proportion at least as high rounds to a percentage at least as high. */
  lemma RoundPercentMonotone(s1: int, t1: int, s2: int, t2: int)
    requires t1 > 0 && t2 > 0 && s1 * t2 <= s2 * t1
    ensures RoundPercent(s1, t1) <= RoundPercent(s2, t2)
  {
    var p1, p2 := RoundPercent(s1, t1), RoundPercent(s2, t2);
    var u := t1 * t2;
    assert u > 0 by { MulPositive(t1, t2); }
    assert (2 * p1 - 1) * t1 <= 200 * s1;
    assert 200 * s2 < (2 * p2 + 1) * t2;
    assert (2 * p1 - 1) * t1 * t2 <= 200 * s1 * t2 by { MulMonotone((2 * p1 - 1) * t1, 200 * s1, t2); }
    assert 200 * s1 * t2 <= 200 * s2 * t1 by {
      assert 200 * s1 * t2 == 200 * (s1 * t2) && 200 * s2 * t1 == 200 * (s2 * t1);
    }
    assert 200 * s2 * t1 < (2 * p2 + 1) * t2 * t1 by { MulStrict(200 * s2, (2 * p2 + 1) * t2, t1); }
    assert u * (2 * p1 - 1) < u * (2 * p2 + 1) by {
      assert (2 * p1 - 1) * t1 * t2 == u * (2 * p1 - 1);
      assert (2 * p2 + 1) * t2 * t1 == u * (2 * p2 + 1);
    }
    CancelPositiveStrict(2 * p1 - 1, 2 * p2 + 1, u);
  }

  lemma MulPositive(a: int, b: int)
    requires a > 0 && b > 0
    ensures a * b > 0
  {
  }

  lemma MulMonotone(a: int, b: int, c: int)
    requires a <= b && c >= 0
    ensures a * c <= b * c
  {
    assert b * c - a * c == (b - a) * c;
  }

  lemma MulStrict(a: int, b: int, c: int)
    requires a < b && c > 0
    ensures a * c < b * c
  {
    assert b * c - a * c == (b - a) * c;
  }

  /** The `percent` of a summary and of a best category: 0 when nothing was attempted. */
  function Percent(s: int, t: int): (p: int)
    ensures t <= 0 ==> p == 0
    ensures t > 0 ==> p == MathRound(100.0 * (s as real) / (t as real))
    ensures t > 0 && 0 <= s <= t ==> 0 <= p <= 100
  {
    if t > 0 then
      RoundPercentIsMathRound(s, t);
      if 0 <= s <= t then RoundPercentBounded(s, t); RoundPercent(s, t)
      else RoundPercent(s, t)
    else 0
  }

  // ---------------------------------------------------------------------------------------
  // Accuracy of a bucket: `s.total > 0 ? s.score / s.total : 0`, as the fraction AccNum / AccDen

  function AccNum(b: Bucket): int {
    if b.total > 0 then b.score else 0
  }

  function AccDen(b: Bucket): (d: int)
    ensures d > 0
  {
    if b.total > 0 then b.total else 1
  }

  /** `pct > best.pct`, decided exactly by cross-multiplication. */
  predicate MoreAccurate(a: Bucket, b: Bucket) {
    AccNum(a) * AccDen(b) > AccNum(b) * AccDen(a)
  }

  /** `pct === best.pct`, decided exactly by cross-multiplication. */
  predicate SameAccuracy(a: Bucket, b: Bucket) {
    AccNum(a) * AccDen(b) == AccNum(b) * AccDen(a)
  }

  /** The accuracy as an exact rational number. */
  ghost function Accuracy(b: Bucket): real {
    if b.total > 0 then (b.score as real) / (b.total as real) else 0.0
  }

  /** Comparing two fractions with positive denominators by cross-multiplication. */
  lemma CrossMultiply(na: int, da: int, nb: int, db: int)
    requires da > 0 && db > 0
    ensures na * db > nb * da <==> (na as real) / (da as real) > (nb as real) / (db as real)
    ensures na * db == nb * da <==> (na as real) / (da as real) == (nb as real) / (db as real)
  {
    var x, y := (na as real) / (da as real), (nb as real) / (db as real);
    var k := (da as real) * (db as real);
    assert x * (da as real) == na as real;
    assert y * (db as real) == nb as real;
    var e := x - y;
    assert (na * db - nb * da) as real == e * k;
    assert k > 0.0;
    if e > 0.0 {
      assert e * k > 0.0;
    } else if e < 0.0 {
      assert (-e) * k > 0.0;
    }
  }

  /** Cross-multiplication compares the rational accuracies. */
  lemma AccuracyComparison(a: Bucket, b: Bucket)
    ensures MoreAccurate(a, b) <==> Accuracy(a) > Accuracy(b)
    ensures SameAccuracy(a, b) <==> Accuracy(a) == Accuracy(b)
  {
    assert Accuracy(a) == (AccNum(a) as real) / (AccDen(a) as real);
    assert Accuracy(b) == (AccNum(b) as real) / (AccDen(b) as real);
    CrossMultiply(AccNum(a), AccDen(a), AccNum(b), AccDen(b));
  }

  /** The update condition of the selection loop:
      `pct > best.pct || (pct === best.pct && s.score > best.score)`. */
  predicate Beats(a: Bucket, b: Bucket) {
    MoreAccurate(a, b) || (SameAccuracy(a, b) && a.score > b.score)
  }

  /** `Beats` is the strict part of the order comparing accuracy, then raw score. */
  lemma BeatsIsLexicographic(a: Bucket, b: Bucket)
    ensures Beats(a, b) <==>
      Accuracy(a) > Accuracy(b) || (Accuracy(a) == Accuracy(b) && a.score > b.score)
  {
    AccuracyComparison(a, b);
  }

  lemma BeatsAsymmetric(a: Bucket, b: Bucket)
    ensures Beats(a, b) ==> !Beats(b, a)
  {
    BeatsIsLexicographic(a, b);
    BeatsIsLexicographic(b, a);
  }

  /** If `a` beats `b` and `c` does not beat `b`, then `a` beats `c`. */
  lemma BeatsTransitive(a: Bucket, b: Bucket, c: Bucket)
    requires Beats(a, b) && !Beats(c, b)
    ensures Beats(a, c)
  {
    BeatsIsLexicographic(a, b);
    BeatsIsLexicographic(c, b);
    BeatsIsLexicographic(a, c);
  }

  // ---------------------------------------------------------------------------------------
  // Filling `catStats` (the first loop)

  /** The position of the bucket of category `c`, or `|bs|` when there is none. */
  function CategoryIndex(bs: seq<Bucket>, c: string): (i: nat)
    ensures i <= |bs|
    ensures i < |bs| ==> bs[i].category == c
    ensures forall j | 0 <= j < i :: bs[j].category != c
  {
    if bs == [] then 0
    else if bs[0].category == c then 0
    else 1 + CategoryIndex(bs[1..], c)
  }

  /** One iteration of the first loop: skip an uncategorised result, open a bucket for a new
      category at the end, or add into the existing bucket. */
  function AddResult(bs: seq<Bucket>, r: QuizResult): seq<Bucket> {
    if !HasCategory(r) then bs
    else
      var c := r.category.value;
      var i := CategoryIndex(bs, c);
      if i == |bs| then bs + [Bucket(c, r.score, r.total)]
      else bs[i := Bucket(c, bs[i].score + r.score, bs[i].total + r.total)]
  }

  /** `Object.entries(catStats)` after the first loop: the buckets in first-seen order. */
  function Buckets(rs: seq<QuizResult>): seq<Bucket> {
    if rs == [] then [] else AddResult(Buckets(rs[..|rs| - 1]), rs[|rs| - 1])
  }

  /** Category `c` is carried by some result. */
  predicate Occurs(rs: seq<QuizResult>, c: string) {
    c != "" && exists i | 0 <= i < |rs| :: rs[i].category == Some(c)
  }

  /** The results carrying category `c`, in order. */
  function OfCategory(rs: seq<QuizResult>, c: string): seq<QuizResult> {
    if rs == [] then []
    else OfCategory(rs[..|rs| - 1], c) + (if rs[|rs| - 1].category == Some(c) then [rs[|rs| - 1]] else [])
  }

  /** What the bucket of category `c` must hold: the sums over exactly its results. */
  function CategoryBucket(rs: seq<QuizResult>, c: string): Bucket {
    Bucket(c, SumScores(OfCategory(rs, c)), SumTotals(OfCategory(rs, c)))
  }

  /** Index of the first result carrying category `c`, or `|rs|` when there is none. */
  function FirstSeen(rs: seq<QuizResult>, c: string): (i: nat)
    ensures i <= |rs|
    ensures i < |rs| ==> rs[i].category == Some(c)
    ensures forall j | 0 <= j < i :: rs[j].category != Some(c)
  {
    if rs == [] then 0
    else if rs[0].category == Some(c) then 0
    else 1 + FirstSeen(rs[1..], c)
  }

  lemma OfCategoryAbsent(rs: seq<QuizResult>, c: string)
    requires forall i | 0 <= i < |rs| :: rs[i].category != Some(c)
    ensures OfCategory(rs, c) == []
  {
  }

  /** Adding a result changes the first-seen index of no category already seen. */
  lemma FirstSeenSnoc(rs: seq<QuizResult>, r: QuizResult, c: string)
    ensures FirstSeen(rs + [r], c) ==
      if FirstSeen(rs, c) < |rs| then FirstSeen(rs, c)
      else if r.category == Some(c) then |rs| else |rs| + 1
  {
    var k, k' := FirstSeen(rs + [r], c), FirstSeen(rs, c);
    if k' < |rs| {
      assert (rs + [r])[k'] == rs[k'];
      assert forall j | 0 <= j < |rs| :: (rs + [r])[j] == rs[j];
    } else {
      assert forall j | 0 <= j < |rs| :: (rs + [r])[j] == rs[j];
      assert (rs + [r])[|rs|] == r;
    }
  }

  /** No two buckets share a category. */
  predicate DistinctCategories(bs: seq<Bucket>) {
    forall i, j | 0 <= i < j < |bs| :: bs[i].category != bs[j].category
  }

  /** What `Object.entries(catStats)` must be for the results `rs`: one bucket per category that
      occurs, none twice, in first-seen order, each holding the sums over exactly the results
      carrying its category. */
  ghost predicate BucketsFaithful(rs: seq<QuizResult>, bs: seq<Bucket>) {
    DistinctCategories(bs) && BucketsSound(rs, bs) && BucketsComplete(rs, bs) && BucketsOrdered(rs, bs)
  }

  /** Every bucket is that of a category that occurs, with the sums over its results. */
  ghost predicate BucketsSound(rs: seq<QuizResult>, bs: seq<Bucket>) {
    forall i | 0 <= i < |bs| :: Occurs(rs, bs[i].category) && bs[i] == CategoryBucket(rs, bs[i].category)
  }

  /** Every category that occurs has a bucket. */
  ghost predicate BucketsComplete(rs: seq<QuizResult>, bs: seq<Bucket>) {
    forall c | Occurs(rs, c) :: exists j | 0 <= j < |bs| :: bs[j].category == c
  }

  /** The buckets come in the order their categories are first seen. */
  ghost predicate BucketsOrdered(rs: seq<QuizResult>, bs: seq<Bucket>) {
    forall i, j | 0 <= i < j < |bs| :: FirstSeen(rs, bs[i].category) < FirstSeen(rs, bs[j].category)
  }

  /** Adding one result at the end adds it to the results of its own category only. */
  lemma SnocOfCategory(p: seq<QuizResult>, r: QuizResult)
    ensures forall c | r.category != Some(c) :: OfCategory(p + [r], c) == OfCategory(p, c)
    ensures forall c | r.category == Some(c) :: OfCategory(p + [r], c) == OfCategory(p, c) + [r]
  {
    var rs := p + [r];
    assert rs[..|rs| - 1] == p;
    forall c | r.category != Some(c) ensures OfCategory(rs, c) == OfCategory(p, c) {
      assert OfCategory(rs, c) == OfCategory(p, c) + [];
    }
  }

  /** Adding one result at the end moves no first-seen index of a category already seen. */
  lemma SnocFirstSeen(p: seq<QuizResult>, r: QuizResult)
    ensures forall c :: FirstSeen(p + [r], c) == (if FirstSeen(p, c) < |p| then FirstSeen(p, c)
      else if r.category == Some(c) then |p| else |p| + 1)
  {
    forall c ensures FirstSeen(p + [r], c) == (if FirstSeen(p, c) < |p| then FirstSeen(p, c)
        else if r.category == Some(c) then |p| else |p| + 1) {
      FirstSeenSnoc(p, r, c);
    }
  }

  /** Adding one result at the end makes its category occur, and no other. */
  lemma SnocOccurs(p: seq<QuizResult>, r: QuizResult)
    ensures forall c :: Occurs(p + [r], c) <==> Occurs(p, c) || (c != "" && r.category == Some(c))
  {
    var rs := p + [r];
    forall c ensures Occurs(rs, c) <==> Occurs(p, c) || (c != "" && r.category == Some(c)) {
      if Occurs(rs, c) {
        var i :| 0 <= i < |rs| && rs[i].category == Some(c);
        if i < |p| { assert p[i] == rs[i]; }
      }
      assert rs[|p|] == r;
      if Occurs(p, c) {
        var i :| 0 <= i < |p| && p[i].category == Some(c);
        assert rs[i] == p[i];
      }
    }
  }

  /** A category occurs exactly when it is non-empty and seen before the end; one never seen
      has no results. */
  lemma OccursFirstSeen(p: seq<QuizResult>)
    ensures forall c :: Occurs(p, c) <==> c != "" && FirstSeen(p, c) < |p|
    ensures forall c | FirstSeen(p, c) == |p| :: OfCategory(p, c) == []
  {
    forall c | FirstSeen(p, c) == |p| ensures OfCategory(p, c) == [] {
      OfCategoryAbsent(p, c);
    }
  }

  /** An uncategorised result leaves the buckets as they are. */
  lemma SkipFaithful(p: seq<QuizResult>, r: QuizResult, bs: seq<Bucket>)
    requires BucketsFaithful(p, bs) && !HasCategory(r)
    ensures BucketsFaithful(p + [r], bs)
  {
    SnocOfCategory(p, r);
    SnocFirstSeen(p, r);
    SnocOccurs(p, r);
    OccursFirstSeen(p);
  }

  /** A result of a category not seen before opens a bucket at the end. */
  lemma NewBucketFaithful(p: seq<QuizResult>, r: QuizResult, bs: seq<Bucket>)
    requires BucketsFaithful(p, bs) && HasCategory(r)
    requires forall j | 0 <= j < |bs| :: bs[j].category != r.category.value
    ensures BucketsFaithful(p + [r], bs + [Bucket(r.category.value, r.score, r.total)])
  {
    var bs' := bs + [Bucket(r.category.value, r.score, r.total)];
    assert forall j | 0 <= j < |bs| :: bs'[j] == bs[j];
    NewBucketSound(p, r, bs);
    NewBucketComplete(p, r, bs);
    NewBucketOrdered(p, r, bs);
  }

  lemma NewBucketSound(p: seq<QuizResult>, r: QuizResult, bs: seq<Bucket>)
    requires BucketsFaithful(p, bs) && HasCategory(r)
    requires forall j | 0 <= j < |bs| :: bs[j].category != r.category.value
    ensures BucketsSound(p + [r], bs + [Bucket(r.category.value, r.score, r.total)])
  {
    SnocOfCategory(p, r);
    SnocOccurs(p, r);
    OccursFirstSeen(p);
    var c0 := r.category.value;
    var rs := p + [r];
    var bs' := bs + [Bucket(c0, r.score, r.total)];
    assert !Occurs(p, c0);
    assert OfCategory(rs, c0) == [r];
    SumsSingleton(r);
    forall j | 0 <= j < |bs'|
      ensures Occurs(rs, bs'[j].category) && bs'[j] == CategoryBucket(rs, bs'[j].category)
    {
      if j < |bs| {
        assert bs'[j] == bs[j];
        assert OfCategory(rs, bs[j].category) == OfCategory(p, bs[j].category);
      }
    }
  }

  lemma NewBucketComplete(p: seq<QuizResult>, r: QuizResult, bs: seq<Bucket>)
    requires BucketsFaithful(p, bs) && HasCategory(r)
    ensures BucketsComplete(p + [r], bs + [Bucket(r.category.value, r.score, r.total)])
  {
    SnocOccurs(p, r);
    var c0 := r.category.value;
    var bs' := bs + [Bucket(c0, r.score, r.total)];
    forall c | Occurs(p + [r], c) ensures exists j | 0 <= j < |bs'| :: bs'[j].category == c {
      if c == c0 {
        assert bs'[|bs|].category == c;
      } else {
        assert Occurs(p, c);
        var j :| 0 <= j < |bs| && bs[j].category == c;
        assert bs'[j].category == c;
      }
    }
  }

  lemma NewBucketOrdered(p: seq<QuizResult>, r: QuizResult, bs: seq<Bucket>)
    requires BucketsFaithful(p, bs) && HasCategory(r)
    requires forall j | 0 <= j < |bs| :: bs[j].category != r.category.value
    ensures BucketsOrdered(p + [r], bs + [Bucket(r.category.value, r.score, r.total)])
  {
    SnocFirstSeen(p, r);
    OccursFirstSeen(p);
    var c0 := r.category.value;
    var bs' := bs + [Bucket(c0, r.score, r.total)];
    assert !Occurs(p, c0);
    forall a, b | 0 <= a < b < |bs'|
      ensures FirstSeen(p + [r], bs'[a].category) < FirstSeen(p + [r], bs'[b].category)
    {
      assert bs'[a] == bs[a];
      assert Occurs(p, bs[a].category);
      if b < |bs| {
        assert bs'[b] == bs[b];
        assert Occurs(p, bs[b].category);
      }
    }
  }

  /** A result of a category already seen adds into that bucket. */
  lemma MergeFaithful(p: seq<QuizResult>, r: QuizResult, bs: seq<Bucket>, i: nat)
    requires BucketsFaithful(p, bs) && HasCategory(r)
    requires i < |bs| && bs[i].category == r.category.value
    ensures BucketsFaithful(p + [r], bs[i := Bucket(bs[i].category, bs[i].score + r.score, bs[i].total + r.total)])
  {
    var bs' := bs[i := Bucket(bs[i].category, bs[i].score + r.score, bs[i].total + r.total)];
    assert DistinctCategories(bs') by {
      assert forall j | 0 <= j < |bs| :: bs'[j].category == bs[j].category;
    }
    MergeSound(p, r, bs, i);
    MergeComplete(p, r, bs, i);
    MergeOrdered(p, r, bs, i);
  }

  lemma MergeSound(p: seq<QuizResult>, r: QuizResult, bs: seq<Bucket>, i: nat)
    requires BucketsFaithful(p, bs) && HasCategory(r)
    requires i < |bs| && bs[i].category == r.category.value
    ensures BucketsSound(p + [r], bs[i := Bucket(bs[i].category, bs[i].score + r.score, bs[i].total + r.total)])
  {
    SnocOfCategory(p, r);
    SnocOccurs(p, r);
    var c0 := r.category.value;
    var rs := p + [r];
    var bs' := bs[i := Bucket(c0, bs[i].score + r.score, bs[i].total + r.total)];
    SumsAppend(OfCategory(p, c0), [r]);
    SumsSingleton(r);
    assert CategoryBucket(rs, c0) == bs'[i];
    forall j | 0 <= j < |bs'|
      ensures Occurs(rs, bs'[j].category) && bs'[j] == CategoryBucket(rs, bs'[j].category)
    {
      if j != i {
        assert bs'[j] == bs[j];
        assert OfCategory(rs, bs[j].category) == OfCategory(p, bs[j].category);
      }
    }
  }

  lemma MergeComplete(p: seq<QuizResult>, r: QuizResult, bs: seq<Bucket>, i: nat)
    requires BucketsFaithful(p, bs) && HasCategory(r)
    requires i < |bs| && bs[i].category == r.category.value
    ensures BucketsComplete(p + [r], bs[i := Bucket(bs[i].category, bs[i].score + r.score, bs[i].total + r.total)])
  {
    SnocOccurs(p, r);
    var bs' := bs[i := Bucket(bs[i].category, bs[i].score + r.score, bs[i].total + r.total)];
    forall c | Occurs(p + [r], c) ensures exists j | 0 <= j < |bs'| :: bs'[j].category == c {
      assert Occurs(p, c);
      var j :| 0 <= j < |bs| && bs[j].category == c;
      assert bs'[j].category == c;
    }
  }

  lemma MergeOrdered(p: seq<QuizResult>, r: QuizResult, bs: seq<Bucket>, i: nat)
    requires BucketsFaithful(p, bs) && HasCategory(r)
    requires i < |bs| && bs[i].category == r.category.value
    ensures BucketsOrdered(p + [r], bs[i := Bucket(bs[i].category, bs[i].score + r.score, bs[i].total + r.total)])
  {
    SnocFirstSeen(p, r);
    OccursFirstSeen(p);
    var bs' := bs[i := Bucket(bs[i].category, bs[i].score + r.score, bs[i].total + r.total)];
    forall a, b | 0 <= a < b < |bs'|
      ensures FirstSeen(p + [r], bs'[a].category) < FirstSeen(p + [r], bs'[b].category)
    {
      assert bs'[a].category == bs[a].category && bs'[b].category == bs[b].category;
      assert Occurs(p, bs[a].category) && Occurs(p, bs[b].category);
    }
  }

  lemma SumsSingleton(r: QuizResult)
    ensures SumScores([r]) == r.score && SumTotals([r]) == r.total
  {
    assert [r][..0] == [];
  }

  /** One iteration of the first loop keeps the buckets faithful. */
  lemma AddResultFaithful(p: seq<QuizResult>, r: QuizResult, bs: seq<Bucket>)
    requires BucketsFaithful(p, bs)
    ensures BucketsFaithful(p + [r], AddResult(bs, r))
  {
    if !HasCategory(r) {
      assert AddResult(bs, r) == bs;
      SkipFaithful(p, r, bs);
    } else {
      var c := r.category.value;
      var i := CategoryIndex(bs, c);
      if i == |bs| {
        assert AddResult(bs, r) == bs + [Bucket(c, r.score, r.total)];
        NewBucketFaithful(p, r, bs);
      } else {
        assert AddResult(bs, r) == bs[i := Bucket(bs[i].category, bs[i].score + r.score, bs[i].total + r.total)];
        MergeFaithful(p, r, bs, i);
      }
    }
  }

  /** The first loop fills `catStats` faithfully. */
  lemma {:induction false} BucketsCorrect(rs: seq<QuizResult>)
    ensures BucketsFaithful(rs, Buckets(rs))
  {
    if rs != [] {
      var p, r := rs[..|rs| - 1], rs[|rs| - 1];
      assert rs == p + [r];
      BucketsCorrect(p);
      AddResultFaithful(p, r, Buckets(p));
    } else {
      assert forall c :: !Occurs(rs, c);
    }
  }

  // ---------------------------------------------------------------------------------------
  // Choosing the best bucket (the second loop)

  /** Position of the bucket the second loop keeps in `best`. */
  function BestIndex(bs: seq<Bucket>): (k: Option<nat>)
    ensures k.None? <==> bs == []
    ensures k.Some? ==> k.value < |bs|
  {
    if bs == [] then None
    else match BestIndex(bs[..|bs| - 1])
      case None => Some(|bs| - 1)
      case Some(k) => if Beats(bs[|bs| - 1], bs[k]) then Some(|bs| - 1) else Some(k)
  }

  /** The kept bucket is beaten by no bucket, and beats every bucket before it: a remaining tie
      goes to the earliest bucket because the comparison is strict. */
  lemma {:induction false} BestIndexIsFirstMaximum(bs: seq<Bucket>)
    requires bs != []
    ensures forall j | 0 <= j < |bs| :: !Beats(bs[j], bs[BestIndex(bs).value])
    ensures forall j | 0 <= j < BestIndex(bs).value :: Beats(bs[BestIndex(bs).value], bs[j])
  {
    var n := |bs|;
    var p := bs[..n - 1];
    var last := bs[n - 1];
    if p == [] {
      BeatsAsymmetric(last, last);
    } else {
      BestIndexIsFirstMaximum(p);
      var k := BestIndex(p).value;
      assert forall j | 0 <= j < n - 1 :: p[j] == bs[j];
      if Beats(last, bs[k]) {
        forall j | 0 <= j < n - 1 ensures Beats(last, bs[j]) && !Beats(bs[j], last) {
          if j != k {
            if j < k {
              BeatsAsymmetric(bs[k], bs[j]);
            }
            BeatsTransitive(last, bs[k], bs[j]);
          }
          BeatsAsymmetric(last, bs[j]);
        }
        BeatsAsymmetric(last, last);
      }
    }
  }

  /** The best category of a result list, as both handlers compute it. */
  function BestCategoryOf(rs: seq<QuizResult>): Option<BestCategory> {
    if |rs| == 0 then None
    else
      var bs := Buckets(rs);
      match BestIndex(bs)
      case None => None
      case Some(k) => Some(BestCategory(bs[k].category, Percent(bs[k].score, bs[k].total)))
  }

  /** The summary of one user's results. */
  function Summarize(nickname: Option<string>, rs: seq<QuizResult>): Summary {
    var totalScore := SumScores(rs);
    var totalQuestions := SumTotals(rs);
    Summary(nickname, totalScore, totalQuestions, Percent(totalScore, totalQuestions), BestCategoryOf(rs))
  }

  // ---------------------------------------------------------------------------------------
  // Properties of the summary

  /** There is no best category exactly when no result carries a non-empty category. */
  lemma BestCategoryAbsentIff(rs: seq<QuizResult>)
    ensures BestCategoryOf(rs).None? <==> forall i | 0 <= i < |rs| :: !HasCategory(rs[i])
  {
    BucketsCorrect(rs);
    if exists i | 0 <= i < |rs| :: HasCategory(rs[i]) {
      var i :| 0 <= i < |rs| && HasCategory(rs[i]);
      assert Occurs(rs, rs[i].category.value);
    } else {
      assert forall c :: !Occurs(rs, c);
    }
  }

  /** The best category occurs in the input, its percent is its accuracy rounded, no category
      beats it, and it beats every category first seen before it. */
  lemma BestCategoryChoice(rs: seq<QuizResult>)
    requires BestCategoryOf(rs).Some?
    ensures var bc := BestCategoryOf(rs).value;
      var w := CategoryBucket(rs, bc.category);
      && Occurs(rs, bc.category)
      && bc.percent == Percent(w.score, w.total)
      && (forall c | Occurs(rs, c) :: !Beats(CategoryBucket(rs, c), w))
      && (forall c | Occurs(rs, c) && FirstSeen(rs, c) < FirstSeen(rs, bc.category) ::
            Beats(w, CategoryBucket(rs, c)))
  {
    var bs := Buckets(rs);
    BucketsCorrect(rs);
    BestIndexIsFirstMaximum(bs);
    var k := BestIndex(bs).value;
    var bc := BestCategoryOf(rs).value;
    assert bc.category == bs[k].category;
    var w := CategoryBucket(rs, bc.category);
    assert w == bs[k];
    forall c | Occurs(rs, c) ensures !Beats(CategoryBucket(rs, c), w) {
      var j :| 0 <= j < |bs| && bs[j].category == c;
      assert bs[j] == CategoryBucket(rs, c);
    }
    forall c | Occurs(rs, c) && FirstSeen(rs, c) < FirstSeen(rs, bc.category)
      ensures Beats(w, CategoryBucket(rs, c))
    {
      var j :| 0 <= j < |bs| && bs[j].category == c;
      assert bs[j] == CategoryBucket(rs, c);
      assert j < k;
    }
  }

  /** The same choice in terms of rational accuracies: the best category has the highest
      accuracy, the largest raw score among equal accuracy, and is the earliest among full ties. */
  lemma BestCategoryRanking(rs: seq<QuizResult>, c: string)
    requires BestCategoryOf(rs).Some? && Occurs(rs, c)
    ensures var bc := BestCategoryOf(rs).value;
      var w := CategoryBucket(rs, bc.category);
      var other := CategoryBucket(rs, c);
      && Accuracy(other) <= Accuracy(w)
      && (Accuracy(other) == Accuracy(w) ==> other.score <= w.score)
      && (Accuracy(other) == Accuracy(w) && other.score == w.score && c != bc.category ==>
            FirstSeen(rs, bc.category) < FirstSeen(rs, c))
  {
    BestCategoryChoice(rs);
    var bc := BestCategoryOf(rs).value;
    var w := CategoryBucket(rs, bc.category);
    var other := CategoryBucket(rs, c);
    BeatsIsLexicographic(other, w);
    BeatsIsLexicographic(w, other);
    if c != bc.category {
      assert FirstSeen(rs, c) < |rs| && FirstSeen(rs, bc.category) < |rs|;
      assert FirstSeen(rs, c) != FirstSeen(rs, bc.category);
    }
  }

  /** With `0 <= score <= total` on every result, the percentages lie between 0 and 100. */
  lemma PercentsBounded(rs: seq<QuizResult>)
    requires forall i | 0 <= i < |rs| :: 0 <= rs[i].score <= rs[i].total
    ensures 0 <= Summarize(None, rs).percent <= 100
    ensures BestCategoryOf(rs).Some? ==> 0 <= BestCategoryOf(rs).value.percent <= 100
  {
    SumsBounded(rs);
    if BestCategoryOf(rs).Some? {
      BestCategoryChoice(rs);
      var c := BestCategoryOf(rs).value.category;
      var sub := OfCategory(rs, c);
      OfCategoryBounded(rs, c);
      SumsBounded(sub);
    }
  }

  lemma {:induction false} OfCategoryBounded(rs: seq<QuizResult>, c: string)
    requires forall i | 0 <= i < |rs| :: 0 <= rs[i].score <= rs[i].total
    ensures forall i | 0 <= i < |OfCategory(rs, c)| ::
      0 <= OfCategory(rs, c)[i].score <= OfCategory(rs, c)[i].total
  {
    if rs != [] {
      OfCategoryBounded(rs[..|rs| - 1], c);
    }
  }

  /** Adding a perfect result (every question right) never lowers a user's percentage. */
  lemma PerfectResultNeverLowersPercent(rs: seq<QuizResult>, r: QuizResult)
    requires forall i | 0 <= i < |rs| :: 0 <= rs[i].score <= rs[i].total
    requires 0 <= r.score == r.total
    ensures Summarize(None, rs + [r]).percent >= Summarize(None, rs).percent
  {
    SumsAppend(rs, [r]);
    SumsSingleton(r);
    SumsBounded(rs);
    var S, T, s := SumScores(rs), SumTotals(rs), r.score;
    if T > 0 {
      assert S * (T + s) <= (S + s) * T by {
        assert S * (T + s) == S * T + S * s;
        assert (S + s) * T == S * T + s * T;
        MulMonotone(S, T, s);
        assert S * s <= T * s;
      }
      RoundPercentMonotone(S, T, S + s, T + s);
    }
  }

  /** Summary totals and percent do not depend on the order of the results. */
  lemma SummaryTotalsPermutation(nickname: Option<string>, a: seq<QuizResult>, b: seq<QuizResult>)
    requires multiset(a) == multiset(b)
    ensures Summarize(nickname, a).totalScore == Summarize(nickname, b).totalScore
    ensures Summarize(nickname, a).totalQuestions == Summarize(nickname, b).totalQuestions
    ensures Summarize(nickname, a).percent == Summarize(nickname, b).percent
  {
    SumsPermutation(a, b);
  }

  // ---------------------------------------------------------------------------------------
  // The inline code of the handlers, step by step

  /** The elements of `keys` as a set. */
  function KeySet(keys: seq<string>): set<string> {
    if keys == [] then {} else KeySet(keys[..|keys| - 1]) + {keys[|keys| - 1]}
  }

  lemma {:induction false} KeySetMembers(keys: seq<string>)
    ensures forall c :: c in KeySet(keys) <==> c in keys
  {
    if keys != [] {
      KeySetMembers(keys[..|keys| - 1]);
      assert keys == keys[..|keys| - 1] + [keys[|keys| - 1]];
    }
  }

  /** `catStats` after one categorised result: its entry, created as `{score: 0, total: 0}`
      when missing, has the result's score and total added. */
  function Enter(catStats: map<string, (int, int)>, c: string, score: int, total: int): (m: map<string, (int, int)>)
    ensures m.Keys == catStats.Keys + {c}
  {
    var base := if c in catStats then catStats[c] else (0, 0);
    catStats[c := (base.0 + score, base.1 + total)]
  }

  /** The two statements of the source that update the entry produce `Enter`. */
  lemma EnterInTwoSteps(catStats: map<string, (int, int)>, c: string, score: int, total: int)
    ensures var created := if c in catStats then catStats else catStats[c := (0, 0)];
      created[c := (created[c].0 + score, created[c].1 + total)] == Enter(catStats, c, score, total)
  {
  }

  /** No two buckets share a category. */
  lemma BucketsDistinct(rs: seq<QuizResult>)
    ensures DistinctCategories(Buckets(rs))
  {
    BucketsCorrect(rs);
  }

  /** The categories of the buckets, in order: the insertion order of the keys of `catStats`. */
  function Categories(bs: seq<Bucket>): (keys: seq<string>)
    ensures |keys| == |bs|
  {
    if bs == [] then [] else Categories(bs[..|bs| - 1]) + [bs[|bs| - 1].category]
  }

  /** The object `catStats` that holds the buckets: each category mapped to its sums. */
  function StatsMap(bs: seq<Bucket>): map<string, (int, int)> {
    if bs == [] then map[]
    else
      var b := bs[|bs| - 1];
      StatsMap(bs[..|bs| - 1])[b.category := (b.score, b.total)]
  }

  /** The keys of the object are the categories of the buckets. */
  lemma {:induction false} StatsMapKeys(bs: seq<Bucket>)
    ensures StatsMap(bs).Keys == KeySet(Categories(bs))
  {
    if bs != [] {
      StatsMapKeys(bs[..|bs| - 1]);
    }
  }

  /** With distinct categories, the object maps the category of a bucket to that bucket's sums. */
  lemma {:induction false} StatsMapLookup(bs: seq<Bucket>, k: nat)
    requires DistinctCategories(bs) && k < |bs|
    ensures bs[k].category in StatsMap(bs) && StatsMap(bs)[bs[k].category] == (bs[k].score, bs[k].total)
  {
    var p := bs[..|bs| - 1];
    if k < |p| {
      assert DistinctCategories(p) by {
        forall i, j | 0 <= i < j < |p| ensures p[i].category != p[j].category {
          assert p[i] == bs[i] && p[j] == bs[j];
        }
      }
      StatsMapLookup(p, k);
      assert p[k] == bs[k];
    }
  }

  /** Changing the sums of one bucket changes the categories not at all. */
  lemma {:induction false} CategoriesUpdate(bs: seq<Bucket>, i: nat, b: Bucket)
    requires i < |bs| && b.category == bs[i].category
    ensures Categories(bs[i := b]) == Categories(bs)
  {
    var p := bs[..|bs| - 1];
    var bs' := bs[i := b];
    if i < |p| {
      CategoriesUpdate(p, i, b);
      assert bs'[..|bs'| - 1] == p[i := b];
    } else {
      assert bs'[..|bs'| - 1] == p;
    }
  }

  /** With distinct categories, changing the sums of one bucket updates its entry only. */
  lemma {:induction false} StatsMapUpdate(bs: seq<Bucket>, i: nat, b: Bucket)
    requires DistinctCategories(bs) && i < |bs| && b.category == bs[i].category
    ensures StatsMap(bs[i := b]) == StatsMap(bs)[b.category := (b.score, b.total)]
  {
    var p, last := bs[..|bs| - 1], bs[|bs| - 1];
    var bs' := bs[i := b];
    if i < |p| {
      assert DistinctCategories(p) by {
        forall x, y | 0 <= x < y < |p| ensures p[x].category != p[y].category {
          assert p[x] == bs[x] && p[y] == bs[y];
        }
      }
      StatsMapUpdate(p, i, b);
      assert bs'[..|bs'| - 1] == p[i := b] && bs'[|bs'| - 1] == last;
      assert last.category != b.category;
    } else {
      assert bs'[..|bs'| - 1] == p;
    }
  }

  /** One iteration of the first loop: the object and its key order after adding a
      categorised result are `Enter` applied to those before, and a key is appended exactly
      when the category is new. */
  lemma StatsMapStep(bs: seq<Bucket>, r: QuizResult)
    requires DistinctCategories(bs) && HasCategory(r)
    ensures var c, m := r.category.value, StatsMap(bs);
      && Categories(AddResult(bs, r)) == (if c in m then Categories(bs) else Categories(bs) + [c])
      && StatsMap(AddResult(bs, r)) == Enter(m, c, r.score, r.total)
  {
    var c := r.category.value;
    var j := CategoryIndex(bs, c);
    if j < |bs| {
      var b := Bucket(c, bs[j].score + r.score, bs[j].total + r.total);
      assert AddResult(bs, r) == bs[j := b];
      StatsMapMerge(bs, j, r);
    } else {
      assert AddResult(bs, r) == bs + [Bucket(c, r.score, r.total)];
      StatsMapNew(bs, r);
    }
  }

  /** Adding into the bucket of index `j`: the key order stays, the entry's sums grow. */
  lemma StatsMapMerge(bs: seq<Bucket>, j: nat, r: QuizResult)
    requires DistinctCategories(bs) && HasCategory(r) && j < |bs| && bs[j].category == r.category.value
    ensures var c, m := r.category.value, StatsMap(bs);
      var b := Bucket(c, bs[j].score + r.score, bs[j].total + r.total);
      && c in m
      && Categories(bs[j := b]) == Categories(bs)
      && StatsMap(bs[j := b]) == Enter(m, c, r.score, r.total)
  {
    var c := r.category.value;
    var b := Bucket(c, bs[j].score + r.score, bs[j].total + r.total);
    StatsMapLookup(bs, j);
    CategoriesUpdate(bs, j, b);
    StatsMapUpdate(bs, j, b);
  }

  /** Opening a bucket at the end for a category without one: its key is appended. */
  lemma StatsMapNew(bs: seq<Bucket>, r: QuizResult)
    requires HasCategory(r) && forall k | 0 <= k < |bs| :: bs[k].category != r.category.value
    ensures var c, m := r.category.value, StatsMap(bs);
      var bs' := bs + [Bucket(c, r.score, r.total)];
      && c !in m
      && Categories(bs') == Categories(bs) + [c]
      && StatsMap(bs') == Enter(m, c, r.score, r.total)
  {
    var c, m := r.category.value, StatsMap(bs);
    var bs' := bs + [Bucket(c, r.score, r.total)];
    assert c !in m by { StatsMapAbsent(bs, c); }
    assert bs'[..|bs'| - 1] == bs && bs'[|bs'| - 1] == Bucket(c, r.score, r.total);
    assert StatsMap(bs') == m[c := (r.score, r.total)];
    assert Enter(m, c, r.score, r.total) == m[c := (r.score, r.total)];
  }

  /** A category no bucket carries has no entry. */
  lemma {:induction false} StatsMapAbsent(bs: seq<Bucket>, c: string)
    requires forall k | 0 <= k < |bs| :: bs[k].category != c
    ensures c !in StatsMap(bs)
  {
    if bs != [] {
      var p := bs[..|bs| - 1];
      assert forall k | 0 <= k < |p| :: p[k] == bs[k];
      StatsMapAbsent(p, c);
      assert bs[|bs| - 1].category != c;
    }
  }

  lemma {:induction false} CategoriesAt(bs: seq<Bucket>)
    ensures forall k | 0 <= k < |bs| :: Categories(bs)[k] == bs[k].category
  {
    if bs != [] {
      var p := bs[..|bs| - 1];
      CategoriesAt(p);
      assert forall k | 0 <= k < |p| :: p[k] == bs[k];
    }
  }

  /** One iteration of the first loop, in the shape of the source's statements: an
      uncategorised result leaves the buckets alone; a categorised one creates its entry as
      `{0, 0}` when missing, appending its key, and then adds into the entry. */
  lemma FillStep(rs: seq<QuizResult>, i: nat)
    requires i < |rs|
    ensures var B, B', r := Buckets(rs[..i]), Buckets(rs[..i + 1]), rs[i];
      && (!HasCategory(r) ==> B' == B)
      && (HasCategory(r) ==>
            var c, m := r.category.value, StatsMap(B);
            var created := if c in m then m else m[c := (0, 0)];
            && StatsMap(B') == created[c := (created[c].0 + r.score, created[c].1 + r.total)]
            && Categories(B') == if c in m then Categories(B) else Categories(B) + [c])
  {
    var r := rs[i];
    assert rs[..i + 1] == rs[..i] + [r];
    assert rs[..i + 1][..i] == rs[..i];
    var B := Buckets(rs[..i]);
    assert Buckets(rs[..i + 1]) == AddResult(B, r);
    if HasCategory(r) {
      BucketsDistinct(rs[..i]);
      StatsMapStep(B, r);
      EnterInTwoSteps(StatsMap(B), r.category.value, r.score, r.total);
    }
  }

  /** The first loop of the handlers: fill `catStats`, remembering its insertion order. The
      result is the object and key order of the buckets (`StatsMapLookup`, `StatsMapKeys` and
      `CategoriesAt` say what they hold). */
  method FillCatStats(rs: seq<QuizResult>) returns (keys: seq<string>, catStats: map<string, (int, int)>)
    ensures keys == Categories(Buckets(rs)) && catStats == StatsMap(Buckets(rs))
  {
    catStats := map[];
    keys := [];
    for i := 0 to |rs|
      invariant keys == Categories(Buckets(rs[..i])) && catStats == StatsMap(Buckets(rs[..i]))
    {
      var r := rs[i];
      ghost var after := Buckets(rs[..i + 1]);
      FillStep(rs, i);
      if !HasCategory(r) {
        continue;
      }
      var c := r.category.value;
      if c !in catStats {
        catStats := catStats[c := (0, 0)];
        keys := keys + [c];
      }
      catStats := catStats[c := (catStats[c].0 + r.score, catStats[c].1 + r.total)];
      assert keys == Categories(after) && catStats == StatsMap(after);
    }
    assert rs[..|rs|] == rs;
  }

  /** The second loop of the handlers: walk the entries of `catStats` in insertion order and keep
      the first bucket no later bucket beats. */
  method PickBest(keys: seq<string>, catStats: map<string, (int, int)>, ghost bs: seq<Bucket>)
    returns (best: Option<Bucket>)
    requires DistinctCategories(bs) && keys == Categories(bs) && catStats == StatsMap(bs)
    ensures best == if bs == [] then None else Some(bs[BestIndex(bs).value])
  {
    CategoriesAt(bs);
    best := None;
    for k := 0 to |keys|
      invariant best == if k == 0 then None else Some(bs[BestIndex(bs[..k]).value])
    {
      StatsMapLookup(bs, k);
      var b := Bucket(keys[k], catStats[keys[k]].0, catStats[keys[k]].1);
      assert b == bs[k];
      assert bs[..k + 1][..k] == bs[..k];
      if best.None? || Beats(b, best.value) {
        best := Some(b);
      }
    }
    assert bs[..|keys|] == bs;
  }

  /** The summary code of quiz.js as written: two `reduce` sums, the percent, then the
      `catStats` loop and the `best` loop. */
  method ComputeSummary(nickname: Option<string>, rs: seq<QuizResult>) returns (s: Summary)
    ensures s == Summarize(nickname, rs)
  {
    var totalScore := SumScores(rs);
    var totalQuestions := SumTotals(rs);
    var percent := if totalQuestions > 0 then RoundPercent(totalScore, totalQuestions) else 0;
    var bestCategory: Option<BestCategory> := None;
    if |rs| > 0 {
      var keys, catStats := FillCatStats(rs);
      BucketsDistinct(rs);
      var best := PickBest(keys, catStats, Buckets(rs));
      if best.Some? {
        var pct := if best.value.total > 0 then RoundPercent(best.value.score, best.value.total) else 0;
        bestCategory := Some(BestCategory(best.value.category, pct));
      }
    }
    s := Summary(nickname, totalScore, totalQuestions, percent, bestCategory);
  }

  // ---------------------------------------------------------------------------------------
  // Worked examples

  /** Two results of different categories make two buckets, in their order. */
  lemma BucketsOfTwo(a: QuizResult, b: QuizResult)
    requires HasCategory(a) && HasCategory(b) && a.category != b.category
    ensures Buckets([a, b]) == [Bucket(a.category.value, a.score, a.total), Bucket(b.category.value, b.score, b.total)]
  {
    assert [a, b][..1] == [a] && [a][..0] == [];
    var first := Buckets([a]);
    assert [a] != [] && |[a]| - 1 == 0 && [a][0] == a;
    assert Buckets([a]) == AddResult(Buckets([a][..0]), [a][0]);
    assert first == AddResult([], a);
    assert CategoryIndex([], a.category.value) == 0;
    assert first == [Bucket(a.category.value, a.score, a.total)];
    assert first[0].category != b.category.value && first[1..] == [];
    assert CategoryIndex(first, b.category.value) == 1;
  }

  /** Of two buckets the second is kept only when it beats the first. */
  lemma BestIndexOfTwo(x: Bucket, y: Bucket)
    ensures BestIndex([x, y]) == if Beats(y, x) then Some(1) else Some(0)
  {
    assert [x, y][..1] == [x] && [x][..0] == [];
  }

  /** Science 8/10 and History 3/5: 11 of 15 is 73%, and Science wins with 80%. */
  lemma ExampleScienceHistory()
    ensures Summarize(Some("ann"), [
        QuizResult(1, 8, 10, Some("Science"), None), QuizResult(1, 3, 5, Some("History"), None)])
      == Summary(Some("ann"), 11, 15, 73, Some(BestCategory("Science", 80)))
  {
    var a, b := QuizResult(1, 8, 10, Some("Science"), None), QuizResult(1, 3, 5, Some("History"), None);
    assert [a, b][..1] == [a] && [a][..0] == [];
    SumsSingleton(a);
    assert SumScores([a, b]) == 11 && SumTotals([a, b]) == 15;
    BucketsOfTwo(a, b);
    BestIndexOfTwo(Bucket("Science", 8, 10), Bucket("History", 3, 5));
  }

  /** A full tie (5/10 and 5/10) goes to the category seen first, so the best category does
      depend on the order of the results. */
  lemma ExampleTieDependsOnOrder()
    ensures BestCategoryOf([QuizResult(1, 5, 10, Some("A"), None), QuizResult(1, 5, 10, Some("B"), None)])
      == Some(BestCategory("A", 50))
    ensures BestCategoryOf([QuizResult(1, 5, 10, Some("B"), None), QuizResult(1, 5, 10, Some("A"), None)])
      == Some(BestCategory("B", 50))
  {
    var a, b := QuizResult(1, 5, 10, Some("A"), None), QuizResult(1, 5, 10, Some("B"), None);
    BucketsOfTwo(a, b);
    BucketsOfTwo(b, a);
    BestIndexOfTwo(Bucket("A", 5, 10), Bucket("B", 5, 10));
    BestIndexOfTwo(Bucket("B", 5, 10), Bucket("A", 5, 10));
  }

  /** A bucket with total 0 counts as 0% and still wins when it is seen first and nothing
      beats it. */
  lemma ExampleZeroTotalWins()
    ensures BestCategoryOf([QuizResult(1, 0, 0, Some("A"), None), QuizResult(1, 0, 5, Some("B"), None)])
      == Some(BestCategory("A", 0))
  {
    var a, b := QuizResult(1, 0, 0, Some("A"), None), QuizResult(1, 0, 5, Some("B"), None);
    BucketsOfTwo(a, b);
    BestIndexOfTwo(Bucket("A", 0, 0), Bucket("B", 0, 5));
  }
}
