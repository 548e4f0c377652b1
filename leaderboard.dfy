/** The two boards of frontend/app/routes/Scoreboard.tsx: every user ordered by total points,
    and the users with at least 10 answered questions ordered by percent. Both sort a copy
    of the fetched scoreboard with a comparator `b.key - a.key`, which JavaScript's stable
    sort turns into a non-increasing order that keeps fetched order among equal keys. */
module Leaderboard {
  import opened QuizSummary

  /** The field a board sorts on. */
  datatype SortKey = TotalScoreKey | PercentKey

  function KeyOf(k: SortKey, s: Summary): int {
    match k
    case TotalScoreKey => s.totalScore
    case PercentKey => s.percent
  }

  /** Non-increasing in the key. */
  predicate SortedDesc(s: seq<Summary>, k: SortKey) {
    forall i, j | 0 <= i < j < |s| :: KeyOf(k, s[i]) >= KeyOf(k, s[j])
  }

  /** Insert `x` into a sorted board after every entry whose key is at least its own. */
  function Insert(x: Summary, s: seq<Summary>, k: SortKey): (r: seq<Summary>)
    ensures |r| == |s| + 1
  {
    if s == [] then [x]
    else if KeyOf(k, s[0]) >= KeyOf(k, x) then [s[0]] + Insert(x, s[1..], k)
    else [x] + s
  }

  /** Inserting adds exactly `x` to the entries. */
  lemma {:induction false} InsertPermutation(x: Summary, s: seq<Summary>, k: SortKey)
    ensures multiset(Insert(x, s, k)) == multiset(s) + multiset{x}
  {
    if s != [] {
      assert s == [s[0]] + s[1..];
      if KeyOf(k, s[0]) >= KeyOf(k, x) {
        InsertPermutation(x, s[1..], k);
      }
    }
  }

  /** `[...scores].sort((a, b) => b.key - a.key)`: a stable insertion sort, taking the entries
      in fetched order. */
  function SortDesc(s: seq<Summary>, k: SortKey): (r: seq<Summary>)
    ensures |r| == |s|
  {
    if s == [] then [] else Insert(s[|s| - 1], SortDesc(s[..|s| - 1], k), k)
  }

  /** Inserting into a sorted board keeps it sorted. */
  lemma {:induction false} InsertSorted(x: Summary, s: seq<Summary>, k: SortKey)
    requires SortedDesc(s, k)
    ensures SortedDesc(Insert(x, s, k), k)
  {
    if s != [] {
      var h, tail := s[0], s[1..];
      var r := Insert(x, s, k);
      if KeyOf(k, h) >= KeyOf(k, x) {
        var rest := Insert(x, tail, k);
        assert r == [h] + rest;
        assert SortedDesc(tail, k) by {
          forall i, j | 0 <= i < j < |tail| ensures KeyOf(k, tail[i]) >= KeyOf(k, tail[j]) {
            assert tail[i] == s[i + 1] && tail[j] == s[j + 1];
          }
        }
        InsertSorted(x, tail, k);
        assert AtMost(tail, k, KeyOf(k, h)) by {
          forall i | 0 <= i < |tail| ensures KeyOf(k, tail[i]) <= KeyOf(k, h) {
            assert tail[i] == s[i + 1];
          }
        }
        InsertAtMost(x, tail, k, KeyOf(k, h));
        forall i, j | 0 <= i < j < |r| ensures KeyOf(k, r[i]) >= KeyOf(k, r[j]) {
          assert r[j] == rest[j - 1];
          if i > 0 {
            assert r[i] == rest[i - 1];
          }
        }
      } else {
        assert r == [x] + s;
        forall i, j | 0 <= i < j < |r| ensures KeyOf(k, r[i]) >= KeyOf(k, r[j]) {
          assert r[j] == s[j - 1];
          if i > 0 {
            assert r[i] == s[i - 1];
          }
        }
      }
    }
  }

  /** No key of `s` exceeds `b`. */
  predicate AtMost(s: seq<Summary>, k: SortKey, b: int) {
    forall i | 0 <= i < |s| :: KeyOf(k, s[i]) <= b
  }

  /** Inserting an entry whose key does not exceed `b` keeps every key at most `b`. */
  lemma {:induction false} InsertAtMost(x: Summary, s: seq<Summary>, k: SortKey, b: int)
    requires AtMost(s, k, b) && KeyOf(k, x) <= b
    ensures AtMost(Insert(x, s, k), k, b)
  {
    if s != [] && KeyOf(k, s[0]) >= KeyOf(k, x) {
      var tail := s[1..];
      assert AtMost(tail, k, b) by {
        forall i | 0 <= i < |tail| ensures KeyOf(k, tail[i]) <= b {
          assert tail[i] == s[i + 1];
        }
      }
      InsertAtMost(x, tail, k, b);
      var r := Insert(x, s, k);
      var rest := Insert(x, tail, k);
      assert r == [s[0]] + rest;
      forall i | 0 <= i < |r| ensures KeyOf(k, r[i]) <= b {
        if i > 0 {
          assert r[i] == rest[i - 1];
        }
      }
    }
  }

  /** The board is sorted. */
  lemma {:induction false} SortDescSorted(s: seq<Summary>, k: SortKey)
    ensures SortedDesc(SortDesc(s, k), k)
  {
    if s != [] {
      SortDescSorted(s[..|s| - 1], k);
      InsertSorted(s[|s| - 1], SortDesc(s[..|s| - 1], k), k);
    }
  }

  /** The board holds exactly the fetched entries, each as often as it was fetched. */
  lemma {:induction false} SortDescPermutation(s: seq<Summary>, k: SortKey)
    ensures multiset(SortDesc(s, k)) == multiset(s)
  {
    if s != [] {
      SortDescPermutation(s[..|s| - 1], k);
      InsertPermutation(s[|s| - 1], SortDesc(s[..|s| - 1], k), k);
      assert s == s[..|s| - 1] + [s[|s| - 1]];
    }
  }

  // ---------------------------------------------------------------------------------------
  // Stability

  /** The entries whose key is `v`, in order. */
  function WithKey(s: seq<Summary>, k: SortKey, v: int): seq<Summary> {
    if s == [] then []
    else WithKey(s[..|s| - 1], k, v) + (if KeyOf(k, s[|s| - 1]) == v then [s[|s| - 1]] else [])
  }

  lemma {:induction false} WithKeyAppend(a: seq<Summary>, b: seq<Summary>, k: SortKey, v: int)
    ensures WithKey(a + b, k, v) == WithKey(a, k, v) + WithKey(b, k, v)
    decreases |b|
  {
    if b == [] {
      assert a + b == a;
    } else {
      var b' := b[..|b| - 1];
      WithKeyAppend(a, b', k, v);
      assert (a + b)[..|a + b| - 1] == a + b';
      assert (a + b)[|a + b| - 1] == b[|b| - 1];
    }
  }

  lemma WithKeySingle(x: Summary, k: SortKey, v: int)
    ensures WithKey([x], k, v) == if KeyOf(k, x) == v then [x] else []
  {
    assert [x][..0] == [];
  }

  /** Inserting adds `x` at the end of the entries that share its key. */
  lemma {:induction false} InsertWithKey(x: Summary, s: seq<Summary>, k: SortKey, v: int)
    requires SortedDesc(s, k)
    ensures WithKey(Insert(x, s, k), k, v) == WithKey(s, k, v) + (if KeyOf(k, x) == v then [x] else [])
  {
    WithKeySingle(x, k, v);
    if s == [] {
      assert Insert(x, s, k) == [x];
    } else if KeyOf(k, s[0]) >= KeyOf(k, x) {
      var tail := s[1..];
      assert SortedDesc(tail, k);
      InsertWithKey(x, tail, k, v);
      InsertPassing(x, s, k, v);
    } else {
      InsertHere(x, s, k, v);
    }
  }

  /** `x` goes behind the head of `s`. */
  lemma InsertPassing(x: Summary, s: seq<Summary>, k: SortKey, v: int)
    requires s != [] && KeyOf(k, s[0]) >= KeyOf(k, x)
    requires WithKey(Insert(x, s[1..], k), k, v) == WithKey(s[1..], k, v) + (if KeyOf(k, x) == v then [x] else [])
    ensures WithKey(Insert(x, s, k), k, v) == WithKey(s, k, v) + (if KeyOf(k, x) == v then [x] else [])
  {
    var h, tail := s[0], s[1..];
    var rest := Insert(x, tail, k);
    assert Insert(x, s, k) == [h] + rest;
    assert WithKey([h] + rest, k, v) == WithKey([h], k, v) + WithKey(rest, k, v) by {
      WithKeyAppend([h], rest, k, v);
    }
    assert WithKey(s, k, v) == WithKey([h], k, v) + WithKey(tail, k, v) by {
      assert [h] + tail == s;
      WithKeyAppend([h], tail, k, v);
    }
  }

  /** `x` goes in front of a sorted `s` whose head has a smaller key. */
  lemma InsertHere(x: Summary, s: seq<Summary>, k: SortKey, v: int)
    requires SortedDesc(s, k) && s != [] && KeyOf(k, s[0]) < KeyOf(k, x)
    ensures WithKey(Insert(x, s, k), k, v) == WithKey(s, k, v) + (if KeyOf(k, x) == v then [x] else [])
  {
    assert Insert(x, s, k) == [x] + s;
    WithKeyAppend([x], s, k, v);
    WithKeySingle(x, k, v);
    if KeyOf(k, x) == v {
      WithKeyNone(s, k, v);
    }
  }

  lemma {:induction false} WithKeyNone(s: seq<Summary>, k: SortKey, v: int)
    requires forall i | 0 <= i < |s| :: KeyOf(k, s[i]) < v
    ensures WithKey(s, k, v) == []
  {
    if s != [] {
      WithKeyNone(s[..|s| - 1], k, v);
    }
  }

  /** Entries with equal keys keep their fetched order. */
  lemma {:induction false} SortDescStable(s: seq<Summary>, k: SortKey, v: int)
    ensures WithKey(SortDesc(s, k), k, v) == WithKey(s, k, v)
  {
    if s != [] {
      var p := s[..|s| - 1];
      SortDescStable(p, k, v);
      SortDescSorted(p, k);
      InsertWithKey(s[|s| - 1], SortDesc(p, k), k, v);
    }
  }

  // ---------------------------------------------------------------------------------------
  // The two boards

  /** `[...scores].sort((a, b) => b.totalScore - a.totalScore)`. */
  function ByTotal(scores: seq<Summary>): seq<Summary> {
    SortDesc(scores, TotalScoreKey)
  }

  /** `u.totalQuestions >= 10`. */
  predicate Qualifies(u: Summary) {
    u.totalQuestions >= 10
  }

  /** `[...scores].filter(u => u.totalQuestions >= 10)`. */
  function Qualified(scores: seq<Summary>): (q: seq<Summary>)
    ensures forall i | 0 <= i < |q| :: Qualifies(q[i])
  {
    if scores == [] then []
    else
      var last := scores[|scores| - 1];
      Qualified(scores[..|scores| - 1]) + (if Qualifies(last) then [last] else [])
  }

  /** The filter keeps each qualifying entry as often as it was fetched, and no other entry. */
  lemma {:induction false} QualifiedCount(scores: seq<Summary>, u: Summary)
    ensures multiset(Qualified(scores))[u] == if Qualifies(u) then multiset(scores)[u] else 0
  {
    if scores != [] {
      var p := scores[..|scores| - 1];
      QualifiedCount(p, u);
      assert scores == p + [scores[|scores| - 1]];
    }
  }

  /** `[...scores].filter(u => u.totalQuestions >= 10).sort((a, b) => b.percent - a.percent)`. */
  function ByPercent(scores: seq<Summary>): seq<Summary> {
    SortDesc(Qualified(scores), PercentKey)
  }

  /** The points board: a permutation of the fetched entries, non-increasing in points,
      keeping fetched order among equal points. */
  lemma ByTotalCorrect(scores: seq<Summary>)
    ensures multiset(ByTotal(scores)) == multiset(scores)
    ensures SortedDesc(ByTotal(scores), TotalScoreKey)
    ensures forall v :: WithKey(ByTotal(scores), TotalScoreKey, v) == WithKey(scores, TotalScoreKey, v)
  {
    SortDescPermutation(scores, TotalScoreKey);
    SortDescSorted(scores, TotalScoreKey);
    forall v ensures WithKey(ByTotal(scores), TotalScoreKey, v) == WithKey(scores, TotalScoreKey, v) {
      SortDescStable(scores, TotalScoreKey, v);
    }
  }

  /** The percent board: exactly the entries with at least 10 questions, each as often as
      fetched, non-increasing in percent, keeping fetched order among equal percents. */
  lemma ByPercentCorrect(scores: seq<Summary>)
    ensures forall u :: multiset(ByPercent(scores))[u] == if Qualifies(u) then multiset(scores)[u] else 0
    ensures SortedDesc(ByPercent(scores), PercentKey)
    ensures forall v :: WithKey(ByPercent(scores), PercentKey, v) == WithKey(Qualified(scores), PercentKey, v)
  {
    SortDescPermutation(Qualified(scores), PercentKey);
    SortDescSorted(Qualified(scores), PercentKey);
    forall u ensures multiset(ByPercent(scores))[u] == if Qualifies(u) then multiset(scores)[u] else 0 {
      QualifiedCount(scores, u);
    }
    forall v ensures WithKey(ByPercent(scores), PercentKey, v) == WithKey(Qualified(scores), PercentKey, v) {
      SortDescStable(Qualified(scores), PercentKey, v);
    }
  }
}
