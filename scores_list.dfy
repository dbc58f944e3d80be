/** Ordering of a high-score list: a selection sort from the highest score to
    the lowest, keeping entries with equal scores in their original order. */
module Scores {

  /** A (name, score) pair. */
  datatype ScoreEntry = ScoreEntry(name: string, score: int)

  /** Scores never increase along the list. */
  predicate NonIncreasing(s: seq<ScoreEntry>)
  {
    forall i, j | 0 <= i < j < |s| :: s[i].score >= s[j].score
  }

  /** The entries holding score v, in list order. */
  function WithScore(s: seq<ScoreEntry>, v: int): (r: seq<ScoreEntry>)
    ensures |r| <= |s|
  {
    if s == [] then []
    else (if s[0].score == v then [s[0]] else []) + WithScore(s[1..], v)
  }

  lemma {:induction false} WithScoreConcat(a: seq<ScoreEntry>, b: seq<ScoreEntry>, v: int)
    ensures WithScore(a + b, v) == WithScore(a, v) + WithScore(b, v)
  {
    if a != [] {
      assert (a + b)[1..] == a[1..] + b;
      WithScoreConcat(a[1..], b, v);
    } else {
      assert a + b == b;
    }
  }

  /** A list with no entry of score v has nothing to contribute to it. */
  lemma {:induction false} WithScoreNone(s: seq<ScoreEntry>, v: int)
    requires forall k | 0 <= k < |s| :: s[k].score != v
    ensures WithScore(s, v) == []
  {
    if s != [] {
      WithScoreNone(s[1..], v);
    }
  }

  /** Every entry shows up under its own score. */
  lemma {:induction false} WithScoreSome(s: seq<ScoreEntry>, k: nat)
    requires k < |s|
    ensures WithScore(s, s[k].score) != []
  {
    if k > 0 {
      WithScoreSome(s[1..], k - 1);
    }
  }

  /** List.remove(o): drops the first entry equal to e. */
  function RemoveFirst(s: seq<ScoreEntry>, e: ScoreEntry): (r: seq<ScoreEntry>)
    requires e in s
    ensures |r| == |s| - 1
  {
    if s[0] == e then s[1..]
    else
      assert e in s[1..] by {
        var k :| 0 <= k < |s| && s[k] == e;
        assert s[1..][k - 1] == e;
      }
      [s[0]] + RemoveFirst(s[1..], e)
  }

  /** Removing the first occurrence of an entry cuts it out at its position. */
  lemma {:induction false} RemoveFirstAt(s: seq<ScoreEntry>, hi: nat)
    requires hi < |s| && forall i | 0 <= i < hi :: s[i] != s[hi]
    ensures RemoveFirst(s, s[hi]) == s[..hi] + s[hi + 1..]
  {
    if hi > 0 {
      var t := s[1..];
      assert t[hi - 1] == s[hi];
      RemoveFirstAt(t, hi - 1);
      assert t[..hi - 1] == s[1..hi] && t[hi..] == s[hi + 1..];
      assert s[..hi] == [s[0]] + s[1..hi];
    }
  }

  /** The entries of done, then of rest, under each score, are those of input. */
  ghost predicate SplitsScores(done: seq<ScoreEntry>, rest: seq<ScoreEntry>, input: seq<ScoreEntry>)
  {
    forall v :: WithScore(done, v) + WithScore(rest, v) == WithScore(input, v)
  }

  /** Moving the first entry of the highest score from rest to done keeps
      every score's entries in their order. */
  lemma SelectStep(done: seq<ScoreEntry>, rest: seq<ScoreEntry>, input: seq<ScoreEntry>, hi: nat)
    requires hi < |rest| && forall i | 0 <= i < hi :: rest[i].score < rest[hi].score
    requires SplitsScores(done, rest, input)
    ensures SplitsScores(done + [rest[hi]], rest[..hi] + rest[hi + 1..], input)
  {
    forall v ensures WithScore(done + [rest[hi]], v) + WithScore(rest[..hi] + rest[hi + 1..], v) == WithScore(input, v) {
      SelectStepAt(done, rest, hi, v);
    }
  }

  /** SelectStep for the entries of one score v. */
  lemma SelectStepAt(done: seq<ScoreEntry>, rest: seq<ScoreEntry>, hi: nat, v: int)
    requires hi < |rest| && forall i | 0 <= i < hi :: rest[i].score < rest[hi].score
    ensures WithScore(done + [rest[hi]], v) + WithScore(rest[..hi] + rest[hi + 1..], v)
         == WithScore(done, v) + WithScore(rest, v)
  {
    var e := rest[hi];
    var before, after := rest[..hi], rest[hi + 1..];
    assert rest == before + ([e] + after);
    var d, m, b, a := WithScore(done, v), WithScore([e], v), WithScore(before, v), WithScore(after, v);
    assert m == if e.score == v then [e] else [] by {
      assert [e][1..] == [];
    }
    WithScoreConcat(done, [e], v);
    WithScoreConcat(before, after, v);
    WithScoreConcat(before, [e] + after, v);
    WithScoreConcat([e], after, v);
    if v == e.score {
      WithScoreNone(before, v);
      assert (d + m) + (b + a) == d + (b + (m + a));
    } else {
      assert (d + m) + (b + a) == d + (b + (m + a));
    }
  }

  /** Every score in done is at least every score in rest. */
  ghost predicate Ahead(done: seq<ScoreEntry>, rest: seq<ScoreEntry>)
  {
    forall i, j | 0 <= i < |done| && 0 <= j < |rest| :: done[i].score >= rest[j].score
  }

  /** Moving one entry from rest to done keeps the entries overall. */
  lemma SelectKeepsEntries(done: seq<ScoreEntry>, rest: seq<ScoreEntry>, input: seq<ScoreEntry>, hi: nat)
    requires hi < |rest| && multiset(done) + multiset(rest) == multiset(input)
    ensures multiset(done + [rest[hi]]) + multiset(rest[..hi] + rest[hi + 1..]) == multiset(input)
  {
    assert rest == rest[..hi] + [rest[hi]] + rest[hi + 1..];
  }

  /** After the move, done is still ordered and still ahead of all of rest. */
  lemma SelectKeepsOrder(done: seq<ScoreEntry>, rest: seq<ScoreEntry>, hi: nat)
    requires NonIncreasing(done) && hi < |rest|
    requires Ahead(done, rest)
    requires forall i | 0 <= i < |rest| :: rest[i].score <= rest[hi].score
    ensures NonIncreasing(done + [rest[hi]])
    ensures Ahead(done + [rest[hi]], rest[..hi] + rest[hi + 1..])
  {
    var r := rest[..hi] + rest[hi + 1..];
    assert forall j | 0 <= j < |r| :: r[j] == if j < hi then rest[j] else rest[j + 1];
  }

  /** orderByScore: repeatedly moves the first entry with the highest score
      of what remains to the output. The result is ordered from the highest
      score to the lowest, holds the same entries, and keeps entries of equal
      score in their original order. */
  method OrderByScore(arrayToSort: seq<ScoreEntry>) returns (sorted: seq<ScoreEntry>)
    ensures NonIncreasing(sorted)
    ensures multiset(sorted) == multiset(arrayToSort) && |sorted| == |arrayToSort|
    ensures forall v :: WithScore(sorted, v) == WithScore(arrayToSort, v)
  {
    var rest := arrayToSort;
    var sortedScores := [];
    while rest != []
      invariant multiset(sortedScores) + multiset(rest) == multiset(arrayToSort)
      invariant NonIncreasing(sortedScores)
      invariant Ahead(sortedScores, rest)
      invariant SplitsScores(sortedScores, rest, arrayToSort)
      decreases |rest|
    {
      var highestPair, hi := Highest(rest);
      RemoveFirstAt(rest, hi);
      SelectStep(sortedScores, rest, arrayToSort, hi);
      SelectKeepsOrder(sortedScores, rest, hi);
      SelectKeepsEntries(sortedScores, rest, arrayToSort, hi);
      sortedScores := sortedScores + [highestPair];
      rest := RemoveFirst(rest, highestPair);
    }
    sorted := sortedScores;
    assert rest == [];
    assert |sorted| == |multiset(sorted)| == |multiset(arrayToSort)| == |arrayToSort|;
    forall v ensures WithScore(sorted, v) == WithScore(arrayToSort, v) {
      assert WithScore(sorted, v) + WithScore([], v) == WithScore(arrayToSort, v);
    }
  }

  /** The inner loop of orderByScore: the first entry holding the highest
      score, found by a strict comparison. The index is the proof's. */
  method Highest(rest: seq<ScoreEntry>) returns (highestPair: ScoreEntry, ghost hi: nat)
    requires rest != []
    ensures hi < |rest| && highestPair == rest[hi]
    ensures forall i | 0 <= i < |rest| :: rest[i].score <= highestPair.score
    ensures forall i | 0 <= i < hi :: rest[i].score < highestPair.score
  {
    highestPair := rest[0];
    hi := 0;
    for k := 0 to |rest|
      invariant hi < |rest| && highestPair == rest[hi]
      invariant forall i | 0 <= i < k :: rest[i].score <= highestPair.score
      invariant forall i | 0 <= i < hi :: rest[i].score < highestPair.score
    {
      if rest[k].score > highestPair.score {
        highestPair := rest[k];
        hi := k;
      }
    }
  }

  /** Two lists ordered by score whose equal-score entries come in the same
      order are the same list: the ordering is determined by its input. */
  lemma {:induction false} OrderedUnique(a: seq<ScoreEntry>, b: seq<ScoreEntry>)
    requires NonIncreasing(a) && NonIncreasing(b)
    requires forall v :: WithScore(a, v) == WithScore(b, v)
    ensures a == b
    decreases |a|
  {
    BothEmpty(a, b);
    if a != [] {
      HeadScore(a, b);
      HeadScore(b, a);
      var m := a[0].score;
      assert b[0].score == m;
      assert a[0] == b[0] by {
        assert WithScore(a, m) == [a[0]] + WithScore(a[1..], m);
        assert WithScore(b, m) == [b[0]] + WithScore(b[1..], m);
        assert WithScore(a, m)[0] == a[0] && WithScore(b, m)[0] == b[0];
      }
      forall v ensures WithScore(a[1..], v) == WithScore(b[1..], v) {
        var x: seq<ScoreEntry> := if a[0].score == v then [a[0]] else [];
        assert WithScore(a, v) == x + WithScore(a[1..], v);
        assert WithScore(b, v) == x + WithScore(b[1..], v);
        assert (x + WithScore(a[1..], v))[|x|..] == WithScore(a[1..], v);
        assert (x + WithScore(b[1..], v))[|x|..] == WithScore(b[1..], v);
      }
      OrderedUnique(a[1..], b[1..]);
      assert a == [a[0]] + a[1..] && b == [b[0]] + b[1..];
    }
  }

  /** Lists with the same entries per score are empty together. */
  lemma BothEmpty(a: seq<ScoreEntry>, b: seq<ScoreEntry>)
    requires forall v :: WithScore(a, v) == WithScore(b, v)
    ensures a == [] <==> b == []
  {
    if a != [] {
      WithScoreSome(a, 0);
      assert WithScore(b, a[0].score) != [];
    }
    if b != [] {
      WithScoreSome(b, 0);
      assert WithScore(a, b[0].score) != [];
    }
  }

  /** In an ordered list the head holds the highest score, so a list with the
      same entries per score cannot start with a higher one. */
  lemma HeadScore(a: seq<ScoreEntry>, b: seq<ScoreEntry>)
    requires a != [] && b != [] && NonIncreasing(a)
    requires forall v :: WithScore(a, v) == WithScore(b, v)
    ensures b[0].score <= a[0].score
  {
    WithScoreSome(b, 0);
    if forall k | 0 <= k < |a| :: a[k].score != b[0].score {
      WithScoreNone(a, b[0].score);
      assert false;
    }
  }

  /** Ordering a list that is already in score order gives it back unchanged,
      so ordering twice is the same as ordering once. */
  method OrderTwice(list: seq<ScoreEntry>) returns (once: seq<ScoreEntry>, twice: seq<ScoreEntry>)
    ensures twice == once && NonIncreasing(once)
    ensures multiset(once) == multiset(list)
  {
    once := OrderByScore(list);
    twice := OrderByScore(once);
    OrderedUnique(twice, once);
  }
}
