/** Full coverage: starting from all-zero counters, a run of turns in which
    every pick is optimal asks each question exactly once before any repeats. */
module Coverage {
  import opened Bank
  import opened Selector
  import opened Session

  predicate InRange(picks: seq<nat>, n: nat)
  {
    forall t :: 0 <= t < |picks| ==> picks[t] < n
  }

  /** The bank after the questions picks[0], picks[1], .. were answered with
      the verdicts right[0], right[1], .. in that order. */
  function Replay(qs: seq<Question>, picks: seq<nat>, right: seq<bool>): (r: seq<Question>)
    requires |picks| == |right| && InRange(picks, |qs|)
    ensures |r| == |qs|
    decreases |picks|
  {
    if picks == [] then qs
    else
      var n := |picks| - 1;
      Record(Replay(qs, picks[..n], right[..n]), picks[n], right[n])
  }

  /** Every pick of the run was one the selector can return at that point:
      optimal for the bank as the earlier turns left it. */
  predicate FollowsSelector(qs: seq<Question>, picks: seq<nat>, right: seq<bool>)
    requires |picks| == |right| && InRange(picks, |qs|)
    decreases |picks|
  {
    picks == [] ||
    var n := |picks| - 1;
    FollowsSelector(qs, picks[..n], right[..n]) &&
    IsOptimal(Replay(qs, picks[..n], right[..n]), picks[n])
  }

  predicate Untouched(qs: seq<Question>)
  {
    forall j :: 0 <= j < |qs| ==> qs[j].correct == 0 && qs[j].incorrect == 0
  }

  lemma {:induction false} UntouchedTotal(qs: seq<Question>)
    requires Untouched(qs)
    ensures TotalAttempts(qs) == 0
  {
    if qs != [] {
      UntouchedTotal(qs[1..]);
    }
  }

  /** A bank whose total number of attempts is below its size has a question
      that was never asked. */
  lemma {:induction false} SomeUnasked(qs: seq<Question>) returns (j: nat)
    requires TotalAttempts(qs) < |qs|
    ensures j < |qs| && Attempts(qs[j]) == 0
  {
    if Attempts(qs[0]) == 0 {
      j := 0;
    } else {
      var j' := SomeUnasked(qs[1..]);
      j := j' + 1;
    }
  }

  /** A bank in which no question was asked twice and one was never asked has
      fewer attempts in total than questions. */
  lemma {:induction false} TotalBelowSize(qs: seq<Question>, j: nat)
    requires forall i :: 0 <= i < |qs| ==> Attempts(qs[i]) <= 1
    requires j < |qs| && Attempts(qs[j]) == 0
    ensures TotalAttempts(qs) < |qs|
  {
    if j == 0 {
      OneEachAtMostSize(qs[1..]);
    } else {
      assert Attempts(qs[1..][j - 1]) == 0;
      TotalBelowSize(qs[1..], j - 1);
    }
  }

  lemma {:induction false} OneEachAtMostSize(qs: seq<Question>)
    requires forall i :: 0 <= i < |qs| ==> Attempts(qs[i]) <= 1
    ensures TotalAttempts(qs) <= |qs|
  {
    if qs != [] {
      assert Attempts(qs[0]) <= 1;
      OneEachAtMostSize(qs[1..]);
    }
  }

  /** After t optimal turns from zero counters (t at most the bank size), the
      questions asked are pairwise distinct and are exactly those with one
      attempt; all others have none. */
  lemma {:induction false} CoverageInvariant(qs: seq<Question>, picks: seq<nat>, right: seq<bool>)
    requires Untouched(qs) && |picks| == |right| <= |qs| && InRange(picks, |qs|)
    requires FollowsSelector(qs, picks, right)
    ensures forall j :: 0 <= j < |qs| ==>
      Attempts(Replay(qs, picks, right)[j]) == if j in picks then 1 else 0
    ensures forall s, t :: 0 <= s < t < |picks| ==> picks[s] != picks[t]
    ensures TotalAttempts(Replay(qs, picks, right)) == |picks|
  {
    if picks == [] {
      UntouchedTotal(qs);
    } else {
      var n := |picks| - 1;
      var picks', right' := picks[..n], right[..n];
      CoverageInvariant(qs, picks', right');
      var before := Replay(qs, picks', right');
      var j := SomeUnasked(before);
      FreshQuestionsFirst(before, picks[n], j);
      assert Attempts(before[picks[n]]) == if picks[n] in picks' then 1 else 0;
      RecordTotals(before, picks[n], right[n]);
      assert picks == picks' + [picks[n]];
    }
  }

  /** A run of as many optimal turns as there are questions, from zero
      counters, asks every question exactly once. */
  lemma FullCoverage(qs: seq<Question>, picks: seq<nat>, right: seq<bool>)
    requires Untouched(qs) && |picks| == |right| == |qs| && InRange(picks, |qs|)
    requires FollowsSelector(qs, picks, right)
    ensures forall s, t :: 0 <= s < t < |picks| ==> picks[s] != picks[t]
    ensures forall j :: 0 <= j < |qs| ==> j in picks
  {
    CoverageInvariant(qs, picks, right);
    var after := Replay(qs, picks, right);
    forall j | 0 <= j < |qs|
      ensures j in picks
    {
      if j !in picks {
        TotalBelowSize(after, j);
      }
    }
  }
}
