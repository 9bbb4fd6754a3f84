/** Choosing the next question: least practised first, and among equally
    practised questions the one answered wrongly most often. */
module Selector {
  import opened Bank

  function Attempts(q: Question): nat
  {
    q.correct + q.incorrect
  }

  /** a strictly beats b on the priority key (attempts ascending, then
      incorrect count descending). */
  predicate Beats(a: Question, b: Question)
  {
    Attempts(a) < Attempts(b) || (Attempts(a) == Attempts(b) && a.incorrect > b.incorrect)
  }

  /** No question of the bank strictly beats qs[k]. */
  predicate IsOptimal(qs: seq<Question>, k: nat)
    requires k < |qs|
  {
    forall j :: 0 <= j < |qs| ==> !Beats(qs[j], qs[k])
  }

  /** Seeds the candidate with qs[r] (the question a uniform shuffle put first)
      and replaces it, scanning the bank in stored order, by every question
      that strictly beats it. */
  method PickQuestion(qs: seq<Question>, r: nat) returns (best: nat)
    requires r < |qs|
    ensures best < |qs| && IsOptimal(qs, best)
    ensures forall j :: 0 <= j < |qs| ==>
      Attempts(qs[best]) < Attempts(qs[j]) ||
      (Attempts(qs[best]) == Attempts(qs[j]) && qs[best].incorrect >= qs[j].incorrect)
    ensures IsOptimal(qs, r) ==> best == r
    ensures !IsOptimal(qs, r) ==> forall j :: 0 <= j < best ==> !IsOptimal(qs, j)
  {
    best := r;
    for i := 0 to |qs|
      invariant best < |qs| && !Beats(qs[r], qs[best])
      invariant forall j :: 0 <= j < i ==> !Beats(qs[j], qs[best])
      invariant best != r ==>
        best < i && Beats(qs[best], qs[r]) && forall j :: 0 <= j < best ==> Beats(qs[best], qs[j])
    {
      if Beats(qs[i], qs[best]) {
        best := i;
      }
    }
  }

  /** While some question has never been asked, the selector asks one of those. */
  lemma FreshQuestionsFirst(qs: seq<Question>, best: nat, j: nat)
    requires best < |qs| && IsOptimal(qs, best)
    requires j < |qs| && Attempts(qs[j]) == 0
    ensures Attempts(qs[best]) == 0
  {
  }
}
