/** One turn of the drill: present the chosen question with its answers
    shuffled, read responses until one is a valid letter, and record the
    verdict in the question's counters. */
module Session {
  import opened Wrappers
  import opened Bank
  import opened Selector

  // ---------------------------------------------------------------------
  // Presentation

  /** p is a permutation of 0 .. n-1: the display order a shuffle produced
      (display position k shows the stored answer p[k]). */
  predicate IsPermutation(p: seq<nat>, n: nat)
  {
    |p| == n &&
    (forall k :: 0 <= k < |p| ==> p[k] < n) &&
    (forall i, j :: 0 <= i < j < |p| ==> p[i] != p[j]) &&
    (forall v: nat :: v < n ==> v in p)
  }

  /** s rearranged into the order p. */
  function Shuffled<T>(s: seq<T>, p: seq<nat>): (r: seq<T>)
    requires forall k :: 0 <= k < |p| ==> p[k] < |s|
  {
    seq(|p|, k requires 0 <= k < |p| => s[p[k]])
  }

  /** Removing the position that holds the largest value n leaves a
      permutation of 0 .. n-1. */
  lemma DropLargest(p: seq<nat>, n: nat, k: nat)
    requires IsPermutation(p, n + 1) && k < |p| && p[k] == n
    ensures IsPermutation(p[..k] + p[k + 1..], n)
  {
    var p' := p[..k] + p[k + 1..];
    assert forall i :: 0 <= i < |p'| ==> p'[i] == if i < k then p[i] else p[i + 1];
    forall v: nat | v < n
      ensures v in p'
    {
      assert v in p;
      var i :| 0 <= i < |p| && p[i] == v;
      if i < k { assert p'[i] == v; } else { assert p'[i - 1] == v; }
    }
  }

  /** Dropping display position k, which shows the last element, is the same
      as shuffling the sequence without its last element. */
  lemma ShuffledDrop<T>(s: seq<T>, p: seq<nat>, k: nat)
    requires |s| > 0 && k < |p| && p[k] == |s| - 1
    requires forall i :: 0 <= i < |p| ==> p[i] < |s|
    requires forall i :: 0 <= i < |p| && i != k ==> p[i] < |s| - 1
    ensures var p' := p[..k] + p[k + 1..];
      (forall i :: 0 <= i < |p'| ==> p'[i] < |s| - 1) &&
      Shuffled(s[..|s| - 1], p') == Shuffled(s, p)[..k] + Shuffled(s, p)[k + 1..]
  {
  }

  /** Rearranging by a permutation keeps every element with its multiplicity. */
  lemma {:induction false} ShuffledIsPermutation<T>(s: seq<T>, p: seq<nat>)
    requires IsPermutation(p, |s|)
    ensures multiset(Shuffled(s, p)) == multiset(s)
  {
    if |s| > 0 {
      var n := |s| - 1;
      assert n in p;
      var k :| 0 <= k < |p| && p[k] == n;
      DropLargest(p, n, k);
      ShuffledDrop(s, p, k);
      ShuffledIsPermutation(s[..n], p[..k] + p[k + 1..]);
      MultisetWithout(Shuffled(s, p), k);
      MultisetWithout(s, n);
    }
  }

  /** Taking out position k takes one copy of its element out of the multiset. */
  lemma MultisetWithout<T>(t: seq<T>, k: nat)
    requires k < |t|
    ensures multiset(t) == multiset(t[..k] + t[k + 1..]) + multiset{t[k]}
  {
    assert t == t[..k] + [t[k]] + t[k + 1..];
  }

  function Texts(answers: seq<Answer>): seq<string>
  {
    seq(|answers|, k requires 0 <= k < |answers| => answers[k].text)
  }

  /** The stored letters of a question, in stored order. */
  function Letters(question: Question): seq<string>
  {
    seq(|question.answers|, k requires 0 <= k < |question.answers| => question.answers[k].letter)
  }

  predicate DistinctLetters(question: Question)
  {
    forall i, j :: 0 <= i < j < |question.answers| ==>
      question.answers[i].letter != question.answers[j].letter
  }

  /** The canonical letters A, B, C, D are pairwise different. */
  lemma CanonicalLettersDistinct(question: Question)
    requires WellFormed(question)
    ensures DistinctLetters(question)
  {
  }

  /** Binds the stored letters, in stored order, to the answers in display
      order perm, and finds the letter bound to the stored first answer. */
  method Present(question: Question, perm: seq<nat>) returns (shown: seq<Answer>, correctLetter: string)
    requires |question.answers| >= 1 && IsPermutation(perm, |question.answers|)
    ensures |shown| == |question.answers|
    ensures forall k :: 0 <= k < |shown| ==>
      shown[k] == Answer(question.answers[k].letter, question.answers[perm[k]].text)
    ensures multiset(Texts(shown)) == multiset(Texts(question.answers))
    ensures forall k :: 0 <= k < |shown| && perm[k] == 0 ==> correctLetter == shown[k].letter
    ensures DistinctLetters(question) ==>
      forall k :: 0 <= k < |shown| ==> (shown[k].letter == correctLetter <==> perm[k] == 0)
  {
    var letters := Letters(question);
    var answers := Shuffled(question.answers, perm);
    shown, correctLetter := [], "";
    for k := 0 to |letters|
      invariant |shown| == k
      invariant forall k' :: 0 <= k' < k ==>
        shown[k'] == Answer(question.answers[k'].letter, question.answers[perm[k']].text)
      invariant forall k' :: 0 <= k' < k && perm[k'] == 0 ==> correctLetter == question.answers[k'].letter
    {
      shown := shown + [Answer(letters[k], answers[k].text)];
      if perm[k] == 0 {
        assert forall k' :: 0 <= k' < k ==> perm[k'] != perm[k];
        correctLetter := letters[k];
      }
    }
    ShownTexts(question, perm, shown);
    if DistinctLetters(question) {
      CorrectLetterUnique(question, perm, shown, correctLetter);
    }
  }

  /** With distinct letters, the correct letter is bound to no answer other
      than the stored first one. */
  lemma CorrectLetterUnique(question: Question, perm: seq<nat>, shown: seq<Answer>, correctLetter: string)
    requires IsPermutation(perm, |question.answers|) && |shown| == |question.answers|
    requires DistinctLetters(question)
    requires forall k :: 0 <= k < |shown| ==> shown[k].letter == question.answers[k].letter
    requires forall k :: 0 <= k < |shown| && perm[k] == 0 ==> correctLetter == shown[k].letter
    ensures forall k :: 0 <= k < |shown| ==> (shown[k].letter == correctLetter <==> perm[k] == 0)
  {
    if |shown| > 0 {
      assert 0 in perm;
      var k0 :| 0 <= k0 < |perm| && perm[k0] == 0;
      forall k | 0 <= k < |shown|
        ensures shown[k].letter == correctLetter <==> perm[k] == 0
      {
        if k != k0 {
          assert perm[k] != 0;
          assert question.answers[k].letter != question.answers[k0].letter;
        }
      }
    }
  }

  /** The displayed texts are the stored texts, rearranged. */
  lemma ShownTexts(question: Question, perm: seq<nat>, shown: seq<Answer>)
    requires IsPermutation(perm, |question.answers|) && |shown| == |question.answers|
    requires forall k :: 0 <= k < |shown| ==> shown[k].text == question.answers[perm[k]].text
    ensures multiset(Texts(shown)) == multiset(Texts(question.answers))
  {
    assert Texts(shown) == Shuffled(Texts(question.answers), perm);
    ShuffledIsPermutation(Texts(question.answers), perm);
  }

  // ---------------------------------------------------------------------
  // Input

  /** ASCII upper-casing of one character. */
  function UpperChar(c: char): char
  {
    if 'a' <= c <= 'z' then (c as int - 32) as char else c
  }

  function Upper(s: string): string
  {
    seq(|s|, i requires 0 <= i < |s| => UpperChar(s[i]))
  }

  /** Responses are compared case-insensitively: exactly the one-character
      response holding the letter, in either case, upper-cases to it. */
  lemma UpperMatchesLetter(s: string, j: nat)
    requires j < |AnswerLetters|
    ensures Upper(s) == AnswerLetters[j] <==>
      s == AnswerLetters[j] || s == [(AnswerLetters[j][0] as int + 32) as char]
  {
  }

  /** responses[i] is the first response whose upper-cased form is a letter. */
  predicate FirstAccepted(letters: seq<string>, responses: seq<string>, i: nat)
  {
    i < |responses| && Upper(responses[i]) in letters &&
    forall j :: 0 <= j < i ==> Upper(responses[j]) !in letters
  }

  /** Reads responses until one upper-cases to a valid letter; None when the
      responses run out first. */
  method ReadResponse(letters: seq<string>, responses: seq<string>) returns (accepted: Option<nat>)
    ensures accepted.None? <==> forall j :: 0 <= j < |responses| ==> Upper(responses[j]) !in letters
    ensures accepted.Some? ==> FirstAccepted(letters, responses, accepted.value)
  {
    var i := 0;
    while i < |responses|
      invariant i <= |responses|
      invariant forall j :: 0 <= j < i ==> Upper(responses[j]) !in letters
    {
      var userInput := Upper(responses[i]);
      if userInput in letters {
        return Some(i);
      }
      i := i + 1;
    }
    return None;
  }

  // ---------------------------------------------------------------------
  // Judging and the bank-wide totals

  function Judged(q: Question, right: bool): Question
  {
    if right then q.(correct := q.correct + 1) else q.(incorrect := q.incorrect + 1)
  }

  /** The bank after question b was answered, rightly or not. */
  function Record(qs: seq<Question>, b: nat, right: bool): seq<Question>
    requires b < |qs|
  {
    qs[b := Judged(qs[b], right)]
  }

  function TotalCorrect(qs: seq<Question>): nat
  {
    if qs == [] then 0 else qs[0].correct + TotalCorrect(qs[1..])
  }

  function TotalIncorrect(qs: seq<Question>): nat
  {
    if qs == [] then 0 else qs[0].incorrect + TotalIncorrect(qs[1..])
  }

  function TotalAttempts(qs: seq<Question>): nat
  {
    TotalCorrect(qs) + TotalIncorrect(qs)
  }

  /** Recording a verdict raises exactly one of the two bank-wide totals by
      one, changes only question b, and only its counters. */
  lemma {:induction false} RecordTotals(qs: seq<Question>, b: nat, right: bool)
    requires b < |qs|
    ensures |Record(qs, b, right)| == |qs|
    ensures TotalCorrect(Record(qs, b, right)) == TotalCorrect(qs) + (if right then 1 else 0)
    ensures TotalIncorrect(Record(qs, b, right)) == TotalIncorrect(qs) + (if right then 0 else 1)
    ensures TotalAttempts(Record(qs, b, right)) == TotalAttempts(qs) + 1
    ensures Attempts(Record(qs, b, right)[b]) == Attempts(qs[b]) + 1
    ensures Record(qs, b, right)[b].text == qs[b].text && Record(qs, b, right)[b].answers == qs[b].answers
    ensures forall j :: 0 <= j < |qs| && j != b ==> Record(qs, b, right)[j] == qs[j]
  {
    var r := Record(qs, b, right);
    if b == 0 {
      assert r[1..] == qs[1..];
    } else {
      assert r[1..] == Record(qs[1..], b - 1, right);
      RecordTotals(qs[1..], b - 1, right);
    }
  }

  /** Judging touches no question's answers, so every question keeps its
      four answers lettered A, B, C, D. */
  lemma RecordKeepsWellFormed(qs: seq<Question>, b: nat, right: bool)
    requires b < |qs| && forall i :: 0 <= i < |qs| ==> WellFormed(qs[i])
    ensures forall i :: 0 <= i < |qs| ==> WellFormed(Record(qs, b, right)[i])
  {
  }

  /** What the turn's status line shows: the question's own counters and the
      bank-wide totals, all taken before the answer is judged. */
  datatype Stats = Stats(correct: nat, incorrect: nat, totalCorrect: nat, totalIncorrect: nat)

  /** The outcome reported to the respondent; a wrong answer reports the
      letter and text of the correct one. */
  datatype Verdict = Right | Wrong(correctLetter: string, correctText: string)

  // ---------------------------------------------------------------------
  // The drill state

  class State {
    /** The bank with its counters, in stored order. */
    var q: seq<Question>

    /** Every question has four answers lettered A, B, C, D. */
    predicate Valid()
      reads this
    {
      forall i :: 0 <= i < |q| ==> WellFormed(q[i])
    }

    constructor (bank: seq<Question>)
      requires forall i :: 0 <= i < |bank| ==> WellFormed(bank[i])
      ensures Valid() && q == bank
    {
      q := bank;
    }

    /** Asks question b: shows it in display order perm, reads responses until
        one is a valid letter, judges it and updates that question's counters.
        When the responses run out first, nothing changes. */
    method Ask(b: nat, perm: seq<nat>, responses: seq<string>)
      returns (stats: Stats, shown: seq<Answer>, correctLetter: string,
               accepted: Option<nat>, verdict: Option<Verdict>)
      requires Valid() && b < |q| && IsPermutation(perm, |AnswerLetters|)
      modifies this
      ensures Valid() && |q| == |old(q)|
      ensures stats == Stats(old(q)[b].correct, old(q)[b].incorrect, TotalCorrect(old(q)), TotalIncorrect(old(q)))
      ensures |shown| == |AnswerLetters| &&
        forall k :: 0 <= k < |shown| ==> shown[k] == Answer(AnswerLetters[k], old(q)[b].answers[perm[k]].text)
      ensures forall k :: 0 <= k < |perm| ==> (AnswerLetters[k] == correctLetter <==> perm[k] == 0)
      ensures accepted.None? <==> forall j :: 0 <= j < |responses| ==> Upper(responses[j]) !in AnswerLetters
      ensures accepted.Some? ==> FirstAccepted(AnswerLetters, responses, accepted.value)
      ensures verdict.Some? <==> accepted.Some?
      ensures verdict.Some? ==>
        verdict.value == if Upper(responses[accepted.value]) == correctLetter then Right
                         else Wrong(correctLetter, old(q)[b].answers[0].text)
      ensures verdict.None? ==> q == old(q)
      ensures verdict.Some? ==> q == Record(old(q), b, verdict.value.Right?)
    {
      var question := q[b];
      stats := Stats(question.correct, question.incorrect, TotalCorrect(q), TotalIncorrect(q));
      shown, correctLetter := Present(question, perm);
      var letters := Letters(question);
      assert letters == AnswerLetters;
      CanonicalLettersDistinct(question);
      accepted := ReadResponse(letters, responses);
      if accepted.None? {
        return stats, shown, correctLetter, None, None;
      }
      var userInput := Upper(responses[accepted.value]);
      if userInput == correctLetter {
        verdict := Some(Right);
      } else {
        verdict := Some(Wrong(correctLetter, question.answers[0].text));
      }
      RecordTotals(q, b, verdict.value.Right?);
      RecordKeepsWellFormed(q, b, verdict.value.Right?);
      q := Record(q, b, verdict.value.Right?);
    }

    /** One turn of the drill: pick the next question with seed r, then ask it. */
    method Turn(r: nat, perm: seq<nat>, responses: seq<string>)
      returns (b: nat, correctLetter: string, accepted: Option<nat>, verdict: Option<Verdict>)
      requires Valid() && r < |q| && IsPermutation(perm, |AnswerLetters|)
      modifies this
      ensures Valid() && b < |old(q)| && IsOptimal(old(q), b)
      ensures IsOptimal(old(q), r) ==> b == r
      ensures !IsOptimal(old(q), r) ==> forall j :: 0 <= j < b ==> !IsOptimal(old(q), j)
      ensures forall k :: 0 <= k < |perm| ==> (AnswerLetters[k] == correctLetter <==> perm[k] == 0)
      ensures accepted.None? <==> forall j :: 0 <= j < |responses| ==> Upper(responses[j]) !in AnswerLetters
      ensures accepted.Some? ==> FirstAccepted(AnswerLetters, responses, accepted.value)
      ensures verdict.Some? <==> accepted.Some?
      ensures verdict.Some? ==>
        verdict.value == if Upper(responses[accepted.value]) == correctLetter then Right
                         else Wrong(correctLetter, old(q)[b].answers[0].text)
      ensures verdict.None? ==> q == old(q)
      ensures verdict.Some? ==> q == Record(old(q), b, verdict.value.Right?)
      ensures TotalAttempts(q) == TotalAttempts(old(q)) + (if verdict.Some? then 1 else 0)
    {
      b := PickQuestion(q, r);
      var stats, shown;
      ghost var before := q;
      stats, shown, correctLetter, accepted, verdict := Ask(b, perm, responses);
      if verdict.Some? {
        RecordTotals(before, b, verdict.value.Right?);
      }
    }
  }

  /** Builds the initial state, all counters zero, from the bank's lines. */
  method InitState(lines: seq<string>) returns (res: Result<State, ParseError>)
    ensures res.Success? <==> forall k: nat :: k < BlockCount(|lines|) ==> WellFormedBlock(lines, k)
    ensures res.Success? ==>
      fresh(res.value) && res.value.Valid() && |res.value.q| == BlockCount(|lines|) &&
      forall k :: 0 <= k < |res.value.q| ==> IsBlockRecord(lines, k, res.value.q[k])
  {
    var bank := ParseBank(lines);
    if bank.Failure? {
      return Failure(bank.error);
    }
    var state := new State(bank.value);
    return Success(state);
  }
}
