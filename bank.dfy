/** The question bank: its records and the line-oriented parser that builds it. */
module Bank {
  import opened Wrappers

  /** One candidate response: its letter and the text shown after it. */
  datatype Answer = Answer(letter: string, text: string)

  /** One quiz item. The first stored answer is the correct one; the two
      counters are the only fields that ever change. */
  datatype Question = Question(text: string, answers: seq<Answer>, correct: nat, incorrect: nat)

  /** Why the bank text was rejected: the running number did not match, an
      answer line lacked its letter prefix, or the lines ran out inside a block. */
  datatype ParseError =
    | NumberMismatch(questionIndex: nat)
    | AnswerMismatch(lineIndex: nat)
    | EndsMidBlock(lineIndex: nat)

  /** The canonical answer letters, in stored order. */
  const AnswerLetters: seq<string> := ["A", "B", "C", "D"]

  /** A question as the parser leaves it: four answers lettered A, B, C, D. */
  predicate WellFormed(q: Question)
  {
    |q.answers| == |AnswerLetters| &&
    forall j :: 0 <= j < |q.answers| ==> q.answers[j].letter == AnswerLetters[j]
  }

  predicate StartsWith(s: string, prefix: string)
  {
    |prefix| <= |s| && s[..|prefix|] == prefix
  }

  predicate IsDigit(c: char)
  {
    '0' <= c <= '9'
  }

  /** The decimal numeral of n, as Python's str.format writes it. */
  function DecimalString(n: nat): (s: string)
    ensures |s| >= 1
    ensures n >= 10 ==> |s| >= 2
    ensures forall i :: 0 <= i < |s| ==> IsDigit(s[i])
    ensures |s| >= 2 ==> s[0] != '0'
  {
    var d := (48 + n % 10) as char;
    if n < 10 then [d] else DecimalString(n / 10) + [d]
  }

  /** The prefix "<n> " that opens the n-th question line. */
  function NumberPrefix(n: nat): string
  {
    DecimalString(n) + " "
  }

  /** The number a string of decimal digits stands for. */
  function NumeralValue(s: string): nat
  {
    if s == [] then 0 else 10 * NumeralValue(s[..|s| - 1]) + (s[|s| - 1] as int - 48) % 10
  }

  /** DecimalString writes n itself: reading its digits back gives n. */
  lemma {:induction false} DecimalStringValue(n: nat)
    ensures NumeralValue(DecimalString(n)) == n
  {
    var s := DecimalString(n);
    if n >= 10 {
      assert s[..|s| - 1] == DecimalString(n / 10);
      DecimalStringValue(n / 10);
    }
  }

  /** Distinct numbers have distinct numerals. */
  lemma {:induction false} DecimalStringInjective(m: nat, n: nat)
    requires DecimalString(m) == DecimalString(n)
    ensures m == n
  {
    var a, b := DecimalString(m), DecimalString(n);
    if m >= 10 && n >= 10 {
      assert a[..|a| - 1] == DecimalString(m / 10);
      assert b[..|b| - 1] == DecimalString(n / 10);
      DecimalStringInjective(m / 10, n / 10);
      assert a[|a| - 1] == b[|b| - 1];
    } else if m < 10 && n < 10 {
      assert a[0] == b[0];
    }
  }

  /** A line starts with at most one question-number prefix: the number it
      carries is determined by the line. */
  lemma NumberPrefixUnique(line: string, m: nat, n: nat)
    requires StartsWith(line, NumberPrefix(m)) && StartsWith(line, NumberPrefix(n))
    ensures m == n
  {
    var a, b := DecimalString(m), DecimalString(n);
    assert line[..|a| + 1] == a + " " && line[..|b| + 1] == b + " ";
    assert line[|a|] == ' ' && line[|b|] == ' ';
    assert |a| == |b|;
    assert a == line[..|a|] == b;
    DecimalStringInjective(m, n);
  }

  /** Index of the first line of the k-th block (0-based k); line 0 is skipped. */
  function BlockStart(k: nat): nat
  {
    1 + 7 * k
  }

  /** The number of blocks the parser's loop enters for n lines. */
  function BlockCount(n: nat): (c: nat)
    ensures forall k: nat :: BlockStart(k) < n <==> k < c
  {
    if n <= 1 then 0 else (n + 5) / 7
  }

  /** The first failure among the answer lines j.. of the block that starts at
      line s, in the order the parser checks them. */
  function AnswerError(lines: seq<string>, s: nat, j: nat): (e: Option<ParseError>)
    requires j <= |AnswerLetters|
    ensures e.None? <==>
      (j < |AnswerLetters| ==> s + 1 + |AnswerLetters| < |lines|) &&
      forall j' :: j <= j' < |AnswerLetters| ==>
        s + 2 + j' < |lines| && StartsWith(lines[s + 2 + j'], AnswerLetters[j'] + " ")
    decreases |AnswerLetters| - j
  {
    if j == |AnswerLetters| then None
    else if s + 2 + j >= |lines| then Some(EndsMidBlock(s + 2 + j))
    else if !StartsWith(lines[s + 2 + j], AnswerLetters[j] + " ") then Some(AnswerMismatch(s + 2 + j))
    else AnswerError(lines, s, j + 1)
  }

  /** The lines of block k have the shape "<k+1> text", blank, "A ..", "B ..",
      "C ..", "D ..". The separator lines are not looked at. */
  predicate WellFormedBlock(lines: seq<string>, k: nat)
  {
    var s := BlockStart(k);
    s + 5 < |lines| &&
    StartsWith(lines[s], NumberPrefix(k + 1)) &&
    forall j :: 0 <= j < |AnswerLetters| ==> StartsWith(lines[s + 2 + j], AnswerLetters[j] + " ")
  }

  /** The first failing check of block k, in the order the parser makes them. */
  function BlockError(lines: seq<string>, k: nat): (e: Option<ParseError>)
    requires BlockStart(k) < |lines|
    ensures e.None? <==> WellFormedBlock(lines, k)
  {
    var s := BlockStart(k);
    if !StartsWith(lines[s], NumberPrefix(k + 1)) then Some(NumberMismatch(k + 1))
    else AnswerError(lines, s, 0)
  }

  /** q is the record built from the well-formed block k: the whole first line
      as its text, each answer line without its two-character prefix, zero counters. */
  predicate IsBlockRecord(lines: seq<string>, k: nat, q: Question)
  {
    var s := BlockStart(k);
    s + 5 < |lines| &&
    q.text == lines[s] &&
    |q.answers| == |AnswerLetters| &&
    (forall j :: 0 <= j < |AnswerLetters| ==>
       |lines[s + 2 + j]| >= 2 && q.answers[j] == Answer(AnswerLetters[j], lines[s + 2 + j][2..])) &&
    q.correct == 0 && q.incorrect == 0
  }

  /** Reads the four answer lines of the block whose first line is s,
      stopping at the first line that is missing or lacks its letter prefix. */
  method ParseAnswers(lines: seq<string>, s: nat) returns (res: Result<seq<Answer>, ParseError>)
    ensures res.Failure? <==> AnswerError(lines, s, 0).Some?
    ensures res.Failure? ==> AnswerError(lines, s, 0) == Some(res.error)
    ensures res.Success? ==>
      s + 1 + |AnswerLetters| < |lines| && |res.value| == |AnswerLetters| &&
      forall j :: 0 <= j < |AnswerLetters| ==>
        StartsWith(lines[s + 2 + j], AnswerLetters[j] + " ") &&
        res.value[j] == Answer(AnswerLetters[j], lines[s + 2 + j][2..])
  {
    var lineIndex := s + 2;
    var answers: seq<Answer> := [];
    for j := 0 to |AnswerLetters|
      invariant lineIndex == s + 2 + j && |answers| == j
      invariant AnswerError(lines, s, 0) == AnswerError(lines, s, j)
      invariant forall j' :: 0 <= j' < j ==>
        s + 2 + j' < |lines| && StartsWith(lines[s + 2 + j'], AnswerLetters[j'] + " ") &&
        answers[j'] == Answer(AnswerLetters[j'], lines[s + 2 + j'][2..])
    {
      if lineIndex >= |lines| {
        return Failure(EndsMidBlock(lineIndex));
      }
      var answer := lines[lineIndex];
      var prefix := AnswerLetters[j] + " ";
      if !StartsWith(answer, prefix) {
        return Failure(AnswerMismatch(lineIndex));
      }
      answers := answers + [Answer(AnswerLetters[j], answer[|prefix|..])];
      lineIndex := lineIndex + 1;
    }
    return Success(answers);
  }

  /** Builds the bank from its lines, checking every block as it goes. */
  method ParseBank(lines: seq<string>) returns (res: Result<seq<Question>, ParseError>)
    ensures res.Success? <==> forall k: nat :: k < BlockCount(|lines|) ==> WellFormedBlock(lines, k)
    ensures res.Success? ==>
      |res.value| == BlockCount(|lines|) &&
      forall k :: 0 <= k < |res.value| ==>
        IsBlockRecord(lines, k, res.value[k]) && WellFormed(res.value[k]) &&
        StartsWith(res.value[k].text, NumberPrefix(k + 1))
    ensures res.Failure? ==>
      exists k: nat :: k < BlockCount(|lines|) &&
        (forall k': nat :: k' < k ==> WellFormedBlock(lines, k')) &&
        BlockError(lines, k) == Some(res.error)
  {
    var qs: seq<Question> := [];
    var lineIndex := 1;
    var questionIndex := 1;
    while lineIndex < |lines|
      invariant questionIndex >= 1 && |qs| == questionIndex - 1
      invariant lineIndex == BlockStart(|qs|)
      invariant forall k :: 0 <= k < |qs| ==>
        WellFormedBlock(lines, k) && IsBlockRecord(lines, k, qs[k])
      decreases |lines| - lineIndex
    {
      var question := lines[lineIndex];
      if !StartsWith(question, NumberPrefix(questionIndex)) {
        assert BlockError(lines, |qs|) == Some(NumberMismatch(questionIndex));
        return Failure(NumberMismatch(questionIndex));
      }
      var answers := ParseAnswers(lines, lineIndex);
      if answers.Failure? {
        assert BlockError(lines, |qs|) == Some(answers.error);
        return Failure(answers.error);
      }
      lineIndex := lineIndex + 2 + |AnswerLetters| + 1;
      questionIndex := questionIndex + 1;
      var parsed := Question(question, answers.value, 0, 0);
      assert WellFormedBlock(lines, |qs|) && IsBlockRecord(lines, |qs|, parsed);
      qs := qs + [parsed];
    }
    assert |qs| > 0 ==> WellFormedBlock(lines, |qs| - 1);
    assert |qs| == BlockCount(|lines|);
    return Success(qs);
  }

  /** The number a parsed question's text opens with is its 1-based position:
      numbering has no gaps and no reordering. */
  lemma ParsedNumbering(lines: seq<string>, qs: seq<Question>, k: nat, n: nat)
    requires k < |qs| && IsBlockRecord(lines, k, qs[k]) && WellFormedBlock(lines, k)
    requires StartsWith(qs[k].text, NumberPrefix(n))
    ensures n == k + 1
  {
    NumberPrefixUnique(qs[k].text, n, k + 1);
  }
}
