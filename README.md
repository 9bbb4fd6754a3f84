# bzf-trainer: a verified model of the adaptive drill

`bzf-trainer.py` is a console drill over a bank of multiple-choice questions.
At start-up it parses the bundled question text into question records with
zeroed counters. It then repeats one turn forever: pick the least practised
question (ties broken towards the one answered wrongly most often), show it
with its answers shuffled, read responses until one is a valid letter, judge
it, and bump exactly one of that question's two counters.

This project models that core in Dafny and proves its properties:

- `wrappers.dfy` (`Wrappers`): `Option` and `Result`.
- `bank.dfy` (`Bank`): answer, question and parse-error records, the decimal
  question-number prefix, and the parser `ParseBank`. `ParseBank` is a `while`
  loop over the lines like `_init_state`; its inner loop over the letters A-D
  is the method `ParseAnswers`. A failed `assert` or an out-of-range line
  index becomes a `Failure` that names the first failing check.
- `selector.dfy` (`Selector`): the priority key and `PickQuestion`, the
  seeded scan of `_pick_question`.
- `session.dfy` (`Session`): presentation (`Present`), the input loop
  (`ReadResponse`), judging (`Record`), the bank-wide totals, and the class
  `State`. `State` holds the bank as a `seq<Question>` field. Its `Ask` method
  is `_ask_question` and its `Turn` method is one iteration of `main`.
- `coverage.dfy` (`Coverage`): replaying a run of turns, and the proof that
  from all-zero counters every question is asked exactly once before any
  question repeats.

Where the program draws randomness, the contract takes it as a parameter:
- the selector gets a seed index `r`, the question that `random.shuffle` put first;
- `Present` gets a permutation `perm` of the answer positions, where display
  position `k` shows stored answer `perm[k]`.

Console input is a finite sequence of response strings.

The parser never reads the separator lines: after the question line it skips
one line, and after the D line one more, whatever those lines hold.
`WellFormedBlock` therefore does not constrain them. The last block may end
right after its D line, as the bundled text does, because `splitlines` drops
the final empty line.

## Model

| member | source | states |
|---|---|---|
| `Bank.DecimalString` | bzf-trainer.py:91 | the number prefix is a non-empty all-digit numeral without a leading zero, at least two digits from 10 on |
| `Bank.DecimalStringValue` | bzf-trainer.py:91 | reading the digits of the numeral back gives the number itself, so the numeral is the decimal form of the question index |
| `Bank.DecimalStringInjective` | bzf-trainer.py:91 | different question numbers give different numerals |
| `Bank.NumberPrefixUnique` | bzf-trainer.py:90-91 | a line starts with `"<n> "` for at most one n, so the number a question line carries is determined by the line |
| `Bank.BlockCount` | bzf-trainer.py:86-89 | the `while` loop enters block k (first line index 1 + 7k) exactly when k is below the count |
| `Bank.AnswerError` | bzf-trainer.py:95-100 | no error is reported for answer lines j.. exactly when each of them exists and starts with its letter and a space |
| `Bank.BlockError` | bzf-trainer.py:89-100 | the first failing check of a block is absent exactly when the block is well formed (numbered `k+1`, all four answer lines present and prefixed A, B, C, D in order) |
| `Bank.ParseAnswers` | bzf-trainer.py:93-100 | fails with the first missing or mis-prefixed answer line, otherwise returns four answers lettered A-D whose text is the line without its two-character prefix |
| `Bank.ParseBank` | bzf-trainer.py:83-107 | succeeds exactly when every block is well formed; on success returns one record per block, in order, whose text is the whole numbered line (numbered by its 1-based position), with answers A-D and zero counters; on failure reports the first failing check of the first bad block |
| `Bank.ParsedNumbering` | bzf-trainer.py:90-105 | the number a parsed question's text opens with is its 1-based position, so numbering has no gaps and no reordering |
| `Selector.PickQuestion` | bzf-trainer.py:30-41 | returns an index of the bank that no question strictly beats on (attempts ascending, incorrect descending); the seed if it is optimal, otherwise the first optimal question in bank order; the bank is a value and is not changed |
| `Selector.FreshQuestionsFirst` | bzf-trainer.py:35-39 | while some question has zero attempts, the optimal pick has zero attempts |
| `Session.ShuffledIsPermutation` | bzf-trainer.py:56-58 | reordering the answers by a permutation keeps exactly the same answers with the same multiplicities |
| `Session.DropLargest` | bzf-trainer.py:58 | removing the position of the largest value from a permutation leaves a permutation |
| `Session.ShuffledDrop` | bzf-trainer.py:58 | dropping the display slot of the last stored answer equals shuffling without it |
| `Session.MultisetWithout` | bzf-trainer.py:58 | taking out one position removes exactly one copy of its element from the multiset |
| `Session.ShownTexts` | bzf-trainer.py:56-61 | the texts displayed in the order `perm` are a permutation of the stored texts |
| `Session.CanonicalLettersDistinct` | bzf-trainer.py:95 | the letters A, B, C, D of a parsed question are pairwise different |
| `Session.CorrectLetterUnique` | bzf-trainer.py:60-63 | with distinct letters, a displayed letter equals the correct letter exactly when it is bound to the stored first answer |
| `Session.Present` | bzf-trainer.py:55-63 | the displayed letters are the stored letters, in stored order; the displayed texts are the stored texts in the order `perm`, and they are a permutation of the stored texts; `correctLetter` is the letter bound to the stored first answer, and with distinct letters it is bound to no other displayed answer |
| `Session.UpperMatchesLetter` | bzf-trainer.py:68 | a response upper-cases to a letter exactly when it is that letter in upper or lower case |
| `Session.ReadResponse` | bzf-trainer.py:67-70 | accepts the first response whose upper-cased form is a letter; reports none exactly when no response is valid; earlier invalid responses change nothing |
| `Session.RecordTotals` | bzf-trainer.py:72-78 | judging raises the asked question's correct or incorrect count by one, changes no other question or field, and raises the bank-wide totals of lines 48-49 by exactly one between them |
| `Session.RecordKeepsWellFormed` | bzf-trainer.py:72-78 | judging leaves every question's four answers lettered A-D |
| `Session.State.constructor` | bzf-trainer.py:84 | a fresh state holds the given bank, and every question in it has answers A-D |
| `Session.State.Ask` | bzf-trainer.py:44-80 | reports the question's counters and the bank totals as they were before judging; shows the stored letters bound to the shuffled answers; `correctLetter` is bound to the stored first answer and to no other; the accepted response is the first valid one, and there is none exactly when no response is valid; the verdict is right exactly when the accepted response upper-cases to `correctLetter`, and a wrong verdict names that letter and the first answer's text; the bank becomes `Record(old bank, b, verdict)`, or stays unchanged when no response is valid |
| `Session.State.Turn` | bzf-trainer.py:12-13 | one turn picks an optimal question with the exact tie-break; `correctLetter` is the letter of exactly the display slot showing the stored first answer; the accepted response is the first valid one (none exactly when no response is valid); a verdict exists exactly when a response was accepted, and it is right exactly when that response upper-cases to `correctLetter`; the bank then becomes `Record(old bank, b, verdict)`, raising the total attempts by one, and otherwise stays unchanged |
| `Session.InitState` | bzf-trainer.py:83-107 | the start-up state exists exactly when the bank text parses, and then holds one zero-counter record per block |
| `Coverage.Replay` | bzf-trainer.py:12-14 | replaying any run of turns keeps the bank's size |
| `Coverage.UntouchedTotal` | bzf-trainer.py:104-105 | a freshly parsed bank has no attempts in total |
| `Coverage.SomeUnasked` | bzf-trainer.py:48-49 | a bank with fewer attempts in total than questions has a question with zero attempts |
| `Coverage.OneEachAtMostSize` | bzf-trainer.py:48-49 | with at most one attempt per question, the total is at most the bank size |
| `Coverage.TotalBelowSize` | bzf-trainer.py:48-49 | with at most one attempt per question and one unasked question, the total is below the bank size |
| `Coverage.CoverageInvariant` | bzf-trainer.py:12-14 | after t optimal turns from zero counters (t at most the bank size), the questions asked are pairwise distinct, they are exactly the ones with one attempt, the rest have none, and the total is t |
| `Coverage.FullCoverage` | bzf-trainer.py:12-14 | as many optimal turns as there are questions, from zero counters, ask every question exactly once |

## Left out

- Persistence (`_load_or_init_state`, `_save_state`, lines 17-27) is file I/O through `os` and `json`. `Turn` leaves the saved state out. A loaded state is stood for by the `State` constructor, which takes any bank of well-formed questions with arbitrary counters; `json.load` itself, and a saved state that is not well formed, are not modelled.
- Printing (lines 45-53, 61, 65, 73-80) is left out. `Ask` returns the values printed: the status-line numbers, the shown letters with their texts, and the verdict with the correct letter and text.
- `input()` is a given finite sequence of responses. When it runs out without a valid response, `ReadResponse` and `Ask` report `None` and change nothing. The program itself would wait for more input, or stop with an end-of-file error.
- `random.shuffle` (lines 32 and 58) is replaced by the seed index `r` and the permutation `perm`. The model does not capture their distribution.
- An empty bank: `ParseBank` and `InitState`, like `_init_state`, accept a text of at most one line and produce an empty bank. `_pick_question` then fails with an IndexError at line 33. `PickQuestion` and `Turn` instead require a seed index `r < |q|`, so they rule out the empty bank rather than model that failure.
- `PickQuestion` returns the index of the chosen question, not the shared dictionary object. `Ask` updates that index of the bank, which is the effect the shared object's in-place update has on the state.
- `str.upper()` is modelled as ASCII upper-casing (`Upper`). Other Unicode case mappings (some of which change the length) are not modelled.
- The endless `while True` of `main` (lines 12-14) is not modelled as a loop: `Turn` is one iteration, and `Coverage` reasons about finite runs of turns.
- The literal question text `QUESTIONS` (lines 111-1931) is not part of the model. The parser takes an arbitrary sequence of lines, the way `splitlines` delivers them.
- Python's `-O` flag, which disables `assert` and so the parser's checks, is not modelled.
