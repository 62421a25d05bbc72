/** The pure scoring and validation functions of the quiz: the answer gate,
    the correctness check, the score over an answer sheet, the rounded
    percentage and the rendering of a question. */
module QuizLogic {
  import opened Types
  import Text

  /** The string literals of the ChoiceId union, as `isValidChoice` lists them. */
  const ChoiceLiterals: seq<string> := ["A", "B", "C", "D"]

  /** `isValidChoice`: the upper-cased input is one of the four literals.
      Case-insensitive; no trimming happens here. */
  predicate IsValidChoice(s: string) {
    Text.Upper(s) in ChoiceLiterals
  }

  /** Upper-casing yields a given capital letter exactly from that letter or
      its lower-case form. */
  lemma UpperIsLetter(s: string, c: ChoiceId)
    ensures Text.Upper(s) == LetterString(c) <==> |s| == 1 && (s[0] == Letter(c) || s[0] as int == Letter(c) as int + 32)
  {
    if |s| == 1 && Text.Upper(s) == LetterString(c) {
      assert Text.UpperChar(s[0]) == Letter(c);
    }
    if |s| == 1 && (s[0] == Letter(c) || s[0] as int == Letter(c) as int + 32) {
      assert Text.Upper(s) == [Text.UpperChar(s[0])];
    }
  }

  /** The gate accepts exactly the eight one-character strings A to D in
      either case; everything else, the empty string, "E", "1", "AB" and
      " A " among it, is refused, and every accepted string has length 1. */
  lemma IsValidChoiceExactly(s: string)
    ensures IsValidChoice(s) <==> s in ["A", "B", "C", "D", "a", "b", "c", "d"]
    ensures IsValidChoice(s) ==> |s| == 1
  {
    UpperIsLetter(s, A);
    UpperIsLetter(s, B);
    UpperIsLetter(s, C);
    UpperIsLetter(s, D);
    assert ChoiceLiterals == [LetterString(A), LetterString(B), LetterString(C), LetterString(D)];
    if |s| == 1 {
      assert s == [s[0]];
    }
  }

  /** The refusals the unit tests list, and the acceptances. */
  lemma IsValidChoiceCases()
    ensures IsValidChoice("A") && IsValidChoice("B") && IsValidChoice("C") && IsValidChoice("D")
    ensures IsValidChoice("a") && IsValidChoice("d")
    ensures !IsValidChoice("E") && !IsValidChoice("1") && !IsValidChoice("")
    ensures !IsValidChoice("AB") && !IsValidChoice(" A ")
  {
    IsValidChoiceExactly("A");
    IsValidChoiceExactly("B");
    IsValidChoiceExactly("C");
    IsValidChoiceExactly("D");
    IsValidChoiceExactly("a");
    IsValidChoiceExactly("d");
    IsValidChoiceExactly("E");
    IsValidChoiceExactly("1");
    IsValidChoiceExactly("");
    IsValidChoiceExactly("AB");
    IsValidChoiceExactly(" A ");
  }

  /** The declared type guard `userInput is ChoiceId` is claimed for a string
      that is not a ChoiceId: "a" passes the gate but is none of the four
      literals of the union. */
  lemma GuardAdmitsNonChoice()
    ensures IsValidChoice("a") && "a" !in ChoiceLiterals
  {
    IsValidChoiceExactly("a");
  }

  /** The gate together with the narrowing it was meant to give: the ChoiceId
      the input denotes, whose literal is the upper-cased input. */
  function ParseChoice(s: string): (r: Maybe<ChoiceId>)
    ensures r.Some? <==> IsValidChoice(s)
    ensures r.Some? ==> LetterString(r.value) == Text.Upper(s)
  {
    var u := Text.Upper(s);
    if u == "A" then Some(A)
    else if u == "B" then Some(B)
    else if u == "C" then Some(C)
    else if u == "D" then Some(D)
    else None
  }

  /** Parsing a letter's own literal gives the letter back, in either case. */
  lemma ParseLetterRoundTrip(c: ChoiceId)
    ensures ParseChoice(LetterString(c)) == Some(c)
    ensures ParseChoice([(Letter(c) as int + 32) as char]) == Some(c)
  {
    UpperIsLetter(LetterString(c), c);
    UpperIsLetter([(Letter(c) as int + 32) as char], c);
    LetterStringInjective(ParseChoice(LetterString(c)).value, c);
  }

  /** `checkAnswer`: the chosen letter is the question's correct letter. */
  predicate CheckAnswer(choice: ChoiceId, q: Question) {
    choice == q.correct
  }

  /** Of the four letters exactly one is accepted for any question. */
  lemma ExactlyOneChoiceAccepted(q: Question)
    ensures (set c | c in AllChoices && CheckAnswer(c, q)) == {q.correct}
    ensures |set c | c in AllChoices && CheckAnswer(c, q)| == 1
  {
    LetterStringInjective(q.correct, q.correct);
    assert (set c | c in AllChoices && CheckAnswer(c, q)) == {q.correct};
  }

  /** `calculateScore`: a left fold over the answers, adding one for each
      answer equal to the correct letter of the question at the same position.
      Looking a question up past the end of `questions` throws in the source,
      so the answers may be no more than the questions. */
  function CalculateScore(answers: seq<ChoiceId>, questions: seq<Question>): (r: nat)
    requires |answers| <= |questions|
    ensures r <= |answers|
    decreases |answers|
  {
    if |answers| == 0 then 0
    else
      var n := |answers| - 1;
      CalculateScore(answers[..n], questions) + (if answers[n] == questions[n].correct then 1 else 0)
  }

  /** The positions at which an answer matches its question's correct letter. */
  function MatchIndices(answers: seq<ChoiceId>, questions: seq<Question>): (matches: set<nat>)
    requires |answers| <= |questions|
  {
    set i: nat | i < |answers| && CheckAnswer(answers[i], questions[i])
  }

  /** The score is the number of matching positions. */
  lemma {:induction false} ScoreCountsMatches(answers: seq<ChoiceId>, questions: seq<Question>)
    requires |answers| <= |questions|
    ensures CalculateScore(answers, questions) == |MatchIndices(answers, questions)|
    decreases |answers|
  {
    if |answers| > 0 {
      var n := |answers| - 1;
      var prefix := answers[..n];
      ScoreCountsMatches(prefix, questions);
      var before := MatchIndices(prefix, questions);
      var after := MatchIndices(answers, questions);
      if answers[n] == questions[n].correct {
        assert after == before + {n};
        assert n !in before;
      } else {
        assert after == before;
      }
    }
  }

  /** Scoring one more answer adds one exactly when it is correct. */
  lemma ScoreAppend(answers: seq<ChoiceId>, c: ChoiceId, questions: seq<Question>)
    requires |answers| < |questions|
    ensures CalculateScore(answers + [c], questions)
         == CalculateScore(answers, questions) + (if CheckAnswer(c, questions[|answers|]) then 1 else 0)
  {
    assert (answers + [c])[..|answers|] == answers;
  }

  /** Only the first |answers| questions matter: appending questions leaves
      the score unchanged. */
  lemma {:induction false} ScoreIgnoresLaterQuestions(answers: seq<ChoiceId>, questions: seq<Question>, more: seq<Question>)
    requires |answers| <= |questions|
    ensures CalculateScore(answers, questions + more) == CalculateScore(answers, questions)
    decreases |answers|
  {
    if |answers| > 0 {
      ScoreIgnoresLaterQuestions(answers[..|answers| - 1], questions, more);
      assert (questions + more)[|answers| - 1] == questions[|answers| - 1];
    }
  }

  /** Full marks exactly when every answer is correct, and nothing exactly
      when every answer is wrong. */
  lemma {:induction false} ScoreExtremes(answers: seq<ChoiceId>, questions: seq<Question>)
    requires |answers| <= |questions|
    ensures CalculateScore(answers, questions) == |answers|
        <==> forall i :: 0 <= i < |answers| ==> answers[i] == questions[i].correct
    ensures CalculateScore(answers, questions) == 0
        <==> forall i :: 0 <= i < |answers| ==> answers[i] != questions[i].correct
    decreases |answers|
  {
    if |answers| > 0 {
      var n := |answers| - 1;
      var prefix := answers[..n];
      ScoreExtremes(prefix, questions);
      assert forall i :: 0 <= i < n ==> prefix[i] == answers[i];
    }
  }

  /** The question every unit test of scoring builds, with a chosen correct letter. */
  function MockQuestion(correct: ChoiceId): (q: Question) {
    Question("Test question?",
             [Option(A, "Option A"), Option(B, "Option B"), Option(C, "Option C"), Option(D, "Option D")],
             correct, "Test explanation")
  }

  /** The unit tests' scoring cases: all correct 4, all wrong 0, mixed 2, empty 0. */
  lemma ScoreCases()
    ensures var qs := [MockQuestion(A), MockQuestion(B), MockQuestion(C), MockQuestion(D)];
      && CalculateScore([A, B, C, D], qs) == 4
      && CalculateScore([B, C, D, A], qs) == 0
      && CalculateScore([A, C, C, A], qs) == 2
      && CalculateScore([], []) == 0
  {
    var qs := [MockQuestion(A), MockQuestion(B), MockQuestion(C), MockQuestion(D)];
    ScoreCountsMatches([A, C, C, A], qs);
    assert MatchIndices([A, C, C, A], qs) == {0, 2};
    ScoreExtremes([A, B, C, D], qs);
    ScoreExtremes([B, C, D, A], qs);
  }

  /** What a call of `calculateScore` does on any pair of arrays: the fold
      either completes with a count or throws a TypeError at the first answer
      without a question. */
  datatype ScoreResult = Score(value: nat) | TypeError

  function ScoreOrThrow(answers: seq<ChoiceId>, questions: seq<Question>): (r: ScoreResult)
    ensures r.Score? <==> |answers| <= |questions|
    ensures r.Score? ==> r.value == |MatchIndices(answers, questions)|
    decreases |answers|
  {
    if |answers| == 0 then Score(0)
    else
      var n := |answers| - 1;
      match ScoreOrThrow(answers[..n], questions)
      case TypeError => TypeError
      case Score(s) =>
        if n < |questions| then
          ScoreCountsMatches(answers, questions);
          ScoreCountsMatches(answers[..n], questions);
          Score(s + (if answers[n] == questions[n].correct then 1 else 0))
        else TypeError
  }

  /** `getPercentage`: `Math.round(score / total * 100)`, computed exactly on
      rationals. Rounding is half up: the result is the integer nearest to
      100 * score / total, the upper one on a tie. */
  function GetPercentage(score: int, total: int): (r: int)
    requires total > 0
    ensures 2 * total * r - total <= 200 * score < 2 * total * r + total
  {
    var n := 200 * score + total;
    var d := 2 * total;
    var r := n / d;
    assert n == d * r + n % d;
    r
  }

  /** Between two distinct integers the rounding windows do not overlap. */
  lemma WindowsApart(t: int, a: int, b: int)
    requires t > 0 && a < b
    ensures 2 * t * a + t <= 2 * t * b - t
  {
    var k := b - a;
    assert 2 * t * b == 2 * t * a + 2 * t * k;
    assert 2 * t * k == 2 * t + 2 * t * (k - 1);
    assert 2 * t * (k - 1) >= 0;
  }

  /** The rounding condition picks a single integer. */
  lemma PercentageUnique(score: int, total: int, p: int)
    requires total > 0
    requires 2 * total * p - total <= 200 * score < 2 * total * p + total
    ensures p == GetPercentage(score, total)
  {
    var r := GetPercentage(score, total);
    if p < r {
      WindowsApart(total, p, r);
    } else if p > r {
      WindowsApart(total, r, p);
    }
  }

  /** For a score between 0 and the total the percentage lies in [0, 100];
      no correct answer gives 0 and all correct give 100. */
  lemma PercentageRange(score: int, total: int)
    requires total > 0 && 0 <= score <= total
    ensures 0 <= GetPercentage(score, total) <= 100
    ensures score == 0 ==> GetPercentage(score, total) == 0
    ensures score == total ==> GetPercentage(score, total) == 100
  {
    var r := GetPercentage(score, total);
    if r < 0 {
      WindowsApart(total, r, 0);
    }
    if r > 100 {
      WindowsApart(total, 100, r);
    }
    if score == 0 {
      PercentageUnique(score, total, 0);
    }
    if score == total {
      PercentageUnique(score, total, 100);
    }
  }

  /** A higher score never gives a lower percentage. */
  lemma PercentageMonotone(s1: int, s2: int, total: int)
    requires total > 0 && s1 <= s2
    ensures GetPercentage(s1, total) <= GetPercentage(s2, total)
  {
    var r1 := GetPercentage(s1, total);
    var r2 := GetPercentage(s2, total);
    if r1 > r2 {
      WindowsApart(total, r2, r1);
    }
  }

  /** The unit tests' percentages, 1/3 rounding down to 33. */
  lemma PercentageCases()
    ensures GetPercentage(10, 10) == 100 && GetPercentage(0, 10) == 0
    ensures GetPercentage(5, 10) == 50 && GetPercentage(7, 10) == 70
    ensures GetPercentage(3, 10) == 30 && GetPercentage(1, 3) == 33
  {
    PercentageUnique(10, 10, 100);
    PercentageUnique(0, 10, 0);
    PercentageUnique(5, 10, 50);
    PercentageUnique(7, 10, 70);
    PercentageUnique(3, 10, 30);
    PercentageUnique(1, 3, 33);
  }

  /** `printQuestion` as the lines it logs: a header with the 1-based number
      and the total, then one `id: text` line per option in display order. */
  function RenderQuestion(q: Question, idx: nat, total: nat): (lines: seq<string>)
    ensures |lines| == 1 + |q.options|
    ensures forall k :: 0 <= k < |q.options| ==>
      && |lines[k + 1]| >= 3
      && lines[k + 1][..3] == LetterString(q.options[k].id) + ": "
      && lines[k + 1][3..] == q.options[k].text
  {
    ["\nQ" + Text.Decimal(idx + 1) + "/" + Text.Decimal(total) + ": " + q.prompt]
      + seq(|q.options|, k requires 0 <= k < |q.options| => OptionLine(q.options[k]))
  }

  /** One option as `printQuestion` logs it: its letter, ": ", then its text. */
  function OptionLine(o: Option): (line: string)
    ensures |line| >= 3 && line[..3] == LetterString(o.id) + ": "
    ensures line[3..] == o.text
  {
    var line := LetterString(o.id) + ": " + o.text;
    assert line[..3] == LetterString(o.id) + ": ";
    line
  }

  /** The header is a newline, "Q", the question's number counting from one,
      "/", the number of questions, ": " and the prompt; both numbers read
      back as the values they render. */
  lemma RenderedHeaderShowsNumber(q: Question, idx: nat, total: nat)
    ensures var header := RenderQuestion(q, idx, total)[0];
      var number := Text.Decimal(idx + 1);
      var tot := Text.Decimal(total);
      && |header| == 5 + |number| + |tot| + |q.prompt|
      && header[..2] == "\nQ"
      && header[2..2 + |number|] == number
      && Text.DigitsValue(header[2..2 + |number|]) == idx + 1
      && header[2 + |number|] == '/'
      && header[3 + |number|..3 + |number| + |tot|] == tot
      && Text.DigitsValue(header[3 + |number|..3 + |number| + |tot|]) == total
      && header[3 + |number| + |tot|..] == ": " + q.prompt
  {
    var number := Text.Decimal(idx + 1);
    var tot := Text.Decimal(total);
    var header := RenderQuestion(q, idx, total)[0];
    assert header == "\nQ" + number + "/" + tot + ": " + q.prompt;
    Text.DecimalRoundTrip(idx + 1);
    Text.DecimalRoundTrip(total);
  }

  /** A question whose four options cover the four letters, as every
      well-formed one does, is rendered as a header and four option lines,
      and each of the four letters labels one of them. */
  lemma RenderedOptionsCoverLetters(q: Question, idx: nat, total: nat, c: ChoiceId)
    requires |q.options| == 4 && forall c: ChoiceId :: c in OptionIds(q)
    ensures |RenderQuestion(q, idx, total)| == 5
    ensures exists k :: 1 <= k < 5 && RenderQuestion(q, idx, total)[k][..3] == LetterString(c) + ": "
  {
    var ids := OptionIds(q);
    assert c in ids;
    var k :| 0 <= k < |ids| && ids[k] == c;
    var lines := RenderQuestion(q, idx, total);
    assert lines[k + 1][..3] == LetterString(q.options[k].id) + ": ";
  }
}
