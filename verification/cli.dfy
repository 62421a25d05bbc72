/** The interactive quiz run: for each question in order, read lines until one
    passes the answer gate once trimmed and upper-cased, score it, and report
    the percentage at the end. Input is a finite sequence of lines; where the
    program would block waiting for another line, the run ends out of input. */
module Cli {
  import opened Types
  import Text
  import QuizLogic

  /** What one answer line yields: the line is trimmed, upper-cased and
      validated, and a line that passes is taken as the ChoiceId it spells. */
  function AcceptLine(line: string): (r: Maybe<ChoiceId>) {
    QuizLogic.ParseChoice(Text.Upper(Text.Trim(line)))
  }

  /** A line is accepted exactly when its trimmed, upper-cased form passes
      the gate, and the ChoiceId it is taken as has that form as its literal:
      the value cast to ChoiceId is always an upper-case valid letter. */
  lemma AcceptLineSound(line: string)
    ensures AcceptLine(line).Some? <==> QuizLogic.IsValidChoice(Text.Upper(Text.Trim(line)))
    ensures AcceptLine(line).Some? ==> LetterString(AcceptLine(line).value) == Text.Upper(Text.Trim(line))
  {
    Text.UpperIdempotent(Text.Trim(line));
  }

  /** Whitespace around an answer does not matter, nor does its case: the
      line " b " is taken as B. */
  lemma AcceptLineIgnoresPadding(pre: string, s: string, post: string)
    requires Text.AllSpace(pre) && Text.AllSpace(post)
    ensures AcceptLine(pre + s + post) == AcceptLine(s)
  {
    Text.TrimIgnoresPadding(pre, s, post);
  }

  /** A letter typed alone, in either case, is taken as that letter. */
  lemma AcceptLineOfLetter(c: ChoiceId)
    ensures AcceptLine(LetterString(c)) == Some(c)
    ensures AcceptLine([(Letter(c) as int + 32) as char]) == Some(c)
  {
    var lower := [(Letter(c) as int + 32) as char];
    Text.TrimUnique(LetterString(c), 0, 1);
    Text.TrimUnique(lower, 0, 1);
    QuizLogic.ParseLetterRoundTrip(c);
    QuizLogic.UpperIsLetter(lower, c);
    Text.UpperIdempotent(LetterString(c));
    Text.UpperIdempotent(lower);
  }

  /** A letter typed in lower case with whitespace around it, as " b ", is
      taken as that letter. */
  lemma PaddedLowercaseAccepted(pre: string, c: ChoiceId, post: string)
    requires Text.AllSpace(pre) && Text.AllSpace(post)
    ensures AcceptLine(pre + [(Letter(c) as int + 32) as char] + post) == Some(c)
  {
    AcceptLineIgnoresPadding(pre, [(Letter(c) as int + 32) as char], post);
    AcceptLineOfLetter(c);
  }

  /** The answer to one question: the first accepted line, after how many
      rejected ones, and the lines left; or the input ran out first. */
  datatype Read = Answered(choice: ChoiceId, rejected: nat, rest: seq<string>) | Exhausted

  /** The retry loop: every rejected line is consumed and the next one read,
      until a line is accepted. Reading resumes right after the accepted
      line, and `rejected` counts the lines consumed before it. */
  function ReadAnswer(lines: seq<string>): (r: Read)
    ensures r.Answered? ==> r.rejected < |lines| && r.rest == lines[r.rejected + 1..]
    decreases |lines|
  {
    if |lines| == 0 then Exhausted
    else match AcceptLine(lines[0])
      case Some(c) => Answered(c, 0, lines[1..])
      case None =>
        match ReadAnswer(lines[1..])
        case Exhausted => Exhausted
        case Answered(c, n, rest) => Answered(c, n + 1, rest)
  }

  /** The answer read is the first accepted line: every line before it was
      rejected; the input runs dry exactly when no line is accepted. */
  lemma {:induction false} ReadAnswerFindsFirstAccepted(lines: seq<string>)
    ensures var r := ReadAnswer(lines);
      r.Answered? ==>
      && AcceptLine(lines[r.rejected]) == Some(r.choice)
      && (forall k :: 0 <= k < r.rejected ==> AcceptLine(lines[k]).None?)
    ensures ReadAnswer(lines).Exhausted? <==> forall k :: 0 <= k < |lines| ==> AcceptLine(lines[k]).None?
    decreases |lines|
  {
    if |lines| > 0 && AcceptLine(lines[0]).None? {
      var tail := lines[1..];
      ReadAnswerFindsFirstAccepted(tail);
      var r, t := ReadAnswer(lines), ReadAnswer(tail);
      assert r.Exhausted? <==> t.Exhausted?;
      assert forall k :: 1 <= k < |lines| ==> lines[k] == tail[k - 1];
      if r.Answered? {
        assert r.choice == t.choice && r.rejected == t.rejected + 1;
        assert lines[r.rejected] == tail[t.rejected];
      }
    }
  }

  /** One invalid token before a valid one costs exactly one retry. */
  lemma OneRetry()
    ensures ReadAnswer(["E", "b"]) == Answered(B, 1, [])
  {
    Text.TrimUnique("E", 0, 1);
    assert Text.Upper("E") == "E";
    QuizLogic.IsValidChoiceExactly("E");
    AcceptLineOfLetter(B);
    assert [(Letter(B) as int + 32) as char] == "b";
    assert ["E", "b"][1..] == ["b"];
    assert ["b"][1..] == [];
  }

  /** The quiz state the loop carries: the running score and the answers
      accepted so far; the number of answers is the current question's index. */
  datatype Session = Session(score: nat, answers: seq<ChoiceId>)

  /** Where the loop stopped: after the last question, with the lines left,
      or in the middle of a question, with no line left to read. */
  datatype Stop = Done(session: Session, rest: seq<string>) | Stuck(session: Session)

  /** Scoring one accepted answer to question `q`: the score rises by one
      exactly when the answer is correct, and the answer is recorded. */
  function Advance(s: Session, c: ChoiceId, q: Question): (next: Session) {
    Session(if QuizLogic.CheckAnswer(c, q) then s.score + 1 else s.score, s.answers + [c])
  }

  /** The loop over the questions from the session's index on. The score is
      kept equal to the score of the answers so far, never exceeds the
      questions asked, and only ever grows by the answers accepted. */
  function Loop(quiz: seq<Question>, s: Session, lines: seq<string>): (r: Stop)
    requires |s.answers| <= |quiz|
    requires s.score == QuizLogic.CalculateScore(s.answers, quiz)
    ensures |s.answers| <= |r.session.answers| <= |quiz|
    ensures r.session.score == QuizLogic.CalculateScore(r.session.answers, quiz)
    ensures r.session.answers[..|s.answers|] == s.answers
    ensures r.Done? <==> |r.session.answers| == |quiz|
    decreases |quiz| - |s.answers|
  {
    if |s.answers| == |quiz| then Done(s, lines)
    else
      var q := quiz[|s.answers|];
      match ReadAnswer(lines)
      case Exhausted => Stuck(s)
      case Answered(c, _, rest) =>
        QuizLogic.ScoreAppend(s.answers, c, quiz);
        var next := Advance(s, c, q);
        var r := Loop(quiz, next, rest);
        assert r.session.answers[..|s.answers|] == next.answers[..|s.answers|];
        r
  }

  /** The final percentage line: `Math.round(score / total * 100)` is NaN for
      an empty quiz. */
  datatype Percentage = Percent(value: int) | NotANumber

  /** The whole run, from a score of 0 at the first question. */
  datatype Outcome =
    | Finished(score: nat, answers: seq<ChoiceId>, rest: seq<string>, percentage: Percentage)
    | OutOfInput(score: nat, answers: seq<ChoiceId>)

  function Run(quiz: seq<Question>, lines: seq<string>): (r: Outcome)
    ensures |r.answers| <= |quiz|
    ensures r.score == QuizLogic.CalculateScore(r.answers, quiz) <= |r.answers|
    ensures r.Finished? <==> |r.answers| == |quiz|
    ensures r.Finished? && |quiz| > 0 ==>
      r.percentage.Percent? && 0 <= r.percentage.value <= 100
      && 2 * |quiz| * r.percentage.value - |quiz| <= 200 * r.score < 2 * |quiz| * r.percentage.value + |quiz|
    ensures r.Finished? && |quiz| == 0 ==> r.percentage == NotANumber
  {
    match Loop(quiz, Session(0, []), lines)
    case Done(s, rest) =>
      var p :=
        if |quiz| > 0 then
          (QuizLogic.PercentageRange(s.score, |quiz|);
           Percent(QuizLogic.GetPercentage(s.score, |quiz|)))
        else NotANumber;
      Finished(s.score, s.answers, rest, p)
    case Stuck(s) => OutOfInput(s.score, s.answers)
  }

  /** Reference definition: the letters of the accepted lines, in order,
      whatever question they would answer. */
  function Accepted(lines: seq<string>): (acc: seq<ChoiceId>)
    ensures |acc| <= |lines|
  {
    if |lines| == 0 then []
    else match AcceptLine(lines[0])
      case Some(c) => [c] + Accepted(lines[1..])
      case None => Accepted(lines[1..])
  }

  lemma {:induction false} AcceptedAppend(a: seq<string>, b: seq<string>)
    ensures Accepted(a + b) == Accepted(a) + Accepted(b)
    decreases |a|
  {
    if |a| == 0 {
      assert a + b == b;
    } else {
      assert (a + b)[1..] == a[1..] + b;
      AcceptedAppend(a[1..], b);
    }
  }

  /** Reading one answer takes the first accepted letter off the accepted
      letters; running dry means no line was accepted. */
  lemma {:induction false} ReadAnswerTakesFirstAccepted(lines: seq<string>)
    ensures ReadAnswer(lines).Exhausted? <==> Accepted(lines) == []
    ensures ReadAnswer(lines).Answered? ==>
      Accepted(lines) == [ReadAnswer(lines).choice] + Accepted(ReadAnswer(lines).rest)
    decreases |lines|
  {
    if |lines| > 0 {
      ReadAnswerTakesFirstAccepted(lines[1..]);
    }
  }

  /** The loop's result `r`, started from session `s`, took the next `need`
      of the accepted letters `acc` if there were that many, and all of them
      otherwise. */
  ghost predicate TookAccepted(answers: seq<ChoiceId>, acc: seq<ChoiceId>, need: nat, r: Stop) {
    && (r.Done? <==> |acc| >= need)
    && (r.Done? ==> r.session.answers == answers + acc[..need] && Accepted(r.rest) == acc[need..])
    && (r.Stuck? ==> r.session.answers == answers + acc)
  }

  /** One turn of the loop: with a question left and an answer read, the loop
      continues from the advanced session on the remaining lines. */
  lemma LoopStep(quiz: seq<Question>, s: Session, lines: seq<string>)
    requires |s.answers| < |quiz|
    requires s.score == QuizLogic.CalculateScore(s.answers, quiz)
    requires ReadAnswer(lines).Answered?
    ensures var read := ReadAnswer(lines);
      var next := Advance(s, read.choice, quiz[|s.answers|]);
      && |next.answers| <= |quiz|
      && next.score == QuizLogic.CalculateScore(next.answers, quiz)
      && Loop(quiz, s, lines) == Loop(quiz, next, read.rest)
  {
    QuizLogic.ScoreAppend(s.answers, ReadAnswer(lines).choice, quiz);
  }

  /** Taking one letter and then the rest is taking them all at once. */
  lemma TookAcceptedCons(answers: seq<ChoiceId>, c: ChoiceId, tail: seq<ChoiceId>, need: nat, r: Stop)
    requires need > 0
    requires TookAccepted(answers + [c], tail, need - 1, r)
    ensures TookAccepted(answers, [c] + tail, need, r)
  {
    var acc := [c] + tail;
    if r.Done? {
      assert acc[..need] == [c] + tail[..need - 1];
      assert acc[need..] == tail[need - 1..];
      assert answers + [c] + tail[..need - 1] == answers + acc[..need];
    } else {
      assert answers + [c] + tail == answers + acc;
    }
  }

  /** From any session the loop appends the next accepted letters, as many as
      questions remain or as many as there are. */
  lemma {:induction false} LoopTakesAccepted(quiz: seq<Question>, s: Session, lines: seq<string>)
    requires |s.answers| <= |quiz|
    requires s.score == QuizLogic.CalculateScore(s.answers, quiz)
    ensures TookAccepted(s.answers, Accepted(lines), |quiz| - |s.answers|, Loop(quiz, s, lines))
    decreases |quiz| - |s.answers|
  {
    var acc := Accepted(lines);
    ReadAnswerTakesFirstAccepted(lines);
    if |s.answers| == |quiz| {
      assert acc[..0] == [] && acc[0..] == acc;
      assert s.answers + [] == s.answers;
    } else if ReadAnswer(lines).Exhausted? {
      assert s.answers + [] == s.answers;
    } else {
      var read := ReadAnswer(lines);
      var next := Advance(s, read.choice, quiz[|s.answers|]);
      LoopStep(quiz, s, lines);
      LoopTakesAccepted(quiz, next, read.rest);
      TookAcceptedCons(s.answers, read.choice, Accepted(read.rest), |quiz| - |s.answers|, Loop(quiz, next, read.rest));
    }
  }

  /** The run's answers are the accepted lines' letters: it finishes exactly
      when there are at least as many of them as questions, and then answers
      question i with the i-th of them; otherwise it has used all of them. */
  lemma RunAnswersAreAccepted(quiz: seq<Question>, lines: seq<string>)
    ensures Run(quiz, lines).Finished? <==> |Accepted(lines)| >= |quiz|
    ensures Run(quiz, lines).Finished? ==>
      Run(quiz, lines).answers == Accepted(lines)[..|quiz|]
      && Accepted(Run(quiz, lines).rest) == Accepted(lines)[|quiz|..]
    ensures Run(quiz, lines).OutOfInput? ==> Run(quiz, lines).answers == Accepted(lines)
    ensures Run(quiz, lines).score
         == QuizLogic.CalculateScore(Accepted(lines)[..if |Accepted(lines)| < |quiz| then |Accepted(lines)| else |quiz|], quiz)
  {
    var acc := Accepted(lines);
    LoopTakesAccepted(quiz, Session(0, []), lines);
    assert [] + acc == acc;
    if |acc| >= |quiz| {
      assert [] + acc[..|quiz|] == acc[..|quiz|];
    } else {
      assert acc[..|acc|] == acc;
    }
  }

  /** A rejected line never advances the quiz: typed at any point while a
      question is still waiting for its answer (fewer accepted lines before
      it than questions), the run is as if the line had not been typed. */
  lemma RejectedLineIgnored(quiz: seq<Question>, a: seq<string>, bad: string, b: seq<string>)
    requires AcceptLine(bad).None?
    requires |Accepted(a)| < |quiz|
    ensures Run(quiz, a + [bad] + b) == Run(quiz, a + b)
  {
    LoopDropsRejected(quiz, Session(0, []), a, bad, b);
  }

  /** The loop form of `RejectedLineIgnored`, from any session. */
  lemma {:induction false} LoopDropsRejected(quiz: seq<Question>, s: Session, a: seq<string>, bad: string, b: seq<string>)
    requires |s.answers| <= |quiz|
    requires s.score == QuizLogic.CalculateScore(s.answers, quiz)
    requires AcceptLine(bad).None?
    requires |s.answers| + |Accepted(a)| < |quiz|
    ensures Loop(quiz, s, a + [bad] + b) == Loop(quiz, s, a + b)
    decreases |a|, 1
  {
    assert a + [bad] + b == a + ([bad] + b);
    ReadAnswerTakesFirstAccepted(a);
    if ReadAnswer(a).Exhausted? {
      LoopPastRejected(quiz, s, a, bad, b);
    } else {
      LoopAnsweredBeforeRejected(quiz, s, a, bad, b);
    }
  }

  /** When the lines before the rejected one hold an answer, the loop takes
      it either way and the rejected line is still ahead. */
  lemma {:induction false} LoopAnsweredBeforeRejected(quiz: seq<Question>, s: Session, a: seq<string>, bad: string, b: seq<string>)
    requires |s.answers| < |quiz|
    requires s.score == QuizLogic.CalculateScore(s.answers, quiz)
    requires AcceptLine(bad).None?
    requires ReadAnswer(a).Answered?
    requires |s.answers| + |Accepted(ReadAnswer(a).rest)| + 1 < |quiz|
    ensures Loop(quiz, s, a + ([bad] + b)) == Loop(quiz, s, a + b)
    decreases |a|, 0
  {
    var r := ReadAnswer(a);
    var next := Advance(s, r.choice, quiz[|s.answers|]);
    LoopAfterAnswer(quiz, s, a, [bad] + b);
    LoopAfterAnswer(quiz, s, a, b);
    assert r.rest + ([bad] + b) == r.rest + [bad] + b;
    calc {
      Loop(quiz, s, a + ([bad] + b));
      Loop(quiz, next, r.rest + [bad] + b);
      { LoopDropsRejected(quiz, next, r.rest, bad, b); }
      Loop(quiz, next, r.rest + b);
      Loop(quiz, s, a + b);
    }
  }

  /** Once a prefix of the input holds an answer, the loop goes on from the
      advanced session on what is left of the prefix and the lines after it. */
  lemma LoopAfterAnswer(quiz: seq<Question>, s: Session, a: seq<string>, tail: seq<string>)
    requires |s.answers| < |quiz|
    requires s.score == QuizLogic.CalculateScore(s.answers, quiz)
    requires ReadAnswer(a).Answered?
    ensures var r := ReadAnswer(a);
      var next := Advance(s, r.choice, quiz[|s.answers|]);
      && |next.answers| <= |quiz|
      && next.score == QuizLogic.CalculateScore(next.answers, quiz)
      && Loop(quiz, s, a + tail) == Loop(quiz, next, r.rest + tail)
  {
    ReadAnswerAppend(a, tail);
    LoopStep(quiz, s, a + tail);
  }

  /** With no accepted line before it, the rejected line is read past along
      with them, and the same answer is read either way. */
  lemma LoopPastRejected(quiz: seq<Question>, s: Session, a: seq<string>, bad: string, b: seq<string>)
    requires |s.answers| < |quiz|
    requires s.score == QuizLogic.CalculateScore(s.answers, quiz)
    requires AcceptLine(bad).None?
    requires ReadAnswer(a).Exhausted?
    ensures Loop(quiz, s, a + ([bad] + b)) == Loop(quiz, s, a + b)
  {
    var w := a + ([bad] + b);
    ReadAnswerPastExhausted(a, [bad] + b);
    ReadAnswerPastExhausted(a, b);
    ReadAnswerSkipsRejected(bad, b);
    if ReadAnswer(b).Answered? {
      LoopStep(quiz, s, w);
      LoopStep(quiz, s, a + b);
    } else {
      assert ReadAnswer(w).Exhausted? && ReadAnswer(a + b).Exhausted?;
    }
  }

  /** Lines after an answered prefix are not read for this answer. */
  lemma {:induction false} ReadAnswerAppend(a: seq<string>, b: seq<string>)
    requires ReadAnswer(a).Answered?
    ensures ReadAnswer(a + b).Answered?
    ensures ReadAnswer(a + b).choice == ReadAnswer(a).choice
    ensures ReadAnswer(a + b).rest == ReadAnswer(a).rest + b
    decreases |a|
  {
    assert (a + b)[0] == a[0];
    assert (a + b)[1..] == a[1..] + b;
    if AcceptLine(a[0]).None? {
      ReadAnswerAppend(a[1..], b);
    }
  }

  /** A prefix with no accepted line is read past as if it were not there. */
  lemma {:induction false} ReadAnswerPastExhausted(a: seq<string>, b: seq<string>)
    requires ReadAnswer(a).Exhausted?
    ensures ReadAnswer(a + b).Exhausted? <==> ReadAnswer(b).Exhausted?
    ensures ReadAnswer(b).Answered? ==>
      ReadAnswer(a + b).choice == ReadAnswer(b).choice && ReadAnswer(a + b).rest == ReadAnswer(b).rest
    decreases |a|
  {
    if |a| == 0 {
      assert a + b == b;
    } else {
      assert (a + b)[0] == a[0];
      assert (a + b)[1..] == a[1..] + b;
      ReadAnswerPastExhausted(a[1..], b);
    }
  }

  /** A rejected first line only adds one to the retries. */
  lemma ReadAnswerSkipsRejected(bad: string, lines: seq<string>)
    requires AcceptLine(bad).None?
    ensures ReadAnswer([bad] + lines).Exhausted? <==> ReadAnswer(lines).Exhausted?
    ensures ReadAnswer(lines).Answered? ==>
      && ReadAnswer([bad] + lines).choice == ReadAnswer(lines).choice
      && ReadAnswer([bad] + lines).rejected == ReadAnswer(lines).rejected + 1
      && ReadAnswer([bad] + lines).rest == ReadAnswer(lines).rest
  {
    var w := [bad] + lines;
    assert w[0] == bad && w[1..] == lines;
  }

  /** The lines typing each question's correct letter in turn. */
  function CorrectLines(quiz: seq<Question>): (lines: seq<string>)
    ensures |lines| == |quiz|
    ensures forall i :: 0 <= i < |quiz| ==> lines[i] == LetterString(quiz[i].correct)
  {
    seq(|quiz|, i requires 0 <= i < |quiz| => LetterString(quiz[i].correct))
  }

  lemma {:induction false} AcceptedCorrectLines(quiz: seq<Question>)
    ensures Accepted(CorrectLines(quiz)) == seq(|quiz|, i requires 0 <= i < |quiz| => quiz[i].correct)
    decreases |quiz|
  {
    if |quiz| > 0 {
      var lines := CorrectLines(quiz);
      AcceptLineOfLetter(quiz[0].correct);
      assert lines[1..] == CorrectLines(quiz[1..]);
      AcceptedCorrectLines(quiz[1..]);
    }
  }

  /** Typing every correct letter scores every question and reports 100. */
  lemma AllCorrectRun(quiz: seq<Question>)
    requires |quiz| > 0
    ensures Run(quiz, CorrectLines(quiz)).Finished?
    ensures Run(quiz, CorrectLines(quiz)).score == |quiz|
    ensures Run(quiz, CorrectLines(quiz)).percentage == Percent(100)
  {
    var lines := CorrectLines(quiz);
    AcceptedCorrectLines(quiz);
    RunAnswersAreAccepted(quiz, lines);
    var r := Run(quiz, lines);
    assert Accepted(lines)[..|quiz|] == Accepted(lines);
    QuizLogic.ScoreExtremes(r.answers, quiz);
    QuizLogic.PercentageRange(|quiz|, |quiz|);
  }
}
