/** The entry-point script: its hard-coded question bank, its own copy of the
    answer gate, and its older copy of the quiz loop, which compares the
    normalised answer string with the correct letter directly and keeps only
    the score. */
module Bank {
  import opened Types
  import Text
  import QuizLogic
  import Cli

  /** `QUESTIONS`: ten geography questions. */
  const Questions: seq<Question> := [
      Question("What is the capital of Australia?",
        [Option(A, "Sydney"), Option(B, "Melbourne"), Option(C, "Canberra"), Option(D, "Perth")],
        C,
        "Canberra was chosen as a compromise between Sydney and Melbourne."),
      Question("Which river is the longest in the world by length (most cited)?",
        [Option(A, "Nile"), Option(B, "Amazon"), Option(C, "Yangtze"), Option(D, "Mississippi\U{2013}Missouri")],
        A,
        "Nile vs. Amazon is debated, but Nile is most commonly cited in textbooks."),
      Question("Which country has the most natural lakes?",
        [Option(A, "Canada"), Option(B, "Finland"), Option(C, "Russia"), Option(D, "United States")],
        A,
        "Canada has more than half of the world\U{2019}s natural lakes."),
      Question("Mount Kilimanjaro is in which country?",
        [Option(A, "Kenya"), Option(B, "Tanzania"), Option(C, "Uganda"), Option(D, "Ethiopia")],
        B,
        "Kilimanjaro is in northern Tanzania, near the Kenyan border."),
      Question("Which desert is the largest hot desert?",
        [Option(A, "Gobi"), Option(B, "Kalahari"), Option(C, "Sahara"), Option(D, "Arabian")],
        C,
        "Sahara is the largest hot desert (Antarctica and Arctic are cold deserts)."),
      Question("Which sea separates Europe and Africa?",
        [Option(A, "Baltic Sea"), Option(B, "Mediterranean Sea"), Option(C, "Black Sea"), Option(D, "Red Sea")],
        B,
        "The Mediterranean lies between southern Europe and northern Africa."),
      Question("Which country does NOT border Germany?",
        [Option(A, "Denmark"), Option(B, "Netherlands"), Option(C, "Ukraine"), Option(D, "Czechia")],
        C,
        "Germany borders 9 countries; Ukraine is not one of them."),
      Question("What is the smallest country in the world by area?",
        [Option(A, "Monaco"), Option(B, "Vatican City"), Option(C, "Nauru"), Option(D, "San Marino")],
        B,
        "Vatican City is ~0.49 km\U{00B2}, the smallest by area and population."),
      Question("Which city is furthest south?",
        [Option(A, "Cape Town"), Option(B, "Buenos Aires"), Option(C, "Sydney"), Option(D, "Auckland")],
        D,
        "Auckland (~37\U{00B0}S) is further south than Sydney (~34\U{00B0}S), Cape Town (~34\U{00B0}S), Buenos Aires (~34.6\U{00B0}S)."),
      Question("Which country has the largest population?",
        [Option(A, "United States"), Option(B, "India"), Option(C, "China"), Option(D, "Indonesia")],
        B,
        "As of mid-2020s, India slightly exceeds China in population.")
    ]

  /** The letters the bank marks as correct, question by question. */
  const AnswerKey: seq<ChoiceId> := [C, A, A, B, C, B, C, B, D, B]

  /** The bank has ten questions and the key lists their correct letters. */
  lemma BankShape()
    ensures |Questions| == 10
    ensures forall i :: 0 <= i < 10 ==> Questions[i].correct == AnswerKey[i]
  {
  }

  /** A question whose options are listed A, B, C, D in that order, whose
      texts begin with a non-blank character, and that has a prompt and an
      explanation, is well-formed. */
  lemma WellFormedByLayout(q: Question)
    requires q.prompt != [] && q.explain != []
    requires |q.options| == 4
    requires q.options[0].id == A && q.options[1].id == B && q.options[2].id == C && q.options[3].id == D
    requires forall k :: 0 <= k < 4 ==> |q.options[k].text| > 0 && !Text.IsSpace(q.options[k].text[0])
    ensures WellFormed(q)
  {
    assert OptionIds(q) == [A, B, C, D];
    assert forall c: ChoiceId :: c in OptionIds(q) by {
      forall c: ChoiceId ensures c in OptionIds(q) {
        assert c == OptionIds(q)[0] || c == OptionIds(q)[1] || c == OptionIds(q)[2] || c == OptionIds(q)[3];
      }
    }
    CoverageImpliesDistinct(q);
    Text.TrimKeepsNonBlank(q.options[0].text);
    Text.TrimKeepsNonBlank(q.options[1].text);
    Text.TrimKeepsNonBlank(q.options[2].text);
    Text.TrimKeepsNonBlank(q.options[3].text);
    assert q.options[0].id == q.correct || q.options[1].id == q.correct
        || q.options[2].id == q.correct || q.options[3].id == q.correct;
  }

  /** Every question in the bank is well-formed: four options with ids A to D
      once each, the correct letter among them, no blank option text. */
  lemma BankWellFormed()
    ensures forall i :: 0 <= i < |Questions| ==> WellFormed(Questions[i])
  {
    forall i | 0 <= i < |Questions|
      ensures WellFormed(Questions[i])
    {
      WellFormedByLayout(Questions[i]);
    }
  }

  /** No prompt appears twice in the bank. */
  lemma BankPromptsDistinct()
    ensures forall i, j :: 0 <= i < j < |Questions| ==> Questions[i].prompt != Questions[j].prompt
  {
  }

  /** `isCheckId`: the script's own copy of the answer gate. */
  predicate IsCheckId(s: string) {
    Text.Upper(s) in ["A", "B", "C", "D"]
  }

  /** The copy accepts exactly what the quiz logic's gate accepts. */
  lemma IsCheckIdIsValidChoice(s: string)
    ensures IsCheckId(s) <==> QuizLogic.IsValidChoice(s)
  {
  }

  /** Comparing the normalised answer string with the correct letter, as the
      script does, decides the same as `checkAnswer` on the letter the line
      is taken as. */
  lemma StringComparisonIsCheckAnswer(line: string, q: Question)
    requires IsCheckId(Text.Upper(Text.Trim(line)))
    ensures Cli.AcceptLine(line).Some?
    ensures Text.Upper(Text.Trim(line)) == LetterString(q.correct)
        <==> QuizLogic.CheckAnswer(Cli.AcceptLine(line).value, q)
  {
    Cli.AcceptLineSound(line);
    LetterStringInjective(Cli.AcceptLine(line).value, q.correct);
  }

  /** The script's `main` loop over the bank: read lines until one passes
      the gate, add one when it equals the correct letter. Where the input
      runs out mid-question the script would wait forever; here the loop
      stops with `finished` false. The score it keeps is the one the quiz
      run computes from the same lines, and it finishes exactly when the
      lines hold an accepted answer for every question. */
  method MainLoop(lines: seq<string>) returns (score: nat, finished: bool)
    ensures finished <==> |Cli.Accepted(lines)| >= |Questions|
    ensures score == Cli.Run(Questions, lines).score
    ensures score <= |Questions|
  {
    var quiz := Questions;
    score := 0;
    var pos := 0;
    ghost var answers: seq<ChoiceId> := [];
    var i := 0;
    while i < |quiz|
      invariant i <= |quiz| && pos <= |lines|
      invariant |answers| == i
      invariant answers == Cli.Accepted(lines[..pos])
      invariant score == QuizLogic.CalculateScore(answers, quiz)
    {
      var q := quiz[i];
      var choice := "";
      while true
        invariant pos <= |lines|
        invariant answers == Cli.Accepted(lines[..pos])
        decreases |lines| - pos
      {
        if pos == |lines| {
          finished := false;
          OutOfInputAgrees(lines, answers);
          return;
        }
        choice := Text.Upper(Text.Trim(lines[pos]));
        AcceptedStep(lines, pos);
        pos := pos + 1;
        if IsCheckId(choice) {
          break;
        }
      }
      StringComparisonIsCheckAnswer(lines[pos - 1], q);
      var c := Cli.AcceptLine(lines[pos - 1]).value;
      QuizLogic.ScoreAppend(answers, c, quiz);
      if choice == LetterString(q.correct) {
        score := score + 1;
      }
      answers := answers + [c];
      i := i + 1;
    }
    finished := true;
    FinishedAgrees(lines, pos, answers);
  }

  /** Reading one more line adds its letter to the accepted ones exactly when
      it passes the gate. */
  lemma AcceptedStep(lines: seq<string>, pos: nat)
    requires pos < |lines|
    ensures var choice := Text.Upper(Text.Trim(lines[pos]));
      Cli.Accepted(lines[..pos + 1])
        == Cli.Accepted(lines[..pos]) + (if IsCheckId(choice) then [Cli.AcceptLine(lines[pos]).value] else [])
  {
    Cli.AcceptLineSound(lines[pos]);
    assert lines[..pos + 1] == lines[..pos] + [lines[pos]];
    Cli.AcceptedAppend(lines[..pos], [lines[pos]]);
    assert [lines[pos]][1..] == [];
  }

  lemma OutOfInputAgrees(lines: seq<string>, answers: seq<ChoiceId>)
    requires |answers| < |Questions|
    requires answers == Cli.Accepted(lines[..|lines|])
    ensures |Cli.Accepted(lines)| < |Questions|
    ensures QuizLogic.CalculateScore(answers, Questions) == Cli.Run(Questions, lines).score
  {
    assert lines[..|lines|] == lines;
    Cli.RunAnswersAreAccepted(Questions, lines);
    assert Cli.Accepted(lines)[..|Cli.Accepted(lines)|] == Cli.Accepted(lines);
  }

  lemma FinishedAgrees(lines: seq<string>, pos: nat, answers: seq<ChoiceId>)
    requires pos <= |lines|
    requires |answers| == |Questions|
    requires answers == Cli.Accepted(lines[..pos])
    ensures |Cli.Accepted(lines)| >= |Questions|
    ensures QuizLogic.CalculateScore(answers, Questions) == Cli.Run(Questions, lines).score
  {
    assert lines == lines[..pos] + lines[pos..];
    Cli.AcceptedAppend(lines[..pos], lines[pos..]);
    Cli.RunAnswersAreAccepted(Questions, lines);
    assert Cli.Accepted(lines)[..|Questions|] == answers;
  }

  /** Typing the answer key scores ten out of ten and reports 100. */
  lemma AnswerKeyScoresFull()
    ensures QuizLogic.CalculateScore(AnswerKey, Questions) == 10
    ensures Cli.Run(Questions, Cli.CorrectLines(Questions)).Finished?
    ensures Cli.Run(Questions, Cli.CorrectLines(Questions)).score == 10
    ensures Cli.Run(Questions, Cli.CorrectLines(Questions)).percentage == Cli.Percent(100)
  {
    BankShape();
    QuizLogic.ScoreExtremes(AnswerKey, Questions);
    Cli.AllCorrectRun(Questions);
  }
}
