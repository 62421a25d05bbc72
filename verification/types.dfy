/** The quiz's data: answer letters, the options a question offers, and the
    question record itself, with the well-formedness the question banks keep. */
module Types {
  import Text

  /** The closed union `"A" | "B" | "C" | "D"`: no other value is a ChoiceId. */
  datatype ChoiceId = A | B | C | D

  /** Every ChoiceId, in label order. */
  const AllChoices: seq<ChoiceId> := [A, B, C, D]

  /** The character a ChoiceId is spelled with. */
  function Letter(c: ChoiceId): (ch: char) {
    match c
    case A => 'A'
    case B => 'B'
    case C => 'C'
    case D => 'D'
  }

  /** The string literal type member a ChoiceId is at run time. */
  function LetterString(c: ChoiceId): (literal: string) {
    [Letter(c)]
  }

  /** Each ChoiceId is spelled differently and is one of the four listed. */
  lemma LetterStringInjective(c1: ChoiceId, c2: ChoiceId)
    ensures LetterString(c1) == LetterString(c2) <==> c1 == c2
    ensures c1 in AllChoices
  {
  }

  /** A result that may be missing. */
  datatype Maybe<T> = None | Some(value: T)

  /** One labelled answer option of a question. */
  datatype Option = Option(id: ChoiceId, text: string)

  /** A quiz question: prompt, options in display order, the correct letter
      and the explanation shown after answering. */
  datatype Question = Question(prompt: string, options: seq<Option>, correct: ChoiceId, explain: string)

  /** The option ids of `q`, in display order. */
  function OptionIds(q: Question): (ids: seq<ChoiceId>)
    ensures |ids| == |q.options|
    ensures forall k :: 0 <= k < |ids| ==> ids[k] == q.options[k].id
  {
    seq(|q.options|, k requires 0 <= k < |q.options| => q.options[k].id)
  }

  /** What the record type leaves open and the question banks promise:
      a prompt and an explanation, exactly four options whose ids are
      A to D once each, the correct letter among them, and no option whose
      text is blank once trimmed. */
  predicate WellFormed(q: Question) {
    && q.prompt != []
    && q.explain != []
    && |q.options| == 4
    && (forall c: ChoiceId :: c in OptionIds(q))
    && (forall i, j :: 0 <= i < j < |q.options| ==> q.options[i].id != q.options[j].id)
    && (exists k :: 0 <= k < |q.options| && q.options[k].id == q.correct)
    && (forall k :: 0 <= k < |q.options| ==> Text.Trim(q.options[k].text) != [])
  }

  /** Four options that cover all four letters can repeat none of them, so
      the distinctness part of well-formedness follows from coverage. */
  lemma CoverageImpliesDistinct(q: Question)
    requires |q.options| == 4
    requires forall c: ChoiceId :: c in OptionIds(q)
    ensures forall i, j :: 0 <= i < j < |q.options| ==> q.options[i].id != q.options[j].id
  {
    var ids := OptionIds(q);
    assert A in ids && B in ids && C in ids && D in ids;
    assert ids == [ids[0], ids[1], ids[2], ids[3]];
  }

  /** When option ids are distinct and include the correct letter, as in every
      well-formed question, the correct letter labels exactly one option. */
  lemma CorrectLabelsOneOption(q: Question)
    requires forall i, j :: 0 <= i < j < |q.options| ==> q.options[i].id != q.options[j].id
    requires exists k :: 0 <= k < |q.options| && q.options[k].id == q.correct
    ensures |set k | 0 <= k < |q.options| && q.options[k].id == q.correct| == 1
  {
    var k :| 0 <= k < |q.options| && q.options[k].id == q.correct;
    var s := set j | 0 <= j < |q.options| && q.options[j].id == q.correct;
    assert forall j :: 0 <= j < |q.options| && j != k ==> q.options[j].id != q.options[k].id;
    assert k in s;
    assert s == {k};
  }
}
