/**
 * Flash cards and how each kind judges a submitted answer.
 *
 * A vocabulary card compares answers after stripping surrounding whitespace
 * and lower-casing both sides. A math card compares the number the user typed
 * with the value of its stored expression; parsing and evaluating are not
 * part of this model and come in as functions that return None on failure.
 */
module FlashCards {
  import opened Wrappers
  import opened Text

  datatype Card =
    | Vocabulary(question: string, answer: string)
    | Math(question: string, answer: string)

  /** The form both sides of a vocabulary comparison are brought to: stripped, then lower-cased. */
  function Normalize(s: string): (r: string)
    ensures |r| <= |s|
    ensures r == [] || (!IsSpace(r[0]) && !IsSpace(r[|r| - 1]))
    ensures forall k :: 0 <= k < |r| ==> !IsUpper(r[k])
  {
    Lower(Strip(s))
  }

  /**
   * The vocabulary check: the normalised stored answer equals the normalised
   * user answer, that is, the two stripped answers differ at most in letter case.
   */
  function VocabularyAccepts(expected: string, userAnswer: string): (ok: bool)
    ensures ok <==> EqualIgnoringCase(Strip(expected), Strip(userAnswer))
  {
    LowerEqualIff(Strip(expected), Strip(userAnswer));
    Normalize(expected) == Normalize(userAnswer)
  }

  /**
   * The math check: true only when the user's answer parses as a number, the
   * stored expression evaluates, and the two values are equal; any failure
   * counts as a wrong answer.
   */
  function MathAccepts(expected: string, userAnswer: string,
                       parseNumber: string -> Option<real>,
                       evaluate: string -> Option<real>): (ok: bool)
    ensures ok ==> parseNumber(userAnswer).Some? && evaluate(expected).Some?
    ensures parseNumber(userAnswer).None? || evaluate(expected).None? ==> !ok
    ensures (parseNumber(userAnswer).Some? && evaluate(expected).Some?
             && parseNumber(userAnswer).value == evaluate(expected).value) ==> ok
  {
    match (parseNumber(userAnswer), evaluate(expected))
    case (Some(x), Some(v)) => x == v
    case _ => false
  }

  /** The answer check each kind of card dispatches to. */
  function CheckAnswer(card: Card, userAnswer: string,
                       parseNumber: string -> Option<real>,
                       evaluate: string -> Option<real>): (ok: bool)
    ensures card.Vocabulary? ==> (ok <==> EqualIgnoringCase(Strip(card.answer), Strip(userAnswer)))
    ensures card.Math? ==> (ok <==> parseNumber(userAnswer).Some? && evaluate(card.answer).Some?
                                    && parseNumber(userAnswer).value == evaluate(card.answer).value)
  {
    match card
    case Vocabulary(_, answer) => VocabularyAccepts(answer, userAnswer)
    case Math(_, answer) => MathAccepts(answer, userAnswer, parseNumber, evaluate)
  }

  /** A vocabulary card accepts its own stored answer. */
  lemma AcceptsOwnAnswer(card: Card, parseNumber: string -> Option<real>, evaluate: string -> Option<real>)
    requires card.Vocabulary?
    ensures CheckAnswer(card, card.answer, parseNumber, evaluate)
  {
  }

  /** Swapping the stored answer and the user's answer does not change the verdict. */
  lemma VocabularyAcceptsSymmetric(expected: string, userAnswer: string)
    ensures VocabularyAccepts(expected, userAnswer) == VocabularyAccepts(userAnswer, expected)
  {
  }

  /** Whitespace added before or after the user's answer does not change the verdict. */
  lemma VocabularyIgnoresPadding(expected: string, userAnswer: string, w1: string, w2: string)
    requires AllSpace(w1) && AllSpace(w2)
    ensures VocabularyAccepts(expected, w1 + userAnswer + w2) == VocabularyAccepts(expected, userAnswer)
  {
    StripPadded(w1, userAnswer, w2);
  }

  /** Changing the case of letters in the user's answer does not change the verdict. */
  lemma VocabularyIgnoresCase(expected: string, userAnswer: string, other: string)
    requires EqualIgnoringCase(userAnswer, other)
    ensures VocabularyAccepts(expected, userAnswer) == VocabularyAccepts(expected, other)
  {
    LowerEqualIff(userAnswer, other);
    LowerStripCommute(userAnswer);
    LowerStripCommute(other);
  }

  /** A card whose answer is "Paris" accepts " paris ". */
  lemma ParisExample()
    ensures VocabularyAccepts("Paris", " paris ")
  {
    var expected, typed := "Paris", " paris ";
    assert expected[..0] == [] && expected[5..] == [];
    StripExact(expected, 0, 5);
    assert typed[..1] == " " && typed[6..] == " ";
    StripExact(typed, 1, 6);
    assert typed[1..6] == "paris";
    assert EqualIgnoringCase("Paris", "paris");
  }
}
