/** `checkAnswer`: judging a submitted answer against the current question. */
module Judge {
  import opened JsText
  import opened QuestionBank
  import opened Wrappers

  /** `s.toLowerCase().trim()`, applied to both sides before comparing. */
  function Normalize(s: string): (r: string)
    ensures |r| <= |s|
    ensures exists i :: CoreAt(ToLower(s), r, i)
  {
    Trim(ToLower(s))
  }

  /** Non-empty, without upper-case letters and without surrounding whitespace. */
  predicate Plain(s: string) {
    && |s| > 0 && !IsSpace(s[0]) && !IsSpace(s[|s| - 1])
    && forall k :: 0 <= k < |s| ==> !IsUpper(s[k])
  }

  /** A plain string is its own normal form. */
  lemma NormalizePlain(s: string)
    requires Plain(s)
    ensures Normalize(s) == s
  {
    ToLowerKeepsLowerCase(s);
    TrimKeepsCore(s);
  }

  /** How many leading characters of the correct answer a lenient answer must contain. */
  const LenientPrefixLength: nat := 20

  predicate IsExactType(q: Question) {
    q.qtype == "multipleChoice" || q.qtype == "codeCompletion"
  }

  /** `checkAnswer()` for question `q` and the learner's raw answer: an answer with the
      correct answer's normal form is right for every type, and for the exact types
      nothing else is. */
  function CheckAnswer(q: Question, userAnswer: string): (r: bool)
    ensures Normalize(userAnswer) == Normalize(q.correctAnswer) ==> r
    ensures IsExactType(q) && r ==> Normalize(userAnswer) == Normalize(q.correctAnswer)
  {
    var answer := Normalize(userAnswer);
    var correct := Normalize(q.correctAnswer);
    if q.qtype == "multipleChoice" then answer == correct
    else if q.qtype == "codeCompletion" then answer == correct
    else
      ContainsSelf(correct);
      ContainsPrefix(correct, correct, LenientPrefixLength);
      Contains(answer, Prefix(correct, LenientPrefixLength))
  }

  /** Multiple-choice and code-completion answers must match exactly after normalising. */
  lemma ExactTypesMatchNormalized(q: Question, userAnswer: string)
    requires IsExactType(q)
    ensures CheckAnswer(q, userAnswer) <==> Normalize(userAnswer) == Normalize(q.correctAnswer)
  {
  }

  /** Every other type accepts exactly the answers in which the first (at most) twenty
      normalised characters of the correct answer occur. */
  lemma LenientTypesMatchPrefix(q: Question, userAnswer: string)
    requires !IsExactType(q)
    ensures var p := Prefix(Normalize(q.correctAnswer), LenientPrefixLength);
            && |p| == (if |Normalize(q.correctAnswer)| <= 20 then |Normalize(q.correctAnswer)| else 20)
            && p == Normalize(q.correctAnswer)[..|p|]
            && (CheckAnswer(q, userAnswer) <==> exists i :: OccursAt(Normalize(userAnswer), p, i))
  {
  }

  /** The canonical answer is accepted, whatever the question type. */
  lemma AcceptsCorrectAnswer(q: Question)
    ensures CheckAnswer(q, q.correctAnswer)
  {
    var c := Normalize(q.correctAnswer);
    ContainsSelf(c);
    ContainsPrefix(c, c, LenientPrefixLength);
  }

  /** Case and surrounding whitespace do not matter: an answer that lower-cases to the
      correct answer's lower-case form is accepted with any whitespace padding. */
  lemma AcceptsPaddedCaseVariant(q: Question, answer: string, w1: string, w2: string)
    requires AllSpace(w1) && AllSpace(w2)
    requires ToLower(answer) == ToLower(q.correctAnswer)
    ensures CheckAnswer(q, w1 + answer + w2)
  {
    ToLowerAppend(w1 + answer, w2);
    ToLowerAppend(w1, answer);
    assert AllSpace(ToLower(w1)) && AllSpace(ToLower(w2));
    TrimPadded(ToLower(w1), ToLower(answer), ToLower(w2));
    assert Normalize(w1 + answer + w2) == Normalize(q.correctAnswer);
    AcceptsCorrectAnswer(q);
  }

  /** A lenient-type answer containing the whole normalised correct answer is accepted. */
  lemma LenientAcceptsContainingAnswer(q: Question, userAnswer: string)
    requires !IsExactType(q)
    requires Contains(Normalize(userAnswer), Normalize(q.correctAnswer))
    ensures CheckAnswer(q, userAnswer)
  {
    ContainsPrefix(Normalize(userAnswer), Normalize(q.correctAnswer), LenientPrefixLength);
  }

  /** " LET " is accepted for the bank's multiple-choice question whose answer is "let". */
  lemma MultipleChoiceExample()
    ensures CheckAnswer(Variables, " LET ")
  {
    assert " LET " == " " + "LET" + " ";
    assert ToLower("LET") == "let" == ToLower(Variables.correctAnswer);
    AcceptsPaddedCaseVariant(Variables, "LET", " ", " ");
  }

  /** A lenient-type answer that embeds the correct answer as written, with any text
      before and after it, is accepted. */
  lemma LenientAcceptsSurroundedAnswer(q: Question, before: string, after: string)
    requires !IsExactType(q)
    ensures CheckAnswer(q, before + q.correctAnswer + after)
  {
    var c := q.correctAnswer;
    ToLowerAppend(before + c, after);
    ToLowerAppend(before, c);
    TrimOfEmbedded(ToLower(before), ToLower(c), ToLower(after));
    LenientAcceptsContainingAnswer(q, before + c + after);
  }

  /** A free-text answer that embeds the correct sentence "closures capture variables
      by reference" inside a longer sentence is accepted. */
  lemma FreeTextExample(q: Question)
    requires q.qtype == "freeText"
    requires q.correctAnswer == "closures capture variables by reference"
    ensures CheckAnswer(q, "I think " + "closures capture variables by reference" + " somehow")
  {
    LenientAcceptsSurroundedAnswer(q, "I think ", " somehow");
  }

  /** An exact-type question rejects a plain answer that differs from its plain
      correct answer. */
  lemma ExactRejectsOtherPlainAnswer(q: Question, answer: string)
    requires IsExactType(q) && answer != q.correctAnswer
    requires Plain(answer) && Plain(q.correctAnswer)
    ensures !CheckAnswer(q, answer)
  {
    assert Normalize(answer) != Normalize(q.correctAnswer) by {
      NormalizePlain(answer);
      NormalizePlain(q.correctAnswer);
    }
    ExactTypesMatchNormalized(q, answer);
  }

  /** "var" is a wrong answer to a multiple-choice question whose answer is "let", such as
      question 1. */
  lemma WrongChoiceExample(q: Question)
    requires q.qtype == "multipleChoice" && q.correctAnswer == "let"
    ensures !CheckAnswer(q, "var")
  {
    ExactRejectsOtherPlainAnswer(q, "var");
  }

  /** " USESTATE " (the upper-cased answer between two spaces) is a right answer to a
      code-completion question whose answer is "useState", such as question 3. */
  lemma CodeCompletionExample(q: Question)
    requires q.qtype == "codeCompletion" && q.correctAnswer == "useState"
    ensures CheckAnswer(q, " " + "USESTATE" + " ")
  {
    ToLowerCaseless("USESTATE", q.correctAnswer);
    AcceptsPaddedCaseVariant(q, "USESTATE", " ", " ");
  }
}
