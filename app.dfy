/**
 * The `App` component's engine: the stats record and the session fields it keeps in
 * React state, and the handlers that update them. Each handler is one atomic update.
 */
module App {
  import opened Wrappers
  import opened JsText
  import opened QuestionBank
  import opened Judge
  import opened Progress
  import opened Selection

  /** The transient session fields, for stating what a handler leaves alone. */
  datatype SessionState = SessionState(
    screen: string,
    mode: string,
    question: Option<Question>,
    userAnswer: string,
    showFeedback: bool,
    isCorrect: bool,
    answered: seq<int>)

  /** What a submit did: nothing (blank answer), failed (no current question, where the
      source throws before changing anything), or judged the answer. */
  datatype SubmitOutcome = Ignored | Rejected | Judged(correct: bool)

  class Trainer {
    const bank: seq<Question>
    var stats: Stats
    var currentScreen: string
    var currentMode: string
    var currentQuestion: Option<Question>
    var userAnswer: string
    var showFeedback: bool
    var isCorrect: bool
    var answeredQuestions: seq<int>

    ghost predicate Valid()
      reads this
    {
      |bank| > 0 && (currentQuestion.Some? ==> currentQuestion.value in bank)
    }

    function Session(): SessionState
      reads this
    {
      SessionState(currentScreen, currentMode, currentQuestion, userAnswer, showFeedback, isCorrect, answeredQuestions)
    }

    /** Mounting the app: the stored progress record (or `InitialStats(today)` when none
        is stored) and the initial session. */
    constructor (bank: seq<Question>, stored: Stats)
      requires |bank| > 0
      ensures Valid() && this.bank == bank && stats == stored
      ensures Session() == SessionState("welcome", "random", None, "", false, false, [])
    {
      this.bank := bank;
      stats := stored;
      currentScreen := "welcome";
      currentMode := "random";
      currentQuestion := None;
      userAnswer := "";
      showFeedback := false;
      isCorrect := false;
      answeredQuestions := [];
    }

    /** The streak effect run on mount. */
    method CheckStreak(today: int)
      requires Valid()
      modifies this
      ensures Valid()
      ensures stats == Rollover(old(stats), today)
      ensures Session() == old(Session())
    {
      if stats.lastVisitDate != today {
        stats := Rollover(stats, today);
      }
    }

    /** The sidebar's `setCurrentMode`. */
    method ChooseMode(mode: string)
      requires Valid()
      modifies this
      ensures Valid() && stats == old(stats)
      ensures Session() == old(Session()).(mode := mode)
    {
      currentMode := mode;
    }

    /** The answer inputs' `setUserAnswer`. */
    method TypeAnswer(answer: string)
      requires Valid()
      modifies this
      ensures Valid() && stats == old(stats)
      ensures Session() == old(Session()).(userAnswer := answer)
    {
      userAnswer := answer;
    }

    /** `selectNewQuestion(similarTopic)`: serves `Select`'s pick, clears the draft answer
        and the feedback, and empties the history when the candidates ran out. */
    method SelectNewQuestion(similarTopic: Option<string>, rand: real)
      requires Valid() && 0.0 <= rand < 1.0
      modifies this
      ensures Valid() && stats == old(stats)
      ensures var p := Select(bank, old(answeredQuestions), currentMode, stats.reviewLater, similarTopic, rand);
        Session() == old(Session()).(question := Some(p.question), userAnswer := "", showFeedback := false,
                                     answered := if p.historyCleared then [] else old(answeredQuestions))
    {
      ghost var p := Select(bank, answeredQuestions, currentMode, stats.reviewLater, similarTopic, rand);
      var available := Available(bank, answeredQuestions, currentMode, stats.reviewLater, similarTopic);
      var candidates := available;
      if |available| == 0 {
        candidates := bank;
        answeredQuestions := [];
      }
      currentQuestion := Some(candidates[PickIndex(rand, |candidates|)]);
      assert currentQuestion == Some(p.question);
      userAnswer := "";
      showFeedback := false;
    }

    /** `startTraining`: selects a question and switches to the training screen. */
    method StartTraining(rand: real)
      requires Valid() && 0.0 <= rand < 1.0
      modifies this
      ensures Valid() && stats == old(stats)
      ensures var p := Select(bank, old(answeredQuestions), currentMode, stats.reviewLater, None, rand);
        Session() == old(Session()).(screen := "training", question := Some(p.question), userAnswer := "",
                                     showFeedback := false,
                                     answered := if p.historyCleared then [] else old(answeredQuestions))
    {
      SelectNewQuestion(None, rand);
      currentScreen := "training";
    }

    /** `handleSubmitAnswer`: a blank answer is ignored; otherwise the answer is judged,
        the feedback shown, the question added to the history and the stats updated. */
    method HandleSubmitAnswer() returns (outcome: SubmitOutcome)
      requires Valid()
      modifies this
      ensures Valid()
      ensures Trim(old(userAnswer)) == [] ==>
        outcome == Ignored && stats == old(stats) && Session() == old(Session())
      ensures Trim(old(userAnswer)) != [] && old(currentQuestion).None? ==>
        outcome == Rejected && stats == old(stats) && Session() == old(Session())
      ensures Trim(old(userAnswer)) != [] && old(currentQuestion).Some? ==>
        var q := old(currentQuestion).value;
        var correct := CheckAnswer(q, old(userAnswer));
        && outcome == Judged(correct)
        && stats == Record(old(stats), q.id, correct)
        && Session() == old(Session()).(showFeedback := true, isCorrect := correct,
                                         answered := old(answeredQuestions) + [q.id])
    {
      if Trim(userAnswer) == [] {
        return Ignored;
      }
      if currentQuestion.None? {
        return Rejected;
      }
      var q := currentQuestion.value;
      var correct := CheckAnswer(q, userAnswer);
      ShowVerdict(q.id, correct);
      outcome := Judged(correct);
    }

    /** The judged branch of `handleSubmitAnswer`: feedback, history and stats. */
    method ShowVerdict(id: int, correct: bool)
      requires Valid()
      modifies this
      ensures Valid()
      ensures stats == Record(old(stats), id, correct)
      ensures Session() == old(Session()).(showFeedback := true, isCorrect := correct,
                                           answered := old(answeredQuestions) + [id])
    {
      isCorrect := correct;
      showFeedback := true;
      answeredQuestions := answeredQuestions + [id];
      stats := Record(stats, id, correct);
    }

    /** `handleSimilarQuestion`: selects again, narrowed to the current question's topic.
        Without a current question the source throws before changing anything. */
    method HandleSimilarQuestion(rand: real) returns (ok: bool)
      requires Valid() && 0.0 <= rand < 1.0
      modifies this
      ensures Valid() && stats == old(stats)
      ensures ok <==> old(currentQuestion).Some?
      ensures !ok ==> Session() == old(Session())
      ensures ok ==>
        var p := Select(bank, old(answeredQuestions), currentMode, stats.reviewLater,
                        Some(old(currentQuestion).value.topic), rand);
        Session() == old(Session()).(question := Some(p.question), userAnswer := "", showFeedback := false,
                                     answered := if p.historyCleared then [] else old(answeredQuestions))
    {
      if currentQuestion.None? {
        return false;
      }
      SelectNewQuestion(Some(currentQuestion.value.topic), rand);
      ok := true;
    }

    /** `handleNextQuestion`: selects again without a topic. */
    method HandleNextQuestion(rand: real)
      requires Valid() && 0.0 <= rand < 1.0
      modifies this
      ensures Valid() && stats == old(stats)
      ensures var p := Select(bank, old(answeredQuestions), currentMode, stats.reviewLater, None, rand);
        Session() == old(Session()).(question := Some(p.question), userAnswer := "", showFeedback := false,
                                     answered := if p.historyCleared then [] else old(answeredQuestions))
    {
      SelectNewQuestion(None, rand);
    }
  }

  /** A session over a one-question bank, using only the handlers' contracts: a visit
      on the next day, a correct answer, and the history reset once the bank is used up. */
  method Walkthrough(q: Question, today: int)
    requires Trim(q.correctAnswer) != []
  {
    var t := new Trainer([q], InitialStats(today));
    t.CheckStreak(today + 1);
    assert t.stats.currentStreak == 2 && t.stats.totalDaysVisited == 2;

    SingleQuestionBank(q, [], t.stats.reviewLater, None, 0.0);
    t.StartTraining(0.0);
    assert t.currentQuestion == Some(q) && t.currentScreen == "training" && t.answeredQuestions == [];

    t.TypeAnswer(q.correctAnswer);
    AcceptsCorrectAnswer(q);
    var outcome := t.HandleSubmitAnswer();
    assert outcome == Judged(true) && t.showFeedback && t.isCorrect;
    assert t.answeredQuestions == [] + [q.id] && q.id in t.answeredQuestions;
    assert t.stats.correctAnswers == 1;
    assert q.id !in t.stats.reviewLater;

    SingleQuestionBank(q, t.answeredQuestions, t.stats.reviewLater, None, 0.0);
    t.HandleNextQuestion(0.0);
    assert t.answeredQuestions == [] && t.currentQuestion == Some(q) && !t.showFeedback;
  }
}
