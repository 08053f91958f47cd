/**
 * The learner's progress record (`stats`) and the two pure updaters the app hands to
 * `setStats`: the day-rollover on mount and the bookkeeping of a submitted answer.
 * Dates are day numbers; "yesterday" is `today - 1`.
 */
module Progress {
  import opened Wrappers
  import opened JsArrays

  datatype Stats = Stats(
    totalDaysVisited: int,
    currentStreak: int,
    lastVisitDate: int,
    questionsAnsweredToday: int,
    totalQuestionsAnswered: int,
    correctAnswers: int,
    incorrectAnswers: int,
    reviewLater: seq<int>)

  /** The invariant every update keeps: the streak is a run of the visited days, today's
      count is part of the total, every answer is either correct or incorrect, and the
      review list holds each id once. */
  ghost predicate Consistent(s: Stats) {
    && 1 <= s.currentStreak <= s.totalDaysVisited
    && 0 <= s.questionsAnsweredToday <= s.totalQuestionsAnswered
    && s.correctAnswers >= 0 && s.incorrectAnswers >= 0
    && s.correctAnswers + s.incorrectAnswers == s.totalQuestionsAnswered
    && NoDuplicates(s.reviewLater)
  }

  /** The default record used when nothing has been stored yet. */
  function InitialStats(today: int): (s: Stats)
    ensures Consistent(s)
    ensures s.lastVisitDate == today && s.reviewLater == []
    ensures s.totalQuestionsAnswered == 0 && s.currentStreak == 1 && s.totalDaysVisited == 1
  {
    Stats(1, 1, today, 0, 0, 0, 0, [])
  }

  /** The mount effect's update: a new day counts one more visit, resets today's count
      and extends the streak only when the previous visit was yesterday. */
  function Rollover(s: Stats, today: int): (r: Stats)
    ensures r.lastVisitDate == today
    ensures r.totalQuestionsAnswered == s.totalQuestionsAnswered
    ensures r.correctAnswers == s.correctAnswers && r.incorrectAnswers == s.incorrectAnswers
    ensures r.reviewLater == s.reviewLater
    ensures Consistent(s) ==> Consistent(r)
  {
    if s.lastVisitDate == today then s
    else
      s.(totalDaysVisited := s.totalDaysVisited + 1,
         currentStreak := if s.lastVisitDate == today - 1 then s.currentStreak + 1 else 1,
         lastVisitDate := today,
         questionsAnsweredToday := 0)
  }

  /** The streak law: same day, nothing changes; yesterday, the streak grows by one;
      any other previous date, the streak restarts at one. */
  lemma StreakLaw(s: Stats, today: int)
    ensures s.lastVisitDate == today ==> Rollover(s, today) == s
    ensures s.lastVisitDate != today ==>
      var r := Rollover(s, today);
      && r.totalDaysVisited == s.totalDaysVisited + 1
      && r.questionsAnsweredToday == 0
      && r.currentStreak == (if s.lastVisitDate == today - 1 then s.currentStreak + 1 else 1)
  {
  }

  /** Running the rollover twice on one day changes the record only the first time. */
  lemma RolloverIdempotent(s: Stats, today: int)
    ensures Rollover(Rollover(s, today), today) == Rollover(s, today)
  {
  }

  /** Opening the app on `k` consecutive days, starting with `first`. */
  function VisitDaily(s: Stats, first: int, k: nat): Stats
    decreases k
  {
    if k == 0 then s else VisitDaily(Rollover(s, first), first + 1, k - 1)
  }

  /** Visiting on each of the `k` days after the last visit extends the streak by `k`. */
  lemma {:induction false} ConsecutiveVisits(s: Stats, k: nat)
    ensures var r := VisitDaily(s, s.lastVisitDate + 1, k);
      && r.currentStreak == s.currentStreak + k
      && r.totalDaysVisited == s.totalDaysVisited + k
      && r.lastVisitDate == s.lastVisitDate + k
      && (k > 0 ==> r.questionsAnsweredToday == 0)
    decreases k
  {
    if k > 0 {
      var s1 := Rollover(s, s.lastVisitDate + 1);
      assert s1.currentStreak == s.currentStreak + 1;
      ConsecutiveVisits(s1, k - 1);
    }
  }

  /** The `reviewLater` update: a correct answer filters the id out, an incorrect one
      adds it through a `Set`. */
  function UpdateReview(review: seq<int>, id: int, correct: bool): (r: seq<int>)
    ensures id in r <==> !correct
    ensures forall x :: x != id ==> (x in r <==> x in review)
    ensures NoDuplicates(review) ==> NoDuplicates(r)
    ensures !correct ==> NoDuplicates(r)
  {
    if correct then
      var r := Filter(review, x => x != id);
      assert NoDuplicates(review) ==> NoDuplicates(r) by {
        if NoDuplicates(review) {
          FilterKeepsNoDuplicates(review, x => x != id);
        }
      }
      r
    else Distinct(review + [id])
  }

  /** After a correct answer every other id stays, in the same relative order and
      with the same multiplicity. */
  lemma {:induction false} CorrectAnswerKeepsOthers(review: seq<int>, id: int)
    ensures IsSubsequence(UpdateReview(review, id, true), review)
    ensures multiset(UpdateReview(review, id, true)) == multiset(review)[id := 0]
    decreases |review|
  {
    FilterIsSubsequence(review, x => x != id);
    if review != [] {
      CorrectAnswerKeepsOthers(review[1..], id);
      assert review == [review[0]] + review[1..];
      assert multiset(review) == multiset{review[0]} + multiset(review[1..]);
    }
  }

  /** After an incorrect answer a duplicate-free list is kept as it is when it already
      holds the id, and gets the id appended otherwise. */
  lemma IncorrectAnswerAppends(review: seq<int>, id: int)
    requires NoDuplicates(review)
    ensures UpdateReview(review, id, false) == if id in review then review else review + [id]
  {
    DistinctAppend(review, id);
  }

  /** The update `handleSubmitAnswer` gives `setStats` for question `id`. */
  function Record(s: Stats, id: int, correct: bool): (r: Stats)
    ensures r.questionsAnsweredToday == s.questionsAnsweredToday + 1
    ensures r.totalQuestionsAnswered == s.totalQuestionsAnswered + 1
    ensures r.correctAnswers == s.correctAnswers + (if correct then 1 else 0)
    ensures r.incorrectAnswers == s.incorrectAnswers + (if correct then 0 else 1)
    ensures r.totalDaysVisited == s.totalDaysVisited && r.currentStreak == s.currentStreak
    ensures r.lastVisitDate == s.lastVisitDate
    ensures r.reviewLater == UpdateReview(s.reviewLater, id, correct)
    ensures Consistent(s) ==> Consistent(r)
  {
    s.(questionsAnsweredToday := s.questionsAnsweredToday + 1,
       totalQuestionsAnswered := s.totalQuestionsAnswered + 1,
       correctAnswers := if correct then s.correctAnswers + 1 else s.correctAnswers,
       incorrectAnswers := if correct then s.incorrectAnswers else s.incorrectAnswers + 1,
       reviewLater := UpdateReview(s.reviewLater, id, correct))
  }

  /** One judged answer. */
  datatype Verdict = Verdict(id: int, correct: bool)

  /** Recording a history of judged answers, oldest first. */
  function Replay(s: Stats, history: seq<Verdict>): Stats
  {
    if history == [] then s
    else
      var last := history[|history| - 1];
      Record(Replay(s, history[..|history| - 1]), last.id, last.correct)
  }

  /** The most recent verdict given on `id`, if any. */
  function LastVerdict(history: seq<Verdict>, id: int): Option<bool>
  {
    if history == [] then None
    else if history[|history| - 1].id == id then Some(history[|history| - 1].correct)
    else LastVerdict(history[..|history| - 1], id)
  }

  function CountCorrect(history: seq<Verdict>): nat
  {
    if history == [] then 0
    else CountCorrect(history[..|history| - 1]) + (if history[|history| - 1].correct then 1 else 0)
  }

  /** The review-list law: an id is on the list exactly when its most recent answer was
      wrong, or, if it was never answered, when it was on the list to begin with. */
  lemma {:induction false} ReviewQueueLaw(s: Stats, history: seq<Verdict>, id: int)
    ensures id in Replay(s, history).reviewLater <==>
      match LastVerdict(history, id)
      case None => id in s.reviewLater
      case Some(correct) => !correct
    decreases |history|
  {
    if history != [] {
      ReviewQueueLaw(s, history[..|history| - 1], id);
    }
  }

  /** Replaying answers counts every one of them, the correct ones separately, and keeps
      the record consistent. */
  lemma {:induction false} ReplayCounts(s: Stats, history: seq<Verdict>)
    ensures var r := Replay(s, history);
      && r.totalQuestionsAnswered == s.totalQuestionsAnswered + |history|
      && r.correctAnswers == s.correctAnswers + CountCorrect(history)
      && r.currentStreak == s.currentStreak && r.lastVisitDate == s.lastVisitDate
      && (Consistent(s) ==> Consistent(r))
    decreases |history|
  {
    if history != [] {
      ReplayCounts(s, history[..|history| - 1]);
    }
  }
}
