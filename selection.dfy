/**
 * The pure part of `selectNewQuestion`: the filter chain that builds the candidate
 * list, the fall-back to the whole bank, and the random pick. `Math.random()` is the
 * parameter `rand`, a number in [0, 1).
 */
module Selection {
  import opened Wrappers
  import opened JsArrays
  import opened QuestionBank

  /** Questions whose id is not in the answered history. */
  function Unanswered(bank: seq<Question>, answered: seq<int>): (r: seq<Question>)
    ensures |r| <= |bank|
    ensures forall q :: q in r <==> q in bank && q.id !in answered
  {
    Filter(bank, (q: Question) => q.id !in answered)
  }

  /** The mode step. Only the literal modes "easy", "advanced" and "review" filter;
      "review" starts again from the whole bank, ignoring the history. */
  function ModeFiltered(bank: seq<Question>, answered: seq<int>, mode: string, reviewLater: seq<int>): (r: seq<Question>)
    ensures forall q :: q in r ==> q in bank
    ensures mode == "review" ==> forall q :: q in r ==> q.id in reviewLater
    ensures mode != "review" ==> forall q :: q in r ==> q.id !in answered
  {
    var available := Unanswered(bank, answered);
    if mode == "easy" then Filter(available, (q: Question) => q.difficulty == "easy")
    else if mode == "advanced" then Filter(available, (q: Question) => q.difficulty == "advanced")
    else if mode == "review" then Filter(bank, (q: Question) => q.id in reviewLater)
    else available
  }

  /** JavaScript truthiness of the optional `similarTopic` argument. */
  predicate HasTopic(similarTopic: Option<string>) {
    similarTopic.Some? && similarTopic.value != ""
  }

  /** The topic step: narrow to the requested topic unless that leaves nothing. */
  function Narrowed(available: seq<Question>, similarTopic: Option<string>): (r: seq<Question>)
    ensures forall q :: q in r ==> q in available
    ensures r == [] <==> available == []
  {
    if HasTopic(similarTopic) then
      var topicQuestions := Filter(available, (q: Question) => q.topic == similarTopic.value);
      if |topicQuestions| > 0 then topicQuestions else available
    else available
  }

  /** `availableQuestions` just before the emptiness test. */
  function Available(bank: seq<Question>, answered: seq<int>, mode: string, reviewLater: seq<int>,
                     similarTopic: Option<string>): (r: seq<Question>)
    ensures forall q :: q in r ==> q in bank
    ensures r == [] <==> ModeFiltered(bank, answered, mode, reviewLater) == []
  {
    Narrowed(ModeFiltered(bank, answered, mode, reviewLater), similarTopic)
  }

  /** `Math.floor(rand * n)`: an index into a list of `n` elements. */
  function PickIndex(rand: real, n: nat): (i: nat)
    requires 0.0 <= rand < 1.0 && n > 0
    ensures i < n
  {
    var x := rand * n as real;
    assert 0.0 <= x < n as real;
    x.Floor
  }

  /** Each index is chosen by exactly the numbers in [i/n, (i+1)/n): the pick is uniform. */
  lemma PickIndexUniform(rand: real, n: nat, i: nat)
    requires 0.0 <= rand < 1.0 && n > 0
    ensures PickIndex(rand, n) == i <==> (i as real) / (n as real) <= rand < ((i + 1) as real) / (n as real)
  {
    ScaledBound(i as real, n as real, rand);
    ScaledBound((i + 1) as real, n as real, rand);
  }

  /** Dividing by a positive `n` and comparing is comparing after multiplying by `n`. */
  lemma ScaledBound(a: real, n: real, r: real)
    requires n > 0.0
    ensures a / n <= r <==> a <= r * n
    ensures r < a / n <==> r * n < a
  {
    var q := a / n;
    assert q * n == a;
    var d := r - q;
    assert d * n == r * n - a;
    if d > 0.0 {
      assert d * n > 0.0;
    } else if d < 0.0 {
      assert (-d) * n > 0.0;
    } else {
      assert d * n == 0.0;
    }
  }

  /** The number `i/n` picks index `i`. */
  lemma PickIndexAt(i: nat, n: nat)
    requires i < n
    ensures 0.0 <= (i as real) / (n as real) < 1.0
    ensures PickIndex((i as real) / (n as real), n) == i
  {
    var rand := (i as real) / (n as real);
    assert rand * (n as real) == i as real;
  }

  /** The outcome of a selection. `historyCleared` reports that nothing was left and the
      answered history was reset. */
  datatype Pick = Pick(question: Question, historyCleared: bool)

  /** `selectNewQuestion(similarTopic)` as a value. */
  function Select(bank: seq<Question>, answered: seq<int>, mode: string, reviewLater: seq<int>,
                  similarTopic: Option<string>, rand: real): (p: Pick)
    requires |bank| > 0 && 0.0 <= rand < 1.0
    ensures p.question in bank
    ensures p.historyCleared <==> Available(bank, answered, mode, reviewLater, similarTopic) == []
    ensures !p.historyCleared ==> p.question in Available(bank, answered, mode, reviewLater, similarTopic)
  {
    var available := Available(bank, answered, mode, reviewLater, similarTopic);
    var candidates := if |available| == 0 then bank else available;
    Pick(candidates[PickIndex(rand, |candidates|)], |available| == 0)
  }

  /** What each mode admits. */
  lemma ModeFilterMembership(bank: seq<Question>, answered: seq<int>, mode: string, reviewLater: seq<int>, q: Question)
    ensures q in ModeFiltered(bank, answered, mode, reviewLater) <==>
      && q in bank
      && (if mode == "review" then q.id in reviewLater
          else
            && q.id !in answered
            && (mode == "easy" ==> q.difficulty == "easy")
            && (mode == "advanced" ==> q.difficulty == "advanced"))
  {
  }

  /** The topic narrowing keeps exactly the questions of that topic when there are any,
      and otherwise leaves the candidates alone. */
  lemma TopicNarrowing(available: seq<Question>, similarTopic: Option<string>)
    ensures !HasTopic(similarTopic) ==> Narrowed(available, similarTopic) == available
    ensures HasTopic(similarTopic) ==>
      if exists q :: q in available && q.topic == similarTopic.value then
        forall q :: q in Narrowed(available, similarTopic) <==> q in available && q.topic == similarTopic.value
      else Narrowed(available, similarTopic) == available
  {
    if HasTopic(similarTopic) {
      var topicQuestions := Filter(available, (q: Question) => q.topic == similarTopic.value);
      if exists q :: q in available && q.topic == similarTopic.value {
        var q :| q in available && q.topic == similarTopic.value;
        assert q in topicQuestions;
      } else {
        FilterNone(available, (q: Question) => q.topic == similarTopic.value);
      }
    }
  }

  /** In "easy" and "advanced" mode, while an unanswered question of that difficulty is
      left, the pick has the difficulty and has not been answered. */
  lemma DifficultyModePick(bank: seq<Question>, answered: seq<int>, mode: string, reviewLater: seq<int>,
                           similarTopic: Option<string>, rand: real)
    requires |bank| > 0 && 0.0 <= rand < 1.0
    requires mode == "easy" || mode == "advanced"
    requires exists q :: q in bank && q.id !in answered && q.difficulty == mode
    ensures var p := Select(bank, answered, mode, reviewLater, similarTopic, rand);
      && !p.historyCleared
      && p.question.difficulty == mode
      && p.question.id !in answered
  {
    var q :| q in bank && q.id !in answered && q.difficulty == mode;
    ModeFilterMembership(bank, answered, mode, reviewLater, q);
    var m := ModeFiltered(bank, answered, mode, reviewLater);
    TopicNarrowing(m, similarTopic);
    assert Available(bank, answered, mode, reviewLater, similarTopic) != [] by {
      if HasTopic(similarTopic) && exists q' :: q' in m && q'.topic == similarTopic.value {
        var q' :| q' in m && q'.topic == similarTopic.value;
        assert q' in Available(bank, answered, mode, reviewLater, similarTopic);
      } else {
        assert q in Available(bank, answered, mode, reviewLater, similarTopic);
      }
    }
    var p := Select(bank, answered, mode, reviewLater, similarTopic, rand);
    ModeFilterMembership(bank, answered, mode, reviewLater, p.question);
  }

  /** In the literal "review" mode the pick comes from the review list whenever one of its
      ids is in the bank, and the answered history plays no part. */
  lemma ReviewModePick(bank: seq<Question>, answered: seq<int>, other: seq<int>, reviewLater: seq<int>,
                       similarTopic: Option<string>, rand: real)
    requires |bank| > 0 && 0.0 <= rand < 1.0
    requires exists q :: q in bank && q.id in reviewLater
    ensures var p := Select(bank, answered, "review", reviewLater, similarTopic, rand);
      && !p.historyCleared
      && p.question.id in reviewLater
      && p == Select(bank, other, "review", reviewLater, similarTopic, rand)
  {
    var q :| q in bank && q.id in reviewLater;
    var m := ModeFiltered(bank, answered, "review", reviewLater);
    assert q in m;
    TopicNarrowing(m, similarTopic);
    assert Available(bank, answered, "review", reviewLater, similarTopic) != [] by {
      if HasTopic(similarTopic) && exists q' :: q' in m && q'.topic == similarTopic.value {
        var q' :| q' in m && q'.topic == similarTopic.value;
        assert q' in Available(bank, answered, "review", reviewLater, similarTopic);
      } else {
        assert q in Available(bank, answered, "review", reviewLater, similarTopic);
      }
    }
  }

  /** Any mode string other than the three literals the code compares (for instance the "reviewlater"
      and "mostimportant" the sidebar offers) only excludes answered questions. */
  lemma OtherModesIgnoreFilters(bank: seq<Question>, answered: seq<int>, mode: string, reviewLater: seq<int>)
    requires mode != "easy" && mode != "advanced" && mode != "review"
    ensures ModeFiltered(bank, answered, mode, reviewLater) == Unanswered(bank, answered)
    ensures forall q :: q in ModeFiltered(bank, answered, mode, reviewLater) <==> q in bank && q.id !in answered
  {
  }

  /** With nothing left, the whole bank (not the mode's subset) becomes the candidate
      list: every bank question can be picked, and the history is reset. */
  lemma ExhaustedFallsBackToBank(bank: seq<Question>, answered: seq<int>, mode: string, reviewLater: seq<int>,
                                 similarTopic: Option<string>, k: nat)
    requires k < |bank|
    requires Available(bank, answered, mode, reviewLater, similarTopic) == []
    ensures var rand := (k as real) / (|bank| as real);
      && 0.0 <= rand < 1.0
      && Select(bank, answered, mode, reviewLater, similarTopic, rand) == Pick(bank[k], true)
  {
    PickIndexAt(k, |bank|);
  }

  /** While candidates remain, every one of them can be picked: `rand = k/n` serves the
      `k`-th candidate, and the history is kept. */
  lemma CandidateIsPicked(bank: seq<Question>, answered: seq<int>, mode: string, reviewLater: seq<int>,
                          similarTopic: Option<string>, k: nat)
    requires |bank| > 0 && k < |Available(bank, answered, mode, reviewLater, similarTopic)|
    ensures var a := Available(bank, answered, mode, reviewLater, similarTopic);
      var rand := (k as real) / (|a| as real);
      && 0.0 <= rand < 1.0
      && Select(bank, answered, mode, reviewLater, similarTopic, rand) == Pick(a[k], false)
  {
    PickIndexAt(k, |Available(bank, answered, mode, reviewLater, similarTopic)|);
  }

  /** In the literal "review" mode an empty review list exhausts the candidates. */
  lemma EmptyReviewListFallsBack(bank: seq<Question>, answered: seq<int>, similarTopic: Option<string>, rand: real)
    requires |bank| > 0 && 0.0 <= rand < 1.0
    ensures Select(bank, answered, "review", [], similarTopic, rand).historyCleared
  {
    FilterNone(bank, (q: Question) => q.id in []);
  }

  /** A one-question bank in "random" mode always serves its question; the history is
      reset exactly when that question has already been answered. */
  lemma SingleQuestionBank(q: Question, answered: seq<int>, reviewLater: seq<int>,
                           similarTopic: Option<string>, rand: real)
    requires 0.0 <= rand < 1.0
    ensures Select([q], answered, "random", reviewLater, similarTopic, rand) == Pick(q, q.id in answered)
  {
    var unanswered := (x: Question) => x.id !in answered;
    if q.id in answered {
      FilterNone([q], unanswered);
    } else {
      FilterAll([q], unanswered);
      TopicNarrowing([q], similarTopic);
    }
  }

  /** Over a bank of one easy and one advanced question with nothing answered, "easy"
      mode picks the easy question whatever `rand` is. */
  lemma TwoQuestionEasyExample(easy: Question, hard: Question, reviewLater: seq<int>, rand: real)
    requires easy.difficulty == "easy" && hard.difficulty == "advanced"
    requires 0.0 <= rand < 1.0
    ensures Select([easy, hard], [], "easy", reviewLater, None, rand) == Pick(easy, false)
  {
    var isEasy := (q: Question) => q.difficulty == "easy";
    FilterAll([easy, hard], (q: Question) => q.id !in []);
    assert [easy, hard] == [easy] + [hard];
    FilterAppend([easy], [hard], isEasy);
    assert Filter([easy], isEasy) == [easy];
    assert Filter([hard], isEasy) == [];
  }

  /** On the shipped bank with an empty history, "easy" mode picks question 1 or 3. */
  lemma EasyModeOnBank(reviewLater: seq<int>, similarTopic: Option<string>, rand: real)
    requires 0.0 <= rand < 1.0
    ensures var p := Select(Bank, [], "easy", reviewLater, similarTopic, rand);
      !p.historyCleared && (p.question.id == 1 || p.question.id == 3)
  {
    assert Variables in Bank;
    DifficultyModePick(Bank, [], "easy", reviewLater, similarTopic, rand);
  }

  /** On the shipped bank with an empty history, "advanced" mode picks question 2. */
  lemma AdvancedModeOnBank(reviewLater: seq<int>, similarTopic: Option<string>, rand: real)
    requires 0.0 <= rand < 1.0
    ensures var p := Select(Bank, [], "advanced", reviewLater, similarTopic, rand);
      !p.historyCleared && p.question == Closures && p.question.id == 2
  {
    assert ShapedLikeBank(Variables, Closures, Hooks);
    AdvancedModePickShaped(Variables, Closures, Hooks, reviewLater, similarTopic, rand);
  }

  /** On a bank shaped like the shipped one, "advanced" mode with an empty history serves
      its only advanced entry. */
  lemma AdvancedModePickShaped(v: Question, c: Question, h: Question, reviewLater: seq<int>,
                               similarTopic: Option<string>, rand: real)
    requires ShapedLikeBank(v, c, h) && 0.0 <= rand < 1.0
    ensures var p := Select([v, c, h], [], "advanced", reviewLater, similarTopic, rand);
      !p.historyCleared && p.question == c
  {
    assert c in [v, c, h];
    DifficultyModePick([v, c, h], [], "advanced", reviewLater, similarTopic, rand);
  }

  /** The sidebar's "reviewlater" mode does not consult the review list: with only
      question 2 flagged, `rand = 0` still serves question 1. */
  lemma ReviewLaterModeOnBank()
    ensures Select(Bank, [], "reviewlater", [2], None, 0.0).question.id == 1
  {
    FilterAll(Bank, (q: Question) => q.id !in []);
  }

  /** When topics are unique, asking for the topic of question `q` narrows a duplicate-free
      candidate list drawn from the bank to `q` alone if `q` is among the candidates, and
      drops the narrowing otherwise. */
  lemma UniqueTopicNarrowing(bank: seq<Question>, available: seq<Question>, q: Question)
    requires UniqueTopics(bank) && q in bank && q.topic != ""
    requires NoDuplicates(available) && forall x :: x in available ==> x in bank
    ensures q in available ==> Narrowed(available, Some(q.topic)) == [q]
    ensures q !in available ==> Narrowed(available, Some(q.topic)) == available
  {
    var sameTopic := (x: Question) => x.topic == q.topic;
    forall x | x in available && sameTopic(x) ensures x == q {
      TopicDeterminesEntry(bank, x, q);
    }
    if q in available {
      FilterSingle(available, sameTopic, q);
    } else {
      FilterNone(available, sameTopic);
    }
  }

  /** On the shipped bank each topic belongs to one question, so a similar-question request
      after question `q` serves `q` again when the mode still admits it, and otherwise
      ignores the topic. */
  lemma SimilarTopicOnBank(q: Question, answered: seq<int>, mode: string, reviewLater: seq<int>)
    requires q in Bank
    ensures var m := ModeFiltered(Bank, answered, mode, reviewLater);
      && (q in m ==> Available(Bank, answered, mode, reviewLater, Some(q.topic)) == [q])
      && (q !in m ==> Available(Bank, answered, mode, reviewLater, Some(q.topic)) == m)
      && (mode == "random" && q.id !in answered ==> q in m)
  {
    BankInvariants();
    assert q.topic != "";
    SimilarTopicPick(Bank, q, answered, mode, reviewLater);
  }

  /** On any duplicate-free bank with unique topics, a request for the topic of entry `q`
      serves `q` alone when the mode step admits it, and otherwise ignores the topic. */
  lemma SimilarTopicPick(bank: seq<Question>, q: Question, answered: seq<int>, mode: string, reviewLater: seq<int>)
    requires UniqueTopics(bank) && NoDuplicates(bank) && q in bank && q.topic != ""
    ensures var m := ModeFiltered(bank, answered, mode, reviewLater);
      && (q in m ==> Available(bank, answered, mode, reviewLater, Some(q.topic)) == [q])
      && (q !in m ==> Available(bank, answered, mode, reviewLater, Some(q.topic)) == m)
      && (mode == "random" && q.id !in answered ==> q in m)
  {
    var u := Unanswered(bank, answered);
    FilterKeepsNoDuplicates(bank, (x: Question) => x.id !in answered);
    FilterKeepsNoDuplicates(u, (x: Question) => x.difficulty == "easy");
    FilterKeepsNoDuplicates(u, (x: Question) => x.difficulty == "advanced");
    FilterKeepsNoDuplicates(bank, (x: Question) => x.id in reviewLater);
    var m := ModeFiltered(bank, answered, mode, reviewLater);
    UniqueTopicNarrowing(bank, m, q);
  }

  /** A bank shaped like the shipped one: ids 1, 2, 3, the middle entry advanced and the
      others easy. */
  predicate ShapedLikeBank(v: Question, c: Question, h: Question) {
    && v.id == 1 && c.id == 2 && h.id == 3
    && v.difficulty == "easy" && c.difficulty == "advanced" && h.difficulty == "easy"
  }

  /** With nothing answered, "easy" mode offers the two easy entries in bank order. */
  lemma EasyCandidatesFresh(v: Question, c: Question, h: Question, reviewLater: seq<int>)
    requires ShapedLikeBank(v, c, h)
    ensures ModeFiltered([v, c, h], [], "easy", reviewLater) == [v, h]
  {
    var isEasy := (q: Question) => q.difficulty == "easy";
    FilterAll([v, c, h], (q: Question) => q.id !in []);
    assert [v, c, h] == [v] + [c] + [h];
    FilterAppend([v] + [c], [h], isEasy);
    FilterAppend([v], [c], isEasy);
    assert Filter([v], isEasy) == [v] && Filter([c], isEasy) == [] && Filter([h], isEasy) == [h];
  }

  /** Once question 1 is answered, "easy" mode offers only question 3. */
  lemma EasyCandidatesAfterFirst(v: Question, c: Question, h: Question, reviewLater: seq<int>)
    requires ShapedLikeBank(v, c, h)
    ensures ModeFiltered([v, c, h], [1], "easy", reviewLater) == [h]
  {
    var bank := [v, c, h];
    var u := Unanswered(bank, [1]);
    var isEasy := (q: Question) => q.difficulty == "easy";
    assert NoDuplicates(bank);
    FilterKeepsNoDuplicates(bank, (q: Question) => q.id !in [1]);
    assert h in u;
    FilterSingle(u, isEasy, h);
  }

  /** Once questions 1 and 3 are answered, "easy" mode has no candidate left. */
  lemma EasyCandidatesAfterBoth(v: Question, c: Question, h: Question, reviewLater: seq<int>)
    requires ShapedLikeBank(v, c, h)
    ensures ModeFiltered([v, c, h], [1, 3], "easy", reviewLater) == []
  {
    FilterNone(Unanswered([v, c, h], [1, 3]), (q: Question) => q.difficulty == "easy");
  }

  /** The "easy" candidates on the shipped bank as the questions get answered. */
  lemma EasyCandidatesOnBank(reviewLater: seq<int>)
    ensures ModeFiltered(Bank, [], "easy", reviewLater) == [Variables, Hooks]
    ensures ModeFiltered(Bank, [1], "easy", reviewLater) == [Hooks]
    ensures ModeFiltered(Bank, [1, 3], "easy", reviewLater) == []
  {
    EasyCandidatesFresh(Variables, Closures, Hooks, reviewLater);
    EasyCandidatesAfterFirst(Variables, Closures, Hooks, reviewLater);
    EasyCandidatesAfterBoth(Variables, Closures, Hooks, reviewLater);
  }

  /** With `rand = 0` in "easy" mode: question 1 first, question 3 once 1 is answered
      (also when asking for question 1's topic), and the whole bank again after both. */
  lemma EasySequenceOnBank(reviewLater: seq<int>)
    ensures Select(Bank, [], "easy", reviewLater, None, 0.0) == Pick(Variables, false)
    ensures Select(Bank, [1], "easy", reviewLater, Some("variables"), 0.0) == Pick(Hooks, false)
    ensures Select(Bank, [1, 3], "easy", reviewLater, None, 0.0) == Pick(Variables, true)
  {
    BankInvariants();
    assert ShapedLikeBank(Variables, Closures, Hooks) && Variables.topic == "variables";
    EasySequenceShaped(Variables, Closures, Hooks, reviewLater);
  }

  /** The same sequence on any bank shaped like the shipped one with unique topics. */
  lemma EasySequenceShaped(v: Question, c: Question, h: Question, reviewLater: seq<int>)
    requires ShapedLikeBank(v, c, h) && UniqueTopics([v, c, h]) && v.topic != ""
    ensures Select([v, c, h], [], "easy", reviewLater, None, 0.0) == Pick(v, false)
    ensures Select([v, c, h], [1], "easy", reviewLater, Some(v.topic), 0.0) == Pick(h, false)
    ensures Select([v, c, h], [1, 3], "easy", reviewLater, None, 0.0) == Pick(v, true)
  {
    EasyCandidatesFresh(v, c, h, reviewLater);
    EasyCandidatesAfterFirst(v, c, h, reviewLater);
    EasyCandidatesAfterBoth(v, c, h, reviewLater);
    assert PickIndex(0.0, 2) == 0 && PickIndex(0.0, 1) == 0 && PickIndex(0.0, 3) == 0;
    assert NoDuplicates([v, c, h]);
    SimilarTopicPick([v, c, h], v, [1], "easy", reviewLater);
  }
}
