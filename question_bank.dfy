/** The static question bank (`questionBank`) and the invariants its entries satisfy. */
module QuestionBank {
  import opened Wrappers
  import opened JsArrays

  /** One entry of the bank. `qtype` and `difficulty` are the raw strings the
      engine compares; absent optional fields are `None`. */
  datatype Question = Question(
    id: int,
    qtype: string,
    difficulty: string,
    category: string,
    topic: string,
    question: string,
    codeSnippet: Option<string>,
    options: Option<seq<string>>,
    correctAnswer: string,
    explanation: string,
    analogy: string,
    teachingTip: string)

  const Variables := Question(
    1, "multipleChoice", "easy", "javascript", "variables",
    "What keyword declares a block-scoped variable that can be reassigned?",
    None,
    Some(["var", "let", "const", "function"]),
    "let",
    "The 'let' keyword declares a block-scoped variable that can be reassigned, unlike 'const' which cannot be reassigned.",
    "Think of 'let' like a labeled box where you can change what's inside, while 'const' is like a sealed container.",
    "Show students how 'let' prevents the common 'var' pitfalls in loops and helps avoid accidental global variables.")

  const Closures := Question(
    2, "multipleChoice", "advanced", "javascript", "closures",
    "What will this code output?",
    Some("for (var i = 0; i < 3; i++) {\n  setTimeout(() => console.log(i), 100);\n}"),
    Some(["0 1 2", "3 3 3", "undefined undefined undefined", "Error"]),
    "3 3 3",
    "Because 'var' is function-scoped, all three setTimeout callbacks share the same 'i' variable. By the time they execute, the loop has finished and i equals 3.",
    "It's like three people taking photos of the same whiteboard - they all capture it at the same moment after someone has finished writing '3' on it.",
    "Use this example to demonstrate why 'let' is preferred in loops - it creates a new binding for each iteration.")

  const Hooks := Question(
    3, "codeCompletion", "easy", "react", "hooks",
    "Complete this React Hook to manage state:",
    Some("const [count, setCount] = ________(0);"),
    None,
    "useState",
    "useState is the fundamental React Hook for adding state to functional components.",
    "useState is like giving your component a memory - it remembers values between re-renders.",
    "Always emphasize that hooks must be called at the top level of the component, not inside conditions or loops.")

  /** `questionBank`, in source order. */
  const Bank: seq<Question> := [Variables, Closures, Hooks]

  predicate UniqueIds(bank: seq<Question>) {
    forall i, j :: 0 <= i < j < |bank| ==> bank[i].id != bank[j].id
  }

  predicate UniqueTopics(bank: seq<Question>) {
    forall i, j :: 0 <= i < j < |bank| ==> bank[i].topic != bank[j].topic
  }

  /** A multiple-choice entry lists its options and the correct answer is one of them;
      a code-completion entry has no options. */
  predicate OptionsFitType(q: Question) {
    && (q.qtype == "multipleChoice" ==>
          q.options.Some? && |q.options.value| > 0 && q.correctAnswer in q.options.value)
    && (q.qtype == "codeCompletion" ==> q.options.None?)
  }

  predicate KnownDifficulty(q: Question) {
    q.difficulty == "easy" || q.difficulty == "advanced"
  }

  lemma BankInvariants()
    ensures |Bank| > 0
    ensures UniqueIds(Bank) && UniqueTopics(Bank) && NoDuplicates(Bank)
    ensures forall q :: q in Bank ==> OptionsFitType(q) && KnownDifficulty(q)
    ensures forall q :: q in Bank && q.qtype == "codeCompletion" ==> q.id == 3
  {
  }

  /** With unique topics, a topic names at most one entry. */
  lemma TopicDeterminesEntry(bank: seq<Question>, p: Question, q: Question)
    requires UniqueTopics(bank)
    requires p in bank && q in bank && p.topic == q.topic
    ensures p == q
  {
    var i :| 0 <= i < |bank| && bank[i] == p;
    var j :| 0 <= j < |bank| && bank[j] == q;
    assert !(i < j) && !(j < i);
  }
}
