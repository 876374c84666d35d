/**
 * What the two task batteries (math and logic) share: the question record,
 * the request sent to the text generator, the per-question detail record,
 * the dictionary `run_task` returns, and the counting and scoring rules
 * that tie that dictionary's figures to its details.
 */
module Battery {
  import opened Wrappers

  datatype Difficulty = Easy | Medium

  /** One entry of a battery's fixed question table. */
  datatype Task = Task(id: nat, question: string, answer: string, difficulty: Difficulty)

  /**
   * One call of the generator: the prompt and the sampling parameters passed
   * through to it. The generator itself is an input of the runners, a total
   * function from requests to the list of generated texts (empty on failure).
   */
  datatype GenerateRequest = GenerateRequest(prompt: string, maxLength: nat, temperature: real, numReturnSequences: nat)

  /** One element of the `details` list `run_task` builds. */
  datatype Detail = Detail(
    taskId: nat,
    question: string,
    correctAnswer: string,
    modelResponse: string,
    extractedAnswer: string,
    isCorrect: bool,
    difficulty: Difficulty)

  /** The dictionary `run_task` returns. */
  datatype BatteryResult = BatteryResult(
    taskType: string,
    totalQuestions: nat,
    correctAnswers: nat,
    score: real,
    details: seq<Detail>)

  /**
   * The three keys of a task-result dictionary that the evaluator reads;
   * `None` stands for a key the dictionary does not have.
   */
  datatype TaskReport = TaskReport(score: Option<real>, correctAnswers: Option<int>, totalQuestions: Option<int>)

  /** The text recorded as the model's response when the generator returned nothing. */
  const NoResponse: string := "ERROR: No response generated"

  /** The prompt template both batteries use. */
  function Prompt(question: string): string {
    "Question: " + question + "\nAnswer:"
  }

  /** The request both runners send for a question: at most 50 tokens, temperature 0.3, one sequence. */
  function Request(task: Task): GenerateRequest {
    GenerateRequest(Prompt(task.question), 50, 0.3, 1)
  }

  /** The detail recorded for a question the generator produced nothing for. */
  function Unanswered(task: Task): Detail {
    Detail(task.id, task.question, task.answer, NoResponse, "", false, task.difficulty)
  }

  /** The detail recorded for a question answered by `response`. */
  function Answered(task: Task, response: string, extracted: string, isCorrect: bool): Detail {
    Detail(task.id, task.question, task.answer, response, extracted, isCorrect, task.difficulty)
  }

  /** The number of details marked correct. */
  function CountCorrect(details: seq<Detail>): nat {
    if details == [] then 0
    else CountCorrect(details[..|details| - 1]) + Credit(details[|details| - 1])
  }

  /** What one detail adds to the count: 1 when it is marked correct. */
  function Credit(d: Detail): nat {
    if d.isCorrect then 1 else 0
  }

  /** `(correct / total) * 100` */
  function Score(correct: nat, total: nat): real
    requires total > 0
  {
    (correct as real / total as real) * 100.0
  }

  /** The invariant every result of `run_task` satisfies. */
  ghost predicate Consistent(b: BatteryResult) {
    && b.totalQuestions == |b.details| > 0
    && b.correctAnswers == CountCorrect(b.details)
    && b.score == Score(b.correctAnswers, b.totalQuestions)
  }

  /** The result dictionary as the evaluator sees it: every key it reads is present. */
  function Report(b: BatteryResult): TaskReport {
    TaskReport(Some(b.score), Some(b.correctAnswers), Some(b.totalQuestions))
  }

  // ---- the prompt ----

  /** The question sits verbatim between the fixed header and trailer, so it can be read back from the prompt. */
  lemma PromptRecoversQuestion(question: string)
    ensures var p := Prompt(question);
      |p| == |question| + 18 && p[..10] == "Question: " && p[10..|p| - 8] == question && p[|p| - 8..] == "\nAnswer:"
  {
    var p := Prompt(question);
    assert p == "Question: " + question + "\nAnswer:";
    assert p[10..|p| - 8] == question;
  }

  /** Different questions get different prompts. */
  lemma PromptInjective(q1: string, q2: string)
    ensures Prompt(q1) == Prompt(q2) ==> q1 == q2
  {
    PromptRecoversQuestion(q1);
    PromptRecoversQuestion(q2);
  }

  // ---- counting and scoring ----

  /** Appending one detail adds one to the count exactly when that detail is correct. */
  lemma CountCorrectAppend(details: seq<Detail>, d: Detail)
    ensures CountCorrect(details + [d]) == CountCorrect(details) + Credit(d)
  {
    assert (details + [d])[..|details|] == details;
  }

  /** The count never exceeds the number of details, and reaches it exactly when every detail is correct. */
  lemma {:induction false} CountCorrectBounds(details: seq<Detail>)
    ensures CountCorrect(details) <= |details|
    ensures CountCorrect(details) == |details| <==> forall i :: 0 <= i < |details| ==> details[i].isCorrect
    ensures CountCorrect(details) == 0 <==> forall i :: 0 <= i < |details| ==> !details[i].isCorrect
  {
    if details != [] {
      var init := details[..|details| - 1];
      CountCorrectBounds(init);
      assert forall i :: 0 <= i < |init| ==> init[i] == details[i];
    }
  }

  /** A consistent result's score lies in [0, 100]. */
  lemma ScoreInRange(b: BatteryResult)
    requires Consistent(b)
    ensures 0.0 <= b.score <= 100.0
  {
    CountCorrectBounds(b.details);
    var c, n := b.correctAnswers as real, b.totalQuestions as real;
    assert c / n <= 1.0 by {
      assert c <= n;
    }
  }

  /** A consistent result scores 100 exactly when every answer was correct, and 0 exactly when none was. */
  lemma ScoreExtremes(b: BatteryResult)
    requires Consistent(b)
    ensures b.score == 100.0 <==> forall i :: 0 <= i < |b.details| ==> b.details[i].isCorrect
    ensures b.score == 0.0 <==> forall i :: 0 <= i < |b.details| ==> !b.details[i].isCorrect
  {
    CountCorrectBounds(b.details);
    RatioExtremes(b.correctAnswers as real, b.totalQuestions as real);
  }

  /** For `0 <= c <= n` and `n > 0`: `(c / n) * 100` is 100 exactly when `c == n`, and 0 exactly when `c == 0`. */
  lemma RatioExtremes(c: real, n: real)
    requires 0.0 <= c <= n && n > 0.0
    ensures (c / n) * 100.0 == 100.0 <==> c == n
    ensures (c / n) * 100.0 == 0.0 <==> c == 0.0
  {
    var ratio := c / n;
    assert ratio * n == c;
    if ratio * 100.0 == 100.0 {
      assert ratio == 1.0;
    }
    if ratio * 100.0 == 0.0 {
      assert ratio == 0.0;
    }
  }
}
