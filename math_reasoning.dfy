/**
 * The math battery: ten arithmetic questions, the extractor that takes the
 * last decimal number of the generated text, the judge that compares numbers
 * when both sides parse and falls back to text otherwise, and the runner.
 *
 * The regular expression `\b\d+\.?\d*\b` is modelled by a hand-written
 * scanner: `MatchEnd` gives where the backtracking engine's match starting at
 * a position ends, and `FindDecimals` walks the text as `re.findall` does.
 * Python's `float()` is modelled as exact parsing of a signed decimal numeral
 * into a `real`.
 */
module MathReasoning {
  import opened Wrappers
  import opened Text
  import opened Battery

  const TaskType: string := "math_reasoning"

  /** The fixed question table, in order. */
  const Tasks: seq<Task> := [
    Task(1, "What is 15 + 27?", "42", Easy),
    Task(2, "If you have 3 apples and buy 5 more, how many apples do you have in total?", "8", Easy),
    Task(3, "What is 12 * 3?", "36", Easy),
    Task(4, "If a book costs $15 and you have $50, how much money will you have left after buying the book?", "35", Medium),
    Task(5, "What is 100 - 47?", "53", Easy),
    Task(6, "If you divide 48 by 6, what do you get?", "8", Medium),
    Task(7, "A rectangle has a length of 8 and width of 5. What is its area?", "40", Medium),
    Task(8, "What is 7 + 8 + 5?", "20", Easy),
    Task(9, "If a train travels 60 miles in 2 hours, what is its speed in miles per hour?", "30", Medium),
    Task(10, "What is 25 * 4?", "100", Easy)
  ]

  // ---- the matches of `\b\d+\.?\d*\b` ----

  /**
   * Where the match of `\b\d+\.?\d*\b` that starts at `p` ends, or `None` if none starts there.
   * The engine takes the whole digit run, then prefers a dot with the longest digit run after it
   * that ends on a word boundary, then the dot alone (when a word character follows it), then
   * the digit run alone (when it ends on a word boundary). Shorter digit runs never end on a
   * boundary, so they add nothing.
   */
  function MatchEnd(text: string, p: nat): (e: Option<nat>)
    requires p < |text|
    ensures e.Some? ==> p < e.value <= |text|
  {
    if !IsDigit(text[p]) || (p > 0 && IsWordChar(text[p - 1])) then None
    else
      var q := DigitRunEnd(text, p);
      if q < |text| && text[q] == '.' then
        var r := DigitRunEnd(text, q + 1);
        if r > q + 1 && (r == |text| || !IsWordChar(text[r])) then Some(r)
        else if q + 1 < |text| && IsWordChar(text[q + 1]) then Some(q + 1)
        else Some(q)
      else if q == |text| || !IsWordChar(text[q]) then Some(q)
      else None
  }

  /** `re.findall(r'\b\d+\.?\d*\b', text[pos..])`: each match, left to right, scanning on from its end. */
  function FindDecimals(text: string, pos: nat): seq<string>
    requires pos <= |text|
    decreases |text| - pos
  {
    if pos == |text| then []
    else match MatchEnd(text, pos)
      case Some(e) => [text[pos..e]] + FindDecimals(text, e)
      case None => FindDecimals(text, pos + 1)
  }

  /** `s.rstrip('.')` */
  function RStripDots(s: string): (r: string)
    ensures |r| <= |s| && r == s[..|r|]
    ensures r == [] || r[|r| - 1] != '.'
    ensures forall i :: |r| <= i < |s| ==> s[i] == '.'
  {
    if s != [] && s[|s| - 1] == '.' then RStripDots(s[..|s| - 1]) else s
  }

  /** The answer extracted from `text`: the last match with its trailing dots removed, or "" when there is none. */
  function ExtractAnswer(text: string): string {
    var matches := FindDecimals(text, 0);
    if matches == [] then "" else RStripDots(matches[|matches| - 1])
  }

  // ---- `float()` ----

  /** The value of the numeral `whole.frac`. */
  function DecimalValue(whole: string, frac: string): real
    requires AllDigits(whole) && AllDigits(frac)
  {
    NumberValue(whole) as real + NumberValue(frac) as real / Pow10(|frac|) as real
  }

  /** An unsigned decimal numeral: digits, optionally a dot and more digits, with at least one digit in all. */
  function ParseUnsigned(s: string): Option<real> {
    var q := DigitRunEnd(s, 0);
    if q == |s| then
      if q > 0 then Some(NumberValue(s) as real) else None
    else if s[q] == '.' && DigitRunEnd(s, q + 1) == |s| && |s| > 1 then
      Some(DecimalValue(s[..q], s[q + 1..]))
    else None
  }

  /** `float(s)`: surrounding whitespace is ignored and one sign may precede the numeral; `None` stands for `ValueError`. */
  function ParseFloat(s: string): Option<real> {
    var t := Strip(s);
    if t != [] && (t[0] == '+' || t[0] == '-') then
      match ParseUnsigned(t[1..])
      case Some(v) => Some(if t[0] == '-' then -v else v)
      case None => None
    else ParseUnsigned(t)
  }

  // ---- the judge ----

  /** The comparison `evaluate_response` makes: numeric when both sides parse, otherwise lower-cased and trimmed text. */
  function Agrees(extracted: string, correct: string): bool {
    match (ParseFloat(extracted), ParseFloat(correct))
    case (Some(x), Some(y)) => x == y
    case _ => Normalize(extracted) == Normalize(correct)
  }

  /** `evaluate_response`: judge the answer extracted from `response`. */
  function EvaluateResponse(response: string, correct: string): bool {
    Agrees(ExtractAnswer(response), correct)
  }

  // ---- the runner ----

  /** The detail recorded for `task` when the generator returns `responses`: only the first response counts. */
  function Outcome(task: Task, responses: seq<string>): Detail {
    if responses == [] then Unanswered(task)
    else
      var response := responses[0];
      Answered(task, response, ExtractAnswer(response), EvaluateResponse(response, task.answer))
  }

  /** The loop body of `run_task` for one question: judge the first response, or record the sentinel. */
  method RunQuestion(task: Task, responses: seq<string>) returns (detail: Detail)
    ensures detail == Outcome(task, responses)
    ensures detail.taskId == task.id && detail.question == task.question && detail.correctAnswer == task.answer
    ensures detail.difficulty == task.difficulty
    ensures responses == [] ==> detail.modelResponse == NoResponse && detail.extractedAnswer == "" && !detail.isCorrect
    ensures responses != [] ==> detail.modelResponse == responses[0] && detail.extractedAnswer == ExtractAnswer(responses[0])
                                && detail.isCorrect == EvaluateResponse(responses[0], task.answer)
  {
    if |responses| > 0 {
      var response := responses[0];
      var isCorrect := EvaluateResponse(response, task.answer);
      detail := Answered(task, response, ExtractAnswer(response), isCorrect);
    } else {
      detail := Unanswered(task);
    }
  }

  /**
   * Runs the battery: one request per question, in table order; a question the generator
   * returns nothing for is recorded as wrong and the loop goes on.
   */
  method RunTask(generate: GenerateRequest -> seq<string>) returns (result: BatteryResult)
    ensures result.taskType == "math_reasoning"
    ensures result.totalQuestions == |Tasks| == |result.details|
    ensures forall i :: 0 <= i < |Tasks| ==> result.details[i] == Outcome(Tasks[i], generate(Request(Tasks[i])))
    ensures Consistent(result)
  {
    result := RunOver(Tasks, generate);
  }

  /** The loop of `run_task` over the question list `tasks`; the score divides by its length, so it must not be empty. */
  method RunOver(tasks: seq<Task>, generate: GenerateRequest -> seq<string>) returns (result: BatteryResult)
    requires |tasks| > 0
    ensures result.taskType == "math_reasoning"
    ensures result.totalQuestions == |tasks| == |result.details|
    ensures forall i :: 0 <= i < |tasks| ==> result.details[i] == Outcome(tasks[i], generate(Request(tasks[i])))
    ensures Consistent(result)
  {
    ghost var expected := seq(|tasks|, k requires 0 <= k < |tasks| => Outcome(tasks[k], generate(Request(tasks[k]))));
    var results: seq<Detail> := [];
    var correctCount: nat := 0;
    for i := 0 to |tasks|
      invariant results == expected[..i]
      invariant correctCount == CountCorrect(results)
    {
      var task := tasks[i];
      var responses := generate(Request(task));
      var detail := RunQuestion(task, responses);
      correctCount := correctCount + Credit(detail);
      CountCorrectAppend(results, detail);
      results := results + [detail];
      assert results == expected[..i + 1];
    }
    var score := (correctCount as real / |tasks| as real) * 100.0;
    result := BatteryResult(TaskType, |tasks|, correctCount, score, results);
  }

  // ---- shapes ----

  /** What a match looks like: a digit, more digits, then possibly a dot followed by digits. */
  ghost predicate DecimalToken(s: string) {
    && |s| > 0 && IsDigit(s[0])
    && (AllDigits(s) || exists i :: DotSplit(s, i))
  }

  /** `s` is digits, the dot at `i`, digits. */
  ghost predicate DotSplit(s: string, i: int) {
    0 < i < |s| && s[i] == '.' && AllDigits(s[..i]) && AllDigits(s[i + 1..])
  }

  /** A non-empty extracted answer: digits with at most one dot, beginning and ending with a digit. */
  ghost predicate Numeral(a: string) {
    && |a| > 0 && IsDigit(a[0]) && IsDigit(a[|a| - 1])
    && (AllDigits(a) || exists i :: 0 < i < |a| - 1 && a[i] == '.' && AllDigits(a[..i]) && AllDigits(a[i + 1..]))
  }

  /** A match starts exactly where a word-bounded digit run starts, and it always has the shape of a decimal token. */
  lemma MatchAt(text: string, p: nat)
    requires p < |text|
    ensures MatchEnd(text, p).Some? <==> NumberAt(text, p)
    ensures MatchEnd(text, p).Some? ==> DecimalToken(text[p..MatchEnd(text, p).value])
  {
    if MatchEnd(text, p).Some? {
      var e := MatchEnd(text, p).value;
      var q := DigitRunEnd(text, p);
      var s := text[p..e];
      assert text[p..q][0] == s[0];
      if e == q {
        assert s == text[p..q];
      } else {
        assert s[..q - p] == text[p..q];
        assert s[q - p] == '.';
        assert s[q - p + 1..] == text[q + 1..e];
        assert AllDigits(text[q + 1..e]) by {
          var r := DigitRunEnd(text, q + 1);
          assert text[q + 1..e] == text[q + 1..r][..e - (q + 1)];
        }
        assert DotSplit(s, q - p);
      }
    }
  }

  /** `\b` at position `i`: a word character on exactly one side of it, the ends of the text counting as non-word. */
  ghost predicate Boundary(text: string, i: nat)
    requires i <= |text|
  {
    (i > 0 && IsWordChar(text[i - 1])) != (i < |text| && IsWordChar(text[i]))
  }

  /** A decimal token starting at `p` ends inside the digit run at `p`, or after the dot that ends that run, inside the digit run after it. */
  lemma TokenEnd(text: string, p: nat, e: nat)
    requires p < e <= |text| && DecimalToken(text[p..e])
    ensures var q := DigitRunEnd(text, p);
      e <= q || (q < |text| && text[q] == '.' && q + 1 <= e <= DigitRunEnd(text, q + 1))
  {
    var s := text[p..e];
    if AllDigits(s) {
      DigitsTokenEnd(text, p, e);
    } else {
      var i :| DotSplit(s, i);
      DotTokenEnd(text, p, e, i);
    }
  }

  /** A run of digits starting at `p` ends within the digit run at `p`. */
  lemma {:induction false} DigitsTokenEnd(text: string, p: nat, e: nat)
    requires p <= e <= |text| && AllDigits(text[p..e])
    ensures e <= DigitRunEnd(text, p)
    decreases e - p
  {
    if p < e {
      assert IsDigit(text[p..e][0]);
      assert text[p + 1..e] == text[p..e][1..];
      DigitsTokenEnd(text, p + 1, e);
    }
  }

  /** Digits, a dot at `p + i`, digits: the dot ends the digit run at `p`, and the token ends within the run after it. */
  lemma DotTokenEnd(text: string, p: nat, e: nat, i: nat)
    requires p < e <= |text| && DotSplit(text[p..e], i)
    ensures DigitRunEnd(text, p) == p + i && text[p + i] == '.' && e <= DigitRunEnd(text, p + i + 1)
  {
    var d := p + i;
    assert text[p..e][..i] == text[p..d];
    assert text[p..e][i + 1..] == text[d + 1..e];
    assert text[d] == text[p..e][i];
    forall k | p <= k < d
      ensures IsDigit(text[k])
    {
      assert text[p..d][k - p] == text[k];
    }
    DigitRunEndIs(text, p, d);
    DigitsTokenEnd(text, d + 1, e);
  }

  /** A digit of a digit run. */
  lemma InRun(text: string, p: nat, k: nat)
    requires p <= |text| && p <= k < DigitRunEnd(text, p)
    ensures IsDigit(text[k])
  {
    assert text[p..DigitRunEnd(text, p)][k - p] == text[k];
  }

  /**
   * The match at `p` ends on a word boundary, and no longer decimal token starting at `p` does:
   * of the ends `\b\d+\.?\d*\b` can reach from `p`, the backtracking engine stops at the furthest.
   */
  lemma MatchIsLongest(text: string, p: nat)
    requires p < |text| && MatchEnd(text, p).Some?
    ensures Boundary(text, MatchEnd(text, p).value)
    ensures forall e :: MatchEnd(text, p).value < e <= |text| && DecimalToken(text[p..e]) ==> !Boundary(text, e)
  {
    MatchOnBoundary(text, p);
    forall e | MatchEnd(text, p).value < e <= |text| && DecimalToken(text[p..e])
      ensures !Boundary(text, e)
    {
      TokenEnd(text, p, e);
      NoLongerMatch(text, p, e);
    }
  }

  /** The match at `p` ends on a word boundary. */
  lemma MatchOnBoundary(text: string, p: nat)
    requires p < |text| && MatchEnd(text, p).Some?
    ensures Boundary(text, MatchEnd(text, p).value)
  {
    var q := DigitRunEnd(text, p);
    InRun(text, p, q - 1);
    if q < |text| && text[q] == '.' {
      var r := DigitRunEnd(text, q + 1);
      if r > q + 1 {
        InRun(text, q + 1, r - 1);
      }
    }
  }

  /**
   * A decimal token that starts at `p` and reaches past the match at `p` does not end on a word
   * boundary; the token is given by where it can end (TokenEnd).
   */
  lemma NoLongerMatch(text: string, p: nat, e: nat)
    requires p < |text| && MatchEnd(text, p).Some? && MatchEnd(text, p).value < e <= |text|
    requires var q := DigitRunEnd(text, p);
      e <= q || (q < |text| && text[q] == '.' && q + 1 <= e <= DigitRunEnd(text, q + 1))
    ensures !Boundary(text, e)
  {
    var q := DigitRunEnd(text, p);
    MatchEndFacts(text, p);
    var r := DigitRunEnd(text, q + 1);
    if e == q + 1 {
    } else if e < r {
      InRun(text, q + 1, e - 1);
      InRun(text, q + 1, e);
    } else {
      InRun(text, q + 1, r - 1);
    }
  }

  /**
   * Where the match at `p` can end relative to the digit run `q` at `p`: at `q` or after the dot
   * that ends it; it stops at the dot only when no word character follows, and it takes the digit
   * run after the dot whenever that run is non-empty and ends on a word boundary.
   */
  lemma MatchEndFacts(text: string, p: nat)
    requires p < |text| && MatchEnd(text, p).Some?
    ensures var q := DigitRunEnd(text, p); var m := MatchEnd(text, p).value;
      && q <= m
      && (q < m ==> q < |text| && text[q] == '.' && q + 1 <= m <= DigitRunEnd(text, q + 1))
      && (m == q && q < |text| && text[q] == '.' ==> q + 1 == |text| || !IsWordChar(text[q + 1]))
      && (q < |text| && text[q] == '.' ==> var r := DigitRunEnd(text, q + 1);
            r > q + 1 && (r == |text| || !IsWordChar(text[r])) ==> m == r)
  {
  }

  /**
   * A word-bounded digit run, a dot and a further digit run ending on a word boundary are matched
   * as one decimal, and the scan resumes after it.
   */
  lemma DecimalMatch(text: string, p: nat, q: nat, r: nat)
    requires p < q && q + 1 < r <= |text| && text[q] == '.'
    requires forall k :: p <= k < q ==> IsDigit(text[k])
    requires forall k :: q < k < r ==> IsDigit(text[k])
    requires p == 0 || !IsWordChar(text[p - 1])
    requires r == |text| || !IsWordChar(text[r])
    ensures MatchEnd(text, p) == Some(r)
    ensures FindDecimals(text, p) == [text[p..r]] + FindDecimals(text, r)
  {
    DigitRunEndIs(text, p, q);
    DigitRunEndIs(text, q + 1, r);
  }

  /** Every element `findall` returns is a decimal token. */
  lemma {:induction false} FindDecimalsTokens(text: string, pos: nat)
    requires pos <= |text|
    ensures forall k :: 0 <= k < |FindDecimals(text, pos)| ==> DecimalToken(FindDecimals(text, pos)[k])
    decreases |text| - pos
  {
    if pos < |text| {
      MatchAt(text, pos);
      match MatchEnd(text, pos)
      case Some(e) => FindDecimalsTokens(text, e);
      case None => FindDecimalsTokens(text, pos + 1);
    }
  }

  /** No word-bounded digit run starts at or after `pos`. */
  ghost predicate NoNumberFrom(text: string, pos: nat) {
    forall p :: pos <= p < |text| ==> !NumberAt(text, p)
  }

  /** A match starts at `p`, at or after `pos`, and no word-bounded digit run starts after it ends. */
  ghost predicate FinalMatch(text: string, pos: nat, p: nat) {
    && pos <= p < |text| && NumberAt(text, p) && MatchEnd(text, p).Some?
    && NoNumberFrom(text, MatchEnd(text, p).value)
  }

  /** `findall` from `pos` finds nothing exactly when no word-bounded digit run starts at or after `pos`. */
  lemma {:induction false} FindDecimalsEmpty(text: string, pos: nat)
    requires pos <= |text|
    ensures FindDecimals(text, pos) == [] <==> NoNumberFrom(text, pos)
    decreases |text| - pos
  {
    if pos < |text| {
      MatchAt(text, pos);
      if MatchEnd(text, pos).None? {
        FindDecimalsEmpty(text, pos + 1);
      }
    }
  }

  /** The last element `findall` returns from `pos`, if any, is a final match. */
  ghost predicate LastIsFinal(text: string, pos: nat)
    requires pos <= |text|
  {
    var ms := FindDecimals(text, pos);
    ms != [] ==> exists p: nat :: FinalMatch(text, pos, p) && ms[|ms| - 1] == text[p..MatchEnd(text, p).value]
  }

  lemma {:induction false} FindDecimalsLast(text: string, pos: nat)
    requires pos <= |text|
    ensures LastIsFinal(text, pos)
    decreases |text| - pos
  {
    if pos < |text| {
      MatchAt(text, pos);
      match MatchEnd(text, pos)
      case Some(e) =>
        FindDecimalsLast(text, e);
        LastAfterMatch(text, pos, e);
      case None =>
        FindDecimalsLast(text, pos + 1);
        LastAfterSkip(text, pos);
    }
  }

  /** The step of `FindDecimalsLast` over a match `text[pos..e]`. */
  lemma LastAfterMatch(text: string, pos: nat, e: nat)
    requires pos < |text| && MatchEnd(text, pos) == Some(e) && LastIsFinal(text, e)
    ensures LastIsFinal(text, pos)
  {
    MatchAt(text, pos);
    FindDecimalsEmpty(text, e);
    var rest := FindDecimals(text, e);
    assert FindDecimals(text, pos) == [text[pos..e]] + rest;
    if rest == [] {
      assert FinalMatch(text, pos, pos);
    } else {
      var p: nat :| FinalMatch(text, e, p) && rest[|rest| - 1] == text[p..MatchEnd(text, p).value];
      assert FinalMatch(text, pos, p);
    }
  }

  /** The step of `FindDecimalsLast` over a position where no match starts. */
  lemma LastAfterSkip(text: string, pos: nat)
    requires pos < |text| && MatchEnd(text, pos).None? && LastIsFinal(text, pos + 1)
    ensures LastIsFinal(text, pos)
  {
    MatchAt(text, pos);
    var rest := FindDecimals(text, pos + 1);
    assert FindDecimals(text, pos) == rest;
    if rest != [] {
      var p: nat :| FinalMatch(text, pos + 1, p) && rest[|rest| - 1] == text[p..MatchEnd(text, p).value];
      assert FinalMatch(text, pos, p);
    }
  }

  /** Removing the trailing dots of a decimal token leaves a numeral. */
  lemma TokenToNumeral(s: string)
    requires DecimalToken(s)
    ensures Numeral(RStripDots(s))
  {
    if !AllDigits(s) {
      var i :| DotSplit(s, i);
      if i == |s| - 1 {
        assert RStripDots(s) == RStripDots(s[..i]);
        assert RStripDots(s[..i]) == s[..i];
      } else {
        assert s[|s| - 1] == s[i + 1..][|s| - i - 2];
        assert RStripDots(s) == s;
      }
    }
  }

  // ---- what extraction promises ----

  /** The extractor returns "" exactly when the text holds no word-bounded digit run. */
  lemma ExtractEmpty(text: string)
    ensures ExtractAnswer(text) == "" <==> forall p :: 0 <= p < |text| ==> !NumberAt(text, p)
  {
    FindDecimalsEmpty(text, 0);
    var matches := FindDecimals(text, 0);
    if matches != [] {
      FindDecimalsTokens(text, 0);
      TokenToNumeral(matches[|matches| - 1]);
    }
  }

  /** A non-empty answer is a numeral: digits with at most one dot, never ending in a dot. */
  lemma ExtractShape(text: string)
    ensures ExtractAnswer(text) == "" || Numeral(ExtractAnswer(text))
  {
    var matches := FindDecimals(text, 0);
    if matches != [] {
      var last := matches[|matches| - 1];
      assert ExtractAnswer(text) == RStripDots(last);
      FindDecimalsTokens(text, 0);
      TokenToNumeral(last);
    }
  }

  /**
   * A non-empty answer is the last match with its trailing dot removed: the match at a word-bounded
   * digit run after whose end no further run starts.
   */
  lemma ExtractLast(text: string)
    ensures ExtractAnswer(text) != "" ==>
              exists p: nat :: FinalMatch(text, 0, p) && ExtractAnswer(text) == RStripDots(text[p..MatchEnd(text, p).value])
  {
    FindDecimalsLast(text, 0);
  }

  /** A worked example: the last number wins and its sentence-ending dot is dropped. */
  lemma ExtractExample(t: string)
    requires t == "The result is 12 and then 48."
    ensures ExtractAnswer(t) == "48"
  {
    ExampleFirst(t);
    ExampleSecond(t);
    assert FindDecimals(t, 0) == [t[14..16], t[26..28]];
    assert t[26..28] == "48";
  }

  /** A decimal answer is extracted whole and judged by value: "The answer is 8.0" gives "8.0", which matches "8". */
  lemma DecimalExample(t: string)
    requires t == "The answer is 8.0"
    ensures ExtractAnswer(t) == "8.0"
    ensures EvaluateResponse(t, "8")
  {
    DecimalExampleScan(t);
    assert ExtractAnswer(t) == RStripDots("8.0");
    assert RStripDots("8.0") == "8.0";
    DecimalAgrees();
  }

  lemma DecimalAgrees()
    ensures Agrees("8.0", "8")
  {
    assert "8" + "." + "0" == "8.0";
    TrailingZerosAgree("8", "0");
  }

  lemma DecimalExampleScan(t: string)
    requires t == "The answer is 8.0"
    ensures FindDecimals(t, 0) == ["8.0"]
  {
    DecimalExampleGaps(t);
    SkipNonDigits(t, 0, 14);
    DecimalMatch(t, 14, 15, 17);
  }

  lemma DecimalExampleGaps(t: string)
    requires t == "The answer is 8.0"
    ensures |t| == 17 && t[13] == ' ' && t[14] == '8' && t[15] == '.' && t[16] == '0' && t[14..17] == "8.0"
    ensures forall k :: 0 <= k < 14 ==> !IsDigit(t[k])
  {
  }

  lemma ExampleFirst(t: string)
    requires t == "The result is 12 and then 48."
    ensures FindDecimals(t, 0) == [t[14..16]] + FindDecimals(t, 16)
  {
    ExampleGaps(t);
    SkipNonDigits(t, 0, 14);
    WholeNumberMatch(t, 14, 16);
  }

  /** Where the example's digits are, and that no digit stands between them. */
  lemma ExampleGaps(t: string)
    requires t == "The result is 12 and then 48."
    ensures |t| == 29 && t[13] == ' ' && t[14] == '1' && t[15] == '2' && t[16] == ' '
    ensures t[25] == ' ' && t[26] == '4' && t[27] == '8' && t[28] == '.'
    ensures forall k :: 0 <= k < 14 ==> !IsDigit(t[k])
    ensures forall k :: 16 <= k < 26 ==> !IsDigit(t[k])
  {
  }

  lemma ExampleSecond(t: string)
    requires t == "The result is 12 and then 48."
    ensures FindDecimals(t, 16) == [t[26..28]]
  {
    ExampleGaps(t);
    SkipNonDigits(t, 16, 26);
    WholeNumberMatch(t, 26, 28);
    SkipNonDigits(t, 28, 29);
  }

  /**
   * A digit run `text[p..q]` between word boundaries that is not followed by a dot and a word
   * character is matched whole, and the scan resumes after it.
   */
  lemma WholeNumberMatch(text: string, p: nat, q: nat)
    requires p < q <= |text| && (forall k :: p <= k < q ==> IsDigit(text[k]))
    requires p == 0 || !IsWordChar(text[p - 1])
    requires q < |text| ==> !IsWordChar(text[q]) && (text[q] != '.' || q + 1 == |text| || !IsWordChar(text[q + 1]))
    ensures MatchEnd(text, p) == Some(q)
    ensures FindDecimals(text, p) == [text[p..q]] + FindDecimals(text, q)
  {
    DigitRunEndIs(text, p, q);
    if q + 1 < |text| && text[q] == '.' {
      DigitRunEndIs(text, q + 1, q + 1);
    }
  }

  /** Positions that hold no digit start no match, so the scan passes over them. */
  lemma {:induction false} SkipNonDigits(text: string, pos: nat, pos': nat)
    requires pos <= pos' <= |text|
    requires forall k :: pos <= k < pos' ==> !IsDigit(text[k])
    ensures FindDecimals(text, pos) == FindDecimals(text, pos')
    decreases pos' - pos
  {
    if pos < pos' {
      SkipNonDigits(text, pos + 1, pos');
    }
  }

  // ---- what the judge promises ----

  /** Text with no whitespace around it and no sign in front is parsed as an unsigned numeral. */
  lemma ParseBare(s: string)
    requires s == [] || (!IsSpace(s[0]) && !IsSpace(s[|s| - 1]) && s[0] != '+' && s[0] != '-')
    ensures ParseFloat(s) == ParseUnsigned(s)
  {
    StripNoSpace(s);
  }

  /** A string of digits parses to the number it denotes. */
  lemma ParseDigits(s: string)
    requires |s| > 0 && AllDigits(s)
    ensures ParseFloat(s) == Some(NumberValue(s) as real)
  {
    assert ParseUnsigned(s) == Some(NumberValue(s) as real) by {
      DigitRunEndIs(s, 0, |s|);
    }
    ParseBare(s);
  }

  /** Digits, a dot, digits: the whole part plus the fraction. */
  lemma ParseFraction(s: string, i: nat)
    requires i < |s| && |s| > 1 && s[i] == '.' && AllDigits(s[..i]) && AllDigits(s[i + 1..])
    ensures ParseUnsigned(s) == Some(DecimalValue(s[..i], s[i + 1..]))
  {
    assert DigitRunEnd(s, 0) == i by {
      assert forall k :: 0 <= k < i ==> s[k] == s[..i][k];
      DigitRunEndIs(s, 0, i);
    }
    assert DigitRunEnd(s, i + 1) == |s| by {
      assert forall k :: i + 1 <= k < |s| ==> s[k] == s[i + 1..][k - i - 1];
      DigitRunEndIs(s, i + 1, |s|);
    }
  }

  /** Every non-empty extracted answer parses as a number. */
  lemma ExtractParses(text: string)
    ensures ExtractAnswer(text) != "" ==> ParseFloat(ExtractAnswer(text)).Some?
  {
    ExtractShape(text);
    var a := ExtractAnswer(text);
    if a != "" {
      if AllDigits(a) {
        ParseDigits(a);
      } else {
        var i :| 0 < i < |a| - 1 && a[i] == '.' && AllDigits(a[..i]) && AllDigits(a[i + 1..]);
        ParseBare(a);
        ParseFraction(a, i);
      }
    }
  }

  /** An empty extraction is judged correct only against an expected answer that is all whitespace. */
  lemma EmptyExtraction(correct: string)
    ensures Agrees("", correct) <==> forall i :: 0 <= i < |correct| ==> IsSpace(correct[i])
  {
    assert ParseFloat("") == None by {
      StripNoSpace("");
      DigitRunEndIs("", 0, 0);
    }
    TextFallback("", correct);
    assert Normalize("") == "" by {
      LowerFixed("");
      StripNoSpace("");
    }
    NormalizeEmpty(correct);
  }

  /** Numbers are compared by value: a whole number followed by a dot and zeros ("8.0") matches the whole number ("8"). */
  lemma TrailingZerosAgree(whole: string, zeros: string)
    requires |whole| > 0 && AllDigits(whole)
    requires forall k :: 0 <= k < |zeros| ==> zeros[k] == '0'
    ensures Agrees(whole + "." + zeros, whole)
  {
    ParseDigits(whole);
    ParseZeroFraction(whole, zeros);
  }

  lemma ParseZeroFraction(whole: string, zeros: string)
    requires |whole| > 0 && AllDigits(whole)
    requires forall k :: 0 <= k < |zeros| ==> zeros[k] == '0'
    ensures ParseFloat(whole + "." + zeros) == Some(NumberValue(whole) as real)
  {
    var s := whole + "." + zeros;
    assert s[0] == whole[0];
    assert s[|s| - 1] == '.' || s[|s| - 1] == '0';
    ParseBare(s);
    UnsignedZeroFraction(whole, zeros);
  }

  lemma UnsignedZeroFraction(whole: string, zeros: string)
    requires |whole| > 0 && AllDigits(whole)
    requires forall k :: 0 <= k < |zeros| ==> zeros[k] == '0'
    ensures ParseUnsigned(whole + "." + zeros) == Some(NumberValue(whole) as real)
  {
    ZeroFractionValue(whole, zeros);
    var s, i := whole + "." + zeros, |whole|;
    assert s[i] == '.' && s[..i] == whole && s[i + 1..] == zeros;
    ParseFraction(s, i);
  }

  lemma ZeroFractionValue(whole: string, zeros: string)
    requires AllDigits(whole)
    requires forall k :: 0 <= k < |zeros| ==> zeros[k] == '0'
    ensures AllDigits(zeros) && DecimalValue(whole, zeros) == NumberValue(whole) as real
  {
    ZerosValue(zeros);
    var scale := Pow10(|zeros|) as real;
    assert 0.0 / scale == 0.0;
  }

  lemma {:induction false} ZerosValue(zeros: string)
    requires forall k :: 0 <= k < |zeros| ==> zeros[k] == '0'
    ensures AllDigits(zeros) && NumberValue(zeros) == 0
  {
    if zeros != [] {
      ZerosValue(zeros[..|zeros| - 1]);
    }
  }

  /** A word ("eight") never matches a number ("8"): it does not parse, and as text it differs. */
  lemma WordsDoNotAgree(word: string, correct: string)
    requires |word| > 0 && forall k :: 0 <= k < |word| ==> 'a' <= word[k] <= 'z'
    requires |correct| > 0 && AllDigits(correct)
    ensures !Agrees(word, correct)
  {
    WordDoesNotParse(word);
    TextFallback(word, correct);
    WordIsNotNumber(word, correct);
  }

  lemma WordDoesNotParse(word: string)
    requires |word| > 0 && forall k :: 0 <= k < |word| ==> 'a' <= word[k] <= 'z'
    ensures ParseFloat(word) == None
  {
    assert 'a' <= word[0] <= 'z' && 'a' <= word[|word| - 1] <= 'z';
    ParseBare(word);
    DigitRunEndIs(word, 0, 0);
    assert ParseUnsigned(word) == None;
  }

  lemma WordIsNotNumber(word: string, correct: string)
    requires |word| > 0 && forall k :: 0 <= k < |word| ==> 'a' <= word[k] <= 'z'
    requires |correct| > 0 && AllDigits(correct)
    ensures Normalize(word) != Normalize(correct)
  {
    PlainIsNormal(word);
    PlainIsNormal(correct);
    assert word[0] != correct[0];
  }

  /** When the extracted text does not parse, the judge compares text. */
  lemma TextFallback(extracted: string, correct: string)
    requires ParseFloat(extracted) == None
    ensures Agrees(extracted, correct) == (Normalize(extracted) == Normalize(correct))
  {
  }

  /** Every expected answer of the table is a non-empty digit string. */
  lemma TaskAnswersAreDigits()
    ensures forall i :: 0 <= i < |Tasks| ==> |Tasks[i].answer| > 0 && AllDigits(Tasks[i].answer)
  {
  }

  /**
   * Against an expected answer that is a digit string (every answer of the table is), a response
   * is judged correct exactly when something was extracted and it has the expected value.
   */
  lemma JudgeIsNumeric(response: string, correct: string)
    requires |correct| > 0 && AllDigits(correct)
    ensures EvaluateResponse(response, correct) <==>
              ExtractAnswer(response) != "" && ParseFloat(ExtractAnswer(response)) == Some(NumberValue(correct) as real)
  {
    var extracted := ExtractAnswer(response);
    assert ParseFloat(correct) == Some(NumberValue(correct) as real) by {
      ParseDigits(correct);
    }
    if extracted == "" {
      assert !Agrees(extracted, correct) by {
        EmptyExtraction(correct);
        assert !IsSpace(correct[0]);
      }
    } else {
      assert ParseFloat(extracted).Some? by {
        ExtractParses(response);
      }
    }
  }
}
