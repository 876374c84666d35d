/**
 * The logic battery: ten yes/no, true/false and puzzle questions, the
 * heuristic that pulls a canonical answer out of generated text, the judge,
 * and the runner that scores a model on the whole table.
 *
 * The extraction heuristic is specified as a priority table of rules
 * (`Cascade`) evaluated first-match-wins (`FirstFiring`); the method
 * `ExtractAnswer` is the nested conditional and weekday loop of the Python code,
 * proved to compute the same answer.
 */
module LogicReasoning {
  import opened Wrappers
  import opened Text
  import opened Battery

  const TaskType: string := "logic_reasoning"

  /** The fixed question table, in order. */
  const Tasks: seq<Task> := [
    Task(1, "If all cats are animals and Fluffy is a cat, is Fluffy an animal? Answer yes or no.", "yes", Easy),
    Task(2, "True or False: If it is raining, the ground is wet. It is raining. Therefore, the ground is wet.", "true", Easy),
    Task(3, "Which is heavier: a pound of feathers or a pound of bricks? Answer: feathers, bricks, or same.", "same", Medium),
    Task(4, "If A is taller than B, and B is taller than C, is A taller than C? Answer yes or no.", "yes", Easy),
    Task(5, "Is the following statement logical? 'All birds can fly. Penguins are birds. Therefore penguins can fly.' Answer yes or no.", "no", Medium),
    Task(6, "If you flip a fair coin twice, can you get two heads in a row? Answer yes or no.", "yes", Easy),
    Task(7, "True or False: If some dogs are brown and Max is brown, then Max is definitely a dog.", "false", Medium),
    Task(8, "Which comes next in the pattern: 2, 4, 6, 8, ?", "10", Easy),
    Task(9, "If today is Monday, what day will it be in 7 days? Answer with the day name.", "monday", Easy),
    Task(10, "Is it possible for something to be both completely red and completely blue at the same time? Answer yes or no.", "no", Easy)
  ]

  /** The weekday names, in the order they are tried. */
  const Days: seq<string> := ["monday", "tuesday", "wednesday", "thursday", "friday", "saturday", "sunday"]

  // ---- the number rule: the matches of `\b\d+\b` ----

  /** A number token `text[i..j]`: a non-empty digit run with a non-word character (or the text's end) on each side. */
  ghost predicate IsNumberToken(text: string, i: nat, j: nat) {
    && i < j <= |text|
    && AllDigits(text[i..j])
    && (i == 0 || !IsWordChar(text[i - 1]))
    && (j == |text| || !IsWordChar(text[j]))
  }

  /** `re.findall(r'\b\d+\b', text[pos..])`, scanning left to right as the regular-expression engine does. */
  function FindNumbers(text: string, pos: nat): seq<string>
    requires pos <= |text|
    decreases |text| - pos
  {
    if pos == |text| then []
    else if NumberAt(text, pos) then
      var q := DigitRunEnd(text, pos);
      [text[pos..q]] + FindNumbers(text, q)
    else FindNumbers(text, pos + 1)
  }

  /** `re.findall(r'\b\d+\b', text)` */
  function NumberTokens(text: string): seq<string> {
    FindNumbers(text, 0)
  }

  // ---- the priority table ----

  /** One rule of the cascade: fire on any of the trigger words, or take the last number. */
  datatype Rule = Words(triggers: seq<string>, answer: string) | LastNumber

  /** Any of `words` occurs in `s`. */
  predicate AnyOccurs(s: string, words: seq<string>) {
    exists w :: w in words && Contains(s, w)
  }

  /** What a rule yields on `text`, if it fires. Trigger words are sought in the lower-cased text, numbers in the text itself. */
  function Fires(rule: Rule, text: string): Option<string> {
    match rule
    case Words(triggers, answer) =>
      if AnyOccurs(Lower(text), triggers) then Some(answer) else None
    case LastNumber =>
      var ns := NumberTokens(text);
      if ns == [] then None else Some(ns[|ns| - 1])
  }

  /** The extraction rules in priority order; rules 5 to 11 are the weekday names of `Days`, in its order. */
  const Cascade: seq<Rule> := [
    Words(["yes"], "yes"), Words(["no"], "no"), Words(["true"], "true"), Words(["false"], "false"),
    Words(["same", "equal"], "same"),
    Words(["monday"], "monday"), Words(["tuesday"], "tuesday"), Words(["wednesday"], "wednesday"),
    Words(["thursday"], "thursday"), Words(["friday"], "friday"), Words(["saturday"], "saturday"),
    Words(["sunday"], "sunday"),
    LastNumber, Words(["feather"], "feathers"), Words(["brick"], "bricks")
  ]

  /** The shape of the priority table, for proofs that walk through it. */
  lemma CascadeShape()
    ensures |Cascade| == 15
    ensures Cascade[0] == Words(["yes"], "yes") && Cascade[1] == Words(["no"], "no")
    ensures Cascade[2] == Words(["true"], "true") && Cascade[3] == Words(["false"], "false")
    ensures Cascade[4] == Words(["same", "equal"], "same")
    ensures forall k :: 0 <= k < 7 ==> Cascade[5 + k] == Words([Days[k]], Days[k])
    ensures Cascade[12] == LastNumber
    ensures Cascade[13] == Words(["feather"], "feathers") && Cascade[14] == Words(["brick"], "bricks")
  {
  }

  lemma AnyOccursOne(s: string, w: string)
    ensures AnyOccurs(s, [w]) <==> Contains(s, w)
  {
    if Contains(s, w) {
      assert w in [w];
    }
  }

  lemma AnyOccursTwo(s: string, v: string, w: string)
    ensures AnyOccurs(s, [v, w]) <==> Contains(s, v) || Contains(s, w)
  {
    if Contains(s, v) {
      assert v in [v, w];
    }
    if Contains(s, w) {
      assert w in [v, w];
    }
  }

  /** First match wins: the answer of the first rule that fires, or "" when none does. */
  function FirstFiring(rules: seq<Rule>, text: string): string {
    if rules == [] then ""
    else match Fires(rules[0], text)
      case Some(a) => a
      case None => FirstFiring(rules[1..], text)
  }

  /** The answer the heuristic extracts from `text`. */
  function Answer(text: string): string {
    FirstFiring(Cascade, text)
  }

  /** Rule `k` is the first rule of `rules` that fires. */
  ghost predicate FiresFirst(rules: seq<Rule>, text: string, k: nat) {
    && k < |rules|
    && Fires(rules[k], text).Some?
    && forall j :: 0 <= j < k ==> Fires(rules[j], text).None?
  }

  // ---- the Python code's form of the heuristic ----

  /** Extracts the canonical answer: a cascade of substring tests, a weekday loop, the last number, two word fallbacks. */
  method ExtractAnswer(text: string) returns (answer: string)
    ensures answer == Answer(text)
  {
    var lower := Lower(text);
    FromTheTop(text);
    WordRule(0, "yes", text);
    if Contains(lower, "yes") {
      return "yes";
    }
    WordRule(1, "no", text);
    if Contains(lower, "no") {
      return "no";
    }
    WordRule(2, "true", text);
    if Contains(lower, "true") {
      return "true";
    }
    WordRule(3, "false", text);
    if Contains(lower, "false") {
      return "false";
    }
    SameRule(text);
    if Contains(lower, "same") || Contains(lower, "equal") {
      return "same";
    }
    answer := ExtractFromDays(text, lower);
  }

  /** The rest of the heuristic once no fixed word occurs: the weekday loop, then the later rules. */
  method ExtractFromDays(text: string, lower: string) returns (answer: string)
    requires lower == Lower(text)
    ensures answer == FirstFiring(Cascade[5..], text)
  {
    var days := Days;
    var i := 0;
    while i < |days|
      invariant 0 <= i <= |days| && days == Days
      invariant FirstFiring(Cascade[5..], text) == FirstFiring(Cascade[5 + i..], text)
    {
      DayStep(i, text);
      if Contains(lower, days[i]) {
        return days[i];
      }
      i := i + 1;
    }
    answer := ExtractFromNumbers(text, lower);
  }

  /** One turn of the weekday loop: weekday `d` is the answer if it occurs, otherwise the next rule decides. */
  lemma DayStep(d: nat, text: string)
    requires d < |Days|
    ensures Contains(Lower(text), Days[d]) ==> FirstFiring(Cascade[5 + d..], text) == Days[d]
    ensures !Contains(Lower(text), Days[d]) ==> FirstFiring(Cascade[5 + d..], text) == FirstFiring(Cascade[6 + d..], text)
  {
    WordRule(5 + d, Days[d], text);
  }

  /** The last three rules: the last number, then "feather", then "brick", else the empty answer. */
  method ExtractFromNumbers(text: string, lower: string) returns (answer: string)
    requires lower == Lower(text)
    ensures answer == FirstFiring(Cascade[12..], text)
  {
    var numbers := NumberTokens(text);
    if |numbers| > 0 {
      assert FirstFiring(Cascade[12..], text) == numbers[|numbers| - 1] by { CascadeShape(); Take(Cascade, 12, text); }
      return numbers[|numbers| - 1];
    }
    assert FirstFiring(Cascade[12..], text) == FirstFiring(Cascade[13..], text) by { CascadeShape(); Skip(Cascade, 12, text); }
    if Contains(lower, "feather") {
      assert FirstFiring(Cascade[13..], text) == "feathers" by { WordRule(13, "feather", text); }
      return "feathers";
    }
    assert FirstFiring(Cascade[13..], text) == FirstFiring(Cascade[14..], text) by { WordRule(13, "feather", text); }
    if Contains(lower, "brick") {
      assert FirstFiring(Cascade[14..], text) == "bricks" by { WordRule(14, "brick", text); }
      return "bricks";
    }
    assert FirstFiring(Cascade[14..], text) == "" by {
      WordRule(14, "brick", text);
      assert Cascade[15..] == [];
    }
    return "";
  }

  /** One step through a single-trigger rule of the table: it fires exactly when its word occurs in the lower-cased text. */
  lemma WordRule(k: nat, word: string, text: string)
    requires k < 15 && k != 4 && k != 12
    requires k < 5 ==> word == ["yes", "no", "true", "false"][k]
    requires 5 <= k < 12 ==> word == Days[k - 5]
    requires k == 13 ==> word == "feather"
    requires k == 14 ==> word == "brick"
    ensures Contains(Lower(text), word) ==>
              FirstFiring(Cascade[k..], text) == if k == 13 then "feathers" else if k == 14 then "bricks" else word
    ensures !Contains(Lower(text), word) ==> FirstFiring(Cascade[k..], text) == FirstFiring(Cascade[k + 1..], text)
  {
    WordSilent(k, word, text);
    CascadeWord(k, word);
    if Contains(Lower(text), word) {
      Take(Cascade, k, text);
    } else {
      Skip(Cascade, k, text);
    }
  }

  /** The whole table is the table from rule 0 on. */
  lemma FromTheTop(text: string)
    ensures Answer(text) == FirstFiring(Cascade[0..], text)
  {
    assert Cascade[0..] == Cascade;
  }

  /** The single-trigger rules of the table: rule `k` looks for `word` alone. */
  lemma CascadeWord(k: nat, word: string)
    requires k < 15 && k != 4 && k != 12
    requires k < 5 ==> word == ["yes", "no", "true", "false"][k]
    requires 5 <= k < 12 ==> word == Days[k - 5]
    requires k == 13 ==> word == "feather"
    requires k == 14 ==> word == "brick"
    ensures Cascade[k] == Words([word], if k == 13 then "feathers" else if k == 14 then "bricks" else word)
  {
    CascadeShape();
  }

  /** The step through the "same"/"equal" rule. */
  lemma SameRule(text: string)
    ensures Contains(Lower(text), "same") || Contains(Lower(text), "equal") ==> FirstFiring(Cascade[4..], text) == "same"
    ensures !(Contains(Lower(text), "same") || Contains(Lower(text), "equal")) ==> FirstFiring(Cascade[4..], text) == FirstFiring(Cascade[5..], text)
  {
    CascadeShape();
    AnyOccursTwo(Lower(text), "same", "equal");
    if AnyOccurs(Lower(text), ["same", "equal"]) {
      Take(Cascade, 4, text);
    } else {
      Skip(Cascade, 4, text);
    }
  }

  lemma Take(rules: seq<Rule>, k: nat, text: string)
    requires k < |rules| && Fires(rules[k], text).Some?
    ensures FirstFiring(rules[k..], text) == Fires(rules[k], text).value
  {
  }

  lemma Skip(rules: seq<Rule>, k: nat, text: string)
    requires k < |rules| && Fires(rules[k], text).None?
    ensures FirstFiring(rules[k..], text) == FirstFiring(rules[k + 1..], text)
  {
    assert rules[k..][1..] == rules[k + 1..];
  }

  // ---- first match wins ----

  /** The first rule that fires decides the answer. */
  lemma {:induction false} FirstFiringAt(rules: seq<Rule>, text: string, k: nat)
    requires FiresFirst(rules, text, k)
    ensures FirstFiring(rules, text) == Fires(rules[k], text).value
    decreases k
  {
    if k > 0 {
      assert Fires(rules[0], text).None?;
      assert FiresFirst(rules[1..], text, k - 1);
      FirstFiringAt(rules[1..], text, k - 1);
    }
  }

  /** The answer is "" when no rule fires, and otherwise the answer of the first rule that fires. */
  lemma {:induction false} FirstFiringCases(rules: seq<Rule>, text: string)
    ensures (forall j :: 0 <= j < |rules| ==> Fires(rules[j], text).None?) ==> FirstFiring(rules, text) == ""
    ensures (exists j :: 0 <= j < |rules| && Fires(rules[j], text).Some?) ==>
              exists k: nat :: FiresFirst(rules, text, k) && FirstFiring(rules, text) == Fires(rules[k], text).value
    decreases |rules|
  {
    if rules != [] {
      FirstFiringCases(rules[1..], text);
      if Fires(rules[0], text).Some? {
        assert FiresFirst(rules, text, 0);
      } else if exists j :: 0 <= j < |rules| && Fires(rules[j], text).Some? {
        var j :| 0 <= j < |rules| && Fires(rules[j], text).Some?;
        assert Fires(rules[1..][j - 1], text).Some?;
        var k: nat :| FiresFirst(rules[1..], text, k) && FirstFiring(rules[1..], text) == Fires(rules[1..][k], text).value;
        assert FiresFirst(rules, text, k + 1);
      }
    }
  }

  // ---- the number rule ----

  /** Every match of `\b\d+\b` is a non-empty run of digits. */
  lemma {:induction false} FindNumbersDigits(text: string, pos: nat)
    requires pos <= |text|
    ensures forall k :: 0 <= k < |FindNumbers(text, pos)| ==>
              |FindNumbers(text, pos)[k]| > 0 && AllDigits(FindNumbers(text, pos)[k])
    decreases |text| - pos
  {
    if pos < |text| {
      if NumberAt(text, pos) {
        FindNumbersDigits(text, DigitRunEnd(text, pos));
      } else {
        FindNumbersDigits(text, pos + 1);
      }
    }
  }

  /** A match position and a number token are the same thing. */
  lemma NumberAtIsToken(text: string, i: nat, j: nat)
    requires i < |text|
    ensures IsNumberToken(text, i, j) <==> NumberAt(text, i) && j == DigitRunEnd(text, i)
  {
    if IsNumberToken(text, i, j) {
      forall k | i <= k < j ensures IsDigit(text[k]) {
        assert text[k] == text[i..j][k - i];
      }
      DigitRunEndIs(text, i, j);
    }
  }

  /** No number token starts at or after `pos`. */
  ghost predicate NoTokenFrom(text: string, pos: nat) {
    forall i :: pos <= i < |text| ==> !NumberAt(text, i)
  }

  /**
   * The scan from `pos` finds nothing exactly when no token starts at or after `pos`;
   * otherwise its last match is the token that starts last.
   */
  ghost predicate ScanEndsLast(text: string, pos: nat)
    requires pos <= |text|
  {
    var ns := FindNumbers(text, pos);
    && (ns == [] <==> NoTokenFrom(text, pos))
    && (ns != [] ==> exists i :: pos <= i < |text| && NumberAt(text, i)
                      && ns[|ns| - 1] == text[i..DigitRunEnd(text, i)] && NoTokenFrom(text, i + 1))
  }

  lemma {:induction false} FindNumbersLast(text: string, pos: nat)
    requires pos <= |text|
    ensures ScanEndsLast(text, pos)
    decreases |text| - pos
  {
    if pos < |text| {
      if NumberAt(text, pos) {
        FindNumbersLast(text, DigitRunEnd(text, pos));
        LastAfterToken(text, pos);
      } else {
        FindNumbersLast(text, pos + 1);
        LastAfterGap(text, pos);
      }
    }
  }

  /** The step of `FindNumbersLast` over a token starting at `pos`. */
  lemma LastAfterToken(text: string, pos: nat)
    requires pos < |text| && NumberAt(text, pos) && ScanEndsLast(text, DigitRunEnd(text, pos))
    ensures ScanEndsLast(text, pos)
  {
    var q := DigitRunEnd(text, pos);
    var rest := FindNumbers(text, q);
    var ns := FindNumbers(text, pos);
    assert ns == [text[pos..q]] + rest;
    assert !NoTokenFrom(text, pos);
    if rest == [] {
      assert NoTokenFrom(text, pos + 1) by {
        NoTokenInsideRun(text, pos);
      }
      assert ns[|ns| - 1] == text[pos..q];
    } else {
      LaterLast(text, q, pos);
      assert ns[|ns| - 1] == rest[|rest| - 1];
    }
  }

  /** The last token of a scan from `q` is also a witness for the scan from an earlier position. */
  lemma LaterLast(text: string, q: nat, pos: nat)
    requires pos <= q <= |text| && ScanEndsLast(text, q) && FindNumbers(text, q) != []
    ensures exists i :: pos <= i < |text| && NumberAt(text, i)
              && FindNumbers(text, q)[|FindNumbers(text, q)| - 1] == text[i..DigitRunEnd(text, i)] && NoTokenFrom(text, i + 1)
  {
    var rest := FindNumbers(text, q);
    var i :| q <= i < |text| && NumberAt(text, i) && rest[|rest| - 1] == text[i..DigitRunEnd(text, i)] && NoTokenFrom(text, i + 1);
    assert pos <= i;
  }

  /** No token starts inside a digit run: the character before such a position is a digit. */
  lemma NoTokenInsideRun(text: string, pos: nat)
    requires pos < |text|
    ensures forall i :: pos < i < DigitRunEnd(text, pos) ==> !NumberAt(text, i)
  {
    var q := DigitRunEnd(text, pos);
    forall i | pos < i < q ensures !NumberAt(text, i) {
      assert text[i - 1] == text[pos..q][i - 1 - pos];
    }
  }

  /** The step of `FindNumbersLast` over a position where no token starts. */
  lemma LastAfterGap(text: string, pos: nat)
    requires pos < |text| && !NumberAt(text, pos) && ScanEndsLast(text, pos + 1)
    ensures ScanEndsLast(text, pos)
  {
    assert FindNumbers(text, pos) == FindNumbers(text, pos + 1);
  }

  /**
   * `re.findall(r'\b\d+\b', text)` finds nothing exactly when `text` has no number token;
   * otherwise its last element is the token that starts last.
   */
  lemma LastNumberToken(text: string)
    ensures NumberTokens(text) == [] <==> forall i: nat, j: nat :: !IsNumberToken(text, i, j)
    ensures NumberTokens(text) != [] ==>
              exists i: nat, j: nat :: IsNumberToken(text, i, j) && NumberTokens(text)[|NumberTokens(text)| - 1] == text[i..j]
                && forall i': nat, j': nat :: IsNumberToken(text, i', j') ==> i' <= i
  {
    FindNumbersLast(text, 0);
    if NumberTokens(text) == [] {
      forall i: nat, j: nat | IsNumberToken(text, i, j) ensures false {
        NumberAtIsToken(text, i, j);
      }
    } else {
      var i :| 0 <= i < |text| && NumberAt(text, i)
        && NumberTokens(text)[|NumberTokens(text)| - 1] == text[i..DigitRunEnd(text, i)]
        && NoTokenFrom(text, i + 1);
      var j := DigitRunEnd(text, i);
      NumberAtIsToken(text, i, j);
      forall i': nat, j': nat | IsNumberToken(text, i', j') ensures i' <= i {
        NumberAtIsToken(text, i', j');
      }
    }
  }

  // ---- the priority order, stated on the text ----

  /** Every answer a word rule can give. */
  const Vocabulary: set<string> := {"yes", "no", "true", "false", "same", "monday", "tuesday", "wednesday",
                                    "thursday", "friday", "saturday", "sunday", "feathers", "bricks"}

  /** None of the first five rules' trigger words occurs in `s`. */
  ghost predicate NoWordTrigger(s: string) {
    !Contains(s, "yes") && !Contains(s, "no") && !Contains(s, "true") && !Contains(s, "false")
    && !Contains(s, "same") && !Contains(s, "equal")
  }

  /** None of the first `d` weekday names occurs in `s`. */
  ghost predicate NoDayBefore(s: string, d: nat) {
    forall j :: 0 <= j < d && j < |Days| ==> !Contains(s, Days[j])
  }

  /** No rule before rule `k` of the table fires. */
  ghost predicate Silent(text: string, k: nat) {
    forall j :: 0 <= j < k && j < |Cascade| ==> Fires(Cascade[j], text).None?
  }

  /** The rule a word-rule answer comes from. */
  function RuleOf(answer: string): nat {
    if answer == "yes" then 0 else if answer == "no" then 1 else if answer == "true" then 2
    else if answer == "false" then 3 else if answer == "same" then 4 else if answer == "monday" then 5
    else if answer == "tuesday" then 6 else if answer == "wednesday" then 7 else if answer == "thursday" then 8
    else if answer == "friday" then 9 else if answer == "saturday" then 10 else if answer == "sunday" then 11
    else if answer == "feathers" then 13 else if answer == "bricks" then 14 else 12
  }

  /** Each word rule gives its own answer, drawn from the vocabulary, and no two rules give the same one. */
  lemma WordAnswer(k: nat)
    requires k < 15 && k != 12
    ensures Cascade[k].Words? && Cascade[k].answer in Vocabulary && RuleOf(Cascade[k].answer) == k
  {
    CascadeShape();
    if 5 <= k < 12 {
      DayAnswer(k - 5);
    }
  }

  lemma DayAnswer(d: nat)
    requires d < 7
    ensures Days[d] in Vocabulary && RuleOf(Days[d]) == 5 + d
  {
    assert d == 0 || d == 1 || d == 2 || d == 3 || d == 4 || d == 5 || d == 6;
  }

  /** Stepping one rule further: silence up to rule `k + 1` is silence up to `k` and rule `k` not firing. */
  lemma SilentStep(text: string, k: nat)
    requires k < |Cascade|
    ensures Silent(text, k + 1) <==> Silent(text, k) && Fires(Cascade[k], text).None?
  {
    var rules := Cascade;
    if Silent(text, k) && Fires(rules[k], text).None? {
      forall j | 0 <= j < k + 1 && j < |rules| ensures Fires(rules[j], text).None? {
        if j < k {
          assert Fires(Cascade[j], text).None?;
        }
      }
    }
  }

  /** A single-trigger rule of the table stays silent exactly when its word does not occur in the lower-cased text. */
  lemma WordSilent(k: nat, word: string, text: string)
    requires k < 15 && k != 4 && k != 12
    requires k < 5 ==> word == ["yes", "no", "true", "false"][k]
    requires 5 <= k < 12 ==> word == Days[k - 5]
    requires k == 13 ==> word == "feather"
    requires k == 14 ==> word == "brick"
    ensures Fires(Cascade[k], text).None? <==> !Contains(Lower(text), word)
  {
    CascadeWord(k, word);
    AnyOccursOne(Lower(text), word);
  }

  /** What each rule of the table yields when it fires. */
  lemma FiredValue(text: string, k: nat)
    requires k < 15 && Fires(Cascade[k], text).Some?
    ensures k != 12 ==> Fires(Cascade[k], text).value == Cascade[k].answer
    ensures k == 12 ==> var a := Fires(Cascade[k], text).value; |a| > 0 && AllDigits(a)
  {
    CascadeShape();
    if k == 12 {
      FindNumbersDigits(text, 0);
    } else {
      WordAnswer(k);
    }
  }

  /** The heuristic's answer is "", a word from the vocabulary, or a non-empty string of digits. */
  lemma AnswerRange(text: string)
    ensures var a := Answer(text); a == "" || a in Vocabulary || (|a| > 0 && AllDigits(a))
  {
    FirstFiringCases(Cascade, text);
    if exists j :: 0 <= j < |Cascade| && Fires(Cascade[j], text).Some? {
      var k: nat :| FiresFirst(Cascade, text, k) && Answer(text) == Fires(Cascade[k], text).value;
      FiredValue(text, k);
      if k != 12 {
        WordAnswer(k);
      }
    }
  }

  /** A word rule's answer comes out exactly when that rule is the first of the table to fire. */
  lemma AnswerIsFirstFiring(text: string, k: nat)
    requires k < 15 && k != 12
    ensures Answer(text) == Cascade[k].answer <==> Silent(text, k) && Fires(Cascade[k], text).Some?
  {
    if Silent(text, k) && Fires(Cascade[k], text).Some? {
      FirstWordRuleAnswers(text, k);
    }
    if Answer(text) == Cascade[k].answer {
      AnswerNamesRule(text, k);
    }
  }

  lemma FirstWordRuleAnswers(text: string, k: nat)
    requires k < 15 && k != 12
    requires Silent(text, k) && Fires(Cascade[k], text).Some?
    ensures Answer(text) == Cascade[k].answer
  {
    CascadeShape();
    assert FiresFirst(Cascade, text, k);
    FirstFiringAt(Cascade, text, k);
    FiredValue(text, k);
  }

  lemma AnswerNamesRule(text: string, k: nat)
    requires k < 15 && k != 12
    requires Answer(text) == Cascade[k].answer
    ensures Silent(text, k) && Fires(Cascade[k], text).Some?
  {
    WordAnswer(k);
    var a := Cascade[k].answer;
    assert |a| > 0 && !IsDigit(a[0]) by {
      VocabularyNotNumeric();
    }
    FirstFiringCases(Cascade, text);
    var k': nat :| FiresFirst(Cascade, text, k') && Answer(text) == Fires(Cascade[k'], text).value;
    CascadeShape();
    FiredValue(text, k');
    assert k' != 12;
    WordAnswer(k');
    assert k' == k;
  }

  /** Silence up to each of the first five rules, on the lower-cased text. */
  lemma SilentWords(text: string)
    ensures var s := Lower(text);
      && (Silent(text, 1) <==> !Contains(s, "yes"))
      && (Silent(text, 2) <==> !Contains(s, "yes") && !Contains(s, "no"))
      && (Silent(text, 3) <==> !Contains(s, "yes") && !Contains(s, "no") && !Contains(s, "true"))
      && (Silent(text, 4) <==> !Contains(s, "yes") && !Contains(s, "no") && !Contains(s, "true") && !Contains(s, "false"))
      && (Silent(text, 5) <==> NoWordTrigger(s))
  {
    var s := Lower(text);
    CascadeShape();
    WordSilent(0, "yes", text);
    WordSilent(1, "no", text);
    WordSilent(2, "true", text);
    WordSilent(3, "false", text);
    AnyOccursTwo(s, "same", "equal");
    SilentStep(text, 0);
    SilentStep(text, 1);
    SilentStep(text, 2);
    SilentStep(text, 3);
    SilentStep(text, 4);
  }

  /** Silence up to the `d`-th weekday rule: no trigger word and none of the first `d` weekday names. */
  lemma {:induction false} SilentDays(text: string, d: nat)
    requires d <= 7
    ensures Silent(text, 5 + d) <==> NoWordTrigger(Lower(text)) && NoDayBefore(Lower(text), d)
  {
    if d == 0 {
      SilentWords(text);
    } else {
      SilentDays(text, d - 1);
      WordSilent(4 + d, Days[d - 1], text);
      CascadeShape();
      SilentStep(text, 4 + d);
      assert NoDayBefore(Lower(text), d) <==> NoDayBefore(Lower(text), d - 1) && !Contains(Lower(text), Days[d - 1]);
    }
  }

  /** Silence up to the three last rules. */
  lemma SilentTail(text: string)
    ensures var s := Lower(text);
      && (Silent(text, 13) <==> NoWordTrigger(s) && NoDayBefore(s, 7) && NumberTokens(text) == [])
      && (Silent(text, 14) <==> NoWordTrigger(s) && NoDayBefore(s, 7) && NumberTokens(text) == [] && !Contains(s, "feather"))
      && (Silent(text, 15) <==> NoWordTrigger(s) && NoDayBefore(s, 7) && NumberTokens(text) == []
                                && !Contains(s, "feather") && !Contains(s, "brick"))
  {
    var s := Lower(text);
    CascadeShape();
    SilentDays(text, 7);
    WordSilent(13, "feather", text);
    WordSilent(14, "brick", text);
    SilentStep(text, 12);
    SilentStep(text, 13);
    SilentStep(text, 14);
  }

  /** No word of the vocabulary starts with a digit, so no word answer can be mistaken for a number. */
  lemma VocabularyNotNumeric()
    ensures forall w :: w in Vocabulary ==> |w| > 0 && !IsDigit(w[0])
  {
  }

  /** The answer is "" exactly when no rule of the table fires. */
  lemma AnswerEmptyIffSilent(text: string)
    ensures Answer(text) == "" <==> Silent(text, 15)
  {
    CascadeShape();
    FirstFiringCases(Cascade, text);
    if !Silent(text, 15) {
      var k: nat :| FiresFirst(Cascade, text, k) && Answer(text) == Fires(Cascade[k], text).value;
      FiredValue(text, k);
      if k != 12 {
        WordAnswer(k);
      }
      VocabularyNotNumeric();
      assert Answer(text) != "";
    }
  }

  // ---- the heuristic's properties, in terms of the text ----

  /** "yes" wins whenever the lower-cased text contains "yes", whatever else it contains. */
  lemma YesWins(text: string)
    ensures Answer(text) == "yes" <==> Contains(Lower(text), "yes")
  {
    CascadeShape();
    AnswerIsFirstFiring(text, 0);
    AnyOccursOne(Lower(text), "yes");
  }

  /** The rules for "no", "true", "false" and "same" fire only when every earlier trigger word is absent. */
  lemma WordRulesInOrder(text: string)
    ensures var s := Lower(text);
      && (Answer(text) == "no" <==> !Contains(s, "yes") && Contains(s, "no"))
      && (Answer(text) == "true" <==> !Contains(s, "yes") && !Contains(s, "no") && Contains(s, "true"))
      && (Answer(text) == "false" <==>
            !Contains(s, "yes") && !Contains(s, "no") && !Contains(s, "true") && Contains(s, "false"))
      && (Answer(text) == "same" <==>
            !Contains(s, "yes") && !Contains(s, "no") && !Contains(s, "true") && !Contains(s, "false")
            && (Contains(s, "same") || Contains(s, "equal")))
  {
    var s := Lower(text);
    CascadeShape();
    SilentWords(text);
    AnyOccursOne(s, "no");
    AnyOccursOne(s, "true");
    AnyOccursOne(s, "false");
    AnyOccursTwo(s, "same", "equal");
    AnswerIsFirstFiring(text, 1);
    AnswerIsFirstFiring(text, 2);
    AnswerIsFirstFiring(text, 3);
    AnswerIsFirstFiring(text, 4);
  }

  /** "not" and "know" contain "no": without a "yes", a text containing either is read as "no". */
  lemma NoInsideWords(text: string)
    requires !Contains(Lower(text), "yes")
    requires Contains(Lower(text), "not") || Contains(Lower(text), "know")
    ensures Answer(text) == "no"
  {
    var s := Lower(text);
    if Contains(s, "not") {
      assert StartsWith("not", "no");
      ContainsTransitive(s, "not", "no");
    } else {
      assert StartsWith("know"[1..], "no");
      ContainsAt("know", "no", 1);
      ContainsTransitive(s, "know", "no");
    }
    WordRulesInOrder(text);
  }

  /**
   * A weekday is the answer exactly when no trigger word occurs, it occurs, and no weekday earlier
   * in the list monday..sunday occurs: list order decides, not position in the text.
   */
  lemma WeekdayByListOrder(text: string, d: nat)
    requires d < |Days|
    ensures Answer(text) == Days[d] <==>
              NoWordTrigger(Lower(text)) && NoDayBefore(Lower(text), d) && Contains(Lower(text), Days[d])
  {
    CascadeShape();
    SilentDays(text, d);
    AnyOccursOne(Lower(text), Days[d]);
    AnswerIsFirstFiring(text, 5 + d);
  }

  /**
   * The answer is a number exactly when no trigger word and no weekday occurs and the text has a
   * number token; the number is then the last match of `\b\d+\b`.
   */
  lemma NumberRule(text: string)
    ensures var a := Answer(text);
      (|a| > 0 && AllDigits(a)) <==> NoWordTrigger(Lower(text)) && NoDayBefore(Lower(text), 7) && NumberTokens(text) != []
    ensures NoWordTrigger(Lower(text)) && NoDayBefore(Lower(text), 7) && NumberTokens(text) != [] ==>
              Answer(text) == NumberTokens(text)[|NumberTokens(text)| - 1]
  {
    CascadeShape();
    SilentDays(text, 7);
    FindNumbersDigits(text, 0);
    var a := Answer(text);
    if NoWordTrigger(Lower(text)) && NoDayBefore(Lower(text), 7) && NumberTokens(text) != [] {
      assert FiresFirst(Cascade, text, 12);
      FirstFiringAt(Cascade, text, 12);
    }
    if |a| > 0 && AllDigits(a) {
      FirstFiringCases(Cascade, text);
      AnswerEmptyIffSilent(text);
      var k: nat :| FiresFirst(Cascade, text, k) && a == Fires(Cascade[k], text).value;
      FiredValue(text, k);
      if k != 12 {
        WordAnswer(k);
      }
      VocabularyNotNumeric();
      assert k == 12;
    }
  }

  /** "feathers" and "bricks" are reached only when nothing earlier fires, numbers included; "" when nothing fires. */
  lemma FallbackRules(text: string)
    ensures var s := Lower(text);
      && (Answer(text) == "feathers" <==>
            NoWordTrigger(s) && NoDayBefore(s, 7) && NumberTokens(text) == [] && Contains(s, "feather"))
      && (Answer(text) == "bricks" <==>
            NoWordTrigger(s) && NoDayBefore(s, 7) && NumberTokens(text) == [] && !Contains(s, "feather")
            && Contains(s, "brick"))
      && (Answer(text) == "" <==>
            NoWordTrigger(s) && NoDayBefore(s, 7) && NumberTokens(text) == [] && !Contains(s, "feather")
            && !Contains(s, "brick"))
  {
    var s := Lower(text);
    CascadeShape();
    SilentTail(text);
    AnyOccursOne(s, "feather");
    AnyOccursOne(s, "brick");
    AnswerIsFirstFiring(text, 13);
    AnswerIsFirstFiring(text, 14);
    AnswerEmptyIffSilent(text);
  }

  // ---- the judge ----

  /** Every answer the heuristic gives is already lower-case and trimmed. */
  lemma AnswerIsPlain(text: string)
    ensures Plain(Answer(text))
  {
    var a := Answer(text);
    AnswerRange(text);
    if a in Vocabulary {
      VocabularyIsPlain(a);
    }
  }

  lemma VocabularyIsPlain(w: string)
    requires w in Vocabulary
    ensures Plain(w)
  {
  }

  /** The judge's verdict: the extracted answer and the expected one agree once lower-cased and trimmed. */
  predicate Verdict(response: string, expected: string) {
    Normalize(Answer(response)) == Normalize(expected)
  }

  /**
   * Against an expected answer that is already lower-case and trimmed (every answer of the
   * table is), the judge is exact equality with the extracted answer.
   */
  lemma VerdictIsExactMatch(response: string, expected: string)
    requires Plain(expected)
    ensures Verdict(response, expected) <==> Answer(response) == expected
  {
    AnswerIsPlain(response);
    PlainIsNormal(Answer(response));
    PlainIsNormal(expected);
  }

  /** Every expected answer of the table is plain. */
  lemma TaskAnswersArePlain()
    ensures forall i :: 0 <= i < |Tasks| ==> Plain(Tasks[i].answer)
  {
  }

  /** Judges a response: the extracted answer and the expected one, lower-cased and trimmed, are equal. */
  method EvaluateResponse(response: string, correctAnswer: string) returns (isCorrect: bool)
    ensures isCorrect == Verdict(response, correctAnswer)
  {
    var extracted := ExtractAnswer(response);
    isCorrect := Normalize(extracted) == Normalize(correctAnswer);
  }

  // ---- the runner ----

  /** The detail recorded for `task` when the generator returns `responses`: only the first response counts. */
  function Outcome(task: Task, responses: seq<string>): Detail {
    if responses == [] then Unanswered(task)
    else
      var response := responses[0];
      Answered(task, response, Answer(response), Verdict(response, task.answer))
  }

  /** The loop body of `run_task` for one question: judge the first response, or record the sentinel. */
  method RunQuestion(task: Task, responses: seq<string>) returns (detail: Detail)
    ensures detail == Outcome(task, responses)
    ensures detail.taskId == task.id && detail.question == task.question && detail.correctAnswer == task.answer
    ensures detail.difficulty == task.difficulty
    ensures responses == [] ==> detail.modelResponse == NoResponse && detail.extractedAnswer == "" && !detail.isCorrect
    ensures responses != [] ==> detail.modelResponse == responses[0] && detail.extractedAnswer == Answer(responses[0])
                                && detail.isCorrect == Verdict(responses[0], task.answer)
  {
    if |responses| > 0 {
      var response := responses[0];
      var isCorrect := EvaluateResponse(response, task.answer);
      var extracted := ExtractAnswer(response);
      detail := Answered(task, response, extracted, isCorrect);
    } else {
      detail := Unanswered(task);
    }
  }

  /**
   * Runs the battery: one request per question, in table order; a question the generator
   * returns nothing for is recorded as wrong and the loop goes on.
   */
  method RunTask(generate: GenerateRequest -> seq<string>) returns (result: BatteryResult)
    ensures result.taskType == "logic_reasoning"
    ensures result.totalQuestions == |Tasks| == |result.details|
    ensures forall i :: 0 <= i < |Tasks| ==> result.details[i] == Outcome(Tasks[i], generate(Request(Tasks[i])))
    ensures Consistent(result)
  {
    result := RunOver(Tasks, generate);
  }

  /** The loop of `run_task` over the question list `tasks`; the score divides by its length, so it must not be empty. */
  method RunOver(tasks: seq<Task>, generate: GenerateRequest -> seq<string>) returns (result: BatteryResult)
    requires |tasks| > 0
    ensures result.taskType == "logic_reasoning"
    ensures result.totalQuestions == |tasks| == |result.details|
    ensures forall i :: 0 <= i < |tasks| ==> result.details[i] == Outcome(tasks[i], generate(Request(tasks[i])))
    ensures Consistent(result)
  {
    ghost var expected := seq(|tasks|, k requires 0 <= k < |tasks| => Outcome(tasks[k], generate(Request(tasks[k]))));
    var results: seq<Detail> := [];
    var correctCount: nat := 0;
    for i := 0 to |tasks|
      invariant results == expected[..i]
      invariant correctCount == CountCorrect(results)
    {
      var task := tasks[i];
      var responses := generate(Request(task));
      var detail := RunQuestion(task, responses);
      correctCount := correctCount + Credit(detail);
      CountCorrectAppend(results, detail);
      results := results + [detail];
      assert results == expected[..i + 1];
    }
    var score := (correctCount as real / |tasks| as real) * 100.0;
    result := BatteryResult(TaskType, |tasks|, correctCount, score, results);
  }
}
