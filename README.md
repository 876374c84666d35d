# Scoring engine of the LLM reasoning benchmark

The benchmark asks a language model two fixed sets of ten questions each: a math battery and a logic battery.
It turns each free-text reply into a canonical answer, judges that answer, scores each battery, and ranks
the models on a leaderboard. This project is a Dafny model of that scoring engine. It has three parts.

- **The two batteries** (`tasks/logic_reasoning.py`, `tasks/math_reasoning.py`). Each has four pieces:
  - a question table;
  - an answer extractor;
  - a judge;
  - a runner (`run_task`) that sends one prompt per question to the text generator, judges the first reply
    and records a sentinel when nothing comes back. It then reports the count of correct answers and the
    score `100 * correct / total`.
- **The logic extractor.** It is a first-match-wins cascade of case-insensitive substring tests:
  - yes, no, true, false, same/equal;
  - then the weekday names in list order;
  - then the last `\b\d+\b` number;
  - then "feather", then "brick";
  - "" when nothing fires.

  The model specifies the cascade as a priority table of rules, `LogicReasoning.Cascade`, evaluated by
  `FirstFiring`. The method `ExtractAnswer` keeps the Python code's conditionals and weekday loop and is proved to
  compute the same answer.
- **The math extractor.** It takes the last match of `\b\d+\.?\d*\b` and strips trailing dots. The model
  hand-writes the regular expression as a scanner: `MatchEnd` gives where the match starting at a position
  ends, and `FindDecimals` scans left to right as `re.findall` does. `float()` is modelled as exact decimal
  parsing into `real`.
- **The evaluator** (`src/evaluator.py`). It is modelled as the class `Evaluation.Evaluator` with an
  append-only `results: seq<Record>` field.
  - `add_result` appends one record whose overall score is the mean of the two battery scores.
  - `generate_leaderboard` sorts by overall score, highest first, and numbers the rows 1..n.
  - `get_summary` gives the three averages and, for each score, the first record that attains its maximum.

Modules:

- `Wrappers` holds `Option`.
- `Text` models Python's `lower()`, `strip()`, `in`, `\d`, `\w` and digit values.
- `Battery` holds the records shared by both batteries, the count and the score.
- `LogicReasoning`, `MathReasoning` and `Evaluation` model the three source files.

The text generator is an input of the runners. It is a total function from a request to the list of generated
texts, where the request is the prompt, 50 tokens, temperature 0.3 and one sequence.

## Model

| member | source | states |
|---|---|---|
| Battery.Request | tasks/logic_reasoning.py:163-172 | Definition with no contract of its own: the request for a question is its prompt with at most 50 tokens, temperature 0.3 and one sequence (the math battery sends the same request, tasks/math_reasoning.py:139-148). PromptRecoversQuestion and PromptInjective state what the prompt keeps |
| Battery.PromptRecoversQuestion | tasks/logic_reasoning.py:164 | The prompt is `"Question: "`, then the question unchanged, then `"\nAnswer:"`, 18 characters longer than the question |
| Battery.PromptInjective | tasks/logic_reasoning.py:164 | Different questions give different prompts, so the generator sees which question is asked |
| Battery.Report | src/evaluator.py:41-46 | Definition with no contract of its own: the three keys the evaluator reads from a battery result. Evaluation.RecordOfRuns states what a record built from two such reports holds |
| Battery.CountCorrect | tasks/logic_reasoning.py:176-179 | Definition with no contract of its own: the number of details marked correct. CountCorrectAppend and CountCorrectBounds state its properties |
| Battery.Score | tasks/logic_reasoning.py:201 | Definition with no contract of its own: `(correct / total) * 100`. ScoreInRange and ScoreExtremes state its range and extremes |
| Battery.Consistent | tasks/logic_reasoning.py:201-207 | Definition with no contract of its own: the total is the number of details, the correct count counts the correct ones, and the score is computed from them. Both runners ensure it |
| Battery.CountCorrectAppend | tasks/logic_reasoning.py:176-179 | One more detail raises the correct count by one exactly when that detail is marked correct |
| Battery.CountCorrectBounds | tasks/logic_reasoning.py:201-207 | The correct count is at most the number of details. It equals that number iff every detail is correct, and is 0 iff none is |
| Battery.ScoreInRange | tasks/logic_reasoning.py:201 | A consistent battery result scores between 0 and 100 |
| Battery.ScoreExtremes | tasks/math_reasoning.py:177 | A consistent result scores 100 iff every answer was correct, and 0 iff none was |
| Battery.RatioExtremes | tasks/math_reasoning.py:177 | For `0 <= c <= n`, `(c / n) * 100` is 100 iff `c == n` and 0 iff `c == 0` |
| LogicReasoning.ExtractAnswer | tasks/logic_reasoning.py:80-126 | The cascade of substring tests, the weekday loop and the fallbacks compute the priority-table answer `Answer(text)` |
| LogicReasoning.Answer | tasks/logic_reasoning.py:91-126 | Definition with no contract of its own: the cascade table evaluated on the lower-cased text. AnswerRange, YesWins, WordRulesInOrder, WeekdayByListOrder, NumberRule and FallbackRules state what it returns |
| LogicReasoning.FirstFiring | tasks/logic_reasoning.py:91-126 | Definition with no contract of its own: the answer of the first rule that fires, or "". FirstFiringAt and FirstFiringCases state this |
| LogicReasoning.FindNumbers | tasks/logic_reasoning.py:116 | Definition with no contract of its own: `re.findall(r'\b\d+\b')` as a left-to-right scan. FindNumbersDigits and FindNumbersLast state what it returns |
| LogicReasoning.NumberTokens | tasks/logic_reasoning.py:116 | Definition with no contract of its own: the scan over the whole text. LastNumberToken states what its last element is |
| LogicReasoning.ExtractFromDays | tasks/logic_reasoning.py:109-113 | Once no fixed word occurs, the weekday loop and everything after it compute the table's answer from rule 5 on |
| LogicReasoning.ExtractFromNumbers | tasks/logic_reasoning.py:115-126 | The last number token, else "feathers", else "bricks", else "", is the table's answer from rule 12 on |
| LogicReasoning.DayStep | tasks/logic_reasoning.py:111-113 | One turn of the weekday loop: that weekday is the answer if it occurs, otherwise the next rule decides |
| LogicReasoning.WordRule | tasks/logic_reasoning.py:94-103 | A single-word rule yields its answer iff its word occurs in the lower-cased text. Otherwise it passes to the next rule |
| LogicReasoning.SameRule | tasks/logic_reasoning.py:106-107 | The "same" rule fires iff "same" or "equal" occurs. Otherwise it passes to the next rule |
| LogicReasoning.CascadeShape | tasks/logic_reasoning.py:91-126 | The table has 15 rules in the source's order: four words, same/equal, seven weekdays, last number, feather, brick |
| LogicReasoning.CascadeWord | tasks/logic_reasoning.py:94-124 | Each single-trigger rule looks for its word alone and answers with that word, or with "feathers"/"bricks" |
| LogicReasoning.FromTheTop | tasks/logic_reasoning.py:91-126 | The answer is the table evaluated from its first rule |
| LogicReasoning.AnyOccursOne | tasks/logic_reasoning.py:94 | A one-word trigger list fires iff that word occurs |
| LogicReasoning.AnyOccursTwo | tasks/logic_reasoning.py:106 | A two-word trigger list fires iff either word occurs |
| LogicReasoning.Take | tasks/logic_reasoning.py:94-95 | A rule that fires ends the cascade with its own answer |
| LogicReasoning.Skip | tasks/logic_reasoning.py:96-97 | A rule that does not fire hands over to the rest of the cascade |
| LogicReasoning.FirstFiringAt | tasks/logic_reasoning.py:91-126 | The first rule that fires decides the answer |
| LogicReasoning.FirstFiringCases | tasks/logic_reasoning.py:91-126 | The answer is "" when no rule fires, and otherwise the answer of the first rule that fires |
| LogicReasoning.FindNumbersDigits | tasks/logic_reasoning.py:116 | Every match of `\b\d+\b` is a non-empty digit string |
| LogicReasoning.NumberAtIsToken | tasks/logic_reasoning.py:116 | The scanner finds a match at a position iff a maximal digit run bounded by non-word characters starts there |
| LogicReasoning.FindNumbersLast | tasks/logic_reasoning.py:116-118 | The scan from a position finds nothing iff no token starts there or later. Otherwise its last match is the token that starts last |
| LogicReasoning.LastAfterToken | tasks/logic_reasoning.py:116 | The scan keeps its last-token property when a match is found at the current position |
| LogicReasoning.LastAfterGap | tasks/logic_reasoning.py:116 | The scan keeps its last-token property when no match starts at the current position |
| LogicReasoning.LaterLast | tasks/logic_reasoning.py:116 | The last token of a scan from a later position is also the last token seen from an earlier one |
| LogicReasoning.NoTokenInsideRun | tasks/logic_reasoning.py:116 | No number token starts inside a digit run |
| LogicReasoning.LastNumberToken | tasks/logic_reasoning.py:116-118 | `re.findall(r'\b\d+\b')` is empty iff the text has no number token. Otherwise its last element is the token that starts last |
| LogicReasoning.WordAnswer | tasks/logic_reasoning.py:94-124 | Each word rule answers with a vocabulary word that belongs to that rule alone |
| LogicReasoning.DayAnswer | tasks/logic_reasoning.py:110-113 | Each weekday is a vocabulary word of its own rule |
| LogicReasoning.SilentStep | tasks/logic_reasoning.py:91-126 | No rule up to `k+1` fires iff none up to `k` fires and rule `k` does not |
| LogicReasoning.WordSilent | tasks/logic_reasoning.py:94-124 | A single-word rule stays silent iff its word does not occur in the lower-cased text |
| LogicReasoning.FiredValue | tasks/logic_reasoning.py:94-124 | A word rule that fires yields its word. The number rule yields a non-empty digit string |
| LogicReasoning.AnswerRange | tasks/logic_reasoning.py:91-126 | The extracted answer is "", a vocabulary word (yes, no, true, false, same, a weekday, feathers, bricks) or a non-empty digit string |
| LogicReasoning.AnswerIsFirstFiring | tasks/logic_reasoning.py:91-126 | A word rule's answer comes out iff that rule is the first to fire |
| LogicReasoning.FirstWordRuleAnswers | tasks/logic_reasoning.py:91-126 | If a word rule is the first to fire, its answer comes out |
| LogicReasoning.AnswerNamesRule | tasks/logic_reasoning.py:91-126 | If a word rule's answer comes out, that rule is the first to fire |
| LogicReasoning.SilentWords | tasks/logic_reasoning.py:94-107 | The first five rules are silent exactly when their trigger words are absent from the lower-cased text |
| LogicReasoning.SilentDays | tasks/logic_reasoning.py:110-113 | The rules before weekday `d` are silent iff no trigger word and none of the first `d` weekdays occurs |
| LogicReasoning.SilentTail | tasks/logic_reasoning.py:115-126 | The rules before the last three are silent iff no trigger word, no weekday and no number token occurs, and likewise for feather and brick |
| LogicReasoning.VocabularyNotNumeric | tasks/logic_reasoning.py:94-124 | No word answer starts with a digit, so no word answer can be taken for a number |
| LogicReasoning.AnswerEmptyIffSilent | tasks/logic_reasoning.py:126 | The answer is "" iff no rule fires |
| LogicReasoning.YesWins | tasks/logic_reasoning.py:94-95 | The answer is "yes" iff the lower-cased text contains "yes", whatever else it contains |
| LogicReasoning.WordRulesInOrder | tasks/logic_reasoning.py:96-107 | "no", "true", "false" and "same" each come out iff their trigger occurs and every earlier trigger is absent |
| LogicReasoning.NoInsideWords | tasks/logic_reasoning.py:96-97 | Without "yes", a text containing "not" or "know" is read as "no" |
| LogicReasoning.WeekdayByListOrder | tasks/logic_reasoning.py:109-113 | A weekday is the answer iff it occurs, no earlier trigger occurs, and no weekday before it in the list monday..sunday occurs. Position in the text does not matter |
| LogicReasoning.NumberRule | tasks/logic_reasoning.py:115-118 | The answer is a digit string iff no trigger word and no weekday occurs and a number token exists. It is then the last match of `\b\d+\b` |
| LogicReasoning.FallbackRules | tasks/logic_reasoning.py:120-126 | "feathers", "bricks" and "" come out only when no earlier rule fires, number tokens included |
| LogicReasoning.AnswerIsPlain | tasks/logic_reasoning.py:91-126 | Every extracted answer is already lower-case with no surrounding whitespace |
| LogicReasoning.VocabularyIsPlain | tasks/logic_reasoning.py:94-124 | Every word answer is lower-case letters only |
| LogicReasoning.VerdictIsExactMatch | tasks/logic_reasoning.py:139-142 | Against a lower-case, trimmed expected answer, the judge is exact equality with the extracted answer |
| LogicReasoning.Verdict | tasks/logic_reasoning.py:139-142 | Definition with no contract of its own: the extracted answer and the expected one are equal after `lower().strip()`. VerdictIsExactMatch states it against plain expected answers |
| LogicReasoning.Outcome | tasks/logic_reasoning.py:174-199 | Definition with no contract of its own: the detail recorded for a question's replies. RunQuestion computes it and RunOver records one per question |
| LogicReasoning.TaskAnswersArePlain | tasks/logic_reasoning.py:17-78 | Every expected answer of the question table is lower-case and trimmed |
| LogicReasoning.EvaluateResponse | tasks/logic_reasoning.py:139-142 | Correct iff the extracted answer and the expected one are equal once lower-cased and stripped |
| LogicReasoning.RunQuestion | tasks/logic_reasoning.py:160-199 | An empty reply list gives the sentinel detail: the no-response text, an empty extraction, marked wrong. Otherwise only the first reply is used: it is extracted from and judged. The question's id, text, expected answer and difficulty are copied |
| LogicReasoning.RunOver | tasks/logic_reasoning.py:156-209 | Over a non-empty question list: one detail per question in order, each the outcome of that question's generated replies. The total is the list length, the correct count counts the correct details, the score is `100 * correct / total` |
| LogicReasoning.RunTask | tasks/logic_reasoning.py:144-209 | The logic battery's result has task type "logic_reasoning", ten details in table order and consistent figures |
| MathReasoning.MatchEnd | tasks/math_reasoning.py:91 | A match of `\b\d+\.?\d*\b` starting at a position ends after it, within the text. Which end it is, is stated by MatchAt and MatchIsLongest |
| MathReasoning.MatchIsLongest | tasks/math_reasoning.py:91 | The match ends on a word boundary, and no longer decimal token from the same start does: the match is the longest boundary-ended `\d+\.?\d*` |
| MathReasoning.MatchOnBoundary | tasks/math_reasoning.py:91 | The match at a position ends on a word boundary |
| MathReasoning.NoLongerMatch | tasks/math_reasoning.py:91 | A decimal token that starts where a match starts and reaches past its end does not end on a word boundary |
| MathReasoning.MatchEndFacts | tasks/math_reasoning.py:91 | The match ends at the digit run or after the dot that ends it. It stops at the dot only when no word character follows, and it takes a non-empty digit run after the dot whenever that run ends on a word boundary |
| MathReasoning.TokenEnd | tasks/math_reasoning.py:91 | A decimal token ends inside the digit run at its start, or after the dot that ends that run, inside the digit run after the dot |
| MathReasoning.DigitsTokenEnd | tasks/math_reasoning.py:91 | An all-digit token ends inside the digit run at its start |
| MathReasoning.DotTokenEnd | tasks/math_reasoning.py:91 | In a token of digits, a dot and digits, the dot is where the first digit run ends, and the token ends inside the run after it |
| MathReasoning.InRun | tasks/math_reasoning.py:91 | Every position inside a digit run holds a digit |
| MathReasoning.DecimalMatch | tasks/math_reasoning.py:91 | Word-bounded digits, a dot and a non-empty digit run ending on a word boundary are matched as one decimal, and the scan resumes after it |
| MathReasoning.FindDecimals | tasks/math_reasoning.py:91 | Definition with no contract of its own: `re.findall` as a left-to-right scan. FindDecimalsTokens, FindDecimalsEmpty, FindDecimalsLast, WholeNumberMatch and DecimalMatch state what it returns |
| MathReasoning.ExtractAnswer | tasks/math_reasoning.py:80-97 | Definition with no contract of its own: the last match with trailing dots stripped, or "". ExtractEmpty, ExtractShape, ExtractLast, ExtractExample and DecimalExample state what it returns |
| MathReasoning.ParseUnsigned | tasks/math_reasoning.py:115 | Definition with no contract of its own: exact decimal parsing of digits with at most one dot. UnsignedZeroFraction and ZeroFractionValue state its values |
| MathReasoning.ParseFloat | tasks/math_reasoning.py:115 | Definition with no contract of its own: `float()` on optional whitespace, one sign and an unsigned numeral. ParseBare, ParseDigits, ParseFraction, ParseZeroFraction and WordDoesNotParse state its results |
| MathReasoning.Agrees | tasks/math_reasoning.py:113-118 | Definition with no contract of its own: equal values when both sides parse, otherwise equal lower-cased stripped text. TrailingZerosAgree, WordsDoNotAgree and TextFallback state its cases |
| MathReasoning.EvaluateResponse | tasks/math_reasoning.py:99-118 | Definition with no contract of its own: extraction followed by Agrees. JudgeIsNumeric, EmptyExtraction and DecimalExample state its verdicts |
| MathReasoning.Outcome | tasks/math_reasoning.py:150-175 | Definition with no contract of its own: the detail recorded for a question's replies. RunQuestion computes it and RunOver records one per question |
| MathReasoning.RStripDots | tasks/math_reasoning.py:95 | `rstrip('.')` removes only dots from the end, and all of them: it gives a prefix that does not end in a dot, and every removed character is a dot |
| MathReasoning.RunQuestion | tasks/math_reasoning.py:136-175 | An empty reply list gives the sentinel detail: the no-response text, an empty extraction, marked wrong. Otherwise only the first reply is used: it is extracted from and judged. The question's id, text, expected answer and difficulty are copied |
| MathReasoning.RunOver | tasks/math_reasoning.py:132-185 | Over a non-empty question list: one detail per question in order, each the outcome of that question's replies. The total is the list length, the correct count counts the correct details, the score is `100 * correct / total` |
| MathReasoning.RunTask | tasks/math_reasoning.py:120-185 | The math battery's result has task type "math_reasoning", ten details in table order and consistent figures |
| MathReasoning.MatchAt | tasks/math_reasoning.py:91 | A match starts exactly where a word-bounded digit run starts. Each match is digits, optionally followed by a dot and more digits. MatchIsLongest adds that it is the longest such token ending on a word boundary |
| MathReasoning.FindDecimalsTokens | tasks/math_reasoning.py:91 | Every element `findall` returns is a decimal token |
| MathReasoning.FindDecimalsEmpty | tasks/math_reasoning.py:91-93 | `findall` from a position is empty iff no word-bounded digit run starts there or later |
| MathReasoning.FindDecimalsLast | tasks/math_reasoning.py:91-95 | The last element `findall` returns is a match after whose end no further digit run starts |
| MathReasoning.LastAfterMatch | tasks/math_reasoning.py:91 | The scan keeps its final-match property across a match |
| MathReasoning.LastAfterSkip | tasks/math_reasoning.py:91 | The scan keeps its final-match property across a position where no match starts |
| MathReasoning.TokenToNumeral | tasks/math_reasoning.py:95 | Stripping the trailing dots of a match leaves digits with at most one inner dot, ending in a digit |
| MathReasoning.ExtractEmpty | tasks/math_reasoning.py:91-97 | The extractor returns "" iff the text has no match, that is, no word-bounded digit run |
| MathReasoning.ExtractShape | tasks/math_reasoning.py:91-95 | A non-empty answer is a numeral: it starts and ends with a digit and has at most one dot |
| MathReasoning.ExtractLast | tasks/math_reasoning.py:91-95 | A non-empty answer is the final match with its trailing dots stripped |
| MathReasoning.ExtractExample | tasks/math_reasoning.py:94-95 | "The result is 12 and then 48." gives "48" |
| MathReasoning.DecimalExample | tasks/math_reasoning.py:91-115 | "The answer is 8.0" gives "8.0", which is judged correct against "8" |
| MathReasoning.DecimalAgrees | tasks/math_reasoning.py:113-115 | "8.0" agrees with "8" |
| MathReasoning.DecimalExampleScan | tasks/math_reasoning.py:91 | In that example, `findall` returns exactly ["8.0"] |
| MathReasoning.DecimalExampleGaps | tasks/math_reasoning.py:91 | In that example, the only digits are at positions 14 and 16, around the dot at 15 |
| MathReasoning.ExampleFirst | tasks/math_reasoning.py:91 | In the example, "12" is the first match and the scan goes on after it |
| MathReasoning.ExampleSecond | tasks/math_reasoning.py:91-95 | In the example, the rest of the scan yields only "48" |
| MathReasoning.WholeNumberMatch | tasks/math_reasoning.py:91 | A word-bounded digit run not followed by a dot and a word character is matched whole, and the scan resumes after it |
| MathReasoning.SkipNonDigits | tasks/math_reasoning.py:91 | Positions that hold no digit start no match |
| MathReasoning.ParseBare | tasks/math_reasoning.py:115 | `float()` of text with no surrounding space and no sign is unsigned numeral parsing |
| MathReasoning.ParseDigits | tasks/math_reasoning.py:115 | `float()` of a digit string is the number it denotes |
| MathReasoning.ParseFraction | tasks/math_reasoning.py:115 | `float()` of digits, a dot and digits is the whole part plus the fraction |
| MathReasoning.ExtractParses | tasks/math_reasoning.py:95-115 | Every non-empty extracted answer parses as a number |
| MathReasoning.EmptyExtraction | tasks/math_reasoning.py:116-118 | An empty extraction is judged correct only against an all-whitespace expected answer |
| MathReasoning.TrailingZerosAgree | tasks/math_reasoning.py:113-115 | Numbers are compared by value: "8.0" agrees with "8" |
| MathReasoning.ParseZeroFraction | tasks/math_reasoning.py:115 | `float()` of a whole number followed by a dot and zeros is the whole number |
| MathReasoning.UnsignedZeroFraction | tasks/math_reasoning.py:115 | Unsigned parsing of a whole number followed by a dot and zeros is the whole number |
| MathReasoning.ZeroFractionValue | tasks/math_reasoning.py:115 | A fraction of zeros adds nothing to a numeral's value |
| MathReasoning.ZerosValue | tasks/math_reasoning.py:115 | A string of zeros denotes 0 |
| MathReasoning.WordsDoNotAgree | tasks/math_reasoning.py:113-118 | A lower-case word ("eight") never agrees with a digit answer ("8") |
| MathReasoning.WordDoesNotParse | tasks/math_reasoning.py:113-116 | `float()` fails on a lower-case word |
| MathReasoning.WordIsNotNumber | tasks/math_reasoning.py:118 | A word and a digit string differ once lower-cased and stripped |
| MathReasoning.TextFallback | tasks/math_reasoning.py:116-118 | When the extraction does not parse, the judge compares lower-cased, stripped text |
| MathReasoning.TaskAnswersAreDigits | tasks/math_reasoning.py:17-78 | Every expected answer of the question table is a non-empty digit string |
| MathReasoning.JudgeIsNumeric | tasks/math_reasoning.py:110-118 | Against a digit-string expected answer, a reply is correct iff something was extracted and it has the expected value |
| Evaluation.NewRecord | src/evaluator.py:38-51 | Definition with no contract of its own: the record `add_result` builds. RecordOfRuns, MissingKeysCountZero and OverallInRange state what it holds |
| Evaluation.RecordOfRuns | src/evaluator.py:38-51 | A record built from two consistent battery results carries each run's score, correct count and total unchanged, each count is at most its total, and the overall score lies between the two scores |
| Evaluation.MissingKeysCountZero | src/evaluator.py:40-51 | A missing key counts as 0; a missing score makes the overall score half of the other one |
| Evaluation.OverallInRange | src/evaluator.py:51 | Two consistent battery results give an overall score between 0 and 100 |
| Evaluation.Enumerate | src/evaluator.py:68 | Definition with no contract of its own: each record labelled with its position. RankedEntries states what survives sorting |
| Evaluation.PrecedesTransitive | src/evaluator.py:71 | The leaderboard order is transitive |
| Evaluation.RankedCons | src/evaluator.py:71 | An entry that precedes every entry of a sorted list can head it |
| Evaluation.Insert | src/evaluator.py:71 | Inserting into a sorted list keeps it sorted and adds exactly that entry |
| Evaluation.InsertHere | src/evaluator.py:71 | An entry that precedes the head of a sorted list can be put in front |
| Evaluation.InsertLater | src/evaluator.py:71 | Keeping the head and inserting into the tail keeps the list sorted, with the same entries plus the new one |
| Evaluation.Sort | src/evaluator.py:71 | Sorting by overall score gives a permutation, highest first, with ties in their original order |
| Evaluation.LaterThanHead | src/evaluator.py:71 | In a list with increasing positions, the tail still increases and lies after the head |
| Evaluation.SortStep | src/evaluator.py:71 | The sorted tail plus the head holds the same entries as the input |
| Evaluation.SameMembers | src/evaluator.py:71 | A permutation has the same members |
| Evaluation.RankedEntries | src/evaluator.py:68-71 | The sorted table has one row per record, each labelled with its own position, no position twice |
| Evaluation.Rank | src/evaluator.py:74 | Definition with no contract of its own: the rank column numbering the sorted rows. GenerateLeaderboard states the ranks 1..n it gives |
| Evaluation.ArgMax | src/evaluator.py:189-194 | The position is where a score column first attains its maximum, as `idxmax` does |
| Evaluation.FirstMaxUnique | src/evaluator.py:189 | The first maximum of a column is unique |
| Evaluation.SumAtMost | src/evaluator.py:186-188 | A column bounded by `hi` sums to at most `n * hi` |
| Evaluation.MeanAtMost | src/evaluator.py:186-188 | A column's mean is at most any bound on its values |
| Evaluation.Sum | src/evaluator.py:186-188 | Definition with no contract of its own: the total of a score column. SumAtMost and SumOfMeans state its properties |
| Evaluation.Mean | src/evaluator.py:186-188 | Definition with no contract of its own: the total over the number of records, as pandas' `mean()`. MeanAtMost and MeanOfMeans state its properties |
| Evaluation.SumOfMeans | src/evaluator.py:51 | When every overall score is the mean of its two scores, the overall column sums to half the sum of the other two |
| Evaluation.MeanOfMeans | src/evaluator.py:186-188 | When every overall score is the mean of its two scores, the average overall score is the mean of the average math and logic scores |
| Evaluation.Summarize | src/evaluator.py:179-185 | There is no summary iff there are no results. Otherwise it counts every model |
| Evaluation.SummaryBest | src/evaluator.py:184-195 | Each best model is the first record with the maximum of its score, paired with that maximum. Each average is at most the best score |
| Evaluation.Evaluator.constructor | src/evaluator.py:18-20 | A new evaluator holds no results |
| Evaluation.Evaluator.AddResult | src/evaluator.py:22-53 | Appends exactly the new record (name, timestamp, the two scores, correct counts and totals, each 0 when its key is missing, and their mean as overall score) and leaves earlier records (including those with the same name) as they were. Every record's overall score stays the mean of its two scores |
| Evaluation.Evaluator.GenerateLeaderboard | src/evaluator.py:56-76 | No results give an empty table. Otherwise every record appears exactly once, by non-increasing overall score, ties in insertion order, ranked 1..n. The results are left unchanged |
| Evaluation.Evaluator.GetSummary | src/evaluator.py:172-195 | No results give no summary. Otherwise: the model count, the three arithmetic means, and for each score the first record attaining its maximum, with that maximum. On an evaluator built by `AddResult`, the average overall score is the mean of the other two averages |
| Text.LStrip | tasks/logic_reasoning.py:142 | `lstrip()` removes only whitespace, and all of it, from the start: the result is a suffix with no leading whitespace, and every removed character is whitespace |
| Text.Lower | tasks/logic_reasoning.py:91 | Definition with no contract of its own: ASCII `lower()`, character by character. LowerFixed and LowerCharSpace state its properties |
| Text.Strip | tasks/logic_reasoning.py:142 | Definition with no contract of its own: `rstrip()` after `lstrip()`. StripEmpty and StripNoSpace state its properties |
| Text.Normalize | tasks/logic_reasoning.py:142 | Definition with no contract of its own: `lower().strip()`. NormalizeEmpty and PlainIsNormal state its properties |
| Text.Contains | tasks/logic_reasoning.py:94 | Definition with no contract of its own: Python's `in` on strings. ContainsAt, ContainsTransitive and IndexOf state its properties |
| Text.RStrip | tasks/logic_reasoning.py:142 | `rstrip()` removes only whitespace, and all of it, from the end: the result is a prefix with no trailing whitespace, and every removed character is whitespace |
| Text.DigitRunEnd | tasks/logic_reasoning.py:116 | A digit run extends to the first position that holds no digit |
| Text.IndexOf | tasks/logic_reasoning.py:94 | A substring that occurs starts at the returned position and at no earlier one |
| Text.ContainsAt | tasks/logic_reasoning.py:94 | A word found at some position occurs in the text |
| Text.ContainsTransitive | tasks/logic_reasoning.py:96-97 | A word inside a word that occurs also occurs ("no" inside "know") |
| Text.DigitRunEndIs | tasks/logic_reasoning.py:116 | The end of a digit run is the first non-digit position |
| Text.PlainIsNormal | tasks/logic_reasoning.py:142 | Lower-case letters and digits are their own `lower().strip()` |
| Text.StripEmpty | tasks/math_reasoning.py:118 | `strip()` leaves nothing iff every character is whitespace |
| Text.LStripEmpty | tasks/math_reasoning.py:118 | `lstrip()` leaves nothing iff every character is whitespace |
| Text.RStripEmpty | tasks/math_reasoning.py:118 | `rstrip()` leaves nothing iff every character is whitespace |
| Text.NormalizeEmpty | tasks/math_reasoning.py:118 | `lower().strip()` is empty iff the text is all whitespace |
| Text.LowerCharSpace | tasks/math_reasoning.py:118 | Lower-casing a character neither creates nor removes whitespace |
| Text.StripNoSpace | tasks/logic_reasoning.py:142 | Text with no whitespace at either end is its own `strip()` |
| Text.LowerFixed | tasks/logic_reasoning.py:142 | Text without upper-case letters is its own `lower()` |

## Left out

- The text generator (`src/model_loader.py`) is a parameter of the runners. Loading models, sampling and decoding are not part of this model.
- The command-line driver (`benchmark.py`) is not modelled, including its try/except that skips a model that fails to load. Such a model simply never reaches `AddResult`.
- `display_leaderboard` and `save_results` are not modelled. Both only format tables or write JSON/CSV files.
- `get_task_description` is not modelled. It only returns a fixed description string.
- Logging is not modelled.
- The generator samples (`do_sample=True`, src/model_loader.py:117), so the same prompt can get different replies. Here it is a function of the request, and nondeterministic sampling is not modelled.
- The timestamp is a parameter of `AddResult`. The clock (`datetime.now()`) is left out.
- Scores and parsed numbers are exact `real`s, not IEEE doubles. Rounding such as `(3/10)*100 == 30.000000000000004` is not modelled.
- `float()` is modelled for optional surrounding whitespace, one sign, and digits with at most one dot. Exponents, `inf`/`nan` and `_` separators are not modelled. The extractor never produces them, and the table's expected answers are digit strings.
- `lower()`, `\d`, `\w` and `\b` follow ASCII only. Python applies them to all of Unicode.
- Evaluation.Evaluator.GenerateLeaderboard: fixes the order of records with equal overall scores to insertion order. pandas' default `sort_values` does not promise any order for ties. The leaderboard is a list of rows (rank, original position, record), not a data frame.
- LogicReasoning.RunOver: requires a non-empty question list, because the score divides by its length. The batteries' own tables always have ten questions.
- MathReasoning.RunOver: requires a non-empty question list, for the same reason.
- MathReasoning.ExtractLast: proves that the answer comes from a match after whose end no digit run starts. It does not name which of several overlapping positions the scanner used.
- The `question_type` argument of the logic `extract_answer` is not modelled. It is never read.
- MathReasoning.EmptyExtraction: says that an empty extraction agrees with an all-whitespace expected answer, because `float('')` fails and both sides strip to "". The stronger statement "an empty extraction is always wrong" holds only for non-blank expected answers.
