/**
 * The few Python string operations the scoring engine relies on:
 * `str.lower()`, `str.strip()`, the `in` substring test, the regular-expression
 * classes `\d` and `\w`, and the value of a run of decimal digits.
 * Characters are ASCII-only for case mapping and for `\d` / `\w`.
 */
module Text {

  /** `c.lower()` for ASCII letters; every other character is left as it is. */
  function LowerChar(c: char): char {
    if 'A' <= c <= 'Z' then (c as int - 'A' as int + 'a' as int) as char else c
  }

  /** `s.lower()` */
  function Lower(s: string): string {
    seq(|s|, i requires 0 <= i < |s| => LowerChar(s[i]))
  }

  /** Python's `str.isspace()`: the characters `str.strip()` removes. */
  predicate IsSpace(c: char) {
    c == ' ' || '\t' <= c <= '\r' || '\U{1c}' <= c <= '\U{1f}' || c == '\U{85}' || c == '\U{a0}'
    || c == '\U{1680}' || '\U{2000}' <= c <= '\U{200a}' || c == '\U{2028}' || c == '\U{2029}'
    || c == '\U{202f}' || c == '\U{205f}' || c == '\U{3000}'
  }

  /** `s.lstrip()` */
  function LStrip(s: string): (r: string)
    ensures |r| <= |s| && r == s[|s| - |r|..]
    ensures r == [] || !IsSpace(r[0])
    ensures forall i :: 0 <= i < |s| - |r| ==> IsSpace(s[i])
    decreases |s|
  {
    if s != [] && IsSpace(s[0]) then LStrip(s[1..]) else s
  }

  /** `s.rstrip()` */
  function RStrip(s: string): (r: string)
    ensures |r| <= |s| && r == s[..|r|]
    ensures r == [] || !IsSpace(r[|r| - 1])
    ensures forall i :: |r| <= i < |s| ==> IsSpace(s[i])
    decreases |s|
  {
    if s != [] && IsSpace(s[|s| - 1]) then RStrip(s[..|s| - 1]) else s
  }

  /** `s.strip()` */
  function Strip(s: string): string {
    RStrip(LStrip(s))
  }

  /** The comparison key both judges use: `s.lower().strip()`. */
  function Normalize(s: string): string {
    Strip(Lower(s))
  }

  predicate StartsWith(s: string, prefix: string) {
    |prefix| <= |s| && s[..|prefix|] == prefix
  }

  /** Python's `sub in s`: `sub` occurs somewhere in `s` (the empty string occurs everywhere). */
  predicate Contains(s: string, sub: string)
    decreases |s|
  {
    StartsWith(s, sub) || (s != [] && Contains(s[1..], sub))
  }

  /** The regular-expression class `\d`. */
  predicate IsDigit(c: char) {
    '0' <= c <= '9'
  }

  /** The regular-expression class `\w`, which decides where `\b` holds. */
  predicate IsWordChar(c: char) {
    IsDigit(c) || 'a' <= c <= 'z' || 'A' <= c <= 'Z' || c == '_'
  }

  predicate AllDigits(s: string) {
    forall i :: 0 <= i < |s| ==> IsDigit(s[i])
  }

  /** The end of the run of digits that starts at `p`: the first position at or after `p` that holds no digit. */
  function DigitRunEnd(s: string, p: nat): (q: nat)
    requires p <= |s|
    ensures p <= q <= |s|
    ensures AllDigits(s[p..q])
    ensures q == |s| || !IsDigit(s[q])
    decreases |s| - p
  {
    if p < |s| && IsDigit(s[p]) then DigitRunEnd(s, p + 1) else p
  }

  /**
   * A digit run bounded by word boundaries starts at `p`: `p` holds a digit, the character before
   * it (if any) is not a word character, and neither is the one after the run (if any).
   */
  predicate NumberAt(text: string, p: nat)
    requires p < |text|
  {
    && IsDigit(text[p])
    && (p == 0 || !IsWordChar(text[p - 1]))
    && (DigitRunEnd(text, p) == |text| || !IsWordChar(text[DigitRunEnd(text, p)]))
  }

  function DigitValue(c: char): nat
    requires IsDigit(c)
  {
    c as int - '0' as int
  }

  /** The number a string of decimal digits denotes (0 for the empty string). */
  function NumberValue(s: string): nat
    requires AllDigits(s)
  {
    if s == [] then 0 else 10 * NumberValue(s[..|s| - 1]) + DigitValue(s[|s| - 1])
  }

  function Pow10(n: nat): (r: nat)
    ensures r >= 1
  {
    if n == 0 then 1 else 10 * Pow10(n - 1)
  }

  // ---- facts about the helpers ----

  lemma {:induction false} ContainsAt(s: string, sub: string, i: nat)
    requires i <= |s| && StartsWith(s[i..], sub)
    ensures Contains(s, sub)
    decreases i
  {
    if i > 0 {
      assert s[1..][i - 1..] == s[i..];
      ContainsAt(s[1..], sub, i - 1);
    }
  }

  /** The position of the first occurrence of `sub` in `s`. */
  function IndexOf(s: string, sub: string): (i: nat)
    requires Contains(s, sub)
    ensures i <= |s| && StartsWith(s[i..], sub)
    ensures forall k :: 0 <= k < i ==> !StartsWith(s[k..], sub)
    decreases |s|
  {
    if StartsWith(s, sub) then 0
    else
      var j := IndexOf(s[1..], sub);
      assert forall k :: 1 <= k <= j ==> s[k..] == s[1..][k - 1..];
      1 + j
  }

  /** Occurrence is transitive: a word inside a word that occurs in `s` occurs in `s` ("no" inside "know"). */
  lemma ContainsTransitive(s: string, word: string, part: string)
    requires Contains(s, word) && Contains(word, part)
    ensures Contains(s, part)
  {
    var i := IndexOf(s, word);
    var j := IndexOf(word, part);
    forall k | 0 <= k < |part|
      ensures s[i + j + k] == part[k]
    {
      assert s[i..][j + k] == word[j + k];
      assert word[j..][k] == part[k];
    }
    assert s[i + j..][..|part|] == part;
    ContainsAt(s, part, i + j);
  }

  /** `DigitRunEnd` is the first non-digit position. */
  lemma {:induction false} DigitRunEndIs(s: string, p: nat, q: nat)
    requires p <= q <= |s| && (forall k :: p <= k < q ==> IsDigit(s[k])) && (q == |s| || !IsDigit(s[q]))
    ensures DigitRunEnd(s, p) == q
    decreases q - p
  {
    if p < q {
      DigitRunEndIs(s, p + 1, q);
    }
  }

  /** Only lower-case ASCII letters and digits: text that `lower()` and `strip()` leave unchanged. */
  predicate Plain(s: string) {
    forall i :: 0 <= i < |s| ==> 'a' <= s[i] <= 'z' || IsDigit(s[i])
  }

  lemma PlainIsNormal(s: string)
    requires Plain(s)
    ensures Normalize(s) == s
  {
    LowerFixed(s);
    StripNoSpace(s);
  }

  /** `strip()` leaves nothing exactly when every character is whitespace. */
  lemma StripEmpty(s: string)
    ensures Strip(s) == [] <==> forall i :: 0 <= i < |s| ==> IsSpace(s[i])
  {
    LStripEmpty(s);
    var l := LStrip(s);
    RStripEmpty(l);
  }

  lemma {:induction false} LStripEmpty(s: string)
    ensures LStrip(s) == [] <==> forall i :: 0 <= i < |s| ==> IsSpace(s[i])
    decreases |s|
  {
    if s != [] && IsSpace(s[0]) {
      LStripEmpty(s[1..]);
      assert forall i :: 1 <= i < |s| ==> s[i] == s[1..][i - 1];
    }
  }

  lemma {:induction false} RStripEmpty(s: string)
    ensures RStrip(s) == [] <==> forall i :: 0 <= i < |s| ==> IsSpace(s[i])
    decreases |s|
  {
    if s != [] && IsSpace(s[|s| - 1]) {
      RStripEmpty(s[..|s| - 1]);
      assert forall i :: 0 <= i < |s| - 1 ==> s[i] == s[..|s| - 1][i];
    }
  }

  /** The comparison key is empty exactly for all-whitespace text: lower-casing never creates or removes whitespace. */
  lemma NormalizeEmpty(s: string)
    ensures Normalize(s) == [] <==> forall i :: 0 <= i < |s| ==> IsSpace(s[i])
  {
    var l := Lower(s);
    forall i | 0 <= i < |s| ensures IsSpace(l[i]) <==> IsSpace(s[i]) {
      LowerCharSpace(s[i]);
    }
    StripEmpty(l);
  }

  lemma LowerCharSpace(c: char)
    ensures IsSpace(LowerChar(c)) <==> IsSpace(c)
  {
  }

  /** A string with no whitespace at either end is its own `strip()`. */
  lemma StripNoSpace(s: string)
    requires s == [] || (!IsSpace(s[0]) && !IsSpace(s[|s| - 1]))
    ensures Strip(s) == s
  {
  }

  /** Lower-casing leaves digits, lower-case letters and punctuation alone. */
  lemma LowerFixed(s: string)
    requires forall i :: 0 <= i < |s| ==> !('A' <= s[i] <= 'Z')
    ensures Lower(s) == s
  {
  }
}
