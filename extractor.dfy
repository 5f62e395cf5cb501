/**
 * The field extractor `extractKeyValues` of pages/index.js (lines 29-36).
 *
 * Each of the four fields is one `text.match(/LABEL[:\s]*(CAPTURE+)/i)`:
 * a case-insensitive label (for PlateletCount two words joined by `\s*`),
 * a run of `:` and white space, and a non-empty captured run of one
 * character class. The result is the capture of the leftmost position where
 * the pattern matches, or "N/A" when it matches nowhere.
 *
 * The operational model (`RunEnd`, `WordsEnd`, `MatchAt`, `FirstMatch`) scans
 * greedily without backtracking. `RegexMatch` is an independent, declarative
 * reading of the same pattern, and `MatchAtIsRegexMatch` shows the two agree:
 * because the skipped and captured classes are disjoint, and white space is
 * never a label letter, the greedy scan loses no match.
 */
module Extractor {
  import opened Wrappers
  import opened Chars

  /** One pattern: label words joined by `\s*`, then `[:\s]*`, then `(capture+)`. */
  datatype Rule = Rule(words: seq<string>, capture: CharClass)

  /** Labels are kept lower-case; what the text holds is folded before comparing. */
  const HemoglobinRule := Rule(["hemoglobin"], DecimalChar)
  const RbcRule := Rule(["rbc"], DecimalChar)
  const WbcRule := Rule(["wbc"], DecimalChar)
  const PlateletCountRule := Rule(["platelet", "count"], GroupedDigit)

  /** The sentinel of a field whose pattern matches nowhere. */
  const NotFound := "N/A"

  predicate LowerWord(w: string)
  {
    |w| > 0 && forall m :: 0 <= m < |w| ==> 'a' <= w[m] <= 'z'
  }

  predicate LowerWords(words: seq<string>)
  {
    forall n :: 0 <= n < |words| ==> LowerWord(words[n])
  }

  /** Non-empty lower-case words, and a capture class disjoint from `[:\s]`. */
  predicate WellFormed(r: Rule)
  {
    |r.words| > 0 && LowerWords(r.words)
    && (r.capture == DecimalChar || r.capture == GroupedDigit)
  }

  lemma RulesWellFormed()
    ensures WellFormed(HemoglobinRule) && WellFormed(RbcRule)
    ensures WellFormed(WbcRule) && WellFormed(PlateletCountRule)
  {
    assert LowerWord("hemoglobin") && LowerWord("rbc") && LowerWord("wbc");
    assert LowerWord("platelet") && LowerWord("count");
  }

  // ---------------------------------------------------------------------------
  // The greedy scan
  // ---------------------------------------------------------------------------

  /** The end of the longest run of class `k` starting at `i` (a greedy `k*`). */
  function RunEnd(s: string, i: nat, k: CharClass): (j: nat)
    requires i <= |s|
    ensures i <= j <= |s|
    ensures forall m :: i <= m < j ==> In(s[m], k)
    ensures j == |s| || !In(s[j], k)
    decreases |s| - i
  {
    if i < |s| && In(s[i], k) then RunEnd(s, i + 1, k) else i
  }

  /** The text at `i` spells `w` up to ASCII case. */
  predicate WordAt(s: string, i: nat, w: string)
  {
    i + |w| <= |s| && forall m :: 0 <= m < |w| ==> Lower(s[i + m]) == w[m]
  }

  /** Where the words `w0\s*w1...` end when they occur at `i`, scanning each `\s*` greedily. */
  function WordsEnd(s: string, i: nat, words: seq<string>): (e: Option<nat>)
    requires |words| > 0
    ensures e.Some? ==> i + |words[0]| <= e.value <= |s|
    decreases |words|
  {
    if !WordAt(s, i, words[0]) then None
    else if |words| == 1 then Some(i + |words[0]|)
    else WordsEnd(s, RunEnd(s, i + |words[0]|, Whitespace), words[1..])
  }

  /** The capture of rule `r` matched at position `i`, if it matches there. */
  function MatchAt(s: string, i: nat, r: Rule): (c: Option<string>)
    requires |r.words| > 0
    ensures c.Some? ==> |c.value| > 0 && forall m :: 0 <= m < |c.value| ==> In(c.value[m], r.capture)
  {
    match WordsEnd(s, i, r.words)
    case None => None
    case Some(e) =>
      var j := RunEnd(s, e, Separator);
      var k := RunEnd(s, j, r.capture);
      if j < k then Some(s[j..k]) else None
  }

  /** `String.prototype.match` without the `g` flag: try positions `i`, `i + 1`, ... up to `|s|`. */
  function FirstMatch(s: string, r: Rule, i: nat): (c: Option<string>)
    requires |r.words| > 0
    ensures c.Some? ==> |c.value| > 0 && forall m :: 0 <= m < |c.value| ==> In(c.value[m], r.capture)
    decreases |s| + 1 - i
  {
    if i > |s| then None
    else
      match MatchAt(s, i, r)
      case Some(c) => Some(c)
      case None => FirstMatch(s, r, i + 1)
  }

  /** A field value is "N/A" or a non-empty run of its capture class. */
  predicate ValueShape(v: string, k: CharClass)
  {
    v == NotFound || (|v| > 0 && forall m :: 0 <= m < |v| ==> In(v[m], k))
  }

  /** `text.match(pattern)?.[1] || "N/A"`. */
  function FieldValue(s: string, r: Rule): (v: string)
    requires |r.words| > 0
    ensures ValueShape(v, r.capture)
  {
    var m := FirstMatch(s, r, 0);
    if m.Some? && m.value != "" then m.value else NotFound
  }

  /** The object `extractKeyValues` returns; its keys are fixed, in this order. */
  datatype Fields = Fields(hemoglobin: string, rbc: string, wbc: string, plateletCount: string)

  const FieldNames: seq<string> := ["Hemoglobin", "RBC", "WBC", "PlateletCount"]

  /** `Object.entries` of the object: key-value pairs in insertion order. */
  function Entries(f: Fields): (es: seq<(string, string)>)
    ensures |es| == |FieldNames|
    ensures forall n :: 0 <= n < |es| ==> es[n].0 == FieldNames[n]
    ensures es[0].1 == f.hemoglobin && es[1].1 == f.rbc && es[2].1 == f.wbc && es[3].1 == f.plateletCount
  {
    [("Hemoglobin", f.hemoglobin), ("RBC", f.rbc), ("WBC", f.wbc), ("PlateletCount", f.plateletCount)]
  }

  function ExtractKeyValues(text: string): (f: Fields)
    ensures f.hemoglobin != "" && f.rbc != "" && f.wbc != "" && f.plateletCount != ""
    ensures ValueShape(f.hemoglobin, DecimalChar) && ValueShape(f.rbc, DecimalChar)
    ensures ValueShape(f.wbc, DecimalChar) && ValueShape(f.plateletCount, GroupedDigit)
  {
    Fields(FieldValue(text, HemoglobinRule), FieldValue(text, RbcRule),
           FieldValue(text, WbcRule), FieldValue(text, PlateletCountRule))
  }

  // ---------------------------------------------------------------------------
  // The declarative reading of a pattern
  // ---------------------------------------------------------------------------

  /** Every character of `s[a..b]` is in class `k`. */
  ghost predicate AllIn(s: string, a: nat, b: nat, k: CharClass)
  {
    a <= b <= |s| && forall m :: a <= m < b ==> In(s[m], k)
  }

  /** `s[i..e]` is the words `w0\s*w1...`, with any amount of white space between them. */
  ghost predicate WordsSpan(s: string, i: nat, e: nat, words: seq<string>)
    decreases |words|
  {
    |words| > 0 && WordAt(s, i, words[0]) &&
    if |words| == 1 then e == i + |words[0]|
    else exists m: nat :: AllIn(s, i + |words[0]|, m, Whitespace) && WordsSpan(s, m, e, words[1..])
  }

  /**
   * The pattern of `r` matches at `i` with group 1 equal to `s[j..k]`: the
   * label spans `s[i..e]`, `s[e..j]` is `[:\s]*`, and `s[j..k]` is a non-empty
   * run of the capture class that the greedy `+` cannot extend.
   */
  ghost predicate RegexMatch(s: string, i: nat, r: Rule, j: nat, k: nat)
  {
    (exists e: nat :: WordsSpan(s, i, e, r.words) && AllIn(s, e, j, Separator))
    && j < k && AllIn(s, j, k, r.capture) && (k == |s| || !In(s[k], r.capture))
  }

  /** A run of `k` from `a` to `b` that stops at `b` is exactly what `RunEnd` finds. */
  lemma RunEndIsMaximalRun(s: string, a: nat, b: nat, k: CharClass)
    requires AllIn(s, a, b, k) && (b == |s| || !In(s[b], k))
    ensures RunEnd(s, a, k) == b
  {
  }

  /** A white-space run followed by a word stops where the word begins. */
  lemma RunStopsAtWord(s: string, a: nat, m: nat, w: string)
    requires LowerWord(w) && AllIn(s, a, m, Whitespace) && WordAt(s, m, w)
    ensures RunEnd(s, a, Whitespace) == m
  {
    assert Lower(s[m + 0]) == w[0];
    RunEndIsMaximalRun(s, a, m, Whitespace);
  }

  /** Each white-space run `WordsEnd` skips is a witness for `WordsSpan`. */
  lemma {:induction false} WordsEndSound(s: string, i: nat, words: seq<string>)
    requires |words| > 0 && WordsEnd(s, i, words).Some?
    ensures WordsSpan(s, i, WordsEnd(s, i, words).value, words)
    decreases |words|
  {
    if |words| > 1 {
      var m := RunEnd(s, i + |words[0]|, Whitespace);
      WordsEndSound(s, m, words[1..]);
      assert AllIn(s, i + |words[0]|, m, Whitespace);
    }
  }

  /** Greedy `\s*` loses nothing: the next word starts with a letter, which is not white space. */
  lemma {:induction false} WordsEndComplete(s: string, i: nat, e: nat, words: seq<string>)
    requires LowerWords(words)
    requires WordsSpan(s, i, e, words)
    ensures WordsEnd(s, i, words) == Some(e)
    decreases |words|
  {
    if |words| > 1 {
      var m: nat :| AllIn(s, i + |words[0]|, m, Whitespace) && WordsSpan(s, m, e, words[1..]);
      LowerWordsTail(words);
      assert WordAt(s, m, words[1..][0]);
      WordsEndNextWord(s, i, m, words);
      WordsEndComplete(s, m, e, words[1..]);
    }
  }

  /** When white space and then the second word follow the first, the scan continues at the second. */
  lemma WordsEndNextWord(s: string, i: nat, m: nat, words: seq<string>)
    requires |words| > 1 && WordAt(s, i, words[0]) && LowerWord(words[1])
    requires AllIn(s, i + |words[0]|, m, Whitespace) && WordAt(s, m, words[1])
    ensures WordsEnd(s, i, words) == WordsEnd(s, m, words[1..])
  {
    RunStopsAtWord(s, i + |words[0]|, m, words[1]);
  }

  lemma LowerWordsTail(words: seq<string>)
    requires LowerWords(words) && |words| > 1
    ensures LowerWord(words[1]) && LowerWords(words[1..])
  {
    assert forall n :: 0 <= n < |words| - 1 ==> words[1..][n] == words[n + 1];
  }

  /**
   * The greedy scan at `i` captures exactly what the pattern matches there:
   * a capture exists if and only if the pattern matches at `i`, and then
   * it is the (unique) group 1 of that match.
   */
  lemma MatchAtIsRegexMatch(s: string, i: nat, r: Rule)
    requires WellFormed(r)
    ensures MatchAt(s, i, r).Some? <==> exists j: nat, k: nat :: RegexMatch(s, i, r, j, k)
    ensures forall j: nat, k: nat :: RegexMatch(s, i, r, j, k) ==> MatchAt(s, i, r) == Some(s[j..k])
  {
    if MatchAt(s, i, r).Some? {
      var j, k := ScanWitness(s, i, r);
    }
    forall j: nat, k: nat | RegexMatch(s, i, r, j, k) ensures MatchAt(s, i, r) == Some(s[j..k]) {
      RegexMatchIsScanned(s, i, r, j, k);
    }
  }

  /** The positions of the group a successful scan captures, as a declarative match. */
  lemma ScanWitness(s: string, i: nat, r: Rule) returns (j: nat, k: nat)
    requires |r.words| > 0 && MatchAt(s, i, r).Some?
    ensures RegexMatch(s, i, r, j, k) && MatchAt(s, i, r) == Some(s[j..k])
  {
    var e := WordsEnd(s, i, r.words).value;
    WordsEndSound(s, i, r.words);
    j := RunEnd(s, e, Separator);
    k := RunEnd(s, j, r.capture);
    assert AllIn(s, e, j, Separator);
  }

  lemma RegexMatchIsScanned(s: string, i: nat, r: Rule, j: nat, k: nat)
    requires WellFormed(r) && RegexMatch(s, i, r, j, k)
    ensures MatchAt(s, i, r) == Some(s[j..k])
  {
    var e: nat :| WordsSpan(s, i, e, r.words) && AllIn(s, e, j, Separator);
    WordsEndComplete(s, i, e, r.words);
    assert In(s[j], r.capture);
    RunEndIsMaximalRun(s, e, j, Separator);
    RunEndIsMaximalRun(s, j, k, r.capture);
  }

  // ---------------------------------------------------------------------------
  // The leftmost match
  // ---------------------------------------------------------------------------

  /** No position of `[a, b)` matches. */
  ghost predicate NoMatchBetween(s: string, r: Rule, a: nat, b: nat)
    requires |r.words| > 0
  {
    forall q :: a <= q < b ==> MatchAt(s, q, r).None?
  }

  /** `FirstMatch` stops at a position where the pattern matches. */
  lemma FirstMatchStops(s: string, r: Rule, i: nat)
    requires |r.words| > 0 && i <= |s| && MatchAt(s, i, r).Some?
    ensures FirstMatch(s, r, i) == MatchAt(s, i, r) && !NoMatchBetween(s, r, i, |s| + 1)
  {
  }

  /** Where the first label word is absent the pattern does not match. */
  lemma NoWordNoMatch(s: string, i: nat, r: Rule)
    requires |r.words| > 0 && !WordAt(s, i, r.words[0])
    ensures MatchAt(s, i, r).None?
  {
  }

  /** `FirstMatch` moves past a position where the pattern does not match. */
  lemma FirstMatchSkips(s: string, r: Rule, i: nat)
    requires |r.words| > 0 && i <= |s| && MatchAt(s, i, r).None?
    ensures FirstMatch(s, r, i) == FirstMatch(s, r, i + 1)
  {
  }

  /** `FirstMatch` from `i` is the capture at the least position from `i` on where the pattern matches. */
  lemma {:induction false} FirstMatchIsLeftmost(s: string, r: Rule, i: nat)
    requires |r.words| > 0
    ensures FirstMatch(s, r, i).None? <==> NoMatchBetween(s, r, i, |s| + 1)
    ensures FirstMatch(s, r, i).Some? ==>
      exists p :: i <= p <= |s| && MatchAt(s, p, r) == FirstMatch(s, r, i) && NoMatchBetween(s, r, i, p)
    decreases |s| + 1 - i
  {
    if FirstMatch(s, r, i).Some? {
      var p := LeftmostPosition(s, r, i);
      assert MatchAt(s, p, r).Some?;
    } else if i <= |s| {
      FirstMatchSkips(s, r, i);
      FirstMatchIsLeftmost(s, r, i + 1);
      NoMatchExtends(s, r, i, |s| + 1);
    }
  }

  /**
   * The position `FirstMatch` from `i` stops at, as an out-parameter: the
   * constructive form of the second half of `FirstMatchIsLeftmost`, which
   * lets callers name the position instead of choosing it from an `exists`.
   */
  lemma {:induction false} LeftmostPosition(s: string, r: Rule, i: nat) returns (p: nat)
    requires |r.words| > 0 && FirstMatch(s, r, i).Some?
    ensures i <= p <= |s| && MatchAt(s, p, r) == FirstMatch(s, r, i) && NoMatchBetween(s, r, i, p)
    decreases |s| + 1 - i
  {
    if MatchAt(s, i, r).Some? {
      p := i;
    } else {
      FirstMatchSkips(s, r, i);
      p := LeftmostPosition(s, r, i + 1);
      NoMatchExtends(s, r, i, p);
    }
  }

  /** A range without a match grows by one position that does not match (one step of `FirstMatchIsLeftmost`). */
  lemma NoMatchExtends(s: string, r: Rule, i: nat, p: nat)
    requires |r.words| > 0 && MatchAt(s, i, r).None? && NoMatchBetween(s, r, i + 1, p)
    ensures NoMatchBetween(s, r, i, p)
  {
  }

  /** A pattern never matches past the end of the text: every label word is non-empty. */
  lemma NoMatchPastEnd(s: string, r: Rule, i: nat, j: nat, k: nat)
    requires WellFormed(r) && RegexMatch(s, i, r, j, k)
    ensures i < |s|
  {
    assert LowerWord(r.words[0]);
  }

  /** No position of the text matches in the declarative sense. */
  ghost predicate NoRegexMatch(s: string, r: Rule)
  {
    forall i: nat, j: nat, k: nat :: !RegexMatch(s, i, r, j, k)
  }

  /** No declarative match at any position below `p`. */
  ghost predicate NoRegexMatchBefore(s: string, r: Rule, p: nat)
  {
    forall i: nat, j: nat, k: nat :: i < p ==> !RegexMatch(s, i, r, j, k)
  }

  lemma NoScanMeansNoRegexMatch(s: string, r: Rule, b: nat)
    requires WellFormed(r) && NoMatchBetween(s, r, 0, b)
    ensures NoRegexMatchBefore(s, r, b)
  {
    forall i: nat, j: nat, k: nat | i < b ensures !RegexMatch(s, i, r, j, k) {
      MatchAtIsRegexMatch(s, i, r);
    }
  }

  /** When the scan finds a capture, the field holds it and it is group 1 of the leftmost match. */
  lemma ScanFound(s: string, r: Rule)
    requires WellFormed(r) && FirstMatch(s, r, 0).Some?
    ensures FieldValue(s, r) != NotFound
    ensures exists i: nat, j: nat, k: nat ::
      RegexMatch(s, i, r, j, k) && FieldValue(s, r) == s[j..k] && NoRegexMatchBefore(s, r, i)
  {
    var m := FirstMatch(s, r, 0);
    assert m.value[0] != 'N';
    var i := LeftmostPosition(s, r, 0);
    var j, k := ScanWitness(s, i, r);
    NoScanMeansNoRegexMatch(s, r, i);
    assert RegexMatch(s, i, r, j, k) && FieldValue(s, r) == s[j..k];
  }

  /** When the scan finds nothing, the field is "N/A" and the pattern matches nowhere. */
  lemma ScanNotFound(s: string, r: Rule)
    requires WellFormed(r) && FirstMatch(s, r, 0).None?
    ensures FieldValue(s, r) == NotFound && NoRegexMatch(s, r)
  {
    FirstMatchIsLeftmost(s, r, 0);
    NoScanMeansNoRegexMatch(s, r, |s| + 1);
    forall i: nat, j: nat, k: nat ensures !RegexMatch(s, i, r, j, k) {
      if RegexMatch(s, i, r, j, k) {
        NoMatchPastEnd(s, r, i, j, k);
      }
    }
  }

  /**
   * The value of a field: "N/A" exactly when the pattern matches nowhere in
   * the text; otherwise group 1 of the match at the least position, so a
   * later occurrence of the label is used only if no earlier position matches.
   */
  lemma FieldValueIsLeftmostRegexMatch(s: string, r: Rule)
    requires WellFormed(r)
    ensures FieldValue(s, r) == NotFound <==> NoRegexMatch(s, r)
    ensures FieldValue(s, r) != NotFound ==>
      exists i: nat, j: nat, k: nat ::
        RegexMatch(s, i, r, j, k) && FieldValue(s, r) == s[j..k] && NoRegexMatchBefore(s, r, i)
  {
    if FirstMatch(s, r, 0).Some? {
      ScanFound(s, r);
      var i: nat, j: nat, k: nat :| RegexMatch(s, i, r, j, k) && FieldValue(s, r) == s[j..k];
      assert !NoRegexMatch(s, r);
    } else {
      ScanNotFound(s, r);
    }
  }

  /**
   * A label occurrence where the pattern does not match is one whose
   * `[:\s]*` run is followed by no character of the capture class; so a
   * later occurrence supplies the value only when every earlier one is of
   * this kind.
   */
  lemma LabelWithoutValue(s: string, r: Rule, p: nat, e: nat)
    requires WellFormed(r) && WordsSpan(s, p, e, r.words) && MatchAt(s, p, r).None?
    ensures e <= |s|
    ensures var j := RunEnd(s, e, Separator); j == |s| || !In(s[j], r.capture)
  {
    WordsEndComplete(s, p, e, r.words);
  }

  /** Positions whose character does not fold to the label's first letter can be skipped. */
  lemma {:induction false} SkipNonInitials(s: string, r: Rule, i: nat, q: nat)
    requires WellFormed(r) && |r.words[0]| > 0 && i <= q <= |s|
    requires forall p :: i <= p < q ==> Lower(s[p]) != r.words[0][0]
    ensures FirstMatch(s, r, i) == FirstMatch(s, r, q)
    decreases q - i
  {
    if i < q {
      assert !WordAt(s, i, r.words[0]) by {
        assert Lower(s[i + 0]) != r.words[0][0];
      }
      NoWordNoMatch(s, i, r);
      FirstMatchSkips(s, r, i);
      SkipNonInitials(s, r, i + 1, q);
    }
  }

  // ---------------------------------------------------------------------------
  // Case-insensitivity of the whole extraction
  // ---------------------------------------------------------------------------

  /** The text with every ASCII letter lower-cased. */
  function Folded(s: string): string
  {
    seq(|s|, m requires 0 <= m < |s| => Lower(s[m]))
  }

  /** Two texts that differ only in the case of ASCII letters. */
  predicate SameUpToCase(s: string, t: string)
  {
    Folded(s) == Folded(t)
  }

  /** Position by position, equal foldings mean equal folded characters. */
  lemma FoldedAt(s: string, t: string, m: nat)
    requires SameUpToCase(s, t) && m < |s|
    ensures |t| == |s| && Lower(s[m]) == Lower(t[m])
  {
    assert |Folded(s)| == |s| && |Folded(t)| == |t|;
    assert Folded(s)[m] == Folded(t)[m];
  }

  lemma {:induction false} RunEndIgnoresCase(s: string, t: string, i: nat, k: CharClass)
    requires SameUpToCase(s, t) && i <= |s|
    ensures |t| == |s| && RunEnd(s, i, k) == RunEnd(t, i, k)
    decreases |s| - i
  {
    assert |Folded(s)| == |s| && |Folded(t)| == |t|;
    if i < |s| {
      FoldedAt(s, t, i);
      FoldPreservesClass(s[i], t[i], k);
      RunEndIgnoresCase(s, t, i + 1, k);
    }
  }

  lemma WordAtIgnoresCase(s: string, t: string, i: nat, w: string)
    requires SameUpToCase(s, t)
    ensures WordAt(s, i, w) <==> WordAt(t, i, w)
  {
    assert |Folded(s)| == |s| && |Folded(t)| == |t|;
    if WordAt(s, i, w) {
      forall m | 0 <= m < |w| ensures Lower(t[i + m]) == w[m] {
        FoldedAt(s, t, i + m);
      }
    }
    if WordAt(t, i, w) {
      forall m | 0 <= m < |w| ensures Lower(s[i + m]) == w[m] {
        FoldedAt(s, t, i + m);
      }
    }
  }

  /**
   * `WordsEnd` past a first word that is present, as its own step so that
   * the case-insensitivity proof stays small for the solver.
   */
  lemma WordsEndContinues(s: string, i: nat, words: seq<string>)
    requires |words| > 1 && WordAt(s, i, words[0])
    ensures WordsEnd(s, i, words) == WordsEnd(s, RunEnd(s, i + |words[0]|, Whitespace), words[1..])
  {
  }

  /** `WordsEnd` at a position where the first word is absent, as its own step for the same reason. */
  lemma WordsEndAbsent(s: string, i: nat, words: seq<string>)
    requires |words| > 0 && !WordAt(s, i, words[0])
    ensures WordsEnd(s, i, words).None?
  {
  }

  lemma {:induction false} WordsEndIgnoresCase(s: string, t: string, i: nat, words: seq<string>)
    requires SameUpToCase(s, t) && |words| > 0
    ensures WordsEnd(s, i, words) == WordsEnd(t, i, words)
    decreases |words|
  {
    WordAtIgnoresCase(s, t, i, words[0]);
    if !WordAt(s, i, words[0]) {
      WordsEndAbsent(s, i, words);
      WordsEndAbsent(t, i, words);
    } else if |words| > 1 {
      var p := i + |words[0]|;
      var m := RunEnd(s, p, Whitespace);
      RunEndIgnoresCase(s, t, p, Whitespace);
      WordsEndContinues(s, i, words);
      WordsEndContinues(t, i, words);
      WordsEndIgnoresCase(s, t, m, words[1..]);
    }
  }

  lemma MatchAtIgnoresCase(s: string, t: string, i: nat, r: Rule)
    requires SameUpToCase(s, t) && |r.words| > 0
    ensures MatchAt(s, i, r) == MatchAt(t, i, r)
  {
    WordsEndIgnoresCase(s, t, i, r.words);
    var we := WordsEnd(s, i, r.words);
    if we.Some? {
      var j := RunEnd(s, we.value, Separator);
      RunEndIgnoresCase(s, t, we.value, Separator);
      var k := RunEnd(s, j, r.capture);
      RunEndIgnoresCase(s, t, j, r.capture);
      forall m | j <= m < k ensures s[m] == t[m] {
        FoldedAt(s, t, m);
        FoldPreservesClass(s[m], t[m], r.capture);
      }
      assert s[j..k] == t[j..k];
    }
  }

  lemma {:induction false} FirstMatchIgnoresCase(s: string, t: string, r: Rule, i: nat)
    requires SameUpToCase(s, t) && |r.words| > 0
    ensures FirstMatch(s, r, i) == FirstMatch(t, r, i)
    decreases |s| + 1 - i
  {
    if i <= |s| {
      MatchAtIgnoresCase(s, t, i, r);
      assert |Folded(s)| == |s| && |Folded(t)| == |t|;
      if MatchAt(s, i, r).Some? {
        FirstMatchStops(s, r, i);
        FirstMatchStops(t, r, i);
      } else {
        FirstMatchSkips(s, r, i);
        FirstMatchSkips(t, r, i);
        FirstMatchIgnoresCase(s, t, r, i + 1);
      }
    }
  }

  /** The `/i` flag: changing the case of any letters of the text changes no field. */
  lemma ExtractKeyValuesIgnoresCase(s: string, t: string)
    requires SameUpToCase(s, t)
    ensures ExtractKeyValues(s) == ExtractKeyValues(t)
  {
    FirstMatchIgnoresCase(s, t, HemoglobinRule, 0);
    FirstMatchIgnoresCase(s, t, RbcRule, 0);
    FirstMatchIgnoresCase(s, t, WbcRule, 0);
    FirstMatchIgnoresCase(s, t, PlateletCountRule, 0);
  }

  /** A label longer than what is left of the text cannot match from there on. */
  lemma {:induction false} NoRoomForLabel(s: string, r: Rule, i: nat)
    requires |r.words| > 0 && i + |r.words[0]| > |s|
    ensures FirstMatch(s, r, i).None?
    decreases |s| + 1 - i
  {
    if i <= |s| {
      NoRoomForLabel(s, r, i + 1);
    }
  }
}
