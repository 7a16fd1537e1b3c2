/**
 * The string operations the three search variants share: the normalisation
 * `replaceAll("\\r|\\n", " ").toLowerCase()`, Java's `indexOf` and `contains`,
 * and `extractContext`, which cuts a window of 50 characters on each side of a
 * match and wraps it in "...".
 */
module Text {
  import opened Env

  /** `contextSize` in every copy of `extractContext`. */
  const CONTEXT_SIZE: nat := 50

  predicate IsUpper(c: char) {
    'A' <= c <= 'Z'
  }

  predicate IsLineBreak(c: char) {
    c == '\r' || c == '\n'
  }

  /** `Character.toLowerCase`, restricted to ASCII letters. */
  function Lower(c: char): char {
    if IsUpper(c) then (c as int + 32) as char else c
  }

  /** `String.toLowerCase`, one character at a time. */
  function LowerString(s: string): (r: string)
    ensures |r| == |s|
    ensures forall i :: 0 <= i < |s| ==> r[i] == Lower(s[i])
    ensures forall i :: 0 <= i < |r| ==> !IsUpper(r[i])
  {
    seq(|s|, i requires 0 <= i < |s| => Lower(s[i]))
  }

  /** `replaceAll("\\r|\\n", " ")`: every carriage return and every line feed becomes one space. */
  function ReplaceLineBreaks(s: string): (r: string)
    ensures |r| == |s|
    ensures forall i :: 0 <= i < |s| && IsLineBreak(s[i]) ==> r[i] == ' '
    ensures forall i :: 0 <= i < |s| && !IsLineBreak(s[i]) ==> r[i] == s[i]
    ensures forall i :: 0 <= i < |r| ==> !IsLineBreak(r[i])
  {
    seq(|s|, i requires 0 <= i < |s| => if IsLineBreak(s[i]) then ' ' else s[i])
  }

  /** The text the phrase is searched in: line breaks flattened to spaces, then lower-cased. */
  function Normalize(s: string): (r: string)
    ensures |r| == |s|
    ensures forall i :: 0 <= i < |s| && IsLineBreak(s[i]) ==> r[i] == ' '
    ensures forall i :: 0 <= i < |s| && !IsLineBreak(s[i]) ==> r[i] == Lower(s[i])
    ensures forall i :: 0 <= i < |r| ==> !IsLineBreak(r[i]) && !IsUpper(r[i])
  {
    LowerString(ReplaceLineBreaks(s))
  }

  /** `phrase` occurs in `text` starting at index `k`. */
  predicate OccursAt(text: string, phrase: string, k: int) {
    0 <= k && k + |phrase| <= |text| && text[k..k + |phrase|] == phrase
  }

  /** No occurrence of `phrase` starts in [lo, hi). */
  ghost predicate NoOccurrenceIn(text: string, phrase: string, lo: int, hi: int) {
    forall k :: lo <= k < hi ==> !OccursAt(text, phrase, k)
  }

  /** An occurrence begins with the phrase's first character. */
  lemma OccurrenceStartsWithFirstChar(text: string, phrase: string, k: int)
    requires |phrase| > 0
    ensures OccursAt(text, phrase, k) ==> 0 <= k < |text| && text[k] == phrase[0]
  {
    if OccursAt(text, phrase, k) {
      assert text[k..k + |phrase|][0] == text[k];
    }
  }

  /**
   * The character-by-character comparison `indexOf` makes at candidate
   * position `k`: the phrase's characters from `j` on equal the text's.
   */
  predicate MatchesAt(text: string, phrase: string, k: nat, j: nat)
    requires k + |phrase| <= |text| && j <= |phrase|
    decreases |phrase| - j
  {
    j == |phrase| || (text[k + j] == phrase[j] && MatchesAt(text, phrase, k, j + 1))
  }

  /** The comparison succeeds exactly when the rest of the phrase is the corresponding slice of the text. */
  lemma {:induction false} MatchesAtIsSliceEquality(text: string, phrase: string, k: nat, j: nat)
    requires k + |phrase| <= |text| && j <= |phrase|
    ensures MatchesAt(text, phrase, k, j) <==> text[k + j..k + |phrase|] == phrase[j..]
    decreases |phrase| - j
  {
    if j < |phrase| {
      MatchesAtIsSliceEquality(text, phrase, k, j + 1);
      assert text[k + j..k + |phrase|] == [text[k + j]] + text[k + j + 1..k + |phrase|];
      assert phrase[j..] == [phrase[j]] + phrase[j + 1..];
    }
  }

  /**
   * `text.indexOf(phrase, from)` for a start index inside the text: a match
   * position at or after `from` that leaves room for the phrase, or -1. An
   * empty phrase is found at `from` itself. IndexOfIsLeftmost says which
   * position it is.
   */
  function IndexOf(text: string, phrase: string, from: nat): (r: int)
    requires from <= |text|
    ensures r == -1 || (from <= r && r + |phrase| <= |text|)
    decreases |text| - from
  {
    if from + |phrase| > |text| then -1
    else if MatchesAt(text, phrase, from, 0) then from
    else IndexOf(text, phrase, from + 1)
  }

  /** `indexOf` finds the leftmost occurrence at or after `from`, and answers -1 only when there is none. */
  lemma {:induction false} IndexOfIsLeftmost(text: string, phrase: string, from: nat)
    requires from <= |text|
    ensures var r := IndexOf(text, phrase, from);
            && (r != -1 ==> OccursAt(text, phrase, r) && NoOccurrenceIn(text, phrase, from, r))
            && (r == -1 <==> NoOccurrenceIn(text, phrase, from, |text| + 1))
    decreases |text| - from
  {
    if from + |phrase| <= |text| {
      MatchesAtIsSliceEquality(text, phrase, from, 0);
      assert phrase[0..] == phrase;
      assert MatchesAt(text, phrase, from, 0) <==> OccursAt(text, phrase, from);
      if !MatchesAt(text, phrase, from, 0) {
        IndexOfIsLeftmost(text, phrase, from + 1);
      }
    }
  }

  /** `text.contains(phrase)`: the phrase occurs somewhere in the text. */
  function Contains(text: string, phrase: string): (b: bool)
    ensures b <==> exists k :: OccursAt(text, phrase, k)
  {
    IndexOfIsLeftmost(text, phrase, 0);
    IndexOf(text, phrase, 0) != -1
  }

  /** The marker `extractContext` puts on both sides of the window. */
  function Ellipsis(): (s: string)
    ensures |s| == 3
  {
    "..."
  }

  /** `Math.max(0, matchIndex - contextSize)`. */
  function WindowStart(matchIndex: nat): (lo: nat)
    ensures lo <= matchIndex && matchIndex - lo <= CONTEXT_SIZE
    ensures lo == 0 || matchIndex - lo == CONTEXT_SIZE
  {
    if matchIndex >= CONTEXT_SIZE then matchIndex - CONTEXT_SIZE else 0
  }

  /** `Math.min(text.length(), matchEnd + contextSize)`. */
  function WindowEnd(textLength: nat, matchEnd: nat): (hi: nat)
    requires matchEnd <= textLength
    ensures matchEnd <= hi <= textLength && hi - matchEnd <= CONTEXT_SIZE
    ensures hi == textLength || hi - matchEnd == CONTEXT_SIZE
  {
    if matchEnd + CONTEXT_SIZE <= textLength then matchEnd + CONTEXT_SIZE else textLength
  }

  /**
   * `extractContext(text, matchIndex, phrase)`: the match with up to 50
   * characters of text on either side, between "..." markers. The substring
   * bounds are always valid.
   */
  function ExtractContext(text: string, matchIndex: nat, phraseLength: nat): (r: string)
    requires matchIndex + phraseLength <= |text|
    ensures phraseLength + 6 <= |r| <= phraseLength + 2 * CONTEXT_SIZE + 6
  {
    Ellipsis() + text[WindowStart(matchIndex)..WindowEnd(|text|, matchIndex + phraseLength)] + Ellipsis()
  }

  /**
   * What a context is made of: the markers, the clamped window of the text
   * between them, and the match itself at a fixed offset inside it.
   */
  lemma ContextShape(text: string, matchIndex: nat, phraseLength: nat)
    requires matchIndex + phraseLength <= |text|
    ensures var r := ExtractContext(text, matchIndex, phraseLength);
            && r[..3] == "..." && r[|r| - 3..] == "..."
            && r[3..|r| - 3] == text[WindowStart(matchIndex)..WindowEnd(|text|, matchIndex + phraseLength)]
            && var at := 3 + matchIndex - WindowStart(matchIndex);
               at + phraseLength <= |r| && r[at..at + phraseLength] == text[matchIndex..matchIndex + phraseLength]
  {
    var lo, hi := WindowStart(matchIndex), WindowEnd(|text|, matchIndex + phraseLength);
    var window := text[lo..hi];
    var r := ExtractContext(text, matchIndex, phraseLength);
    var e := Ellipsis();
    assert e == "...";
    assert r == e + window + e;
    WrappedParts(e, window);
    var at, off := 3 + matchIndex - lo, matchIndex - lo;
    SliceOfSlice(r, 3, |r| - 3, off, off + phraseLength);
    SliceOfSlice(text, lo, hi, off, off + phraseLength);
  }

  /** Slicing a slice is slicing the original at shifted bounds. */
  lemma SliceOfSlice(s: string, lo: nat, hi: nat, a: nat, b: nat)
    requires lo <= hi <= |s| && a <= b <= hi - lo
    ensures s[lo..hi][a..b] == s[lo + a..lo + b]
  {
    assert forall j :: 0 <= j < b - a ==> s[lo..hi][a..b][j] == s[lo + a + j];
  }

  /** The three parts of `marker + middle + marker` can be sliced back out. */
  lemma WrappedParts(marker: string, middle: string)
    requires |marker| == 3
    ensures var r := marker + middle + marker;
            r[..3] == marker && r[|r| - 3..] == marker && r[3..|r| - 3] == middle
  {
    var r := marker + middle + marker;
    assert r[..3] == marker;
    assert r[|r| - 3..] == marker;
    assert r[3..|r| - 3] == middle;
  }

  /**
   * The context the first-occurrence variants report: `contains` decides
   * whether there is one, and it is cut around the leftmost occurrence.
   */
  function FirstContext(text: string, phrase: string): (r: Option<string>)
    ensures r.Some? <==> Contains(text, phrase)
    ensures r.Some? ==>
              var k := IndexOf(text, phrase, 0);
              && OccursAt(text, phrase, k)
              && NoOccurrenceIn(text, phrase, 0, k)
              && r.value == ExtractContext(text, k, |phrase|)
  {
    IndexOfIsLeftmost(text, phrase, 0);
    if Contains(text, phrase) then Some(ExtractContext(text, IndexOf(text, phrase, 0), |phrase|)) else None
  }
}
