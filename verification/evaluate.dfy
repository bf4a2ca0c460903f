/** The offline answer-evaluation engine (`isChunkDump`, `conceptMatched`,
    `evaluateAnswer` in lib/evaluate.ts) and its data shapes (lib/types.ts). */
module Evaluation {
  import opened Strings
  import opened Normalization
  import opened Fuzzy

  datatype AnswerResult = Correct | Partial | Incorrect

  /** A rubric entry: the label shown in feedback and its acceptable keywords. */
  datatype KeyConcept = KeyConcept(concept: string, keywords: seq<string>)

  /** Which feedback template is chosen; the wording itself is not modelled. */
  datatype Feedback =
    | CopiedPassage        // the chunk-dump message
    | NoConceptsMatched    // lists the missed labels
    | FullMarks            // every concept matched
    | CoveredEnough        // at least half matched, lists the matched labels
    | SomeConceptsCovered  // fewer than half matched, lists both lists

  datatype EvaluationResult = EvaluationResult(
    result: AnswerResult,
    feedback: Feedback,
    matchedConcepts: seq<string>,
    missedConcepts: seq<string>,
    pointsEarned: nat,
    pointsAvailable: nat,
    isChunkDump: bool)

  /* ---------- chunk-dump detection ---------- */

  /** How many answer positions hold a word that occurs in the chunk
      (`chunkSet.has(w)`), repeats counted. */
  function Overlap(answerWords: seq<string>, chunkWords: seq<string>): (r: nat)
    ensures r == |Hits(answerWords, chunkWords)|
    ensures r <= |answerWords|
    ensures r == |answerWords| <==> forall k :: 0 <= k < |answerWords| ==> answerWords[k] in chunkWords
    ensures r == 0 <==> forall k :: 0 <= k < |answerWords| ==> answerWords[k] !in chunkWords
    decreases |answerWords|
  {
    if |answerWords| == 0 then
      assert Hits(answerWords, chunkWords) == {};
      0
    else
      var rest := Overlap(answerWords[1..], chunkWords);
      assert forall k :: 1 <= k < |answerWords| ==> answerWords[k] == answerWords[1..][k - 1];
      HitsCons(answerWords, chunkWords);
      (if answerWords[0] in chunkWords then 1 else 0) + rest
  }

  /** The answer positions whose word occurs in the chunk. */
  function Hits(ws: seq<string>, chunk: seq<string>): set<nat>
  {
    set k: nat | k < |ws| && ws[k] in chunk
  }

  /** Every position moved one to the right. */
  function Shift(t: set<nat>): set<nat>
  {
    set k | k in t :: k + 1
  }

  lemma {:induction false} ShiftCard(t: set<nat>)
    ensures |Shift(t)| == |t|
    decreases |t|
  {
    if t != {} {
      var x :| x in t;
      var u := t - {x};
      ShiftCard(u);
      forall y | y in Shift(t)
        ensures y in Shift(u) + {x + 1}
      {
        var j :| j in t && y == j + 1;
        if j != x {
          assert j in u;
        }
      }
      assert Shift(t) == Shift(u) + {x + 1};
      assert x + 1 !in Shift(u);
    }
  }

  /** The hits of a word list are its first position, when that word is in
      the chunk, and the hits of the rest moved one to the right. */
  lemma HitsCons(ws: seq<string>, chunk: seq<string>)
    requires |ws| > 0
    ensures |Hits(ws, chunk)| == (if ws[0] in chunk then 1 else 0) + |Hits(ws[1..], chunk)|
  {
    var rest := Hits(ws[1..], chunk);
    var head: set<nat> := if ws[0] in chunk then {0} else {};
    assert Hits(ws, chunk) == head + Shift(rest) by {
      forall k: nat | k in Hits(ws, chunk) && k > 0
        ensures k in Shift(rest)
      {
        assert k - 1 in rest;
      }
    }
    assert 0 !in Shift(rest);
    ShiftCard(rest);
  }

  /** `isChunkDump`. The ratios `answer/chunk < 0.9` and `overlap/answer > 0.95`
      are compared by cross-multiplying. Splitting never yields an empty list
      (`"".split(" ")` is `[""]`), so the empty-list guard never fires. */
  function IsChunkDump(answerNorm: string, chunkNorm: string): (r: bool)
    ensures var answerWords, chunkWords := Split(answerNorm, ' '), Split(chunkNorm, ' ');
      r <==> 10 * |answerWords| >= 9 * |chunkWords| && 20 * Overlap(answerWords, chunkWords) > 19 * |answerWords|
    // a verbatim copy of the chunk is always caught, two empty texts included
    ensures answerNorm == chunkNorm ==> r
  {
    var answerWords := Split(answerNorm, ' ');
    var chunkWords := Split(chunkNorm, ' ');
    if |answerWords| == 0 || |chunkWords| == 0 then false
    else if 10 * |answerWords| < 9 * |chunkWords| then false
    else
      assert answerNorm == chunkNorm ==> forall k :: 0 <= k < |answerWords| ==> answerWords[k] in chunkWords;
      20 * Overlap(answerWords, chunkWords) > 19 * |answerWords|
  }

  /** An answer sharing no word with the chunk is never a dump, however long. */
  lemma NoSharedWordNoDump(answerNorm: string, chunkNorm: string)
    requires forall w :: w in Split(answerNorm, ' ') ==> w !in Split(chunkNorm, ' ')
    ensures !IsChunkDump(answerNorm, chunkNorm)
  {
    var answerWords := Split(answerNorm, ' ');
    assert forall k :: 0 <= k < |answerWords| ==> answerWords[k] in answerWords;
  }

  /* ---------- concept matching ---------- */

  /** One keyword, normalized, fuzzily occurs in the answer. */
  predicate KeywordHit(answer: string, keyword: string)
  {
    FuzzyContains(answer, Normalize(keyword))
  }

  /** `conceptMatched`: `keywords.some(...)` tries the keywords in order and
      succeeds exactly when some keyword hits. */
  function ConceptMatched(answer: string, concept: KeyConcept): (r: bool)
    ensures r <==> exists k :: 0 <= k < |concept.keywords| && KeywordHit(answer, concept.keywords[k])
  {
    AnyFrom(KeywordHits(answer, concept.keywords), 0)
  }

  /** Whether each keyword hits, in keyword order. */
  function KeywordHits(answer: string, keywords: seq<string>): (r: seq<bool>)
    ensures |r| == |keywords| && forall k :: 0 <= k < |keywords| ==> r[k] == KeywordHit(answer, keywords[k])
  {
    seq(|keywords|, k requires 0 <= k < |keywords| => KeywordHit(answer, keywords[k]))
  }

  /** The `some` loop from position `i` on. */
  function AnyFrom(bs: seq<bool>, i: nat): (r: bool)
    requires i <= |bs|
    ensures r <==> exists k :: i <= k < |bs| && bs[k]
    decreases |bs| - i
  {
    if i == |bs| then false else bs[i] || AnyFrom(bs, i + 1)
  }

  /** A keyword made only of punctuation normalizes to the empty string, which
      every answer contains: such a concept is matched by any answer. A
      concept without keywords is matched by none. */
  lemma ConceptMatchedEdgeCases(answer: string, concept: KeyConcept)
    ensures |concept.keywords| == 0 ==> !ConceptMatched(answer, concept)
    ensures (exists k :: 0 <= k < |concept.keywords| && Normalize(concept.keywords[k]) == "") ==> ConceptMatched(answer, concept)
  {
    if k :| 0 <= k < |concept.keywords| && Normalize(concept.keywords[k]) == "" {
      EmptyNeedleMatches(answer);
    }
  }

  /** `keyConcepts.map((c) => c.concept)`. */
  function Labels(cs: seq<KeyConcept>): (r: seq<string>)
    ensures |r| == |cs| && forall k :: 0 <= k < |cs| ==> r[k] == cs[k].concept
  {
    seq(|cs|, k requires 0 <= k < |cs| => cs[k].concept)
  }

  /** Which concepts the answer matches, position by position. */
  function MatchMask(answer: string, cs: seq<KeyConcept>): (r: seq<bool>)
    ensures |r| == |cs| && forall k :: 0 <= k < |cs| ==> r[k] == ConceptMatched(answer, cs[k])
  {
    seq(|cs|, k requires 0 <= k < |cs| => ConceptMatched(answer, cs[k]))
  }

  /** The elements of `xs` whose mask bit is `keep`, in their original order. */
  function Select<T>(xs: seq<T>, mask: seq<bool>, keep: bool): (r: seq<T>)
    requires |xs| == |mask|
    ensures |r| <= |xs|
    decreases |xs|
  {
    if |xs| == 0 then []
    else (if mask[0] == keep then [xs[0]] else []) + Select(xs[1..], mask[1..], keep)
  }

  /** `xs` is an order-preserving merge of `ys` and `zs`. */
  ghost predicate IsInterleaving<T>(xs: seq<T>, ys: seq<T>, zs: seq<T>)
    decreases |xs|
  {
    if |xs| == 0 then ys == [] && zs == []
    else
      || (|ys| > 0 && ys[0] == xs[0] && IsInterleaving(xs[1..], ys[1..], zs))
      || (|zs| > 0 && zs[0] == xs[0] && IsInterleaving(xs[1..], ys, zs[1..]))
  }

  /** Selecting by a mask and by its complement splits a list into two parts
      that merge back into it in order; every selected element sits at a
      position carrying the selected bit. */
  lemma {:induction false} SelectPartitions<T>(xs: seq<T>, mask: seq<bool>)
    requires |xs| == |mask|
    ensures IsInterleaving(xs, Select(xs, mask, true), Select(xs, mask, false))
    ensures |Select(xs, mask, true)| + |Select(xs, mask, false)| == |xs|
    ensures forall b: bool, y :: y in Select(xs, mask, b) ==> exists k :: 0 <= k < |xs| && mask[k] == b && xs[k] == y
    decreases |xs|
  {
    if |xs| > 0 {
      SelectPartitions(xs[1..], mask[1..]);
      var t, f := Select(xs[1..], mask[1..], true), Select(xs[1..], mask[1..], false);
      if mask[0] {
        assert Select(xs, mask, true) == [xs[0]] + t && Select(xs, mask, false) == f;
        assert ([xs[0]] + t)[1..] == t;
      } else {
        assert Select(xs, mask, true) == t && Select(xs, mask, false) == [xs[0]] + f;
        assert ([xs[0]] + f)[1..] == f;
      }
      forall b: bool, y | y in Select(xs, mask, b)
        ensures exists k :: 0 <= k < |xs| && mask[k] == b && xs[k] == y
      {
        if mask[0] == b && y == xs[0] {
          assert mask[0] == b && xs[0] == y;
        } else {
          assert y in Select(xs[1..], mask[1..], b);
          var k :| 0 <= k < |xs| - 1 && mask[1..][k] == b && xs[1..][k] == y;
          assert mask[k + 1] == b && xs[k + 1] == y;
        }
      }
    }
  }

  /** The `for (const concept of keyConcepts)` loop pushing each label onto
      `matched` or `missed`, given whether each concept matched. */
  function PartitionLoop(labels: seq<string>, mask: seq<bool>, matched: seq<string>, missed: seq<string>)
    : (r: (seq<string>, seq<string>))
    requires |labels| == |mask|
    ensures r.0 == matched + Select(labels, mask, true)
    ensures r.1 == missed + Select(labels, mask, false)
    decreases |labels|
  {
    if |labels| == 0 then (matched, missed)
    else
      var l, t, f := labels[0], Select(labels[1..], mask[1..], true), Select(labels[1..], mask[1..], false);
      if mask[0] then
        assert matched + [l] + t == matched + ([l] + t);
        PartitionLoop(labels[1..], mask[1..], matched + [l], missed)
      else
        assert missed + [l] + f == missed + ([l] + f);
        PartitionLoop(labels[1..], mask[1..], matched, missed + [l])
  }

  /* ---------- scoring ---------- */

  /** `Math.ceil(total / 2)` for a non-negative integer. */
  function CeilHalf(n: nat): nat
  {
    (n + 1) / 2
  }

  /** The tri-state policy: no match is incorrect, at least half is correct
      with full credit, anything in between is partial with one point per
      matched concept. The zero-match test comes first, so an empty rubric
      is incorrect although 0 >= ceil(0/2). */
  function Score(matchedCount: nat, total: nat): (r: (AnswerResult, nat, Feedback))
    ensures r.0 == Incorrect <==> matchedCount == 0
    ensures r.0 == Correct <==> matchedCount > 0 && 2 * matchedCount >= total
    ensures r.0 == Incorrect ==> r.1 == 0 && r.2 == NoConceptsMatched
    ensures r.0 == Correct ==> r.1 == total && (r.2 == FullMarks <==> matchedCount == total)
    ensures r.0 == Partial ==> r.1 == matchedCount && r.2 == SomeConceptsCovered
    ensures matchedCount <= total ==> matchedCount <= r.1 <= total || matchedCount == 0
  {
    if matchedCount == 0 then (Incorrect, 0, NoConceptsMatched)
    else if matchedCount >= CeilHalf(total) then
      (Correct, total, if matchedCount == total then FullMarks else CoveredEnough)
    else (Partial, matchedCount, SomeConceptsCovered)
  }

  /** Matching more concepts never earns fewer points. */
  lemma ScoreMonotone(k1: nat, k2: nat, total: nat)
    requires k1 <= k2 <= total
    ensures Score(k1, total).1 <= Score(k2, total).1
  {
  }

  /** `evaluateAnswer`; `expectedAnswer` is accepted and ignored, as in the source. */
  function EvaluateAnswer(studentAnswer: string, keyConcepts: seq<KeyConcept>, expectedAnswer: string, chunkText: string)
    : (r: EvaluationResult)
    ensures r.pointsAvailable == |keyConcepts|
    ensures r.pointsEarned <= r.pointsAvailable
    ensures r.isChunkDump == IsChunkDump(Normalize(studentAnswer), Normalize(chunkText))
    // a dump overrides any keyword match
    ensures r.isChunkDump ==>
      && r.result == Incorrect && r.pointsEarned == 0 && r.feedback == CopiedPassage
      && r.matchedConcepts == [] && r.missedConcepts == Labels(keyConcepts)
    // otherwise matched and missed split the labels in rubric order
    ensures !r.isChunkDump ==>
      var mask := MatchMask(Normalize(studentAnswer), keyConcepts);
      && r.matchedConcepts == Select(Labels(keyConcepts), mask, true)
      && r.missedConcepts == Select(Labels(keyConcepts), mask, false)
    ensures !r.isChunkDump ==>
      var k, n := |r.matchedConcepts|, |keyConcepts|;
      && (r.result == Incorrect <==> k == 0)
      && (r.result == Correct <==> k > 0 && 2 * k >= n)
      && (r.result == Incorrect ==> r.pointsEarned == 0)
      && (r.result == Correct ==> r.pointsEarned == n)
      && (r.result == Partial ==> r.pointsEarned == k)
  {
    var answer := Normalize(studentAnswer);
    var dump := IsChunkDump(answer, Normalize(chunkText));
    if dump then
      EvaluationResult(Incorrect, CopiedPassage, [], Labels(keyConcepts), 0, |keyConcepts|, true)
    else
      Graded(answer, keyConcepts)
  }

  /** The keyword grading `evaluateAnswer` does once the answer is not a
      dump: concepts are split into matched and missed in rubric order and
      the matched count is scored. */
  function Graded(answer: string, keyConcepts: seq<KeyConcept>): (r: EvaluationResult)
    ensures !r.isChunkDump && r.pointsAvailable == |keyConcepts|
    ensures r.pointsEarned <= r.pointsAvailable
    ensures var mask := MatchMask(answer, keyConcepts);
      && r.matchedConcepts == Select(Labels(keyConcepts), mask, true)
      && r.missedConcepts == Select(Labels(keyConcepts), mask, false)
    ensures var k, n := |r.matchedConcepts|, |keyConcepts|;
      && (r.result == Incorrect <==> k == 0)
      && (r.result == Correct <==> k > 0 && 2 * k >= n)
      && (r.result == Incorrect ==> r.pointsEarned == 0)
      && (r.result == Correct ==> r.pointsEarned == n)
      && (r.result == Partial ==> r.pointsEarned == k)
  {
    var totalConcepts := |keyConcepts|;
    var (matched, missed) := PartitionLoop(Labels(keyConcepts), MatchMask(answer, keyConcepts), [], []);
    SelectPartitions(Labels(keyConcepts), MatchMask(answer, keyConcepts));
    var (result, points, feedback) := Score(|matched|, totalConcepts);
    EvaluationResult(result, feedback, matched, missed, points, totalConcepts, false)
  }

  /** An empty rubric is incorrect with zero of zero points, never correct. */
  lemma EmptyRubricIsIncorrect(studentAnswer: string, expectedAnswer: string, chunkText: string)
    ensures var r := EvaluateAnswer(studentAnswer, [], expectedAnswer, chunkText);
      r.result == Incorrect && r.pointsEarned == 0 && r.pointsAvailable == 0
  {
  }
}
