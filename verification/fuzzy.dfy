/** Fuzzy keyword matching: `maxDistance` and `fuzzyContains` in
    lib/evaluate.ts. */
module Fuzzy {
  import opened Strings
  import opened EditDistance

  /** The tolerated edit distance for a keyword word of this length. */
  function MaxDistance(word: string): nat
  {
    if |word| <= 3 then 0
    else if |word| <= 5 then 1
    else if |word| <= 7 then 2
    else 3
  }

  /** The per-word test used by every fuzzy rule: `levenshtein(w, kw) <= maxDistance(kw)`. */
  predicate Within(w: string, kw: string)
  {
    Levenshtein(w, kw) <= MaxDistance(kw)
  }

  /** The tolerance table read as matching behaviour: keywords of at most three
      characters match only themselves, and longer ones allow one, two or three
      edits by length band. A match never differs from the keyword in length by
      more than the tolerance. */
  lemma ToleranceByLength(w: string, kw: string)
    ensures |kw| <= 3 ==> (Within(w, kw) <==> w == kw)
    ensures 4 <= |kw| <= 5 ==> (Within(w, kw) <==> Levenshtein(w, kw) <= 1)
    ensures 6 <= |kw| <= 7 ==> (Within(w, kw) <==> Levenshtein(w, kw) <= 2)
    ensures 8 <= |kw| ==> (Within(w, kw) <==> Levenshtein(w, kw) <= 3)
    ensures Within(w, kw) ==> |kw| - MaxDistance(kw) <= |w| <= |kw| + MaxDistance(kw)
  {
    LevenshteinZeroIffEqual(w, kw);
    LevenshteinAtLeastLengthGap(w, kw);
  }

  /** Some word is within the needle's tolerance. */
  predicate SomeWordWithin(words: seq<string>, needle: string)
  {
    exists k :: 0 <= k < |words| && Within(words[k], needle)
  }

  /** `words.some((w) => levenshtein(w, needle) <= maxDistance(needle))`. */
  function AnyWordWithin(words: seq<string>, needle: string): (r: bool)
    ensures r <==> SomeWordWithin(words, needle)
    decreases |words|
  {
    if |words| == 0 then false
    else if Within(words[0], needle) then true
    else
      var r := AnyWordWithin(words[1..], needle);
      assert forall k :: 1 <= k < |words| ==> words[k] == words[1..][k - 1];
      r
  }

  /** The window of `words` starting at `i` matches the needle word by word. */
  predicate WindowMatchesAt(words: seq<string>, needleWords: seq<string>, i: nat)
    requires i + |needleWords| <= |words|
  {
    forall j :: 0 <= j < |needleWords| ==> Within(words[i + j], needleWords[j])
  }

  /** Some window of consecutive words matches the needle word by word. */
  predicate SomeWindowMatches(words: seq<string>, needleWords: seq<string>)
  {
    exists p :: 0 <= p && p + |needleWords| <= |words| && WindowMatchesAt(words, needleWords, p)
  }

  /** The sliding-window loop from position `i` on. */
  function WindowFrom(words: seq<string>, needleWords: seq<string>, i: nat): (r: bool)
    requires i <= |words|
    ensures r <==> exists p :: i <= p && p + |needleWords| <= |words| && WindowMatchesAt(words, needleWords, p)
    decreases |words| - i
  {
    if i + |needleWords| > |words| then false
    else if WindowMatchesAt(words, needleWords, i) then true
    else WindowFrom(words, needleWords, i + 1)
  }

  /** The greedy subsequence loop: `ni` counts the needle words matched so
      far; each haystack word, in order, advances it when within tolerance of
      the next unmatched needle word. */
  function GreedyScan(words: seq<string>, needleWords: seq<string>, ni: nat): (r: nat)
    requires ni <= |needleWords|
    ensures ni <= r <= |needleWords|
    decreases |words|
  {
    if |words| == 0 then ni
    else if ni < |needleWords| && Within(words[0], needleWords[ni]) then GreedyScan(words[1..], needleWords, ni + 1)
    else GreedyScan(words[1..], needleWords, ni)
  }

  /** `idx` places the needle words at strictly increasing haystack positions,
      each needle word within tolerance of the haystack word it lands on. */
  ghost predicate IsEmbedding(words: seq<string>, needleWords: seq<string>, idx: seq<int>)
  {
    && |idx| == |needleWords|
    && (forall k :: 0 <= k < |idx| ==> 0 <= idx[k] < |words| && Within(words[idx[k]], needleWords[k]))
    && (forall k :: 0 <= k < |idx| - 1 ==> idx[k] < idx[k + 1])
  }

  /** The needle words fuzzily occur in order, not necessarily adjacent. */
  ghost predicate Embeds(words: seq<string>, needleWords: seq<string>)
  {
    exists idx :: IsEmbedding(words, needleWords, idx)
  }

  function Shift(idx: seq<int>, d: int): (r: seq<int>)
    ensures |r| == |idx| && forall k :: 0 <= k < |idx| ==> r[k] == idx[k] + d
  {
    seq(|idx|, k requires 0 <= k < |idx| => idx[k] + d)
  }

  /** In a strictly increasing index list, later entries are larger by at
      least their distance. */
  lemma {:induction false} IncreasingSpread(idx: seq<int>, a: nat, b: nat)
    requires a <= b < |idx|
    requires forall k :: 0 <= k < |idx| - 1 ==> idx[k] < idx[k + 1]
    ensures idx[b] >= idx[a] + (b - a)
    decreases b - a
  {
    if a < b {
      IncreasingSpread(idx, a, b - 1);
    }
  }

  /** Putting a word in front of the haystack keeps every embedding. */
  lemma EmbedsUnderPrefix(w: string, words: seq<string>, needleWords: seq<string>)
    requires Embeds(words, needleWords)
    ensures Embeds([w] + words, needleWords)
  {
    var idx :| IsEmbedding(words, needleWords, idx);
    assert IsEmbedding([w] + words, needleWords, Shift(idx, 1));
  }

  /** A first haystack word matching the first needle word extends any
      embedding of the rest. */
  lemma EmbedsCons(words: seq<string>, needleWords: seq<string>)
    requires |words| > 0 && |needleWords| > 0 && Within(words[0], needleWords[0])
    requires Embeds(words[1..], needleWords[1..])
    ensures Embeds(words, needleWords)
  {
    var idx :| IsEmbedding(words[1..], needleWords[1..], idx);
    var idx' := [0] + Shift(idx, 1);
    assert IsEmbedding(words, needleWords, idx');
  }

  /** An embedding whose first needle word sits at haystack position 1 or
      later is an embedding into the haystack without its first word. */
  lemma EmbedsDropUnused(words: seq<string>, needleWords: seq<string>, idx: seq<int>)
    requires |words| > 0 && IsEmbedding(words, needleWords, idx)
    requires |idx| > 0 ==> idx[0] > 0
    ensures Embeds(words[1..], needleWords)
  {
    forall k | 0 <= k < |idx| ensures idx[k] >= idx[0] {
      IncreasingSpread(idx, 0, k);
    }
    assert IsEmbedding(words[1..], needleWords, Shift(idx, -1));
  }

  /** A non-empty needle only embeds into a non-empty haystack. */
  lemma EmbedsNeedsWords(words: seq<string>, needleWords: seq<string>)
    ensures Embeds(words, needleWords) && |needleWords| > 0 ==> |words| > 0
  {
    if Embeds(words, needleWords) && |needleWords| > 0 {
      var idx :| IsEmbedding(words, needleWords, idx);
      assert 0 <= idx[0] < |words|;
    }
  }

  /** The greedy loop succeeds exactly when an order-preserving fuzzy
      embedding of the remaining needle words exists. */
  lemma {:induction false} GreedyScanIffEmbeds(words: seq<string>, needleWords: seq<string>, ni: nat)
    requires ni <= |needleWords|
    ensures GreedyScan(words, needleWords, ni) == |needleWords| <==> Embeds(words, needleWords[ni..])
    decreases |words|
  {
    var rest := needleWords[ni..];
    if ni == |needleWords| {
      assert IsEmbedding(words, rest, []);
    } else if |words| == 0 {
      EmbedsNeedsWords(words, rest);
    } else if Within(words[0], needleWords[ni]) {
      GreedyScanIffEmbeds(words[1..], needleWords, ni + 1);
      assert rest[1..] == needleWords[ni + 1..];
      if Embeds(words[1..], rest[1..]) {
        EmbedsCons(words, rest);
      }
      if Embeds(words, rest) {
        var idx :| IsEmbedding(words, rest, idx);
        // re-anchor the first needle word at position 0 and drop it
        var tail := Shift(idx[1..], -1);
        forall k | 1 <= k < |idx| ensures idx[k] >= 1 {
          IncreasingSpread(idx, 0, k);
        }
        assert IsEmbedding(words[1..], rest[1..], tail);
      }
    } else {
      GreedyScanIffEmbeds(words[1..], needleWords, ni);
      if Embeds(words[1..], rest) {
        EmbedsUnderPrefix(words[0], words[1..], rest);
        assert [words[0]] + words[1..] == words;
      }
      if Embeds(words, rest) {
        var idx :| IsEmbedding(words, rest, idx);
        assert idx[0] != 0;
        EmbedsDropUnused(words, rest, idx);
      }
    }
  }

  /** The multi-word rules of `fuzzyContains`: a sliding window whose words
      match one by one, then, for 2 to 4 words, the in-order scan. */
  function MultiWordMatch(words: seq<string>, needleWords: seq<string>): (r: bool)
    ensures r <==> SomeWindowMatches(words, needleWords) || (2 <= |needleWords| <= 4 && Embeds(words, needleWords))
  {
    if WindowFrom(words, needleWords, 0) then true
    else if 2 <= |needleWords| <= 4 then
      GreedyScanIffEmbeds(words, needleWords, 0);
      assert needleWords[0..] == needleWords;
      GreedyScan(words, needleWords, 0) == |needleWords|
    else false
  }

  /** `fuzzyContains(haystack, needle)`. */
  function FuzzyContains(haystack: string, needle: string): (r: bool)
    // the substring rule comes first, so an empty needle always matches
    ensures Contains(haystack, needle) ==> r
    // one-word needle: substring, or some haystack word within tolerance
    ensures |Split(needle, ' ')| == 1 ==>
      (r <==> Contains(haystack, needle) || SomeWordWithin(Split(haystack, ' '), needle))
    // several words: substring, a matching window, or (2 to 4 words) an in-order embedding
    ensures |Split(needle, ' ')| > 1 ==>
      var words, needleWords := Split(haystack, ' '), Split(needle, ' ');
      (r <==> Contains(haystack, needle)
              || SomeWindowMatches(words, needleWords)
              || (2 <= |needleWords| <= 4 && Embeds(words, needleWords)))
  {
    if Contains(haystack, needle) then true
    else
      var words := Split(haystack, ' ');
      var needleWords := Split(needle, ' ');
      if |needleWords| == 1 then AnyWordWithin(words, needle)
      else MultiWordMatch(words, needleWords)
  }

  /** An empty keyword matches every answer. */
  lemma EmptyNeedleMatches(haystack: string)
    ensures FuzzyContains(haystack, "")
  {
    assert "" <= haystack[0..];
  }
}
