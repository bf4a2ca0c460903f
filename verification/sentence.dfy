/** `parseSentence` in components/DragDropCard.tsx: a fill-in-the-blank
    template such as "Bees make __1__ from __2__." is cut into text pieces and
    numbered blanks. */
module Sentence {
  import Strings

  datatype Segment = Text(value: string) | Blank(index: int)

  predicate IsDigit(c: char)
  {
    '0' <= c <= '9'
  }

  predicate AllDigits(ds: string)
  {
    forall k :: 0 <= k < |ds| ==> IsDigit(ds[k])
  }

  /** A whole-string match of `/^__(\d+)__$/`. */
  predicate IsBlankToken(t: string)
  {
    && |t| >= 5
    && t[0] == '_' && t[1] == '_'
    && t[|t| - 2] == '_' && t[|t| - 1] == '_'
    && AllDigits(t[2..|t| - 2])
  }

  /** The number of consecutive digits starting at `p`. */
  function DigitRun(s: string, p: nat): (k: nat)
    requires p <= |s|
    ensures p + k <= |s|
    ensures forall q :: p <= q < p + k ==> IsDigit(s[q])
    ensures p + k == |s| || !IsDigit(s[p + k])
    decreases |s| - p
  {
    if p < |s| && IsDigit(s[p]) then 1 + DigitRun(s, p + 1) else 0
  }

  /** A digit run ending just before a non-digit has exactly that length. */
  lemma {:induction false} DigitRunExact(s: string, q: nat, n: nat)
    requires q + n < |s|
    requires forall i :: q <= i < q + n ==> IsDigit(s[i])
    requires !IsDigit(s[q + n])
    ensures DigitRun(s, q) == n
    decreases n
  {
    if n > 0 {
      DigitRunExact(s, q + 1, n - 1);
    }
  }

  /** A blank token at `p` reaching to `e` is exactly two underscores, the
      digit run at `p + 2`, and two more underscores. */
  lemma TokenShape(s: string, p: nat, e: nat)
    requires p < e <= |s| && IsBlankToken(s[p..e])
    ensures s[p] == '_' && s[p + 1] == '_'
    ensures e - p >= 5 && DigitRun(s, p + 2) == e - p - 4
    ensures s[e - 2] == '_' && s[e - 1] == '_'
  {
    var t := s[p..e];
    assert forall i :: p + 2 <= i < e - 2 ==> s[i] == t[2..|t| - 2][i - p - 2];
    DigitRunExact(s, p + 2, e - p - 4);
  }

  lemma TokenFromRun(s: string, p: nat, k: nat)
    requires k >= 1 && p + 4 + k <= |s|
    requires s[p] == '_' && s[p + 1] == '_' && s[p + 2 + k] == '_' && s[p + 3 + k] == '_'
    requires forall q :: p + 2 <= q < p + 2 + k ==> IsDigit(s[q])
    ensures IsBlankToken(s[p..p + 4 + k])
  {
    var t := s[p..p + 4 + k];
    var ds := t[2..|t| - 2];
    assert forall i :: 0 <= i < |ds| ==> ds[i] == s[p + 2 + i];
  }

  /** No blank token starts at `p`. */
  predicate NoTokenAt(s: string, p: nat)
    requires p <= |s|
  {
    forall e :: p < e <= |s| ==> !IsBlankToken(s[p..e])
  }

  /** The length of the match of `__\d+__` at position `p`, 0 if there is
      none. The digits cannot be followed by more digits inside the match, so
      at most one match starts at any position. */
  function TokenAt(s: string, p: nat): (len: nat)
    requires p <= |s|
    ensures len > 0 ==> p + len <= |s| && IsBlankToken(s[p..p + len])
    ensures len == 0 ==> NoTokenAt(s, p)
  {
    if p + 2 <= |s| && s[p] == '_' && s[p + 1] == '_' then
      var k := DigitRun(s, p + 2);
      if k >= 1 && p + 4 + k <= |s| && s[p + 2 + k] == '_' && s[p + 3 + k] == '_' then
        TokenFromRun(s, p, k);
        4 + k
      else
        NoTokenWithoutShape(s, p);
        0
    else
      NoTokenWithoutShape(s, p);
      0
  }

  /** Where the text does not have the shape `__`, digit run, `__`, no blank
      token starts. */
  lemma NoTokenWithoutShape(s: string, p: nat)
    requires p <= |s|
    requires !(p + 2 <= |s| && s[p] == '_' && s[p + 1] == '_'
               && var k := DigitRun(s, p + 2); k >= 1 && p + 4 + k <= |s| && s[p + 2 + k] == '_' && s[p + 3 + k] == '_')
    ensures NoTokenAt(s, p)
  {
    forall e | p < e <= |s|
      ensures !IsBlankToken(s[p..e])
    {
      if IsBlankToken(s[p..e]) {
        TokenShape(s, p, e);
      }
    }
  }

  /** `parts.join("")`, folded from the front so that a split step peels
      off one piece; `ConcatIsJoin` shows it is `Join` with no separator. */
  function Concat(parts: seq<string>): string
    decreases |parts|
  {
    if |parts| == 0 then "" else parts[0] + Concat(parts[1..])
  }

  lemma {:induction false} ConcatIsJoin(parts: seq<string>)
    ensures Concat(parts) == Strings.Join(parts, "")
    decreases |parts|
  {
    if |parts| == 1 {
      assert Concat(parts[1..]) == "";
      assert parts[0] + "" == parts[0];
    } else if |parts| > 1 {
      ConcatIsJoin(parts[1..]);
      assert parts[0] + "" + Strings.Join(parts[1..], "") == parts[0] + Strings.Join(parts[1..], "");
    }
  }

  /** Text pieces (never a whole blank) at even positions and blanks at odd
      ones, with one more text piece than blanks. */
  predicate Alternates(parts: seq<string>)
  {
    && |parts| % 2 == 1
    && forall k :: 0 <= k < |parts| ==> (IsBlankToken(parts[k]) <==> k % 2 == 1)
  }

  lemma AlternatesCons(text: string, blank: string, rest: seq<string>)
    requires !IsBlankToken(text) && IsBlankToken(blank) && Alternates(rest)
    ensures Alternates([text, blank] + rest)
    ensures Concat([text, blank] + rest) == text + blank + Concat(rest)
  {
    var parts := [text, blank] + rest;
    assert forall k :: 2 <= k < |parts| ==> parts[k] == rest[k - 2];
    assert parts[1..] == [blank] + rest && ([blank] + rest)[1..] == rest;
  }

  /** No blank token starts anywhere in `[start, p)`. */
  predicate NoTokenIn(s: string, start: nat, p: nat)
    requires start <= p <= |s|
  {
    forall i :: start <= i < p ==> NoTokenAt(s, i)
  }

  /** Scanning past a position where no token starts. */
  lemma NoTokenInStep(s: string, start: nat, p: nat)
    requires start <= p < |s|
    requires NoTokenIn(s, start, p) && NoTokenAt(s, p)
    ensures NoTokenIn(s, start, p + 1)
  {
  }

  /** No `__\d+__` occurs anywhere inside `t`. */
  predicate TokenFree(t: string)
  {
    forall i, e :: 0 <= i < e <= |t| ==> !IsBlankToken(t[i..e])
  }

  /** The text before the next match holds no blank token anywhere, so in
      particular it is not itself one. */
  lemma TextPiece(s: string, start: nat, p: nat)
    requires start <= p <= |s|
    requires NoTokenIn(s, start, p)
    ensures TokenFree(s[start..p])
    ensures !IsBlankToken(s[start..p])
  {
    var t := s[start..p];
    forall i, e | 0 <= i < e <= |t|
      ensures !IsBlankToken(t[i..e])
    {
      NoTokenInside(s, start, p, i, e);
    }
    if start < p {
      assert t[0..|t|] == t;
    }
  }

  lemma NoTokenInside(s: string, start: nat, p: nat, i: nat, e: nat)
    requires start <= p <= |s| && NoTokenIn(s, start, p)
    requires i < e <= p - start
    ensures !IsBlankToken(s[start..p][i..e])
  {
    SliceOfSlice(s, start, p, i, e);
    assert NoTokenAt(s, start + i);
  }

  lemma SliceOfSlice(s: string, a: nat, b: nat, i: nat, e: nat)
    requires a <= b <= |s| && i <= e <= b - a
    ensures s[a..b][i..e] == s[a + i..a + e]
  {
    assert forall k :: 0 <= k < e - i ==> s[a..b][i..e][k] == s[a + i + k];
  }

  /** Every text piece (even position) is free of blank tokens. */
  predicate TextPiecesFree(parts: seq<string>)
  {
    forall k :: 0 <= k < |parts| && k % 2 == 0 ==> TokenFree(parts[k])
  }

  lemma TextPiecesFreeCons(text: string, blank: string, rest: seq<string>)
    requires TokenFree(text) && TextPiecesFree(rest)
    ensures TextPiecesFree([text, blank] + rest)
  {
    var parts := [text, blank] + rest;
    assert forall k :: 2 <= k < |parts| ==> parts[k] == rest[k - 2];
  }

  /** `sentence.split(/(__\d+__)/g)`: the text before each leftmost match,
      then the match itself (the captured group), and finally the rest of the
      text. The pieces glue back to the sentence. `start` is where the current
      text piece began and `p` the next position to try. */
  function SplitOnBlanks(s: string, start: nat, p: nat): (parts: seq<string>)
    requires start <= p <= |s|
    requires NoTokenIn(s, start, p)
    ensures Alternates(parts)
    ensures Concat(parts) == s[start..]
    decreases |s| - p
  {
    if p == |s| then
      TextPiece(s, start, p);
      assert s[start..p] == s[start..];
      [s[start..]]
    else
      var len := TokenAt(s, p);
      if len > 0 then
        var rest := SplitOnBlanks(s, p + len, p + len);
        FoundStep(s, start, p, len, rest);
        [s[start..p], s[p..p + len]] + rest
      else
        NoTokenInStep(s, start, p);
        SplitOnBlanks(s, start, p + 1)
  }

  /** The pieces of one split step: the text up to the blank, the blank, and
      the pieces of the rest. */
  lemma FoundStep(s: string, start: nat, p: nat, len: nat, rest: seq<string>)
    requires start <= p && p + len <= |s|
    requires NoTokenIn(s, start, p)
    requires IsBlankToken(s[p..p + len])
    requires Alternates(rest) && Concat(rest) == s[p + len..]
    ensures Alternates([s[start..p], s[p..p + len]] + rest)
    ensures Concat([s[start..p], s[p..p + len]] + rest) == s[start..]
  {
    TextPiece(s, start, p);
    AlternatesCons(s[start..p], s[p..p + len], rest);
    assert s[start..] == s[start..p] + s[p..p + len] + s[p + len..];
  }

  /** `parseInt(ds, 10)` for a string of decimal digits. */
  function ParseDigits(ds: string): nat
    requires AllDigits(ds)
    decreases |ds|
  {
    if |ds| == 0 then 0
    else 10 * ParseDigits(ds[..|ds| - 1]) + (ds[|ds| - 1] as int - '0' as int)
  }

  /** One non-empty piece: a blank `__N__` becomes blank number N - 1 (so
      `__0__` gives -1), anything else is text. */
  function Classify(part: string): (seg: Segment)
    ensures seg.Blank? <==> IsBlankToken(part)
    ensures seg.Text? ==> seg.value == part
    ensures seg.Blank? ==> seg.index >= -1 && seg.index == ParseDigits(part[2..|part| - 2]) - 1
  {
    if IsBlankToken(part) then Blank(ParseDigits(part[2..|part| - 2]) - 1) else Text(part)
  }

  /** `.filter((p) => p !== "").map(...)`: one segment per non-empty piece,
      in order (`SegmentsOne` and `SegmentsAppend` pin this down). */
  function Segments(parts: seq<string>): (segs: seq<Segment>)
    ensures |segs| <= |parts|
    ensures forall k :: 0 <= k < |segs| && segs[k].Text? ==> segs[k].value != "" && !IsBlankToken(segs[k].value)
    ensures forall k :: 0 <= k < |segs| && segs[k].Blank? ==> segs[k].index >= -1
    decreases |parts|
  {
    if |parts| == 0 then []
    else (if parts[0] == "" then [] else [Classify(parts[0])]) + Segments(parts[1..])
  }

  /** The empty piece is dropped and any other piece is classified. */
  lemma SegmentsOne(t: string)
    ensures Segments([t]) == if t == "" then [] else [Classify(t)]
  {
    assert [t][1..] == [];
  }

  /** No two text segments follow each other. */
  predicate NoAdjacentText(segs: seq<Segment>)
  {
    forall k :: 0 <= k < |segs| - 1 ==> !(segs[k].Text? && segs[k + 1].Text?)
  }

  lemma {:induction false} SegmentsAlternate(parts: seq<string>)
    requires Alternates(parts)
    ensures NoAdjacentText(Segments(parts))
    decreases |parts|
  {
    if |parts| > 1 {
      var rest := parts[2..];
      assert forall k :: 0 <= k < |rest| ==> rest[k] == parts[k + 2];
      SegmentsAlternate(rest);
      assert parts[1..][1..] == rest;
      var head := if parts[0] == "" then [] else [Classify(parts[0])];
      assert Segments(parts) == head + [Classify(parts[1])] + Segments(rest);
      assert Classify(parts[1]).Blank?;
    }
  }

  /** Every text segment is free of blank tokens. */
  predicate TextSegmentsFree(segs: seq<Segment>)
  {
    forall k :: 0 <= k < |segs| && segs[k].Text? ==> TokenFree(segs[k].value)
  }

  /** Pieces that are not blanks lie at even positions, so they are free of
      blank tokens. */
  lemma OddPiecesAreBlanks(parts: seq<string>)
    requires Alternates(parts) && TextPiecesFree(parts)
    ensures forall k :: 0 <= k < |parts| && !IsBlankToken(parts[k]) ==> TokenFree(parts[k])
  {
  }

  /** Text segments come from non-blank pieces, and keep their contents. */
  lemma {:induction false} SegmentsTextFree(parts: seq<string>)
    requires forall k :: 0 <= k < |parts| && !IsBlankToken(parts[k]) ==> TokenFree(parts[k])
    ensures TextSegmentsFree(Segments(parts))
    decreases |parts|
  {
    if |parts| > 0 {
      var rest := parts[1..];
      assert forall k :: 0 <= k < |rest| ==> rest[k] == parts[k + 1];
      SegmentsTextFree(rest);
      var head := if parts[0] == "" then [] else [Classify(parts[0])];
      var tail := Segments(rest);
      assert Segments(parts) == head + tail;
      assert forall k :: |head| <= k < |head| + |tail| ==> (head + tail)[k] == tail[k - |head|];
    }
  }

  /** `parseSentence`. Text segments are never empty, never two in a row, and
      contain no blank token anywhere; blank numbers are at least -1. */
  function ParseSentence(sentence: string): (segs: seq<Segment>)
    ensures forall k :: 0 <= k < |segs| && segs[k].Text? ==> segs[k].value != "" && !IsBlankToken(segs[k].value)
    ensures TextSegmentsFree(segs)
    ensures forall k :: 0 <= k < |segs| && segs[k].Blank? ==> segs[k].index >= -1
    ensures NoAdjacentText(segs)
  {
    var parts := SplitOnBlanks(sentence, 0, 0);
    SegmentsAlternate(parts);
    SplitTextFree(sentence, 0, 0);
    OddPiecesAreBlanks(parts);
    SegmentsTextFree(parts);
    Segments(parts)
  }

  /* ---------- rendering back ---------- */

  function DigitChar(d: nat): char
    requires d < 10
  {
    ('0' as int + d) as char
  }

  /** Decimal notation of a natural number. */
  function ShowNat(n: nat): string
    decreases n
  {
    if n < 10 then [DigitChar(n)] else ShowNat(n / 10) + [DigitChar(n % 10)]
  }

  /** Decimal notation of an integer, as a template literal prints it. */
  function ShowInt(n: int): string
  {
    if n < 0 then "-" + ShowNat(-n) else ShowNat(n)
  }

  /** Text as itself, blank `i` as `__(i+1)__`. */
  function RenderSegment(seg: Segment): string
  {
    match seg
    case Text(v) => v
    case Blank(i) => "__" + ShowInt(i + 1) + "__"
  }

  /** The segments printed one after another. */
  function Render(segs: seq<Segment>): string
    decreases |segs|
  {
    if |segs| == 0 then "" else RenderSegment(segs[0]) + Render(segs[1..])
  }

  /** A blank token starts at `p` and its number has a leading zero. */
  predicate LeadingZeroAt(s: string, p: nat)
    requires p <= |s|
  {
    var len := TokenAt(s, p);
    len > 0 && !CanonicalBlank(s[p..p + len])
  }

  /** No blank token in the sentence has its number written with a leading
      zero. Text that is not a blank, such as `__05x`, may hold `__0`. */
  predicate NoLeadingZeroBlanks(s: string)
  {
    forall p: nat :: p <= |s| ==> !LeadingZeroAt(s, p)
  }

  lemma {:induction false} ParseDigitsPositive(ds: string)
    requires |ds| > 0 && AllDigits(ds) && ds[0] != '0'
    ensures ParseDigits(ds) >= 1
    decreases |ds|
  {
    if |ds| > 1 {
      ParseDigitsPositive(ds[..|ds| - 1]);
    }
  }

  /** Printing a parsed digit string gives it back unless it had a leading zero. */
  lemma {:induction false} ShowParseDigits(ds: string)
    requires |ds| > 0 && AllDigits(ds) && (ds[0] != '0' || |ds| == 1)
    ensures ShowNat(ParseDigits(ds)) == ds
    decreases |ds|
  {
    if |ds| > 1 {
      var init := ds[..|ds| - 1];
      ParseDigitsPositive(init);
      ShowParseDigits(init);
      assert ds == init + [ds[|ds| - 1]];
    }
  }

  lemma {:induction false} SegmentsAppend(a: seq<string>, b: seq<string>)
    ensures Segments(a + b) == Segments(a) + Segments(b)
    decreases |a|
  {
    if |a| == 0 {
      assert a + b == b;
    } else {
      var h := if a[0] == "" then [] else [Classify(a[0])];
      assert (a + b)[0] == a[0] && (a + b)[1..] == a[1..] + b;
      SegmentsAppend(a[1..], b);
      assert Segments(a + b) == h + Segments(a[1..] + b);
      assert Segments(a) == h + Segments(a[1..]);
    }
  }

  lemma {:induction false} RenderAppend(a: seq<Segment>, b: seq<Segment>)
    ensures Render(a + b) == Render(a) + Render(b)
    decreases |a|
  {
    if |a| == 0 {
      assert a + b == b;
    } else {
      assert (a + b)[0] == a[0] && (a + b)[1..] == a[1..] + b;
      RenderAppend(a[1..], b);
    }
  }

  /** The blank's number is written without a leading zero. */
  predicate CanonicalBlank(t: string)
    requires IsBlankToken(t)
  {
    t[2] != '0' || |t| == 5
  }

  lemma RenderTextPart(t: string)
    requires !IsBlankToken(t)
    ensures Render(Segments([t])) == t
  {
    assert Segments([t]) == (if t == "" then [] else [Text(t)]) + Segments([]);
  }

  lemma RenderOne(seg: Segment)
    ensures Render([seg]) == RenderSegment(seg)
  {
    assert [seg][1..] == [];
  }

  /** A blank token piece becomes one blank segment. */
  lemma BlankPartSegment(t: string)
    requires IsBlankToken(t)
    ensures Segments([t]) == [Blank(ParseDigits(t[2..|t| - 2]) - 1)]
  {
    assert Segments([t]) == [Classify(t)] + Segments([]);
  }

  /** A blank numbered without a leading zero prints back as written. */
  lemma RenderBlankDigits(ds: string)
    requires |ds| > 0 && AllDigits(ds) && (ds[0] != '0' || |ds| == 1)
    ensures RenderSegment(Blank(ParseDigits(ds) - 1)) == "__" + ds + "__"
  {
    ShowParseDigits(ds);
  }

  lemma RenderBlankPart(t: string)
    requires IsBlankToken(t) && CanonicalBlank(t)
    ensures Render(Segments([t])) == t
  {
    var ds := t[2..|t| - 2];
    assert ds[0] == t[2];
    assert |ds| > 1 ==> IsDigit(ds[1]);
    BlankPartSegment(t);
    RenderOne(Blank(ParseDigits(ds) - 1));
    RenderBlankDigits(ds);
    assert t == "__" + ds + "__";
  }

  /** When every piece renders back to itself, so does the whole list. */
  lemma {:induction false} RenderSegmentsConcat(parts: seq<string>)
    requires forall k :: 0 <= k < |parts| ==> Render(Segments([parts[k]])) == parts[k]
    ensures Render(Segments(parts)) == Concat(parts)
    decreases |parts|
  {
    if |parts| > 0 {
      var head, tail := parts[0], parts[1..];
      assert parts == [head] + tail;
      assert forall k :: 0 <= k < |tail| ==> tail[k] == parts[k + 1];
      RenderSegmentsConcat(tail);
      SegmentsAppend([head], tail);
      RenderAppend(Segments([head]), Segments(tail));
      assert Render(Segments([head])) == head;
    }
  }

  predicate BlanksCanonical(parts: seq<string>)
  {
    forall k :: 0 <= k < |parts| && IsBlankToken(parts[k]) ==> CanonicalBlank(parts[k])
  }

  lemma BlanksCanonicalCons(text: string, blank: string, rest: seq<string>)
    requires !IsBlankToken(text) && IsBlankToken(blank) && CanonicalBlank(blank)
    requires BlanksCanonical(rest)
    ensures BlanksCanonical([text, blank] + rest)
  {
    var parts := [text, blank] + rest;
    assert forall k :: 2 <= k < |parts| ==> parts[k] == rest[k - 2];
  }

  lemma BlanksCanonicalText(text: string)
    requires !IsBlankToken(text)
    ensures BlanksCanonical([text])
  {
  }

  /** A blank found in a sentence without leading zeros is canonical. */
  lemma FoundBlankCanonical(s: string, p: nat, len: nat)
    requires NoLeadingZeroBlanks(s)
    requires p <= |s| && TokenAt(s, p) == len > 0
    ensures CanonicalBlank(s[p..p + len])
  {
    assert !LeadingZeroAt(s, p);
  }

  /** One step of the split when a blank is found at `p`, reaching to `q`. */
  lemma SplitFound(s: string, start: nat, p: nat, q: nat)
    requires start <= p < q <= |s|
    requires NoTokenIn(s, start, p)
    requires TokenAt(s, p) == q - p
    ensures SplitOnBlanks(s, start, p) == [s[start..p], s[p..q]] + SplitOnBlanks(s, q, q)
  {
    var len := TokenAt(s, p);
    assert p + len == q;
  }

  lemma SplitSkip(s: string, start: nat, p: nat)
    requires start <= p < |s|
    requires NoTokenIn(s, start, p)
    requires TokenAt(s, p) == 0
    ensures SplitOnBlanks(s, start, p) == SplitOnBlanks(s, start, p + 1)
  {
  }

  lemma SplitEnd(s: string, start: nat)
    requires start <= |s|
    requires NoTokenIn(s, start, |s|)
    ensures SplitOnBlanks(s, start, |s|) == [s[start..]]
    ensures !IsBlankToken(s[start..])
  {
  }

  lemma CanonicalAfterFound(s: string, start: nat, p: nat, q: nat)
    requires start <= p < q <= |s|
    requires NoTokenIn(s, start, p)
    requires TokenAt(s, p) == q - p && NoLeadingZeroBlanks(s)
    requires BlanksCanonical(SplitOnBlanks(s, q, q))
    ensures BlanksCanonical(SplitOnBlanks(s, start, p))
  {
    var text, blank, rest := s[start..p], s[p..q], SplitOnBlanks(s, q, q);
    TextPiece(s, start, p);
    FoundBlankCanonical(s, p, q - p);
    BlanksCanonicalCons(text, blank, rest);
    SplitFound(s, start, p, q);
  }

  lemma CanonicalAtEnd(s: string, start: nat)
    requires start <= |s|
    requires NoTokenIn(s, start, |s|)
    ensures BlanksCanonical(SplitOnBlanks(s, start, |s|))
  {
    SplitEnd(s, start);
    BlanksCanonicalText(s[start..]);
  }

  /** No text piece of the split contains a blank token anywhere: the split
      stops at the leftmost match, and every position it scanned past was
      free of one. */
  lemma {:induction false} SplitTextFree(s: string, start: nat, p: nat)
    requires start <= p <= |s|
    requires NoTokenIn(s, start, p)
    ensures TextPiecesFree(SplitOnBlanks(s, start, p))
    decreases |s| - p
  {
    if p == |s| {
      SplitEnd(s, start);
      TextPiece(s, start, p);
      assert s[start..p] == s[start..];
    } else if TokenAt(s, p) > 0 {
      var q := p + TokenAt(s, p);
      SplitTextFree(s, q, q);
      SplitFound(s, start, p, q);
      TextPiece(s, start, p);
      TextPiecesFreeCons(s[start..p], s[p..q], SplitOnBlanks(s, q, q));
    } else {
      NoTokenInStep(s, start, p);
      SplitSkip(s, start, p);
      SplitTextFree(s, start, p + 1);
    }
  }

  /* ---------- the split is at the leftmost matches ---------- */

  /** `text` sits at `pos` and no blank token starts inside it. */
  predicate TokenFreeAt(s: string, pos: nat, text: string)
  {
    pos + |text| <= |s| && s[pos..pos + |text|] == text && NoTokenIn(s, pos, pos + |text|)
  }

  /** `blank` is a whole blank token sitting at `q`. */
  predicate MatchAt(s: string, q: nat, blank: string)
  {
    q + |blank| <= |s| && s[q..q + |blank|] == blank && IsBlankToken(blank)
  }

  /** At most one blank token starts at any position. */
  lemma TokenUnique(s: string, q: nat, e1: nat, e2: nat)
    requires q < e1 <= |s| && q < e2 <= |s|
    requires IsBlankToken(s[q..e1]) && IsBlankToken(s[q..e2])
    ensures e1 == e2
  {
    TokenShape(s, q, e1);
    TokenShape(s, q, e2);
  }

  /** `parts` cuts `s` from `pos` at the leftmost matches of `__\d+__`: a
      text piece in which no blank token starts, then the blank token that
      starts right after it, and so on, ending with a text piece that runs
      to the end. This is what `split(/(__\d+__)/g)` returns, stated without
      the scan. */
  predicate LeftmostSplit(s: string, pos: nat, parts: seq<string>)
    decreases |parts|
  {
    && |parts| % 2 == 1
    && TokenFreeAt(s, pos, parts[0])
    && if |parts| == 1 then pos + |parts[0]| == |s|
       else MatchAt(s, pos + |parts[0]|, parts[1]) && LeftmostSplit(s, pos + |parts[0]| + |parts[1]|, parts[2..])
  }

  lemma LeftmostLast(s: string, pos: nat)
    requires pos <= |s| && NoTokenIn(s, pos, |s|)
    ensures LeftmostSplit(s, pos, [s[pos..]])
  {
    assert s[pos..pos + |s[pos..]|] == s[pos..];
  }

  /** One step of the scan, in terms of positions. */
  lemma LeftmostFound(s: string, start: nat, p: nat, q: nat, rest: seq<string>)
    requires start <= p < q <= |s| && NoTokenIn(s, start, p)
    requires IsBlankToken(s[p..q]) && LeftmostSplit(s, q, rest)
    ensures LeftmostSplit(s, start, [s[start..p], s[p..q]] + rest)
  {
    var text, blank := s[start..p], s[p..q];
    assert |text| == p - start && |blank| == q - p;
    assert TokenFreeAt(s, start, text);
    assert MatchAt(s, p, blank);
    LeftmostCons(s, start, text, blank, rest);
  }

  lemma LeftmostCons(s: string, pos: nat, text: string, blank: string, rest: seq<string>)
    requires TokenFreeAt(s, pos, text) && MatchAt(s, pos + |text|, blank)
    requires LeftmostSplit(s, pos + |text| + |blank|, rest)
    ensures LeftmostSplit(s, pos, [text, blank] + rest)
  {
    var parts := [text, blank] + rest;
    assert parts[0] == text && parts[1] == blank && parts[2..] == rest;
  }

  /** The scan produces the leftmost split. */
  lemma {:induction false} SplitIsLeftmost(s: string, start: nat, p: nat)
    requires start <= p <= |s|
    requires NoTokenIn(s, start, p)
    ensures LeftmostSplit(s, start, SplitOnBlanks(s, start, p))
    decreases |s| - p
  {
    if p == |s| {
      SplitEnd(s, start);
      LeftmostLast(s, start);
    } else if TokenAt(s, p) > 0 {
      var q := p + TokenAt(s, p);
      SplitIsLeftmost(s, q, q);
      SplitFound(s, start, p, q);
      LeftmostFound(s, start, p, q, SplitOnBlanks(s, q, q));
    } else {
      NoTokenInStep(s, start, p);
      SplitSkip(s, start, p);
      SplitIsLeftmost(s, start, p + 1);
    }
  }

  /** Where no blank token starts, the match length is 0. */
  lemma NoTokenMeansZero(s: string, p: nat)
    requires p <= |s| && NoTokenAt(s, p)
    ensures TokenAt(s, p) == 0
  {
  }

  /** A blank token matched at `q` is the match `TokenAt` finds there. */
  lemma MatchIsToken(s: string, q: nat, blank: string)
    requires MatchAt(s, q, blank)
    ensures TokenAt(s, q) == |blank|
  {
    var len := TokenAt(s, q);
    assert IsBlankToken(s[q..q + |blank|]);
    if len == 0 {
      assert false;
    } else {
      TokenUnique(s, q, q + len, q + |blank|);
    }
  }

  /** The scan walks across a token-free stretch without cutting it. */
  lemma {:induction false} SplitAcross(s: string, start: nat, p: nat, e: nat)
    requires start <= p <= e <= |s| && NoTokenIn(s, start, e)
    ensures NoTokenIn(s, start, p)
    ensures SplitOnBlanks(s, start, p) == SplitOnBlanks(s, start, e)
    decreases e - p
  {
    if p < e {
      NoTokenMeansZero(s, p);
      SplitAcross(s, start, p + 1, e);
      SplitSkip(s, start, p);
    }
  }

  /** Every leftmost split from `pos` is the one the scan returns. */
  lemma {:induction false} LeftmostIsScan(s: string, pos: nat, parts: seq<string>)
    requires LeftmostSplit(s, pos, parts)
    ensures pos <= |s| && parts == SplitOnBlanks(s, pos, pos)
    decreases |parts|
  {
    if |parts| == 1 {
      LastIsScan(s, pos, parts[0]);
    } else {
      var p := pos + |parts[0]|;
      var q := p + |parts[1]|;
      LeftmostRest(s, pos, parts);
      LeftmostStep(s, pos, p, q, parts);
      LeftmostIsScan(s, q, parts[2..]);
      FoundIsScan(s, pos, p, q);
    }
  }

  /** A longer leftmost split, in positions: a token-free text up to `p`,
      the blank token from `p` to `q`, and a leftmost split from `q`. */
  lemma LeftmostStep(s: string, pos: nat, p: nat, q: nat, parts: seq<string>)
    requires |parts| > 1 && p == pos + |parts[0]| && q == p + |parts[1]|
    requires TokenFreeAt(s, pos, parts[0]) && MatchAt(s, p, parts[1])
    ensures pos <= p < q <= |s| && NoTokenIn(s, pos, p) && IsBlankToken(s[p..q])
    ensures parts == [s[pos..p], s[p..q]] + parts[2..]
  {
    PairThenRest(parts);
  }

  /** A sequence of two or more is its first two elements and the rest. */
  lemma PairThenRest<T>(a: seq<T>)
    requires |a| > 1
    ensures a == [a[0], a[1]] + a[2..]
  {
  }

  /** A token-free text that runs to the end is the whole split. */
  lemma LastIsScan(s: string, pos: nat, t: string)
    requires TokenFreeAt(s, pos, t) && pos + |t| == |s|
    ensures SplitOnBlanks(s, pos, pos) == [t]
  {
    SplitAcross(s, pos, pos, |s|);
    SplitEnd(s, pos);
    assert s[pos..] == t;
  }

  /** A token-free stretch from `pos` to `p` followed by the blank token
      from `p` to `q` is the scan's first step. */
  lemma FoundIsScan(s: string, pos: nat, p: nat, q: nat)
    requires pos <= p < q <= |s| && NoTokenIn(s, pos, p) && IsBlankToken(s[p..q])
    ensures SplitOnBlanks(s, pos, pos) == [s[pos..p], s[p..q]] + SplitOnBlanks(s, q, q)
  {
    SplitAcross(s, pos, pos, p);
    BlankFound(s, pos, p, q);
  }

  /** The scan cuts at a blank token it reaches. */
  lemma BlankFound(s: string, pos: nat, p: nat, q: nat)
    requires pos <= p < q <= |s| && NoTokenIn(s, pos, p) && IsBlankToken(s[p..q])
    ensures SplitOnBlanks(s, pos, p) == [s[pos..p], s[p..q]] + SplitOnBlanks(s, q, q)
  {
    MatchIsToken(s, p, s[p..q]);
    SplitFound(s, pos, p, q);
  }

  /** The pieces after the first text of a longer leftmost split. */
  lemma LeftmostRest(s: string, pos: nat, a: seq<string>)
    requires LeftmostSplit(s, pos, a) && |a| > 1
    ensures TokenFreeAt(s, pos, a[0]) && MatchAt(s, pos + |a[0]|, a[1])
    ensures LeftmostSplit(s, pos + |a[0]| + |a[1]|, a[2..])
  {
  }

  /** There is only one leftmost split, so it fixes the pieces. */
  lemma LeftmostUnique(s: string, pos: nat, a: seq<string>, b: seq<string>)
    requires LeftmostSplit(s, pos, a) && LeftmostSplit(s, pos, b)
    ensures a == b
  {
    LeftmostIsScan(s, pos, a);
    LeftmostIsScan(s, pos, b);
  }

  /** `parseSentence` classifies the pieces of the leftmost split: any
      split at leftmost matches, with its empty pieces dropped and the rest
      classified, is the parse. */
  lemma ParseSentenceLeftmost(sentence: string, parts: seq<string>)
    requires LeftmostSplit(sentence, 0, parts)
    ensures ParseSentence(sentence) == Segments(parts)
  {
    LeftmostIsScan(sentence, 0, parts);
  }

  /** No blank token starts in the `2__` that ends `__1__2__`. */
  lemma ExampleTailFree()
    ensures NoTokenIn("__1__2__", 5, 8)
  {
    var s := "__1__2__";
    NoTokenWithoutShape(s, 5);
    assert DigitRun(s, 8) == 0;
    NoTokenWithoutShape(s, 6);
    NoTokenWithoutShape(s, 7);
  }

  /** The leftmost split of `__1__2__`. */
  lemma ExampleSplit()
    ensures LeftmostSplit("__1__2__", 0, ["", "__1__", "2__"])
  {
    var s := "__1__2__";
    assert s[0..5] == "__1__" && s[5..] == "2__";
    assert "__1__"[2..3] == "1";
    ExampleTailFree();
    LeftmostLast(s, 5);
    assert TokenFreeAt(s, 0, "");
    assert MatchAt(s, 0, "__1__");
    LeftmostCons(s, 0, "", "__1__", ["2__"]);
  }

  /** An empty text, a blank and a text give the blank and the text. */
  lemma SegmentsEmptyBlankText(blank: string, text: string)
    requires IsBlankToken(blank) && text != "" && !IsBlankToken(text)
    ensures Segments(["", blank, text]) == [Classify(blank), Text(text)]
  {
    var empty: seq<string> := [];
    assert [text][1..] == empty;
    assert Segments([text]) == [Text(text)];
    assert [blank, text][1..] == [text];
    assert Segments([blank, text]) == [Classify(blank), Text(text)];
    assert ["", blank, text][1..] == [blank, text];
  }

  lemma ExampleSegments()
    ensures Segments(["", "__1__", "2__"]) == [Blank(0), Text("2__")]
  {
    assert "__1__"[2..3] == "1";
    assert ParseDigits("1") == 1;
    SegmentsEmptyBlankText("__1__", "2__");
  }

  /** In `__1__2__` the leftmost match wins: the underscores after the 1
      close the first blank, so `2__` is text, not a second blank. */
  lemma LeftmostMatchWins()
    ensures ParseSentence("__1__2__") == [Blank(0), Text("2__")]
  {
    ExampleSplit();
    ParseSentenceLeftmost("__1__2__", ["", "__1__", "2__"]);
    ExampleSegments();
  }

  /** Every blank the split finds in a sentence without leading zeros is canonical. */
  lemma {:induction false} SplitCanonical(s: string, start: nat, p: nat)
    requires start <= p <= |s|
    requires NoTokenIn(s, start, p)
    requires NoLeadingZeroBlanks(s)
    ensures BlanksCanonical(SplitOnBlanks(s, start, p))
    decreases |s| - p
  {
    if p == |s| {
      CanonicalAtEnd(s, start);
    } else if TokenAt(s, p) > 0 {
      var q := p + TokenAt(s, p);
      SplitCanonical(s, q, q);
      CanonicalAfterFound(s, start, p, q);
    } else {
      NoTokenInStep(s, start, p);
      SplitSkip(s, start, p);
      SplitCanonical(s, start, p + 1);
    }
  }

  /** Rendering the segments back reproduces the sentence, provided no blank
      number has a leading zero (`__01__` would come back as `__1__`). */
  lemma RenderParseSentence(sentence: string)
    requires NoLeadingZeroBlanks(sentence)
    ensures Render(ParseSentence(sentence)) == sentence
  {
    var parts := SplitOnBlanks(sentence, 0, 0);
    SplitCanonical(sentence, 0, 0);
    forall k | 0 <= k < |parts|
      ensures Render(Segments([parts[k]])) == parts[k]
    {
      if IsBlankToken(parts[k]) {
        RenderBlankPart(parts[k]);
      } else {
        RenderTextPart(parts[k]);
      }
    }
    RenderSegmentsConcat(parts);
  }

  /** `__N__` is a blank token matched whole at position 0. */
  lemma WholeToken(ds: string)
    requires |ds| > 0 && AllDigits(ds)
    ensures var s := "__" + ds + "__"; IsBlankToken(s) && s[2..|s| - 2] == ds && TokenAt(s, 0) == |s|
  {
    var s := "__" + ds + "__";
    assert s[2..|s| - 2] == ds;
    assert forall i :: 2 <= i < 2 + |ds| ==> s[i] == ds[i - 2];
    DigitRunExact(s, 2, |ds|);
  }

  /** The split step at a blank that runs from `p` to the end. */
  lemma TrailingFound(s: string, p: nat)
    requires p < |s| && TokenAt(s, p) == |s| - p
    ensures SplitOnBlanks(s, p, p) == ["", s[p..]] + SplitOnBlanks(s, |s|, |s|)
  {
    assert s[p..p] == "" && s[p..|s|] == s[p..];
    SplitFound(s, p, p, |s|);
  }

  /** Nothing left: one empty text piece. */
  lemma SplitEmptyTail(s: string)
    ensures SplitOnBlanks(s, |s|, |s|) == [""]
  {
    SplitEnd(s, |s|);
    assert s[|s|..] == "";
  }

  /** A blank that runs from `p` to the end splits into that blank between
      two empty texts. */
  lemma TrailingSplit(s: string, p: nat)
    requires p < |s| && TokenAt(s, p) == |s| - p
    ensures SplitOnBlanks(s, p, p) == ["", s[p..], ""]
  {
    TrailingFound(s, p);
    SplitEmptyTail(s);
  }

  /** The empty texts around a lone blank are dropped. */
  lemma LoneBlankSegments(t: string)
    requires IsBlankToken(t)
    ensures Segments(["", t, ""]) == [Classify(t)]
  {
    var empty: seq<string> := [];
    assert [""][1..] == empty;
    assert Segments([""]) == [];
    assert [t, ""][1..] == [""];
    assert Segments([t, ""]) == [Classify(t)];
    assert ["", t, ""][1..] == [t, ""];
  }

  /** A sentence that is one blank `__N__` parses to blank number N - 1. */
  lemma SingleBlank(ds: string)
    requires |ds| > 0 && AllDigits(ds)
    ensures ParseSentence("__" + ds + "__") == [Blank(ParseDigits(ds) - 1)]
  {
    var s := "__" + ds + "__";
    WholeToken(ds);
    TrailingSplit(s, 0);
    assert s[0..] == s;
    LoneBlankSegments(s);
  }
}
