/** `normalize` in lib/evaluate.ts: lower-case, replace everything outside
    `[a-z0-9' ]` by a space, collapse runs of spaces, trim. */
module Normalization {
  import Strings

  /** `toLowerCase` on ASCII: A-Z become a-z, everything else is unchanged. */
  function ToLower(c: char): char
  {
    if 'A' <= c <= 'Z' then (c as int - 'A' as int + 'a' as int) as char else c
  }

  /** The character class `[a-z0-9' ]` that survives the replacement step. */
  predicate IsKept(c: char)
  {
    ('a' <= c <= 'z') || ('0' <= c <= '9') || c == '\'' || c == ' '
  }

  /** One character after lower-casing and replacement. The apostrophe step
      between them replaces the straight apostrophe by itself and so changes
      nothing. */
  function CanonicalChar(c: char): (r: char)
    ensures IsKept(r)
    ensures IsKept(c) ==> r == c
    ensures 'A' <= c <= 'Z' ==> r as int == c as int + 32
    ensures !IsKept(c) && !('A' <= c <= 'Z') ==> r == ' '
  {
    var l := ToLower(c);
    if IsKept(l) then l else ' '
  }

  function CanonicalText(s: string): (r: string)
    ensures |r| == |s|
    ensures forall k :: 0 <= k < |s| ==> r[k] == CanonicalChar(s[k])
  {
    seq(|s|, k requires 0 <= k < |s| => CanonicalChar(s[k]))
  }

  predicate NoDoubleSpace(s: string)
  {
    forall k :: 0 <= k < |s| - 1 ==> !(s[k] == ' ' && s[k + 1] == ' ')
  }

  predicate AllKept(s: string)
  {
    forall k :: 0 <= k < |s| ==> IsKept(s[k])
  }

  /** What `normalize` promises about its output: only kept characters,
      words separated by single spaces, no space at either end. */
  predicate IsNormal(s: string)
  {
    && AllKept(s)
    && NoDoubleSpace(s)
    && (|s| > 0 ==> s[0] != ' ' && s[|s| - 1] != ' ')
  }

  /** `replace(/\s+/g, " ")` on text whose only whitespace character is the
      space, which is all that is left after the replacement step. */
  function CollapseSpaces(s: string): (r: string)
    ensures NoDoubleSpace(r)
    ensures AllKept(s) ==> AllKept(r)
    ensures |r| <= |s|
    ensures |s| > 0 ==> |r| > 0 && r[0] == s[0] && r[|r| - 1] == s[|s| - 1]
    decreases |s|
  {
    if |s| < 2 then s
    else if s[0] == ' ' && s[1] == ' ' then CollapseSpaces(s[1..])
    else [s[0]] + CollapseSpaces(s[1..])
  }

  /** Drops leading spaces; the result is a suffix of `s`. */
  function TrimStart(s: string): (r: string)
    ensures |r| <= |s| && r == s[|s| - |r|..]
    ensures |r| == 0 || r[0] != ' '
    ensures forall k :: 0 <= k < |s| - |r| ==> s[k] == ' '
    decreases |s|
  {
    if |s| > 0 && s[0] == ' ' then TrimStart(s[1..]) else s
  }

  /** Drops trailing spaces; the result is a prefix of `s`. */
  function TrimEnd(s: string): (r: string)
    ensures |r| <= |s| && r == s[..|r|]
    ensures |r| == 0 || r[|r| - 1] != ' '
    ensures forall k :: |r| <= k < |s| ==> s[k] == ' '
    decreases |s|
  {
    if |s| > 0 && s[|s| - 1] == ' ' then TrimEnd(s[..|s| - 1]) else s
  }

  /** A slice of a text keeps its characters and its single spacing. */
  lemma SliceKeepsShape(s: string, i: nat, j: nat)
    requires i <= j <= |s|
    ensures AllKept(s) ==> AllKept(s[i..j])
    ensures NoDoubleSpace(s) ==> NoDoubleSpace(s[i..j])
  {
    var t := s[i..j];
    assert forall k :: 0 <= k < |t| ==> t[k] == s[i + k];
  }

  /** `trim()`, on text whose only whitespace character is the space: no
      space is left at either end, and the words, the non-space characters,
      the character set and the single spacing are all kept. */
  function Trim(s: string): (r: string)
    ensures |r| == 0 || (r[0] != ' ' && r[|r| - 1] != ' ')
    ensures AllKept(s) ==> AllKept(r)
    ensures NoDoubleSpace(s) ==> NoDoubleSpace(r)
    ensures Words(r) == Words(s)
    ensures NonSpace(r) == NonSpace(s)
  {
    TrimShape(s);
    TrimContent(s);
    TrimEnd(TrimStart(s))
  }

  lemma TrimShape(s: string)
    ensures var r := TrimEnd(TrimStart(s));
      && (|r| == 0 || (r[0] != ' ' && r[|r| - 1] != ' '))
      && (AllKept(s) ==> AllKept(r))
      && (NoDoubleSpace(s) ==> NoDoubleSpace(r))
  {
    TrimStartShape(s);
    TrimEndShape(TrimStart(s));
  }

  lemma TrimStartShape(s: string)
    ensures AllKept(s) ==> AllKept(TrimStart(s))
    ensures NoDoubleSpace(s) ==> NoDoubleSpace(TrimStart(s))
  {
    var t := TrimStart(s);
    SliceKeepsShape(s, |s| - |t|, |s|);
  }

  lemma TrimEndShape(t: string)
    ensures AllKept(t) ==> AllKept(TrimEnd(t))
    ensures NoDoubleSpace(t) ==> NoDoubleSpace(TrimEnd(t))
    ensures |TrimEnd(t)| > 0 ==> TrimEnd(t)[0] == t[0]
  {
    var r := TrimEnd(t);
    SliceKeepsShape(t, 0, |r|);
  }

  lemma TrimContent(s: string)
    ensures Words(TrimEnd(TrimStart(s))) == Words(s)
    ensures NonSpace(TrimEnd(TrimStart(s))) == NonSpace(s)
  {
    TrimStartKeepsWords(s);
    TrimStartKeepsNonSpace(s);
    TrimEndKeepsWords(TrimStart(s));
    TrimEndKeepsNonSpace(TrimStart(s));
  }

  /** `normalize`. */
  function Normalize(text: string): (r: string)
    ensures IsNormal(r)
  {
    Trim(CollapseSpaces(CanonicalText(text)))
  }

  /** Collapsing is the identity on singly spaced text. */
  lemma {:induction false} CollapseKeepsSingleSpaced(s: string)
    requires NoDoubleSpace(s)
    ensures CollapseSpaces(s) == s
    decreases |s|
  {
    if |s| >= 2 {
      CollapseKeepsSingleSpaced(s[1..]);
    }
  }

  /** Normalizing a normal text gives it back unchanged. */
  lemma NormalizeKeepsNormal(s: string)
    requires IsNormal(s)
    ensures Normalize(s) == s
  {
    assert CanonicalText(s) == s;
    CollapseKeepsSingleSpaced(s);
  }

  /** `normalize(normalize(x)) == normalize(x)`. */
  lemma NormalizeIdempotent(s: string)
    ensures Normalize(Normalize(s)) == Normalize(s)
  {
    NormalizeKeepsNormal(Normalize(s));
  }

  /** The text with its spaces removed. */
  function NonSpace(s: string): string
    decreases |s|
  {
    if |s| == 0 then "" else (if s[0] == ' ' then "" else [s[0]]) + NonSpace(s[1..])
  }

  lemma {:induction false} NonSpaceAppend(a: string, b: string)
    ensures NonSpace(a + b) == NonSpace(a) + NonSpace(b)
    decreases |a|
  {
    if |a| == 0 {
      assert a + b == b;
    } else {
      assert (a + b)[0] == a[0] && (a + b)[1..] == a[1..] + b;
      NonSpaceAppend(a[1..], b);
    }
  }

  lemma {:induction false} NonSpaceOfSpaces(s: string)
    requires forall k :: 0 <= k < |s| ==> s[k] == ' '
    ensures NonSpace(s) == ""
    decreases |s|
  {
    if |s| > 0 {
      NonSpaceOfSpaces(s[1..]);
    }
  }

  lemma {:induction false} CollapseKeepsNonSpace(s: string)
    ensures NonSpace(CollapseSpaces(s)) == NonSpace(s)
    decreases |s|
  {
    if |s| >= 2 {
      var t := s[1..];
      CollapseKeepsNonSpace(t);
      var head := if s[0] == ' ' then "" else [s[0]];
      assert NonSpace(s) == head + NonSpace(t);
      if s[0] == ' ' && s[1] == ' ' {
        assert CollapseSpaces(s) == CollapseSpaces(t);
      } else {
        var c := CollapseSpaces(t);
        assert CollapseSpaces(s) == [s[0]] + c;
        assert ([s[0]] + c)[0] == s[0] && ([s[0]] + c)[1..] == c;
        assert NonSpace([s[0]] + c) == head + NonSpace(c);
      }
    }
  }

  lemma TrimStartKeepsNonSpace(s: string)
    ensures NonSpace(TrimStart(s)) == NonSpace(s)
  {
    var t := TrimStart(s);
    var lead := s[..|s| - |t|];
    assert s == lead + t;
    NonSpaceOfSpaces(lead);
    NonSpaceAppend(lead, t);
  }

  lemma TrimEndKeepsNonSpace(s: string)
    ensures NonSpace(TrimEnd(s)) == NonSpace(s)
  {
    var r := TrimEnd(s);
    var trail := s[|r|..];
    assert s == r + trail;
    NonSpaceOfSpaces(trail);
    NonSpaceAppend(r, trail);
  }

  /** Normalizing drops or merges only spaces: the letters, digits and
      apostrophes of the lower-cased, punctuation-stripped text all survive,
      in order. */
  lemma NormalizeKeepsContent(s: string)
    ensures NonSpace(Normalize(s)) == NonSpace(CanonicalText(s))
  {
    CollapseKeepsNonSpace(CanonicalText(s));
  }

  /* ---------- words ---------- */

  /** The non-empty strings of a list, in order. */
  function NonEmpty(xs: seq<string>): (r: seq<string>)
    ensures forall k :: 0 <= k < |r| ==> r[k] != ""
    decreases |xs|
  {
    if |xs| == 0 then [] else (if xs[0] == "" then [] else [xs[0]]) + NonEmpty(xs[1..])
  }

  /** The words of a text: the pieces of `split(" ")` without the empty ones
      that leading, trailing and repeated spaces produce. */
  function Words(s: string): seq<string>
  {
    NonEmpty(Strings.Split(s, ' '))
  }

  /** The text starts with a word character. */
  predicate StartsWord(s: string)
  {
    |s| > 0 && s[0] != ' '
  }

  lemma NonEmptyCons(x: string, xs: seq<string>)
    ensures NonEmpty([x] + xs) == (if x == "" then [] else [x]) + NonEmpty(xs)
  {
    assert ([x] + xs)[0] == x && ([x] + xs)[1..] == xs;
  }

  lemma {:induction false} NonEmptyAppend(a: seq<string>, b: seq<string>)
    ensures NonEmpty(a + b) == NonEmpty(a) + NonEmpty(b)
    decreases |a|
  {
    if |a| == 0 {
      assert a + b == b;
    } else {
      assert (a + b)[0] == a[0] && (a + b)[1..] == a[1..] + b;
      NonEmptyAppend(a[1..], b);
    }
  }

  lemma {:induction false} NonEmptyOfNonEmpty(xs: seq<string>)
    requires forall k :: 0 <= k < |xs| ==> xs[k] != ""
    ensures NonEmpty(xs) == xs
    decreases |xs|
  {
    if |xs| > 0 {
      NonEmptyOfNonEmpty(xs[1..]);
    }
  }

  /** The first piece of the split is empty exactly when no word starts the text. */
  lemma SplitHeadEmpty(t: string)
    ensures Strings.Split(t, ' ')[0] == "" <==> !StartsWord(t)
  {
  }

  /** A leading space adds no word. */
  lemma WordsSpaceCons(t: string)
    ensures Words([' '] + t) == Words(t)
  {
    var s := [' '] + t;
    assert s[0] == ' ' && s[1..] == t;
    assert Strings.Split(s, ' ') == [""] + Strings.Split(t, ' ');
    NonEmptyCons("", Strings.Split(t, ' '));
  }

  /** A leading word character joins the first word, or makes a word of its own. */
  lemma WordsCharCons(c: char, t: string)
    requires c != ' '
    ensures Words([c] + t) ==
      if StartsWord(t) then [[c] + Words(t)[0]] + Words(t)[1..] else [[c]] + Words(t)
  {
    var s := [c] + t;
    var pieces := Strings.Split(t, ' ');
    assert s[0] == c && s[1..] == t;
    assert Strings.Split(s, ' ') == [[c] + pieces[0]] + pieces[1..];
    NonEmptyCons([c] + pieces[0], pieces[1..]);
    assert Words(s) == [[c] + pieces[0]] + NonEmpty(pieces[1..]);
    assert pieces == [pieces[0]] + pieces[1..];
    NonEmptyCons(pieces[0], pieces[1..]);
    SplitHeadEmpty(t);
    if StartsWord(t) {
      assert Words(t) == [pieces[0]] + NonEmpty(pieces[1..]);
      assert Words(t)[0] == pieces[0] && Words(t)[1..] == NonEmpty(pieces[1..]);
    } else {
      assert pieces[0] == "" && [c] + pieces[0] == [c];
      assert Words(t) == NonEmpty(pieces[1..]);
    }
  }

  /** Collapsing runs of spaces keeps the words: runs shrink, but none
      disappears between two words. */
  lemma {:induction false} CollapseKeepsWords(s: string)
    ensures Words(CollapseSpaces(s)) == Words(s)
    decreases |s|
  {
    if |s| >= 2 {
      var t := s[1..];
      assert s == [s[0]] + t;
      CollapseKeepsWords(t);
      if s[0] == ' ' {
        WordsSpaceCons(t);
        if s[1] != ' ' {
          WordsSpaceCons(CollapseSpaces(t));
        }
      } else {
        var c := CollapseSpaces(t);
        assert CollapseSpaces(s) == [s[0]] + c;
        assert StartsWord(c) <==> StartsWord(t);
        WordsCharCons(s[0], c);
        WordsCharCons(s[0], t);
      }
    }
  }

  lemma {:induction false} TrimStartKeepsWords(s: string)
    ensures Words(TrimStart(s)) == Words(s)
    decreases |s|
  {
    if |s| > 0 && s[0] == ' ' {
      assert s == [' '] + s[1..];
      WordsSpaceCons(s[1..]);
      TrimStartKeepsWords(s[1..]);
    }
  }

  /** A trailing separator adds one empty piece to the split. */
  lemma {:induction false} SplitTrailingSpace(x: string)
    ensures Strings.Split(x + [' '], ' ') == Strings.Split(x, ' ') + [""]
    decreases |x|
  {
    var y := x + [' '];
    if |x| == 0 {
      assert y[1..] == [];
    } else {
      assert y[0] == x[0] && y[1..] == x[1..] + [' '];
      SplitTrailingSpace(x[1..]);
      var rest := Strings.Split(x[1..], ' ');
      if x[0] != ' ' {
        assert (rest + [""])[0] == rest[0] && (rest + [""])[1..] == rest[1..] + [""];
      }
    }
  }

  lemma WordsTrailingSpace(x: string)
    ensures Words(x + [' ']) == Words(x)
  {
    SplitTrailingSpace(x);
    NonEmptyAppend(Strings.Split(x, ' '), [""]);
    NonEmptyCons("", []);
  }

  lemma {:induction false} TrimEndKeepsWords(s: string)
    ensures Words(TrimEnd(s)) == Words(s)
    decreases |s|
  {
    if |s| > 0 && s[|s| - 1] == ' ' {
      var init := s[..|s| - 1];
      assert s == init + [' '];
      WordsTrailingSpace(init);
      TrimEndKeepsWords(init);
    }
  }

  /** Normalizing keeps the words of the lower-cased, punctuation-stripped text. */
  lemma NormalizeKeepsWords(s: string)
    ensures Words(Normalize(s)) == Words(CanonicalText(s))
  {
    CollapseKeepsWords(CanonicalText(s));
  }

  /** `normalize(x)` is exactly the words of the lower-cased,
      punctuation-stripped text, joined by single spaces. */
  lemma NormalizeIsJoinedWords(s: string)
    ensures Normalize(s) == Strings.Join(Words(CanonicalText(s)), " ")
  {
    var r := Normalize(s);
    NormalizeKeepsWords(s);
    var pieces := Strings.Split(r, ' ');
    if |r| == 0 {
      assert pieces == [""];
      NonEmptyCons("", []);
    } else {
      Strings.SplitPiecesNonEmpty(r, ' ');
      NonEmptyOfNonEmpty(pieces);
    }
  }
}
