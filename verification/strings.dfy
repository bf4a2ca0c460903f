/** JavaScript string and array helpers the core relies on: `split` on one
    character, `join`, and `includes`. */
module Strings {

  /** `xs.join(sep)`: the pieces with `sep` between neighbours; joining no
      pieces gives the empty string. */
  function Join(xs: seq<string>, sep: string): string
    decreases |xs|
  {
    if |xs| == 0 then ""
    else if |xs| == 1 then xs[0]
    else xs[0] + sep + Join(xs[1..], sep)
  }

  /** `s.split(c)` for a one-character separator. Empty pieces are kept, so
      splitting the empty string gives `[""]`, never an empty list. */
  function Split(s: string, c: char): (r: seq<string>)
    ensures |r| >= 1
    ensures forall k :: 0 <= k < |r| ==> c !in r[k]
    ensures Join(r, [c]) == s
    decreases |s|
  {
    if |s| == 0 then [""]
    else
      var rest := Split(s[1..], c);
      if s[0] == c then
        assert ([""] + rest)[1..] == rest;
        [""] + rest
      else
        var r := [[s[0]] + rest[0]] + rest[1..];
        assert r[1..] == rest[1..];
        assert s == [s[0]] + s[1..];
        r
  }

  /** `haystack.includes(needle)`: the needle occurs at some position. */
  predicate Contains(haystack: string, needle: string)
  {
    exists i :: 0 <= i <= |haystack| - |needle| && needle <= haystack[i..]
  }

  /** The search `includes` performs, trying each start position from `i`
      on; from position 0 it succeeds exactly when the needle occurs. */
  function ContainsFrom(haystack: string, needle: string, i: nat): (r: bool)
    ensures r <==> exists j :: i <= j <= |haystack| - |needle| && needle <= haystack[j..]
    ensures i == 0 ==> (r <==> Contains(haystack, needle))
    decreases |haystack| - i
  {
    if i + |needle| > |haystack| then false
    else if needle <= haystack[i..] then true
    else ContainsFrom(haystack, needle, i + 1)
  }

  /** Joining two non-empty lists of pieces is joining each and gluing the
      results with one more separator. */
  lemma {:induction false} JoinAppend(xs: seq<string>, ys: seq<string>, sep: string)
    requires |xs| > 0 && |ys| > 0
    ensures Join(xs + ys, sep) == Join(xs, sep) + sep + Join(ys, sep)
    decreases |xs|
  {
    if |xs| == 1 {
      assert (xs + ys)[1..] == ys;
    } else {
      assert (xs + ys)[1..] == xs[1..] + ys;
      JoinAppend(xs[1..], ys, sep);
    }
  }

  /** Splitting a text that has no leading, trailing or doubled separator
      yields only non-empty pieces. */
  lemma {:induction false} SplitPiecesNonEmpty(s: string, c: char)
    requires |s| > 0 && s[0] != c && s[|s| - 1] != c
    requires forall k :: 0 <= k < |s| - 1 ==> !(s[k] == c && s[k + 1] == c)
    ensures forall k :: 0 <= k < |Split(s, c)| ==> Split(s, c)[k] != ""
    decreases |s|
  {
    var rest := Split(s[1..], c);
    if |s| == 1 {
      assert rest == [""];
    } else if s[1] == c {
      // s[1..] starts with the separator, which is followed by a non-separator
      var t := s[2..];
      assert |t| > 0 && t[0] != c && t[|t| - 1] != c;
      SplitPiecesNonEmpty(t, c);
      assert rest == [""] + Split(t, c);
    } else {
      SplitPiecesNonEmpty(s[1..], c);
    }
  }

  /** Splitting a text into pieces that do not contain c, then joining with c, gives the pieces back:
      `Split` inverts `Join`. */
  lemma {:induction false} SplitOfJoin(xs: seq<string>, c: char)
    requires |xs| > 0
    requires forall k :: 0 <= k < |xs| ==> c !in xs[k]
    ensures Split(Join(xs, [c]), c) == xs
    decreases |xs|
  {
    if |xs| == 1 {
      SplitPrefix(xs[0], "", c);
      assert xs[0] + "" == xs[0];
    } else {
      var tail := Join(xs[1..], [c]);
      SplitOfJoin(xs[1..], c);
      var t := [c] + tail;
      assert t[0] == c && t[1..] == tail;
      assert Split(t, c) == [""] + xs[1..];
      assert Join(xs, [c]) == xs[0] + t;
      SplitPrefix(xs[0], t, c);
      assert xs[0] + "" == xs[0];
      assert ([""] + xs[1..])[1..] == xs[1..];
    }
  }

  /** A prefix without the separator glues onto the first piece. */
  lemma {:induction false} SplitPrefix(a: string, t: string, c: char)
    requires c !in a
    ensures Split(a + t, c) == [a + Split(t, c)[0]] + Split(t, c)[1..]
    decreases |a|
  {
    if |a| == 0 {
      assert a + t == t;
      assert a + Split(t, c)[0] == Split(t, c)[0];
      assert Split(t, c) == [Split(t, c)[0]] + Split(t, c)[1..];
    } else {
      var s := a + t;
      assert s[0] == a[0] && s[1..] == a[1..] + t;
      assert a[0] != c;
      SplitPrefix(a[1..], t, c);
      assert [a[0]] + (a[1..] + Split(t, c)[0]) == a + Split(t, c)[0];
    }
  }
}
