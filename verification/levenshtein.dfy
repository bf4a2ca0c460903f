/** Edit distance as `levenshtein` in lib/evaluate.ts computes it, and the
    textbook definition it agrees with. */
module EditDistance {

  function Min3(x: nat, y: nat, z: nat): nat
  {
    if x <= y && x <= z then x else if y <= z then y else z
  }

  /** The value the source's table holds in cell (|a|, |b|): a cell whose two
      last characters are equal copies its diagonal neighbour, any other cell
      is one more than the least of its upper, left and diagonal neighbours. */
  function Levenshtein(a: string, b: string): nat
    decreases |a| + |b|
  {
    if |a| == 0 then |b|
    else if |b| == 0 then |a|
    else if a[|a| - 1] == b[|b| - 1] then Levenshtein(a[..|a| - 1], b[..|b| - 1])
    else 1 + Min3(Levenshtein(a[..|a| - 1], b),
                  Levenshtein(a, b[..|b| - 1]),
                  Levenshtein(a[..|a| - 1], b[..|b| - 1]))
  }

  /** The textbook single-character insert/delete/substitute distance: the
      cheapest of deleting the last character of `a`, inserting the last
      character of `b`, or substituting one for the other, where substituting
      a character by itself costs nothing. */
  ghost function EditDist(a: string, b: string): nat
    decreases |a| + |b|
  {
    if |a| == 0 then |b|
    else if |b| == 0 then |a|
    else Min3(EditDist(a[..|a| - 1], b) + 1,
              EditDist(a, b[..|b| - 1]) + 1,
              EditDist(a[..|a| - 1], b[..|b| - 1]) + (if a[|a| - 1] == b[|b| - 1] then 0 else 1))
  }

  /** No edit script is shorter than the difference of the lengths. */
  lemma {:induction false} EditDistAtLeastLengthGap(a: string, b: string)
    ensures EditDist(a, b) >= |a| - |b|
    ensures EditDist(a, b) >= |b| - |a|
    decreases |a| + |b|
  {
    if |a| > 0 && |b| > 0 {
      EditDistAtLeastLengthGap(a[..|a| - 1], b);
      EditDistAtLeastLengthGap(a, b[..|b| - 1]);
      EditDistAtLeastLengthGap(a[..|a| - 1], b[..|b| - 1]);
    }
  }

  /** Dropping the last character of `b` moves the distance by at most one. */
  lemma {:induction false} DropLastOfSecond(a: string, b: string)
    requires |b| > 0
    ensures EditDist(a, b[..|b| - 1]) <= EditDist(a, b) + 1
    decreases |a| + |b|
  {
    if |a| > 0 {
      if |b| == 1 {
        EditDistAtLeastLengthGap(a, b);
      } else {
        DropLastOfSecond(a[..|a| - 1], b);
      }
    }
  }

  /** Dropping the last character of `a` moves the distance by at most one. */
  lemma {:induction false} DropLastOfFirst(a: string, b: string)
    requires |a| > 0
    ensures EditDist(a[..|a| - 1], b) <= EditDist(a, b) + 1
    decreases |a| + |b|
  {
    if |b| > 0 {
      if |a| == 1 {
        EditDistAtLeastLengthGap(a, b);
      } else {
        DropLastOfFirst(a, b[..|b| - 1]);
      }
    }
  }

  /** The source's shortcut for equal last characters is sound: its table
      computes exactly the textbook edit distance. */
  lemma {:induction false} LevenshteinIsEditDistance(a: string, b: string)
    ensures Levenshtein(a, b) == EditDist(a, b)
    decreases |a| + |b|
  {
    if |a| > 0 && |b| > 0 {
      var a', b' := a[..|a| - 1], b[..|b| - 1];
      LevenshteinIsEditDistance(a', b');
      if a[|a| - 1] == b[|b| - 1] {
        DropLastOfSecond(a', b);
        DropLastOfFirst(a, b');
      } else {
        LevenshteinIsEditDistance(a', b);
        LevenshteinIsEditDistance(a, b');
      }
    }
  }

  /** Distance to the empty string is the length; distance zero means equal. */
  lemma {:induction false} LevenshteinZeroIffEqual(a: string, b: string)
    ensures Levenshtein(a, "") == |a| && Levenshtein("", b) == |b|
    ensures Levenshtein(a, b) == 0 <==> a == b
    decreases |a| + |b|
  {
    if |a| > 0 && |b| > 0 {
      var a', b' := a[..|a| - 1], b[..|b| - 1];
      assert a == a' + [a[|a| - 1]] && b == b' + [b[|b| - 1]];
      if a[|a| - 1] == b[|b| - 1] {
        LevenshteinZeroIffEqual(a', b');
        if a == b {
          assert a' == b';
        }
      }
    }
  }

  /** A word within distance d of another differs from it in length by at most d. */
  lemma LevenshteinAtLeastLengthGap(a: string, b: string)
    ensures Levenshtein(a, b) >= |a| - |b|
    ensures Levenshtein(a, b) >= |b| - |a|
  {
    LevenshteinIsEditDistance(a, b);
    EditDistAtLeastLengthGap(a, b);
  }

  /** One cell of the table in terms of its three neighbours. */
  lemma CellStep(a: string, b: string, i: nat, j: nat)
    requires 1 <= i <= |a| && 1 <= j <= |b|
    ensures Levenshtein(a[..i], b[..j])
      == if a[i - 1] == b[j - 1] then Levenshtein(a[..i - 1], b[..j - 1])
         else 1 + Min3(Levenshtein(a[..i - 1], b[..j]), Levenshtein(a[..i], b[..j - 1]), Levenshtein(a[..i - 1], b[..j - 1]))
  {
    assert a[..i][..i - 1] == a[..i - 1] && a[..i][i - 1] == a[i - 1];
    assert b[..j][..j - 1] == b[..j - 1] && b[..j][j - 1] == b[j - 1];
  }

  /** The first row and column: the distance to the empty prefix. */
  lemma EdgeCells(a: string, b: string, i: nat, j: nat)
    requires i <= |a| && j <= |b|
    ensures Levenshtein(a[..i], b[..0]) == i && Levenshtein(a[..0], b[..j]) == j
  {
  }

  /** `levenshtein` itself: fills the (|a|+1) x (|b|+1) table row by row,
      keeping the finished row `prev` (row `i - 1`) and the row `cur` being
      filled; row 0 and column 0 hold the distances to the empty string. */
  method LevenshteinTable(a: string, b: string) returns (d: nat)
    ensures d == EditDist(a, b)
  {
    var n := |b|;
    var prev: seq<nat> := seq(n + 1, j => j);
    forall j | 0 <= j <= n
      ensures prev[j] == Levenshtein(a[..0], b[..j])
    {
      EdgeCells(a, b, 0, j);
    }
    for i := 1 to |a| + 1
      invariant |prev| == n + 1
      invariant forall j :: 0 <= j <= n ==> prev[j] == Levenshtein(a[..i - 1], b[..j])
    {
      EdgeCells(a, b, i, 0);
      var cur: seq<nat> := [i];
      for j := 1 to n + 1
        invariant |cur| == j
        invariant forall j' :: 0 <= j' < j ==> cur[j'] == Levenshtein(a[..i], b[..j'])
      {
        CellStep(a, b, i, j);
        var v := if a[i - 1] == b[j - 1] then prev[j - 1] else 1 + Min3(prev[j], cur[j - 1], prev[j - 1]);
        cur := cur + [v];
      }
      prev := cur;
    }
    d := prev[n];
    assert a[..|a|] == a && b[..n] == b;
    LevenshteinIsEditDistance(a, b);
  }
}
