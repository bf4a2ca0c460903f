/** Passage chunking (lib/passage.ts): the seven passage sections are grouped
    into chunks by a fixed table per difficulty. The section texts are a
    parameter; only their number, seven, matters. */
module Passage {
  import opened Strings

  datatype Difficulty = Easy | Medium | Hard

  datatype Chunk = Chunk(index: nat, text: string)

  const SectionCount: nat := 7

  /** `chunkGroupings`: which sections each chunk merges. */
  function ChunkGroupings(d: Difficulty): seq<seq<nat>>
  {
    match d
    case Easy => [[0], [1], [2], [3, 4], [5], [6]]
    case Medium => [[0, 1], [2, 3], [4], [5], [6]]
    case Hard => [[0, 1], [2, 3, 4], [5], [6]]
  }

  function Flatten<T>(gs: seq<seq<T>>): seq<T>
    decreases |gs|
  {
    if |gs| == 0 then [] else gs[0] + Flatten(gs[1..])
  }

  /** Every difficulty uses each section exactly once, in passage order, and
      every chunk gets at least one section. */
  lemma GroupingsCoverSectionsInOrder(d: Difficulty)
    ensures Flatten(ChunkGroupings(d)) == seq(SectionCount, i => i)
    ensures forall k :: 0 <= k < |ChunkGroupings(d)| ==> |ChunkGroupings(d)[k]| > 0
  {
    var gs := ChunkGroupings(d);
    var n := |gs|;
    assert Flatten(gs[n..]) == [];
    assert Flatten(gs[n - 1..]) == [6];
    assert Flatten(gs[n - 2..]) == [5, 6];
    match d
    case Easy =>
      assert Flatten(gs[3..]) == [3, 4, 5, 6];
      assert Flatten(gs[2..]) == [2, 3, 4, 5, 6];
      assert Flatten(gs[1..]) == [1, 2, 3, 4, 5, 6];
    case Medium =>
      assert Flatten(gs[2..]) == [4, 5, 6];
      assert Flatten(gs[1..]) == [2, 3, 4, 5, 6];
    case Hard =>
      assert Flatten(gs[1..]) == [2, 3, 4, 5, 6];
  }

  /** Every index in the table addresses one of the `n` sections. */
  predicate InBounds(gs: seq<seq<nat>>, n: nat)
  {
    forall k, j :: 0 <= k < |gs| && 0 <= j < |gs[k]| ==> gs[k][j] < n
  }

  /** Every index of every grouping addresses one of the seven sections. */
  lemma GroupingsInBounds(d: Difficulty)
    ensures InBounds(ChunkGroupings(d), SectionCount)
  {
  }

  /** `indices.map((i) => sections[i])`; an index past the end would read
      `undefined`, which `join` prints as the empty string. */
  function SectionsAt(sections: seq<string>, indices: seq<nat>): (r: seq<string>)
    ensures |r| == |indices|
    ensures forall k :: 0 <= k < |indices| && indices[k] < |sections| ==> r[k] == sections[indices[k]]
  {
    seq(|indices|, k requires 0 <= k < |indices| => if indices[k] < |sections| then sections[indices[k]] else "")
  }

  /** `mergeSections`: the chosen sections joined with one space. No index
      gives the empty text, one index gives that section unchanged, and
      otherwise the text opens with the first chosen section and a space. */
  function MergeSections(sections: seq<string>, indices: seq<nat>): (r: string)
    ensures |indices| == 0 ==> r == ""
    ensures |indices| == 1 && indices[0] < |sections| ==> r == sections[indices[0]]
    ensures |indices| > 1 && indices[0] < |sections| ==> sections[indices[0]] + " " <= r
  {
    Join(SectionsAt(sections, indices), " ")
  }

  /** Merging two groups of indices in one go is merging each and putting
      a space between them. */
  lemma MergeSectionsAppend(sections: seq<string>, a: seq<nat>, b: seq<nat>)
    requires |a| > 0 && |b| > 0
    ensures MergeSections(sections, a + b) == MergeSections(sections, a) + " " + MergeSections(sections, b)
  {
    assert SectionsAt(sections, a + b) == SectionsAt(sections, a) + SectionsAt(sections, b);
    JoinAppend(SectionsAt(sections, a), SectionsAt(sections, b), " ");
  }

  function Texts(chunks: seq<Chunk>): (r: seq<string>)
    ensures |r| == |chunks| && forall k :: 0 <= k < |chunks| ==> r[k] == chunks[k].text
  {
    seq(|chunks|, k requires 0 <= k < |chunks| => chunks[k].text)
  }

  /** Joining each non-empty group and then joining the results is joining
      all the pieces at once. */
  lemma {:induction false} JoinOfJoins(gs: seq<seq<string>>, sep: string)
    requires forall k :: 0 <= k < |gs| ==> |gs[k]| > 0
    ensures Join(seq(|gs|, k requires 0 <= k < |gs| => Join(gs[k], sep)), sep) == Join(Flatten(gs), sep)
    decreases |gs|
  {
    var joined := seq(|gs|, k requires 0 <= k < |gs| => Join(gs[k], sep));
    if |gs| == 1 {
      assert Flatten(gs) == gs[0] + Flatten(gs[1..]);
      assert gs[0] + [] == gs[0];
    } else if |gs| > 1 {
      var tail := seq(|gs| - 1, k requires 0 <= k < |gs| - 1 => Join(gs[1..][k], sep));
      assert joined[1..] == tail;
      JoinOfJoins(gs[1..], sep);
      assert |Flatten(gs[1..])| > 0 by {
        assert Flatten(gs[1..]) == gs[1] + Flatten(gs[2..]);
      }
      JoinAppend(gs[0], Flatten(gs[1..]), sep);
    }
  }

  lemma {:induction false} FlattenSectionsAt(sections: seq<string>, gs: seq<seq<nat>>)
    ensures Flatten(seq(|gs|, k requires 0 <= k < |gs| => SectionsAt(sections, gs[k])))
      == SectionsAt(sections, Flatten(gs))
    decreases |gs|
  {
    if |gs| > 0 {
      FlattenSectionsAt(sections, gs[1..]);
      var texts := seq(|gs|, k requires 0 <= k < |gs| => SectionsAt(sections, gs[k]));
      var tail := seq(|gs| - 1, k requires 0 <= k < |gs| - 1 => SectionsAt(sections, gs[1..][k]));
      assert texts[1..] == tail;
    }
  }

  /** `getChunks`. */
  function GetChunks(sections: seq<string>, d: Difficulty): (r: seq<Chunk>)
    requires |sections| == SectionCount
    ensures |r| == (match d case Easy => 6 case Medium => 5 case Hard => 4)
    ensures forall i :: 0 <= i < |r| ==>
      r[i].index == i && r[i].text == Join(SectionsAt(sections, ChunkGroupings(d)[i]), " ")
    // reading the chunks one after another gives back the whole passage
    ensures Join(Texts(r), " ") == Join(sections, " ")
  {
    var gs := ChunkGroupings(d);
    GroupingsInBounds(d);
    var r := seq(|gs|, i requires 0 <= i < |gs| => Chunk(i, MergeSections(sections, gs[i])));
    GroupingsCoverSectionsInOrder(d);
    var groupTexts := seq(|gs|, k requires 0 <= k < |gs| => SectionsAt(sections, gs[k]));
    JoinOfJoins(groupTexts, " ");
    assert Texts(r) == seq(|groupTexts|, k requires 0 <= k < |groupTexts| => Join(groupTexts[k], " "));
    FlattenSectionsAt(sections, gs);
    assert SectionsAt(sections, Flatten(gs)) == sections;
    r
  }
}
