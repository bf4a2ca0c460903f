/** The fill-in-the-blank card of components/DragDropCard.tsx: one slot per
    blank, filled by tapping words of a shuffled word bank and emptied by
    tapping the blank. `disabled` is the card's prop that locks it once the
    answer is in. */
module DragDrop {
  import opened Options
  import opened SlotRow
  import Shuffling

  /** `handleWordTap`: the word goes into the first empty slot and nothing
      else changes; a locked card or a full sentence ignores the tap. */
  function WordTap(slots: Slots, disabled: bool, word: string): (next: Slots)
    ensures |next| == |slots|
    ensures disabled || AllFilled(slots) ==> next == slots
    ensures !disabled && !AllFilled(slots) ==>
      exists e :: 0 <= e < |slots| && slots[e] == None && (forall k :: 0 <= k < e ==> slots[k].Some?)
        && next[e] == Some(word) && (forall k :: 0 <= k < |slots| && k != e ==> next[k] == slots[k])
  {
    if disabled then slots
    else
      var e := IndexOfEmpty(slots);
      if e == -1 then slots else slots[e := Some(word)]
  }

  /** `handleBlankTap`: the tapped slot is emptied and nothing else changes;
      a locked card, an empty slot or a blank number outside the slots leaves
      everything as it was. */
  function BlankTap(slots: Slots, disabled: bool, index: int): (next: Slots)
    ensures |next| == |slots|
    ensures disabled || !(0 <= index < |slots|) ==> next == slots
    ensures !disabled && 0 <= index < |slots| ==> next[index] == None
    ensures forall k :: 0 <= k < |slots| && k != index ==> next[k] == slots[k]
  {
    if disabled || !(0 <= index < |slots|) || slots[index] == None then slots
    else slots[index := None]
  }

  /** `handleSubmit`: hands the placements over exactly when every blank is
      filled and the card is not locked. */
  function Submit(slots: Slots, disabled: bool): (r: Option<seq<string>>)
    ensures r.Some? <==> AllFilled(slots) && !disabled
    ensures r.Some? ==> |r.value| == |slots| && forall k :: 0 <= k < |slots| ==> slots[k] == Some(r.value[k])
  {
    if !AllFilled(slots) || disabled then None else Some(Contents(slots))
  }

  /** `usedWords`: the placed words, except the empty string, which
      `filter(Boolean)` drops. */
  function UsedWords(slots: Slots): (r: set<string>)
    ensures forall w :: w in r <==> w != "" && w in Placed(slots)
  {
    InPlaced(slots);
    set k | 0 <= k < |slots| && slots[k].Some? && slots[k].value != "" :: slots[k].value
  }

  /** A word-bank button is enabled when the card is not locked and its word
      is not already placed. Every copy of a word in the bank shares this,
      and the empty word is never counted as placed. */
  function WordEnabled(slots: Slots, disabled: bool, word: string): (r: bool)
    ensures r <==> !disabled && (word == "" || forall k :: 0 <= k < |slots| ==> slots[k] != Some(word))
  {
    InPlaced(slots);
    !disabled && word !in UsedWords(slots)
  }

  /** The word bank: answers and distractors together, shuffled by the draws
      `picks`. Every answer and every distractor appears, as often as given. */
  method WordBank(answers: seq<string>, distractors: seq<string>, picks: seq<nat>) returns (bank: seq<string>)
    requires Shuffling.ValidPicks(picks, |answers| + |distractors|)
    ensures |bank| == |answers| + |distractors|
    ensures multiset(bank) == multiset(answers) + multiset(distractors)
  {
    bank := Shuffling.Shuffle(answers + distractors, picks);
  }

  /* ---------- properties ---------- */

  /** A word tap on an unlocked card with room adds exactly that word to the
      placed words. */
  lemma WordTapAddsWord(slots: Slots, word: string)
    requires !AllFilled(slots)
    ensures multiset(Placed(WordTap(slots, false, word))) == multiset(Placed(slots)) + multiset{word}
  {
    var e := IndexOfEmpty(slots);
    PlacedUpdate(slots, e, Some(word));
    PlacedOne(slots[e]);
    PlacedOne(Some(word));
    assert WordTap(slots, false, word) == slots[e := Some(word)];
  }

  /** A blank tap on a filled slot of an unlocked card takes exactly its word
      away. */
  lemma BlankTapRemovesWord(slots: Slots, index: int)
    requires 0 <= index < |slots| && slots[index].Some?
    ensures multiset(Placed(BlankTap(slots, false, index))) + multiset{slots[index].value} == multiset(Placed(slots))
  {
    PlacedUpdate(slots, index, None);
    PlacedOne(slots[index]);
    PlacedOne(None);
    assert BlankTap(slots, false, index) == slots[index := None];
  }

  /** Tapping the blank a word has just gone into takes it back out. */
  lemma WordTapThenBlankTap(slots: Slots, word: string)
    requires !AllFilled(slots)
    ensures BlankTap(WordTap(slots, false, word), false, IndexOfEmpty(slots)) == slots
  {
  }

  /** A placed non-empty word greys out its buttons in the bank. */
  lemma PlacedWordDisabled(slots: Slots, word: string)
    requires !AllFilled(slots) && word != ""
    ensures !WordEnabled(WordTap(slots, false, word), false, word)
  {
    var next := WordTap(slots, false, word);
    var e := IndexOfEmpty(slots);
    assert next[e] == Some(word);
  }

  /** Taps the words one after another on an unlocked card. */
  function TapAll(slots: Slots, ws: seq<string>): (next: Slots)
    ensures |next| == |slots|
    decreases |ws|
  {
    if |ws| == 0 then slots else TapAll(WordTap(slots, false, ws[0]), ws[1..])
  }

  lemma TapIntoNext(done: seq<string>, w: string, m: nat)
    requires m > 0
    ensures WordTap(Filled(done) + InitialSlots(m), false, w) == Filled(done + [w]) + InitialSlots(m - 1)
  {
    var slots := Filled(done) + InitialSlots(m);
    assert slots[|done|] == None;
    assert forall k :: 0 <= k < |done| ==> slots[k].Some?;
    var e := IndexOfEmpty(slots);
    assert e == |done|;
  }

  /** Tapping words into empty blanks fills them left to right. */
  lemma {:induction false} TapAllFills(done: seq<string>, ws: seq<string>)
    ensures TapAll(Filled(done) + InitialSlots(|ws|), ws) == Filled(done + ws)
    decreases |ws|
  {
    if |ws| == 0 {
      assert done + ws == done;
      assert Filled(done) + InitialSlots(0) == Filled(done);
    } else {
      TapIntoNext(done, ws[0], |ws|);
      TapAllFills(done + [ws[0]], ws[1..]);
      assert done + [ws[0]] + ws[1..] == done + ws;
    }
  }

  /** On a fresh card, tapping one word per blank and submitting hands over
      exactly those words in tap order. */
  lemma TapThenSubmit(ws: seq<string>)
    ensures Submit(TapAll(InitialSlots(|ws|), ws), false) == Some(ws)
  {
    TapAllFills([], ws);
    assert Filled([]) + InitialSlots(|ws|) == InitialSlots(|ws|);
    assert [] + ws == ws;
    assert Contents(Filled(ws)) == ws;
  }

  /** The same word may be placed in several blanks: the tap handler does not
      look at which words are already placed. */
  lemma SameWordTwice()
    ensures TapAll(InitialSlots(2), ["x", "x"]) == [Some("x"), Some("x")]
  {
    TapAllFills([], ["x", "x"]);
    assert Filled([]) + InitialSlots(2) == InitialSlots(2);
    assert Filled(["x", "x"]) == [Some("x"), Some("x")];
  }
}
