/** The put-in-order card of components/ReorderCard.tsx: the events start
    shuffled in a pool, and tapping moves them between the pool and a row of
    numbered slots. `disabled` is the card's prop that locks it once the
    answer is in. */
module Reorder {
  import opened Options
  import opened SlotRow
  import Shuffling

  /** The card's two pieces of state, `placed` and `pool`. */
  datatype State = State(placed: Slots, pool: seq<string>)

  /** The initial state: every slot empty and the events, shuffled by the
      draws `picks`, in the pool. */
  method Init(events: seq<string>, picks: seq<nat>) returns (st: State)
    requires Shuffling.ValidPicks(picks, |events|)
    ensures st.placed == InitialSlots(|events|)
    ensures multiset(st.pool) == multiset(events)
  {
    var scrambled := Shuffling.Shuffle(events, picks);
    st := State(InitialSlots(|events|), scrambled);
  }

  /** `pool.filter((p) => p !== item)`: every copy of `item` goes and
      every other item stays; the pool shrinks when it held `item`. */
  function RemoveAll(pool: seq<string>, item: string): (r: seq<string>)
    ensures multiset(r) == multiset(pool)[item := 0]
    decreases |pool|
  {
    if |pool| == 0 then []
    else
      var head := if pool[0] == item then [] else [pool[0]];
      var rest := RemoveAll(pool[1..], item);
      assert pool == [pool[0]] + pool[1..];
      assert forall x :: multiset(head + rest)[x] == multiset(pool)[item := 0][x];
      head + rest
  }

  /** `handlePoolTap`: the item goes into the first empty slot and leaves the
      pool; a locked card or a full row ignores the tap. */
  function PoolTap(st: State, disabled: bool, item: string): (next: State)
    ensures |next.placed| == |st.placed|
    ensures disabled || AllFilled(st.placed) ==> next == st
    ensures !disabled && !AllFilled(st.placed) ==>
      && (exists e :: 0 <= e < |st.placed| && st.placed[e] == None && (forall k :: 0 <= k < e ==> st.placed[k].Some?)
           && next.placed[e] == Some(item) && (forall k :: 0 <= k < |st.placed| && k != e ==> next.placed[k] == st.placed[k]))
      && multiset(next.pool) == multiset(st.pool)[item := 0]
  {
    if disabled then st
    else
      var e := IndexOfEmpty(st.placed);
      if e == -1 then st
      else State(st.placed[e := Some(item)], RemoveAll(st.pool, item))
  }

  /** JavaScript truthiness of a slot: `null`, an index past the row and the
      empty string are all falsy. */
  predicate Truthy(st: State, index: int)
  {
    0 <= index < |st.placed| && st.placed[index].Some? && st.placed[index].value != ""
  }

  /** `handleSlotTap`: the slot is emptied and its item goes to the back of
      the pool; a locked card or a falsy slot ignores the tap, so an empty
      string, once placed, stays. */
  function SlotTap(st: State, disabled: bool, index: int): (next: State)
    ensures |next.placed| == |st.placed|
    ensures disabled || !Truthy(st, index) ==> next == st
    ensures !disabled && Truthy(st, index) ==>
      && next.placed[index] == None
      && (forall k :: 0 <= k < |st.placed| && k != index ==> next.placed[k] == st.placed[k])
      && next.pool == st.pool + [st.placed[index].value]
  {
    if disabled || !Truthy(st, index) then st
    else State(st.placed[index := None], st.pool + [st.placed[index].value])
  }

  /** `allPlaced`: no slot is empty, so every slot holds one placed item. */
  function AllPlaced(st: State): (r: bool)
    ensures r <==> IndexOfEmpty(st.placed) == -1
    ensures r <==> |Placed(st.placed)| == |st.placed|
  {
    PlacedOfFull(st.placed);
    AllFilled(st.placed)
  }

  /** A tap on one of the card's buttons: an item of the pool, or a slot. */
  datatype Tap = PoolButton(item: string) | SlotButton(index: int)

  /** The state after a series of taps. The pool shows one button per item
      it holds, so a pool tap names an item of the pool; one that does not is
      not a tap the card can receive and is skipped. */
  function Run(st: State, disabled: bool, taps: seq<Tap>): (r: State)
    ensures |r.placed| == |st.placed|
    decreases |taps|
  {
    if |taps| == 0 then st
    else Run(Step(st, disabled, taps[0]), disabled, taps[1..])
  }

  function Step(st: State, disabled: bool, tap: Tap): (next: State)
    ensures |next.placed| == |st.placed|
  {
    match tap
    case PoolButton(item) => if item in st.pool then PoolTap(st, disabled, item) else st
    case SlotButton(index) => SlotTap(st, disabled, index)
  }

  /** The submit button (`allPlaced && onSubmit(placed)`, and the button is
      disabled while the card is locked): hands the order over exactly when
      every slot is filled and the card is not locked. */
  function Submit(st: State, disabled: bool): (r: Option<seq<string>>)
    ensures r.Some? <==> AllPlaced(st) && !disabled
    ensures r.Some? ==> |r.value| == |st.placed| && forall k :: 0 <= k < |st.placed| ==> st.placed[k] == Some(r.value[k])
  {
    if AllPlaced(st) && !disabled then Some(Contents(st.placed)) else None
  }

  /* ---------- the permutation invariant ---------- */

  /** No event is listed twice. */
  ghost predicate Distinct(events: seq<string>)
  {
    forall x :: multiset(events)[x] <= 1
  }

  /** The placed items and the pool together are exactly the events, and the
      row has one slot per event. */
  predicate Conserves(st: State, events: seq<string>)
  {
    && |st.placed| == |events|
    && multiset(Placed(st.placed)) + multiset(st.pool) == multiset(events)
  }

  lemma InitConserves(events: seq<string>, pool: seq<string>)
    requires multiset(pool) == multiset(events)
    ensures Conserves(State(InitialSlots(|events|), pool), events)
  {
    PlacedOfInitial(|events|);
  }

  /** Tapping an item of the pool keeps the invariant when the events are
      distinct: the pool held that item once, and it moves to a slot. */
  lemma PoolTapConserves(st: State, events: seq<string>, disabled: bool, item: string)
    requires Conserves(st, events) && Distinct(events)
    requires item in st.pool
    ensures Conserves(PoolTap(st, disabled, item), events)
  {
    if !disabled && !AllFilled(st.placed) {
      var e := IndexOfEmpty(st.placed);
      PlacedUpdate(st.placed, e, Some(item));
      PlacedOne(st.placed[e]);
      PlacedOne(Some(item));
      var next := PoolTap(st, disabled, item);
      assert next.placed == st.placed[e := Some(item)];
      MoveOne(multiset(Placed(st.placed)), multiset(Placed(next.placed)), multiset(st.pool), multiset(next.pool),
        multiset(events), item);
    }
  }

  /** Moving the only copy of `item` from one bag to the other keeps their sum. */
  lemma MoveOne(p0: multiset<string>, p1: multiset<string>, pool0: multiset<string>, pool1: multiset<string>,
                all: multiset<string>, item: string)
    requires p1 == p0 + multiset{item} && pool1 == pool0[item := 0]
    requires p0 + pool0 == all && all[item] <= 1 && pool0[item] >= 1
    ensures p1 + pool1 == all
  {
    assert forall x :: (p1 + pool1)[x] == all[x];
  }

  /** Tapping a slot keeps the invariant: its item moves to the pool. */
  lemma SlotTapConserves(st: State, events: seq<string>, disabled: bool, index: int)
    requires Conserves(st, events)
    ensures Conserves(SlotTap(st, disabled, index), events)
  {
    if !disabled && Truthy(st, index) {
      PlacedUpdate(st.placed, index, None);
      PlacedOne(st.placed[index]);
      PlacedOne(None);
      var next := SlotTap(st, disabled, index);
      var v := st.placed[index].value;
      assert next.placed == st.placed[index := None];
      assert multiset(next.pool) == multiset(st.pool) + multiset{v};
      assert multiset(Placed(next.placed)) + multiset{v} == multiset(Placed(st.placed));
      assert forall x :: multiset(Placed(next.placed))[x] + multiset(next.pool)[x] == multiset(events)[x];
    }
  }

  /** Under the invariant a full row has emptied the pool, and what is
      submitted is an ordering of the events. */
  lemma SubmitIsPermutation(st: State, events: seq<string>)
    requires Conserves(st, events) && AllPlaced(st)
    ensures st.pool == []
    ensures Submit(st, false) == Some(Contents(st.placed))
    ensures multiset(Contents(st.placed)) == multiset(events)
  {
    PlacedOfFull(st.placed);
    assert |multiset(Placed(st.placed)) + multiset(st.pool)| == |events|;
    assert |multiset(st.pool)| == 0;
  }

  /** Any series of taps keeps the invariant when the events are distinct. */
  lemma {:induction false} RunConserves(st: State, events: seq<string>, disabled: bool, taps: seq<Tap>)
    requires Conserves(st, events) && Distinct(events)
    ensures Conserves(Run(st, disabled, taps), events)
    decreases |taps|
  {
    if |taps| > 0 {
      match taps[0] {
        case PoolButton(item) =>
          if item in st.pool {
            PoolTapConserves(st, events, disabled, item);
          }
        case SlotButton(index) =>
          SlotTapConserves(st, events, disabled, index);
      }
      RunConserves(Step(st, disabled, taps[0]), events, disabled, taps[1..]);
    }
  }

  /* ---------- what a repeated event does ---------- */

  /** How many items the card holds, in the slots and in the pool. */
  function Held(st: State): nat
  {
    |Placed(st.placed)| + |st.pool|
  }

  /** A pool tap moves the item into one slot and drops every copy of it
      from the pool, so the card never holds more than before. */
  lemma PoolTapHeld(st: State, disabled: bool, item: string)
    requires item in st.pool
    ensures Held(PoolTap(st, disabled, item)) <= Held(st)
  {
    if !disabled && !AllFilled(st.placed) {
      var e := IndexOfEmpty(st.placed);
      PlacedUpdateCount(st.placed, e, Some(item));
      RemoveAllShrinks(st.pool, item);
    }
  }

  /** A slot tap moves one item back to the pool. */
  lemma SlotTapHeld(st: State, disabled: bool, index: int)
    ensures Held(SlotTap(st, disabled, index)) == Held(st)
  {
    if !disabled && Truthy(st, index) {
      PlacedUpdateCount(st.placed, index, None);
    }
  }

  /** Dropping every copy of an item the pool holds shortens it. */
  lemma {:induction false} RemoveAllShrinks(pool: seq<string>, item: string)
    ensures |RemoveAll(pool, item)| <= |pool|
    ensures item in pool ==> |RemoveAll(pool, item)| < |pool|
    decreases |pool|
  {
    if |pool| > 0 {
      RemoveAllShrinks(pool[1..], item);
      assert item in pool ==> pool[0] == item || item in pool[1..];
    }
  }

  /** Dropping every copy of an item shortens the pool by the number of
      copies. */
  lemma {:induction false} RemoveAllCount(pool: seq<string>, item: string)
    ensures |RemoveAll(pool, item)| + multiset(pool)[item] == |pool|
    decreases |pool|
  {
    if |pool| > 0 {
      RemoveAllCount(pool[1..], item);
      assert pool == [pool[0]] + pool[1..];
    }
  }

  /** No series of taps makes the card hold more items. */
  lemma {:induction false} RunHeld(st: State, disabled: bool, taps: seq<Tap>)
    ensures Held(Run(st, disabled, taps)) <= Held(st)
    decreases |taps|
  {
    if |taps| > 0 {
      var next := Step(st, disabled, taps[0]);
      match taps[0] {
        case PoolButton(item) =>
          if item in st.pool {
            PoolTapHeld(st, disabled, item);
          }
        case SlotButton(index) =>
          SlotTapHeld(st, disabled, index);
      }
      RunHeld(next, disabled, taps[1..]);
    }
  }

  /** A card that holds fewer items than it has slots can never fill them
      all, whatever is tapped. */
  lemma NeverAllPlaced(st: State, disabled: bool, taps: seq<Tap>)
    requires Held(st) < |st.placed|
    ensures !AllPlaced(Run(st, disabled, taps))
  {
    RunHeld(st, disabled, taps);
  }

  /** With a repeated event the invariant breaks: tapping one copy takes
      both out of the pool, and after that no series of taps fills the last
      slot, so the answer can never be submitted. */
  lemma RepeatedEventIsLost()
    ensures var st := PoolTap(State(InitialSlots(2), ["a", "a"]), false, "a");
      && st == State([Some("a"), None], [])
      && !Conserves(st, ["a", "a"])
      && forall taps :: !AllPlaced(Run(st, false, taps)) && Submit(Run(st, false, taps), false) == None
  {
    var st := PoolTap(State(InitialSlots(2), ["a", "a"]), false, "a");
    assert InitialSlots(2)[0] == None;
    assert IndexOfEmpty(InitialSlots(2)) == 0;
    assert RemoveAll(["a", "a"], "a") == [];
    assert st.placed == [Some("a"), None];
    PlacedAppend([Some("a")], [None]);
    assert [Some("a")] + [None] == st.placed;
    PlacedOne(Some("a"));
    PlacedOne(None);
    assert multiset(Placed(st.placed)) == multiset{"a"};
    assert multiset(["a", "a"])["a"] == 2;
    assert Held(st) == 1;
    forall taps
      ensures !AllPlaced(Run(st, false, taps))
    {
      NeverAllPlaced(st, false, taps);
    }
  }

  /** Whenever the pool holds two copies of an event and a slot is free,
      tapping that event breaks the invariant for good: both copies leave
      the pool, one slot is filled, and from then on no series of taps fills
      every slot, so the answer can never be submitted. */
  lemma RepeatedEventStuck(st: State, events: seq<string>, item: string)
    requires Conserves(st, events) && multiset(st.pool)[item] >= 2 && !AllFilled(st.placed)
    ensures !Conserves(PoolTap(st, false, item), events)
    ensures forall taps :: !AllPlaced(Run(PoolTap(st, false, item), false, taps))
  {
    var next := PoolTap(st, false, item);
    assert |multiset(Placed(st.placed)) + multiset(st.pool)| == |events|;
    assert Held(st) == |st.placed|;
    var e := IndexOfEmpty(st.placed);
    PlacedUpdateCount(st.placed, e, Some(item));
    RemoveAllCount(st.pool, item);
    assert Held(next) < |next.placed|;
    assert |multiset(Placed(next.placed)) + multiset(next.pool)| < |events|;
    forall taps
      ensures !AllPlaced(Run(next, false, taps))
    {
      NeverAllPlaced(next, false, taps);
    }
  }
}
