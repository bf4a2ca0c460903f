/** The row of answer slots both cards keep in state (`placements` in
    components/DragDropCard.tsx, `placed` in components/ReorderCard.tsx): an
    array of strings and `null`s that starts all `null`. */
module SlotRow {
  import opened Options

  type Slots = seq<Option<string>>

  /** `Array(n).fill(null)`. */
  function InitialSlots(n: nat): (slots: Slots)
    ensures |slots| == n
    ensures forall k :: 0 <= k < |slots| ==> slots[k] == None
  {
    seq(n, _ => None)
  }

  /** `slots.every((p) => p !== null)`. */
  predicate AllFilled(slots: Slots)
  {
    forall k :: 0 <= k < |slots| ==> slots[k].Some?
  }

  /** `slots.indexOf(null)`: the first empty slot, -1 if there is none. */
  function IndexOfEmpty(slots: Slots): (r: int)
    ensures -1 <= r < |slots|
    ensures r == -1 <==> AllFilled(slots)
    ensures r >= 0 ==> slots[r] == None && forall k :: 0 <= k < r ==> slots[k].Some?
    decreases |slots|
  {
    if |slots| == 0 then -1
    else if slots[0] == None then 0
    else
      var t := IndexOfEmpty(slots[1..]);
      if t == -1 then -1 else t + 1
  }

  /** The strings in the slots, left to right, skipping the empty ones. */
  function Placed(slots: Slots): seq<string>
    decreases |slots|
  {
    if |slots| == 0 then []
    else (if slots[0].Some? then [slots[0].value] else []) + Placed(slots[1..])
  }

  /** The strings of a full row, slot by slot. */
  function Contents(slots: Slots): (ws: seq<string>)
    requires AllFilled(slots)
    ensures |ws| == |slots|
    ensures forall k :: 0 <= k < |slots| ==> slots[k] == Some(ws[k])
  {
    seq(|slots|, k requires 0 <= k < |slots| => slots[k].value)
  }

  /** Slots holding exactly the given strings. */
  function Filled(ws: seq<string>): (slots: Slots)
    ensures |slots| == |ws| && AllFilled(slots)
    ensures forall k :: 0 <= k < |ws| ==> slots[k] == Some(ws[k])
  {
    seq(|ws|, k requires 0 <= k < |ws| => Some(ws[k]))
  }

  lemma {:induction false} PlacedAppend(a: Slots, b: Slots)
    ensures Placed(a + b) == Placed(a) + Placed(b)
    decreases |a|
  {
    if |a| == 0 {
      assert a + b == b;
    } else {
      assert (a + b)[0] == a[0] && (a + b)[1..] == a[1..] + b;
      PlacedAppend(a[1..], b);
    }
  }

  lemma PlacedOne(y: Option<string>)
    ensures multiset(Placed([y])) == if y.Some? then multiset{y.value} else multiset{}
  {
    assert [y][1..] == [];
    if y.Some? {
      assert Placed([y]) == [y.value];
    }
  }

  /** Writing one slot trades that slot's old string for the new one among
      the placed strings. */
  lemma PlacedUpdate(slots: Slots, e: nat, x: Option<string>)
    requires e < |slots|
    ensures multiset(Placed(slots[e := x])) + multiset(Placed([slots[e]]))
         == multiset(Placed(slots)) + multiset(Placed([x]))
  {
    var before, after := slots[..e], slots[e + 1..];
    assert slots == before + [slots[e]] + after;
    assert slots[e := x] == before + [x] + after;
    PlacedAppend(before + [slots[e]], after);
    PlacedAppend(before, [slots[e]]);
    PlacedAppend(before + [x], after);
    PlacedAppend(before, [x]);
  }

  /** A string is placed exactly when some slot holds it. */
  lemma {:induction false} InPlaced(slots: Slots)
    ensures forall w :: w in Placed(slots) <==> exists k :: 0 <= k < |slots| && slots[k] == Some(w)
    decreases |slots|
  {
    if |slots| > 0 {
      InPlaced(slots[1..]);
      assert forall k :: 1 <= k < |slots| ==> slots[k] == slots[1..][k - 1];
      assert forall k :: 0 <= k < |slots| - 1 ==> slots[1..][k] == slots[k + 1];
    }
  }

  lemma PlacedCountOne(y: Option<string>)
    ensures |Placed([y])| == if y.Some? then 1 else 0
  {
    assert [y][1..] == [];
  }

  /** Writing one slot changes the number of placed strings only by what the
      slot held before and holds after. */
  lemma PlacedUpdateCount(slots: Slots, e: nat, x: Option<string>)
    requires e < |slots|
    ensures |Placed(slots[e := x])| + (if slots[e].Some? then 1 else 0)
         == |Placed(slots)| + (if x.Some? then 1 else 0)
  {
    var before, after := slots[..e], slots[e + 1..];
    assert slots == before + [slots[e]] + after;
    assert slots[e := x] == before + [x] + after;
    PlacedAppend(before + [slots[e]], after);
    PlacedAppend(before, [slots[e]]);
    PlacedAppend(before + [x], after);
    PlacedAppend(before, [x]);
    PlacedCountOne(slots[e]);
    PlacedCountOne(x);
  }

  /** At most one string per slot, and one in every slot exactly when the row
      is full, in which case they are the row's words. */
  lemma {:induction false} PlacedOfFull(slots: Slots)
    ensures |Placed(slots)| <= |slots|
    ensures |Placed(slots)| == |slots| <==> AllFilled(slots)
    ensures AllFilled(slots) ==> Placed(slots) == Contents(slots)
    decreases |slots|
  {
    if |slots| > 0 {
      PlacedOfFull(slots[1..]);
      assert forall k :: 1 <= k < |slots| ==> slots[k] == slots[1..][k - 1];
      if AllFilled(slots) {
        assert Contents(slots) == [slots[0].value] + Contents(slots[1..]);
      }
    }
  }

  /** A fresh row holds nothing. */
  lemma {:induction false} PlacedOfInitial(n: nat)
    ensures Placed(InitialSlots(n)) == []
    decreases n
  {
    if n > 0 {
      assert InitialSlots(n)[1..] == InitialSlots(n - 1);
      PlacedOfInitial(n - 1);
    }
  }
}
