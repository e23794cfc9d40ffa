/** The slot array of an EnumMap, as a value: what a slot holds, how a
    stored null is told apart from an empty slot, and the functions the
    map's operations are specified by. */
module Slots {
  import opened PhpValues

  /** A slot is empty, holds the value null (the `NullValue` sentinel of the
      source), or holds a non-null value. */
  datatype Slot = Empty | NullVal | Val(v: Value)

  /** A slot that `maskNull` can produce: null is never stored unmasked. */
  predicate WellMasked(s: Slot) {
    s != Val(Null)
  }

  /** `unmaskNull`: the value a slot stands for; an empty slot reads as null. */
  function UnmaskNull(s: Slot): (r: Value)
    ensures r == Null <==> s == Empty || s == NullVal || s == Val(Null)
  {
    match s
    case Empty => Null
    case NullVal => Null
    case Val(v) => v
  }

  /** `maskNull`: the slot that stores `v`. */
  function MaskNull(v: Value): (s: Slot)
    ensures s != Empty && WellMasked(s)
    ensures UnmaskNull(s) == v
    ensures s == NullVal <==> v == Null
  {
    if v == Null then NullVal else Val(v)
  }

  /** Masking recovers every occupied, well-masked slot from the value it
      stands for, so stored values and occupied slots are in one-to-one
      correspondence. */
  lemma MaskUnmask(s: Slot)
    requires s != Empty && WellMasked(s)
    ensures MaskNull(UnmaskNull(s)) == s
  {
  }

  /** The number of occupied slots, the quantity the map's `size` counts. */
  function Occupied(s: seq<Slot>): (r: nat) {
    if s == [] then 0
    else Occupied(s[..|s| - 1]) + (if s[|s| - 1] != Empty then 1 else 0)
  }

  /** The positions of the occupied slots, ascending. */
  function Occupants(s: seq<Slot>): (r: seq<nat>) {
    if s == [] then []
    else Occupants(s[..|s| - 1]) + (if s[|s| - 1] != Empty then [|s| - 1] else [])
  }

  /** `Occupants` lists exactly the occupied positions, in strictly
      ascending order, and there are `Occupied(s)` of them. */
  lemma {:induction false} OccupantsSpec(s: seq<Slot>)
    ensures |Occupants(s)| == Occupied(s)
    ensures forall j | 0 <= j < |Occupants(s)| :: Occupants(s)[j] < |s| && s[Occupants(s)[j]] != Empty
    ensures forall j, j' | 0 <= j < j' < |Occupants(s)| :: Occupants(s)[j] < Occupants(s)[j']
    ensures forall i | 0 <= i < |s| && s[i] != Empty :: i in Occupants(s)
  {
    if s != [] {
      var init := s[..|s| - 1];
      OccupantsSpec(init);
      assert forall i | 0 <= i < |init| :: init[i] == s[i];
    }
  }

  /** Replacing slot `k` changes the count by what the slot gained or lost. */
  lemma {:induction false} OccupiedUpdate(s: seq<Slot>, k: nat, x: Slot)
    requires k < |s|
    ensures Occupied(s[k := x]) ==
      Occupied(s) - (if s[k] != Empty then 1 else 0) + (if x != Empty then 1 else 0)
  {
    var n := |s| - 1;
    if k < n {
      OccupiedUpdate(s[..n], k, x);
      assert s[k := x][..n] == s[..n][k := x];
    } else {
      assert s[k := x][..n] == s[..n];
    }
  }

  /** An array whose first slot alone is occupied has one occupied slot. */
  lemma {:induction false} OccupiedFirstOnly(s: seq<Slot>)
    requires |s| >= 1 && s[0] != Empty
    requires forall i | 1 <= i < |s| :: s[i] == Empty
    ensures Occupied(s) == 1
  {
    if |s| > 1 {
      OccupiedFirstOnly(s[..|s| - 1]);
    }
  }

  /** A slot array of `n` empty slots. */
  function EmptySlots(n: nat): (s: seq<Slot>)
    ensures |s| == n
  {
    seq(n, _ => Empty)
  }

  /** No slot of a freshly filled array is occupied. */
  lemma {:induction false} EmptySlotsUnoccupied(n: nat)
    ensures Occupied(EmptySlots(n)) == 0 && Occupants(EmptySlots(n)) == []
  {
    if n > 0 {
      EmptySlotsUnoccupied(n - 1);
      assert EmptySlots(n)[..n - 1] == EmptySlots(n - 1);
    }
  }

  /** The values of the occupied slots in slot order, unmasked: the
      `array_filter` then `array_map` pipeline of `values()`. */
  function PresentValues(s: seq<Slot>): (r: seq<Value>) {
    if s == [] then []
    else
      var n := |s| - 1;
      PresentValues(s[..n]) + (if s[n] != Empty then [UnmaskNull(s[n])] else [])
  }

  /** The `j`-th present value is the unmasked value of the `j`-th occupied
      slot. */
  lemma {:induction false} PresentValuesAt(s: seq<Slot>)
    ensures |PresentValues(s)| == |Occupants(s)|
    ensures forall j | 0 <= j < |Occupants(s)| ::
      Occupants(s)[j] < |s| && PresentValues(s)[j] == UnmaskNull(s[Occupants(s)[j]])
  {
    if s != [] {
      var n := |s| - 1;
      PresentValuesAt(s[..n]);
      OccupantsSpec(s[..n]);
    }
  }

  /** With every slot well masked, `v` is among the present values exactly
      when some slot holds the masked `v`: the strict `in_array` search of
      `containsValue` agrees with `values()`. */
  lemma PresentValuesMembers(s: seq<Slot>, v: Value)
    requires forall i | 0 <= i < |s| :: WellMasked(s[i])
    ensures v in PresentValues(s) <==> MaskNull(v) in s
  {
    OccupantsSpec(s);
    PresentValuesAt(s);
    var occ := Occupants(s);
    if v in PresentValues(s) {
      var j :| 0 <= j < |occ| && PresentValues(s)[j] == v;
      assert s[occ[j]] == MaskNull(v);
    }
    if MaskNull(v) in s {
      var i :| 0 <= i < |s| && s[i] == MaskNull(v);
      assert i in occ;
      var j :| 0 <= j < |occ| && occ[j] == i;
      assert PresentValues(s)[j] == v;
    }
  }

  /** The occupied slots paired with the keys at the same positions, in slot
      order: the pairs the map's iterator yields. */
  function Pairs<K>(keys: seq<K>, s: seq<Slot>): (r: seq<(K, Value)>)
    requires |keys| == |s|
  {
    if s == [] then []
    else
      var n := |s| - 1;
      Pairs(keys[..n], s[..n]) + (if s[n] != Empty then [(keys[n], UnmaskNull(s[n]))] else [])
  }

  /** The `j`-th pair is the key and unmasked value of the `j`-th occupied
      slot. */
  lemma {:induction false} PairsAt<K>(keys: seq<K>, s: seq<Slot>)
    requires |keys| == |s|
    ensures |Pairs(keys, s)| == |Occupants(s)|
    ensures forall j | 0 <= j < |Occupants(s)| ::
      Occupants(s)[j] < |s| && Pairs(keys, s)[j] == (keys[Occupants(s)[j]], UnmaskNull(s[Occupants(s)[j]]))
  {
    if s != [] {
      var n := |s| - 1;
      PairsAt(keys[..n], s[..n]);
      OccupantsSpec(s[..n]);
    }
  }

  /** The `values` record of a serialized map: each occupied ordinal with
      its unmasked value; empty slots are omitted. */
  function SerializedValues(s: seq<Slot>): (m: map<int, Value>)
    ensures forall i :: i in m <==> 0 <= i < |s| && s[i] != Empty
  {
    map i | 0 <= i < |s| && s[i] != Empty :: UnmaskNull(s[i])
  }

  /** The slot array that replaying a `values` record through `put` into
      `n` empty slots produces: ordinals outside `0..n-1` are never read. */
  function RestoredSlots(n: nat, m: map<int, Value>): (s: seq<Slot>)
    ensures |s| == n
  {
    seq(n, i requires 0 <= i < n => if i in m then MaskNull(m[i]) else Empty)
  }

  /** The slots after replaying the ordinals below `k` only. */
  function PartlyRestored(n: nat, m: map<int, Value>, k: nat): (s: seq<Slot>)
    ensures |s| == n
  {
    seq(n, i requires 0 <= i < n => if i < k && i in m then MaskNull(m[i]) else Empty)
  }

  /** Replaying starts from empty slots, each step sets at most slot `k`,
      and after the last ordinal the slots are fully restored. */
  lemma PartlyRestoredSteps(n: nat, m: map<int, Value>, k: nat)
    requires k < n
    ensures PartlyRestored(n, m, 0) == EmptySlots(n)
    ensures PartlyRestored(n, m, k + 1) ==
      if k in m then PartlyRestored(n, m, k)[k := MaskNull(m[k])] else PartlyRestored(n, m, k)
    ensures PartlyRestored(n, m, n) == RestoredSlots(n, m)
  {
  }

  /** Restoring a serialized slot array gives back the same slots. */
  lemma SerializeRoundTrip(s: seq<Slot>)
    requires forall i | 0 <= i < |s| :: WellMasked(s[i])
    ensures RestoredSlots(|s|, SerializedValues(s)) == s
  {
    var r := RestoredSlots(|s|, SerializedValues(s));
    forall i | 0 <= i < |s| ensures r[i] == s[i] {
      if s[i] != Empty {
        MaskUnmask(s[i]);
      }
    }
  }
}
