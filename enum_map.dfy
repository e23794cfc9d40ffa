/** `EnumMap`: a map keyed by the constants of one enumeration class,
    stored as one slot per constant, indexed by ordinal. */
module EnumMaps {
  import opened PhpValues
  import opened Enums
  import opened Slots

  /** The record a map serializes to: its configuration and, for each
      occupied ordinal, the stored value (a stored null as `Null`). */
  datatype Payload = Payload(keyType: string, valueType: string, allowNullValues: bool, values: map<int, Value>)

  /** Every value the payload holds at an ordinal `0..n-1` passes the value
      check of the payload's own configuration. */
  ghost predicate PayloadAdmissible(h: Hierarchy, p: Payload, n: nat) {
    forall i | i in p.values && 0 <= i < n :: IsValidValue(h, p.valueType, p.allowNullValues, p.values[i])
  }

  /** Admissibility grows one ordinal at a time. */
  lemma AdmissibleStep(h: Hierarchy, p: Payload, k: nat)
    ensures PayloadAdmissible(h, p, 0)
    ensures PayloadAdmissible(h, p, k + 1) <==>
      PayloadAdmissible(h, p, k) && (k in p.values ==> IsValidValue(h, p.valueType, p.allowNullValues, p.values[k]))
  {
  }

  class EnumMap {
    var keyType: string
    var valueType: string
    var allowNullValues: bool
    /** The class table `instanceof` consults when checking values. */
    var hierarchy: Hierarchy
    /** The key class's constants, in ordinal order, as `values()` gave them. */
    var keyUniverse: seq<EnumConstant>
    var slots: array<Slot>
    var size: nat

    /** Slot `i` belongs to the key of ordinal `i`, and every stored value
        passed `isValidValue`. */
    ghost predicate Coherent()
      reads this, slots
    {
      && slots.Length == |keyUniverse|
      && (forall i | 0 <= i < |keyUniverse| :: keyUniverse[i].ordinal == i && keyUniverse[i].enumType == keyType)
      && (forall i | 0 <= i < slots.Length ::
            WellMasked(slots[i]) &&
            (slots[i] != Empty ==> IsValidValue(hierarchy, valueType, allowNullValues, UnmaskNull(slots[i]))))
    }

    /** A coherent map whose `size` counts its occupied slots. */
    ghost predicate Valid()
      reads this, slots
    {
      Coherent() && size == Occupied(slots[..])
    }

    /** What every key passed in satisfies: a key of the map's class is one
        of its constants (no instance of a loaded class is created later). */
    predicate KnownKey(key: EnumConstant)
      reads this
    {
      key.enumType == keyType ==> key in keyUniverse
    }

    /** The map's contents as a dictionary from keys to values. */
    ghost function Mapping(): (r: map<EnumConstant, Value>)
      reads this, slots
      requires Coherent()
    {
      map k | k in keyUniverse && slots[k.ordinal] != Empty :: UnmaskNull(slots[k.ordinal])
    }

    /** The map was built over class `c`: the class is loaded and the
        universe is its list of constants. */
    ghost predicate BoundTo(c: EnumClass)
      reads this, c
    {
      c.enumType == keyType && c.allValuesLoaded && c.sorted == keyUniverse
    }

    /** The map was built from `reg`: its key class is one of `reg`'s, bound
        as above, and values are checked against `reg`'s class table. */
    ghost predicate BuiltFrom(reg: Registry)
      reads this, reg
    {
      keyType in reg.classes && hierarchy == reg.hierarchy
    }

    /** An allocated map before `__construct` has run: no keys, no slots. */
    constructor Blank()
      ensures Valid() && fresh(slots) && slots.Length == 0 && size == 0
    {
      keyType, valueType, allowNullValues := "", "", false;
      hierarchy := Hierarchy(map[]);
      keyUniverse := [];
      slots := new Slot[0];
      size := 0;
    }

    /** `__construct`: the key class must extend `AbstractEnum`; its full
        list of constants is taken from `values()` and every slot starts
        empty. The counter is not assigned: it keeps the value it had, which
        is zero only on a newly allocated map. */
    method Construct(reg: Registry, keyType: string, valueType: string, allowNullValues: bool)
      returns (o: Outcome)
      requires reg.Valid()
      modifies this, reg.StateOf(keyType)
      ensures reg.Valid()
      ensures o.Fail? <==> !reg.hierarchy.IsSubclassOf(keyType, AbstractEnumClass)
      ensures o.Fail? ==> o.error == NotAnEnumClass && unchanged(this) && unchanged(reg.StateOf(keyType))
      ensures o.Pass? ==>
        && Coherent() && BuiltFrom(reg) && BoundTo(reg.classes[keyType]) && fresh(slots)
        && this.keyType == keyType && this.valueType == valueType && this.allowNullValues == allowNullValues
        && |keyUniverse| == |ConstantTable(reg.classes[keyType].declared)|
        && slots[..] == EmptySlots(|keyUniverse|) && Occupied(slots[..]) == 0 && Mapping() == map[]
        && size == old(size) && (Valid() <==> old(size) == 0)
      ensures o.Pass? && old(reg.classes[keyType].allValuesLoaded) ==> keyUniverse == old(reg.classes[keyType].sorted)
    {
      if !reg.hierarchy.IsSubclassOf(keyType, AbstractEnumClass) {
        return Fail(NotAnEnumClass);
      }
      var universe := reg.classes[keyType].Values();
      reg.OneClassChanged(keyType);
      Initialize(keyType, valueType, allowNullValues, reg.hierarchy, universe);
      o := Pass;
    }

    /** The assignments of `__construct` once the key class is accepted: the
        configuration, the universe, and one empty slot per key; `size` is
        left as it was. */
    method Initialize(keyType: string, valueType: string, allowNullValues: bool,
                      hierarchy: Hierarchy, universe: seq<EnumConstant>)
      requires forall i | 0 <= i < |universe| :: universe[i].ordinal == i && universe[i].enumType == keyType
      modifies this
      ensures Coherent() && fresh(slots)
      ensures this.keyType == keyType && this.valueType == valueType && this.allowNullValues == allowNullValues
      ensures this.hierarchy == hierarchy && keyUniverse == universe
      ensures slots[..] == EmptySlots(|universe|) && Occupied(slots[..]) == 0 && Mapping() == map[]
      ensures size == old(size)
    {
      this.keyType := keyType;
      this.valueType := valueType;
      this.allowNullValues := allowNullValues;
      this.hierarchy := hierarchy;
      keyUniverse := universe;
      slots := new Slot[|universe|](_ => Empty);
      assert slots[..] == EmptySlots(|universe|);
      EmptySlotsUnoccupied(|universe|);
    }

    /** `new EnumMap(keyType, valueType, allowNullValues)`. */
    static method Create(reg: Registry, keyType: string, valueType: string, allowNullValues: bool)
      returns (r: Result<EnumMap>)
      requires reg.Valid()
      modifies reg.StateOf(keyType)
      ensures reg.Valid()
      ensures r.Err? <==> !reg.hierarchy.IsSubclassOf(keyType, AbstractEnumClass)
      ensures r.Err? ==> r.error == NotAnEnumClass
      ensures r.Ok? ==>
        && fresh(r.value) && fresh(r.value.slots) && r.value.Valid() && r.value.BuiltFrom(reg) && r.value.BoundTo(reg.classes[keyType])
        && r.value.keyType == keyType && r.value.valueType == valueType
        && r.value.allowNullValues == allowNullValues
        && r.value.size == 0 && r.value.Mapping() == map[]
    {
      var m := new EnumMap.Blank();
      var o := m.Construct(reg, keyType, valueType, allowNullValues);
      r := if o.Pass? then Ok(m) else Err(o.error);
    }

    /** `expect`: the map has exactly this configuration, or the first field
        that differs, checked in the order key type, value type, nullability. */
    function Expect(keyType: string, valueType: string, allowNullValues: bool): (o: Outcome)
      reads this
      ensures o.Pass? <==>
        keyType == this.keyType && valueType == this.valueType && allowNullValues == this.allowNullValues
      ensures keyType != this.keyType ==> o == Fail(Expectation(KeyTypeField))
      ensures keyType == this.keyType && valueType != this.valueType ==> o == Fail(Expectation(ValueTypeField))
      ensures keyType == this.keyType && valueType == this.valueType && allowNullValues != this.allowNullValues ==>
        o == Fail(Expectation(NullableField))
    {
      if keyType != this.keyType then Fail(Expectation(KeyTypeField))
      else if valueType != this.valueType then Fail(Expectation(ValueTypeField))
      else if allowNullValues != this.allowNullValues then Fail(Expectation(NullableField))
      else Pass
    }

    /** `size()`: the number of mapped keys. */
    function Size(): (n: nat)
      reads this, slots
      requires Valid()
      ensures n == Occupied(slots[..]) && n <= slots.Length
      ensures n == |Values()|
    {
      OccupantsSpec(slots[..]);
      PresentValuesAt(slots[..]);
      SizeBound();
      size
    }

    /** The count of occupied slots never exceeds the number of keys. */
    lemma SizeBound()
      requires Valid()
      ensures size <= slots.Length
    {
      OccupantsSpec(slots[..]);
      var occ := Occupants(slots[..]);
      var k := 0;
      while k < |occ|
        invariant 0 <= k <= |occ|
        invariant forall j | 0 <= j < k :: j <= occ[j]
      {
        if k > 0 {
          assert occ[k - 1] < occ[k];
        }
        k := k + 1;
      }
      if |occ| > 0 {
        assert |occ| - 1 <= occ[|occ| - 1] < slots.Length;
      }
    }

    /** `values()`: the stored values in ordinal order, nulls unmasked, empty
        slots skipped. */
    function Values(): (r: seq<Value>)
      reads this, slots
      requires Valid()
      ensures |r| == Occupied(slots[..])
      ensures forall v :: v in r <==> v in Mapping().Values
    {
      PresentValuesAt(slots[..]);
      OccupantsSpec(slots[..]);
      MappingValues();
      PresentValues(slots[..])
    }

    /** The values of `Mapping()` are the present values of the slots. */
    lemma MappingValues()
      requires Valid()
      ensures forall v :: v in PresentValues(slots[..]) <==> v in Mapping().Values
    {
      PresentValuesAt(slots[..]);
      OccupantsSpec(slots[..]);
      var s := slots[..];
      var occ := Occupants(s);
      forall v ensures v in PresentValues(s) <==> v in Mapping().Values {
        if v in PresentValues(s) {
          var j :| 0 <= j < |occ| && PresentValues(s)[j] == v;
          var k := keyUniverse[occ[j]];
          assert k in Mapping() && Mapping()[k] == v;
        }
        if v in Mapping().Values {
          var k :| k in Mapping() && Mapping()[k] == v;
          var i := k.ordinal;
          assert s[i] != Empty;
          assert i in occ;
          var j :| 0 <= j < |occ| && occ[j] == i;
          assert PresentValues(s)[j] == v;
        }
      }
    }

    /** `containsValue`: some slot holds `v` (a stored null counts). */
    function ContainsValue(v: Value): (r: bool)
      reads this, slots
      requires Valid()
      ensures r <==> v in Values()
      ensures r <==> v in Mapping().Values
    {
      PresentValuesMembers(slots[..], v);
      MappingValues();
      MaskNull(v) in slots[..]
    }

    /** Every instance the key class has registered is in the universe, so
        `KnownKey` holds of every key a caller can obtain. */
    lemma RegisteredKeysKnown(c: EnumClass, key: EnumConstant)
      requires Valid() && c.Valid() && BoundTo(c) && c.Registered(key)
      ensures KnownKey(key)
      ensures key.ordinal < slots.Length && keyUniverse[key.ordinal] == key
    {
      c.LoadedShape();
    }

    /** `checkKeyType`: the key's class is the map's key class exactly. A
        key that passes indexes its own slot. */
    predicate KeyTypeMatches(key: EnumConstant): (r: bool)
      reads this, slots
      ensures r <==> key.enumType == keyType
      ensures r && Coherent() && KnownKey(key) ==> key.ordinal < slots.Length && keyUniverse[key.ordinal] == key
    {
      OrdinalIndexesUniverse(key);
      key.enumType == keyType
    }

    /** A key of a coherent map's universe sits at the index of its ordinal. */
    lemma OrdinalIndexesUniverse(key: EnumConstant)
      ensures Coherent() && key in keyUniverse ==> key.ordinal < slots.Length && keyUniverse[key.ordinal] == key
    {
      if Coherent() && key in keyUniverse {
        var i :| 0 <= i < |keyUniverse| && keyUniverse[i] == key;
      }
    }

    /** `containsKey`: whether the key is mapped, holding null included. */
    function ContainsKey(key: EnumConstant): (r: Result<bool>)
      reads this, slots
      requires Coherent() && KnownKey(key)
      ensures r.Err? <==> key.enumType != keyType
      ensures r.Err? ==> r.error == WrongKeyType
      ensures r.Ok? ==> (r.value <==> key in Mapping())
    {
      if !KeyTypeMatches(key) then Err(WrongKeyType)
      else Ok(slots[key.ordinal] != Empty)
    }

    /** `get`: the mapped value, or null for an unmapped key. */
    function Get(key: EnumConstant): (r: Result<Value>)
      reads this, slots
      requires Coherent() && KnownKey(key)
      ensures r.Err? <==> key.enumType != keyType
      ensures r.Err? ==> r.error == WrongKeyType
      ensures r.Ok? ==> r.value == if key in Mapping() then Mapping()[key] else Null
    {
      if !KeyTypeMatches(key) then Err(WrongKeyType)
      else Ok(UnmaskNull(slots[key.ordinal]))
    }

    /** `put`: the key and the value are checked before anything changes;
        then the key maps to `v` and the previous value (null if none) is
        returned. */
    method Put(key: EnumConstant, v: Value) returns (r: Result<Value>)
      requires Coherent() && KnownKey(key)
      modifies this`size, slots
      ensures Coherent()
      ensures size - Occupied(slots[..]) == old(size - Occupied(slots[..]))
      ensures old(Valid()) ==> Valid()
      ensures key.enumType != keyType ==> r == Err(WrongKeyType)
      ensures key.enumType == keyType && !IsValidValue(hierarchy, valueType, allowNullValues, v) ==>
        r == Err(InvalidValue)
      ensures r.Ok? <==> key.enumType == keyType && IsValidValue(hierarchy, valueType, allowNullValues, v)
      ensures r.Err? ==> slots[..] == old(slots[..]) && size == old(size)
      ensures r.Ok? ==>
        && slots[..] == old(slots[..])[key.ordinal := MaskNull(v)]
        && Mapping() == old(Mapping())[key := v]
        && r.value == (if key in old(Mapping()) then old(Mapping())[key] else Null)
        && size == old(size) + (if key in old(Mapping()) then 0 else 1)
        && Get(key) == Ok(v) && ContainsKey(key) == Ok(true)
    {
      if !KeyTypeMatches(key) {
        return Err(WrongKeyType);
      }
      if !IsValidValue(hierarchy, valueType, allowNullValues, v) {
        return Err(InvalidValue);
      }
      ghost var before := Mapping();
      var index := key.ordinal;
      var oldValue := slots[index];
      OccupiedUpdate(slots[..], index, MaskNull(v));
      slots[index] := MaskNull(v);
      if oldValue == Empty {
        size := size + 1;
      }
      r := Ok(UnmaskNull(oldValue));
      MappingAfterUpdate(before, old(slots[..]), key);
    }

    /** `remove`: the key is checked, then unmapped; the previous value (null
        if none) is returned. */
    method Remove(key: EnumConstant) returns (r: Result<Value>)
      requires Coherent() && Occupied(slots[..]) <= size && KnownKey(key)
      modifies this`size, slots
      ensures Coherent()
      ensures size - Occupied(slots[..]) == old(size - Occupied(slots[..]))
      ensures old(Valid()) ==> Valid()
      ensures r.Err? <==> key.enumType != keyType
      ensures r.Err? ==> r.error == WrongKeyType && slots[..] == old(slots[..]) && size == old(size)
      ensures r.Ok? ==>
        && slots[..] == old(slots[..])[key.ordinal := Empty]
        && Mapping() == old(Mapping()) - {key}
        && r.value == (if key in old(Mapping()) then old(Mapping())[key] else Null)
        && size == old(size) - (if key in old(Mapping()) then 1 else 0)
        && ContainsKey(key) == Ok(false)
    {
      if !KeyTypeMatches(key) {
        return Err(WrongKeyType);
      }
      ghost var before := Mapping();
      var index := key.ordinal;
      var oldValue := slots[index];
      OccupiedUpdate(slots[..], index, Empty);
      slots[index] := Empty;
      if oldValue != Empty {
        size := size - 1;
      }
      r := Ok(UnmaskNull(oldValue));
      MappingAfterUpdate(before, old(slots[..]), key);
    }

    /** After slot `key.ordinal` alone changed, the mapping changed at `key`
        alone. */
    lemma MappingAfterUpdate(before: map<EnumConstant, Value>, prev: seq<Slot>, key: EnumConstant)
      requires Coherent() && key in keyUniverse && |prev| == slots.Length
      requires forall i | 0 <= i < |prev| && i != key.ordinal :: prev[i] == slots[i]
      requires forall k :: k in before <==> k in keyUniverse && prev[k.ordinal] != Empty
      requires forall k | k in before :: before[k] == UnmaskNull(prev[k.ordinal])
      ensures slots[key.ordinal] != Empty ==> Mapping() == before[key := UnmaskNull(slots[key.ordinal])]
      ensures slots[key.ordinal] == Empty ==> Mapping() == before - {key}
    {
      forall k | k in keyUniverse && k != key ensures k.ordinal != key.ordinal {
        var i :| 0 <= i < |keyUniverse| && keyUniverse[i] == k;
        var j :| 0 <= j < |keyUniverse| && keyUniverse[j] == key;
      }
    }

    /** `clear`: every slot empty and `size` zero, which also repairs a
        counter that had drifted from the occupied slots. */
    method Clear()
      requires Coherent()
      modifies this
      ensures Valid() && fresh(slots)
      ensures keyType == old(keyType) && valueType == old(valueType) && allowNullValues == old(allowNullValues)
      ensures keyUniverse == old(keyUniverse) && hierarchy == old(hierarchy)
      ensures slots[..] == EmptySlots(|keyUniverse|) && size == 0
      ensures Mapping() == map[] && Values() == []
    {
      slots := new Slot[|keyUniverse|](_ => Empty);
      size := 0;
      assert slots[..] == EmptySlots(|keyUniverse|);
      EmptySlotsUnoccupied(|keyUniverse|);
    }

    /** `equals`: the same object, or the same size and identical slots. */
    function Equals(other: EnumMap): (r: bool)
      reads this, slots, other, other.slots
      requires Valid() && other.Valid()
      ensures r <==> slots[..] == other.slots[..]
    {
      this == other || (size == other.size && slots[..] == other.slots[..])
    }

    /** Equal maps over one key universe have the same mapping. */
    lemma EqualsSameMapping(other: EnumMap)
      requires Valid() && other.Valid() && keyUniverse == other.keyUniverse
      requires Equals(other)
      ensures Mapping() == other.Mapping()
    {
      assert forall i | 0 <= i < slots.Length :: slots[..][i] == other.slots[..][i];
    }

    /** `serialize`: a loop over the slots that records each occupied
        ordinal with its unmasked value. */
    method Serialize() returns (p: Payload)
      requires Valid()
      ensures p == Payload(keyType, valueType, allowNullValues, SerializedValues(slots[..]))
      ensures forall k | k in Mapping() :: k.ordinal in p.values && p.values[k.ordinal] == Mapping()[k]
      ensures forall i | i in p.values :: 0 <= i < |keyUniverse| && keyUniverse[i] in Mapping()
    {
      var values: map<int, Value> := map[];
      var i := 0;
      while i < slots.Length
        invariant 0 <= i <= slots.Length
        invariant forall j :: j in values <==> 0 <= j < i && slots[j] != Empty
        invariant forall j | j in values :: values[j] == UnmaskNull(slots[j])
      {
        if slots[i] != Empty {
          values := values[i := UnmaskNull(slots[i])];
        }
        i := i + 1;
      }
      assert forall j | 0 <= j < slots.Length :: slots[..][j] == slots[j];
      assert values == SerializedValues(slots[..]);
      p := Payload(keyType, valueType, allowNullValues, values);
      forall i | i in p.values ensures keyUniverse[i] in Mapping() {
        assert keyUniverse[i].ordinal == i;
      }
    }

    /** `getIterator`: the mapped keys with their values, in ordinal order.
        The generator is taken as the list of pairs it yields. */
    method GetIterator() returns (pairs: seq<(EnumConstant, Value)>)
      requires Valid()
      ensures pairs == Iteration()
    {
      pairs := [];
      var i := 0;
      while i < |keyUniverse|
        invariant 0 <= i <= |keyUniverse|
        invariant pairs == Pairs(keyUniverse[..i], slots[..i])
      {
        assert keyUniverse[..i + 1][..i] == keyUniverse[..i];
        assert slots[..i + 1][..i] == slots[..i];
        var key := keyUniverse[i];
        if slots[key.ordinal] != Empty {
          pairs := pairs + [(key, UnmaskNull(slots[key.ordinal]))];
        }
        i := i + 1;
      }
      assert keyUniverse[..i] == keyUniverse;
      assert slots[..i] == slots[..];
    }

    /** The pairs the iterator yields. */
    ghost function Iteration(): (r: seq<(EnumConstant, Value)>)
      reads this, slots
      requires Valid()
    {
      Pairs(keyUniverse, slots[..])
    }

    /** The iteration yields `size` pairs and its values are `values()`. */
    lemma IterationValues()
      requires Valid()
      ensures |Iteration()| == size == |Values()|
      ensures forall j | 0 <= j < |Values()| :: Iteration()[j].1 == Values()[j]
    {
      PairsAt(keyUniverse, slots[..]);
      PresentValuesAt(slots[..]);
      OccupantsSpec(slots[..]);
    }

    /** The iteration visits keys in strictly ascending ordinal order. */
    lemma IterationOrdered()
      requires Valid()
      ensures forall j, j' | 0 <= j < j' < |Iteration()| :: Iteration()[j].0.ordinal < Iteration()[j'].0.ordinal
    {
      var s := slots[..];
      PairsAt(keyUniverse, s);
      OccupantsSpec(s);
      var occ := Occupants(s);
      forall j, j' | 0 <= j < j' < |Iteration()| ensures Iteration()[j].0.ordinal < Iteration()[j'].0.ordinal {
        assert occ[j] < occ[j'];
      }
    }

    /** The iteration yields exactly the entries of the mapping. */
    lemma IterationEntries()
      requires Valid()
      ensures forall j | 0 <= j < |Iteration()| ::
        Iteration()[j].0 in Mapping() && Mapping()[Iteration()[j].0] == Iteration()[j].1
      ensures forall k | k in Mapping() :: (k, Mapping()[k]) in Iteration()
    {
      var s := slots[..];
      PairsAt(keyUniverse, s);
      OccupantsSpec(s);
      var occ := Occupants(s);
      forall k | k in Mapping() ensures (k, Mapping()[k]) in Iteration() {
        var i :| 0 <= i < |keyUniverse| && keyUniverse[i] == k;
        assert s[i] != Empty;
        assert i in occ;
        var j :| 0 <= j < |occ| && occ[j] == i;
        assert Iteration()[j] == (k, Mapping()[k]);
      }
    }

    /** Every value of a serialization of a valid map passes the map's own
        value check, so replaying it through `put` cannot fail. */
    lemma SerializedValuesAdmissible()
      requires Valid()
      ensures forall i | i in SerializedValues(slots[..]) ::
        IsValidValue(hierarchy, valueType, allowNullValues, SerializedValues(slots[..])[i])
    {
    }

    /** `unserialize` as written: `__construct` with the payload's
        configuration, then `put` for each key whose ordinal the payload
        holds, in ordinal order. The first failing check is the error.
        `__construct` leaves `size` alone, so on a map that already counted
        entries the counter ends up that much above the occupied slots. */
    method UnserializeAsWritten(reg: Registry, p: Payload) returns (o: Outcome)
      requires reg.Valid()
      modifies this, reg.StateOf(p.keyType)
      ensures reg.Valid()
      ensures !reg.hierarchy.IsSubclassOf(p.keyType, AbstractEnumClass) ==> o == Fail(NotAnEnumClass)
      ensures o.Pass? <==>
        && reg.hierarchy.IsSubclassOf(p.keyType, AbstractEnumClass)
        && PayloadAdmissible(reg.hierarchy, p, |ConstantTable(reg.classes[p.keyType].declared)|)
      ensures reg.hierarchy.IsSubclassOf(p.keyType, AbstractEnumClass) && o.Fail? ==> o.error == InvalidValue
      ensures o.Pass? ==>
        && Coherent() && BuiltFrom(reg) && BoundTo(reg.classes[p.keyType])
        && keyType == p.keyType && valueType == p.valueType && allowNullValues == p.allowNullValues
        && slots[..] == RestoredSlots(|keyUniverse|, p.values)
        && |keyUniverse| == |ConstantTable(reg.classes[p.keyType].declared)|
        && size == old(size) + Occupied(slots[..])
        && (Valid() <==> old(size) == 0)
      ensures o.Pass? && old(reg.classes[p.keyType].allValuesLoaded) ==> keyUniverse == old(reg.classes[p.keyType].sorted)
      ensures o == Fail(NotAnEnumClass) ==> unchanged(this)
    {
      o := Construct(reg, p.keyType, p.valueType, p.allowNullValues);
      if o.Fail? {
        return;
      }
      ghost var n := |ConstantTable(reg.classes[p.keyType].declared)|;
      assert n == |keyUniverse| && hierarchy == reg.hierarchy;
      o := Replay(p);
      assert n == |ConstantTable(reg.classes[p.keyType].declared)| && BuiltFrom(reg);
    }

    /** `unserialize` with the counter restarted after `__construct`, as
        after `new` and `clear`: the rebuilt map is valid whatever the map
        held before. */
    method Unserialize(reg: Registry, p: Payload) returns (o: Outcome)
      requires reg.Valid()
      modifies this, reg.StateOf(p.keyType)
      ensures reg.Valid()
      ensures !reg.hierarchy.IsSubclassOf(p.keyType, AbstractEnumClass) ==> o == Fail(NotAnEnumClass)
      ensures o.Pass? <==>
        && reg.hierarchy.IsSubclassOf(p.keyType, AbstractEnumClass)
        && PayloadAdmissible(reg.hierarchy, p, |ConstantTable(reg.classes[p.keyType].declared)|)
      ensures reg.hierarchy.IsSubclassOf(p.keyType, AbstractEnumClass) && o.Fail? ==> o.error == InvalidValue
      ensures o.Pass? ==>
        && Valid() && BuiltFrom(reg) && BoundTo(reg.classes[p.keyType])
        && keyType == p.keyType && valueType == p.valueType && allowNullValues == p.allowNullValues
        && slots[..] == RestoredSlots(|keyUniverse|, p.values)
        && |keyUniverse| == |ConstantTable(reg.classes[p.keyType].declared)|
        && size == Occupied(slots[..])
      ensures o.Pass? && old(reg.classes[p.keyType].allValuesLoaded) ==> keyUniverse == old(reg.classes[p.keyType].sorted)
      ensures o == Fail(NotAnEnumClass) ==> unchanged(this)
    {
      o := Construct(reg, p.keyType, p.valueType, p.allowNullValues);
      if o.Fail? {
        return;
      }
      size := 0;
      ghost var n := |ConstantTable(reg.classes[p.keyType].declared)|;
      assert n == |keyUniverse| && hierarchy == reg.hierarchy;
      o := Replay(p);
      assert n == |ConstantTable(reg.classes[p.keyType].declared)| && BuiltFrom(reg);
    }

    /** One step of the loop of `unserialize`: `put` the payload's value
        for `key` when the payload holds its ordinal. */
    method ReplayKey(p: Payload, key: EnumConstant) returns (o: Outcome)
      requires Coherent() && key in keyUniverse
      requires valueType == p.valueType && allowNullValues == p.allowNullValues
      modifies this`size, slots
      ensures Coherent()
      ensures size - Occupied(slots[..]) == old(size - Occupied(slots[..]))
      ensures o.Pass? <==>
        (key.ordinal in p.values ==> IsValidValue(hierarchy, valueType, allowNullValues, p.values[key.ordinal]))
      ensures o.Fail? ==> o.error == InvalidValue
      ensures o.Pass? && key.ordinal in p.values ==> slots[..] == old(slots[..])[key.ordinal := MaskNull(p.values[key.ordinal])]
      ensures o.Pass? && key.ordinal !in p.values ==> slots[..] == old(slots[..])
    {
      o := Pass;
      if key.ordinal in p.values {
        var r := Put(key, p.values[key.ordinal]);
        if r.Err? {
          o := Fail(r.error);
        }
      }
    }

    /** The loop of `unserialize`: for each key of the universe, in order,
        `put` the payload's value at its ordinal when there is one. Each
        `put` into an empty slot adds one to whatever `size` held. */
    method Replay(p: Payload) returns (o: Outcome)
      requires Coherent() && slots[..] == EmptySlots(|keyUniverse|)
      requires valueType == p.valueType && allowNullValues == p.allowNullValues
      modifies this`size, slots
      ensures Coherent()
      ensures size == old(size) + Occupied(slots[..])
      ensures o.Pass? <==> PayloadAdmissible(hierarchy, p, |keyUniverse|)
      ensures o.Fail? ==> o.error == InvalidValue
      ensures o.Pass? ==> slots[..] == RestoredSlots(|keyUniverse|, p.values)
    {
      EmptySlotsUnoccupied(|keyUniverse|);
      var n := |keyUniverse|;
      if n > 0 {
        PartlyRestoredSteps(n, p.values, 0);
      }
      var i := 0;
      while i < n
        invariant 0 <= i <= n
        invariant Coherent()
        invariant size == old(size) + Occupied(slots[..])
        invariant slots[..] == PartlyRestored(n, p.values, i)
        invariant PayloadAdmissible(hierarchy, p, i)
      {
        PartlyRestoredSteps(n, p.values, i);
        AdmissibleStep(hierarchy, p, i);
        o := ReplayKey(p, keyUniverse[i]);
        if o.Fail? {
          return;
        }
        i := i + 1;
      }
      if n > 0 {
        PartlyRestoredSteps(n, p.values, 0);
      } else {
        assert slots[..] == RestoredSlots(n, p.values);
      }
      o := Pass;
    }
  }

  /** The input that shows the stale counter: `unserialize` called on a map
      counting two entries, with a payload holding one value, leaves a map
      whose `size()` is 3 while one slot is occupied. */
  method StaleSizeOnReunserialize(reg: Registry, m: EnumMap, p: Payload) returns (o: Outcome)
    requires reg.Valid() && m.Valid() && m.size == 2
    requires reg.hierarchy.IsSubclassOf(p.keyType, AbstractEnumClass)
    requires |ConstantTable(reg.classes[p.keyType].declared)| >= 1
    requires p.valueType == "int" && p.values == map[0 := Int(7)]
    modifies m, reg.StateOf(p.keyType)
    ensures o.Pass? && m.size == 3 && Occupied(m.slots[..]) == 1 && !m.Valid()
  {
    o := m.UnserializeAsWritten(reg, p);
    OccupiedFirstOnly(m.slots[..]);
  }

  /** Serializing a map and unserializing the payload into a newly
      allocated map, through `unserialize` as written (the counter starts
      from its default zero), gives a map equal to the original, with the
      same mapping. Stored objects are
      excluded: PHP would recreate them, and `equals` compares them by
      identity. */
  method SerializeThenUnserialize(reg: Registry, m: EnumMap) returns (copy: EnumMap)
    requires reg.Valid() && m.Valid() && m.BuiltFrom(reg) && m.BoundTo(reg.classes[m.keyType])
    requires forall i | 0 <= i < m.slots.Length :: ObjectFree(UnmaskNull(m.slots[i]))
    modifies reg.StateOf(m.keyType)
    ensures reg.Valid() && fresh(copy) && copy.Valid()
    ensures copy.keyType == m.keyType && copy.valueType == m.valueType && copy.allowNullValues == m.allowNullValues
    ensures copy.Equals(m) && copy.Mapping() == m.Mapping()
  {
    var p := m.Serialize();
    ghost var original := m.slots[..];
    ghost var u := m.keyUniverse;
    ghost var c := reg.classes[m.keyType];
    c.LoadedShape();
    assert |ConstantTable(c.declared)| == |u| == |original|;
    m.SerializedValuesAdmissible();
    assert PayloadAdmissible(reg.hierarchy, p, |u|);
    assert m.slots !in reg.StateOf(m.keyType) && m !in reg.StateOf(m.keyType);
    copy := new EnumMap.Blank();
    var o := copy.UnserializeAsWritten(reg, p);
    assert m.slots[..] == original;
    assert m.Valid() && m.keyUniverse == u;
    assert o.Pass? && copy.keyUniverse == u;
    Slots.SerializeRoundTrip(original);
    assert copy.slots[..] == original;
    copy.EqualsSameMapping(m);
  }
}
