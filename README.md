# php-enum: EnumMap and the enumeration domain, in Dafny

This project models the core of the `W2W\Enum` PHP library:

- `AbstractEnum`. An enumeration class declares `protected` constants. Each one becomes a singleton instance with a name and an ordinal; ordinals run 0, 1, 2, … in declaration order. Instances are created lazily by `valueOf`, all at once by `values()`, and cached for the life of the process.
- `EnumMap`. A map keyed by the constants of one enumeration class. It keeps one slot per constant, indexed by ordinal. A stored `null` is masked so that "holds null" and "empty" stay distinct. It keeps a `size` counter, checks key and value types, and can serialize itself to a record payload and be rebuilt from one.

Modules, one per file:

- `PhpValues` (`php_values.dfy`) holds the shared pieces:
  - PHP runtime values;
  - the class table that `is_subclass_of` and `instanceof` consult (`Hierarchy`);
  - the exceptions, as an `Error` datatype, with `Result`/`Outcome` wrappers;
  - the value-type check `isValidValue`.
- `Enums` (`abstract_enum.dfy`) models the enumeration domain:
  - The constants table is `ConstantTable`. It is a function of the declared constants, and `constants()` builds it in a loop.
  - An instance is an `EnumConstant`, whose name, ordinal and constructor arguments never change.
  - The static caches of one class are an `EnumClass` object: `values`, `allValuesLoaded` with the sorted list that `values()` leaves behind, and `constants`. Its methods are `ValueOf`, `CreateValue`, `Values` and `LoadConstants`.
  - A `Registry` holds every enumeration class.
- `Slots` (`slots.dfy`) models the slot array as a value:
  - the `Slot` datatype (`Empty | NullVal | Val(v)`), whose `NullVal` replaces the `NullValue` sentinel object;
  - `maskNull`/`unmaskNull`;
  - the functions the map's operations are specified by: occupied count, present values, iteration pairs, and serialized and restored slots;
  - the lemmas about these functions.
- `EnumMaps` (`enum_map.dfy`) holds the `EnumMap` class:
  - Its slots are an `array<Slot>` that `put`, `remove` and `clear` update in place.
  - `Coherent()` states the invariants of the slots:
    - there is one slot per key;
    - the key at index `i` has ordinal `i`;
    - every stored value passed the value check.
  - `Valid()` adds that `size` equals the number of occupied slots. The two are kept apart because `unserialize`, as written, can break the second and not the first (see "## Findings").
  - `Mapping()` reads the slots as a dictionary from keys to values. The operations are specified against it.

I/O and runtime facilities become parameters:

- Reflection over a class's constants is the `declared` list of an `EnumClass`.
- PHP's class table is the `Hierarchy` value.
- The `serialize()`/`unserialize()` byte string is the `Payload` record.

Behaviours of the code worth noting:

- `compareTo` accepts `other` when it is an instance of the calling class, subclasses included (`instanceof static`). It is not limited to exactly the same class.
- `equals` compares only `size` and the slot arrays, never the key type, value type or nullability. Two maps of different configurations over one key class with identical slots are equal.
- The serialization round trip preserves `equals` only for maps whose values hold no object. PHP's `unserialize` creates new objects, and the `===` comparison in `equals` compares objects by identity. `SerializeThenUnserialize` is stated for object-free maps for this reason.

## Model

| member | source | states |
|---|---|---|
| PhpValues.IsValidValueRules | src/EnumMap.php:184-214 | null is accepted exactly when nulls are allowed; "mixed" accepts every non-null value; each primitive tag and its alias accepts exactly its own kind; any other tag accepts exactly the objects that are instances of that class |
| Slots.MaskNull | src/EnumMap.php:162-168 | a masked value is never an empty slot nor an unmasked null, unmasks back to the value, and is the null sentinel exactly for null |
| Slots.UnmaskNull | src/EnumMap.php:170-176 | unmasking gives null exactly for an empty slot, the null sentinel, or a stored null |
| Slots.MaskUnmask | src/EnumMap.php:162-176 | every occupied slot is the masking of the value it stands for, so slots and stored values correspond one to one |
| Slots.OccupiedUpdate | src/EnumMap.php:78-84 | overwriting one slot changes the occupied count by exactly what that slot lost or gained |
| Slots.EmptySlots | src/EnumMap.php:34 | the filled array has one slot per key |
| Slots.EmptySlotsUnoccupied | src/EnumMap.php:34 | a freshly filled slot array has no occupied slot |
| Slots.OccupantsSpec | src/EnumMap.php:122-124 | the filter keeps exactly the occupied positions, strictly ascending, and there are as many as the occupied count |
| Slots.PresentValuesAt | src/EnumMap.php:119-125 | the j-th value returned is the unmasked content of the j-th occupied slot |
| Slots.PresentValuesMembers | src/EnumMap.php:55-57 | the strict search for the masked value finds a slot exactly when the value is among the values returned by values() |
| Slots.PairsAt | src/EnumMap.php:152-160 | the j-th pair yielded is the key and unmasked value of the j-th occupied slot |
| Slots.SerializedValues | src/EnumMap.php:128-136 | the payload's ordinals are exactly the occupied slot positions |
| Slots.RestoredSlots | src/EnumMap.php:145-149 | the restored array has one slot per key, holding the payload's value for that ordinal or empty |
| Slots.PartlyRestoredSteps | src/EnumMap.php:145-149 | before the put loop every slot is empty; each step fills the slot of the next ordinal exactly when the payload holds it; after the last step the slots are the restored ones |
| Slots.SerializeRoundTrip | src/EnumMap.php:127-150 | restoring the serialized values of a well-masked slot array gives back the same slots |
| Enums.ConstantTable | src/AbstractEnum.php:89-99 | the table has one row per protected declaration |
| Enums.ConstantTableShape | src/AbstractEnum.php:89-99 | the table lists the protected constants in declaration order, the i-th with ordinal i and with its array value, or no arguments, as constructor arguments |
| Enums.ProtectedMembers | src/AbstractEnum.php:91-95 | a declaration is enumerated exactly when it is protected |
| Enums.ConstantTableNames | src/AbstractEnum.php:91-98 | a name is in the table exactly when it names a protected declared constant |
| Enums.ConstantTableDistinct | src/AbstractEnum.php:98 | distinct declared names give a table with distinct names |
| Enums.Lookup | src/AbstractEnum.php:38-39 | the lookup succeeds exactly when the table has a row of that name, and returns that row |
| Enums.EnumConstant.constructor | src/AbstractEnum.php:45-48 | an instance carries the name, ordinal and arguments it was created with, as constants that never change |
| Enums.EnumConstant.ToString | src/AbstractEnum.php:132-134 | the string form of a constant is its name |
| Enums.EnumConstant.CompareTo | src/AbstractEnum.php:112-118 | a mismatch exactly when `other` is not an instance of the calling class; otherwise the result is the ordinal difference, negative or zero exactly when the ordinal is smaller or equal |
| Enums.CompareToAntisymmetric | src/AbstractEnum.php:112-118 | within one class, comparing a constant with itself gives zero and swapping the operands negates the result |
| Enums.EnumClass.constructor | src/AbstractEnum.php:18-22 | a class starts with no instances, not loaded, and no constants table |
| Enums.EnumClass.LoadConstants | src/AbstractEnum.php:81-102 | the running ordinal loop computes the constants table, which is cached afterwards |
| Enums.EnumClass.CreateValue | src/AbstractEnum.php:45-53 | a fresh instance with the given name, ordinal and arguments is cached under its name, and nothing else changes |
| Enums.EnumClass.ValueOf | src/AbstractEnum.php:31-43 | success exactly for declared protected names; a cache hit returns the cached instance and changes nothing; a miss computes the table and caches a fresh instance; an unknown name raises and leaves the instances unchanged |
| Enums.EnumClass.Values | src/AbstractEnum.php:55-79 | the result lists, at each ordinal, the registered instance of that constant; instances created earlier are kept and reused; the class is then loaded, and a loaded class returns its cached list unchanged |
| Enums.EnumClass.FillMissing | src/AbstractEnum.php:60-70 | every constant of the table then has an instance, earlier instances are kept, and the rest are fresh |
| Enums.EnumClass.SortByOrdinal | src/AbstractEnum.php:72-74 | the arrangement holds the cached instance of ordinal o at position o and contains every cached instance |
| Enums.EnumClass.LoadedShape | src/AbstractEnum.php:55-79 | a loaded class's list has at position o the registered instance with ordinal o, describing the o-th constant, and contains every cached instance |
| Enums.EnumClass.SameOrdinalSameInstance | src/AbstractEnum.php:45-53 | two registered instances with one ordinal are the same instance |
| Enums.EnumClass.LoadedDomain | src/AbstractEnum.php:55-79 | a loaded class lists each declared protected constant exactly once and nothing else |
| Enums.EnumClass.InstanceDescribesConstant | src/AbstractEnum.php:104-110 | a registered instance's name, ordinal and string form are those of a declared constant's row in the table |
| Enums.Registry.constructor | src/AbstractEnum.php:18-22 | the registry holds one class state for each subclass of `AbstractEnum` |
| EnumMaps.EnumMap.Blank | src/EnumMap.php:13-23 | an allocated map has no slots and, from the property default, size zero |
| EnumMaps.EnumMap.Construct | src/EnumMap.php:25-35 | rejects a key type that does not extend `AbstractEnum` and changes nothing; otherwise it loads the key class, keeps the configuration, and gets one empty slot per constant; the counter is left as it was, so the map is valid exactly when the counter was zero |
| EnumMaps.EnumMap.Initialize | src/EnumMap.php:30-34 | the configuration and universe are stored, every slot is empty, the mapping is empty and the counter is untouched |
| EnumMaps.EnumMap.Create | src/EnumMap.php:25-35 | `new EnumMap` fails exactly for non-enum key types; otherwise it gives a fresh, valid, empty map with the requested configuration |
| EnumMaps.EnumMap.Expect | src/EnumMap.php:37-49 | passes exactly when all three fields match; otherwise it names the first differing field, in the order key type, value type, nullability |
| EnumMaps.EnumMap.Size | src/EnumMap.php:51-53 | the counter equals the number of occupied slots, never exceeds the number of keys, and equals the length of values() |
| EnumMaps.EnumMap.SizeBound | src/EnumMap.php:51-53 | the counter never exceeds the number of keys |
| EnumMaps.EnumMap.Values | src/EnumMap.php:119-125 | one value per occupied slot, and the values are exactly those of the mapping |
| EnumMaps.EnumMap.MappingValues | src/EnumMap.php:119-125 | the values returned are exactly the values the mapping holds |
| EnumMaps.EnumMap.ContainsValue | src/EnumMap.php:55-57 | true exactly when some key maps to the value, a stored null included |
| EnumMaps.EnumMap.RegisteredKeysKnown | src/EnumMap.php:33 | every instance the key class has registered is in the universe, at the slot of its ordinal |
| EnumMaps.EnumMap.KeyTypeMatches | src/EnumMap.php:178-182 | the check passes exactly for a key of the map's key class, and a key that passes sits at the slot of its ordinal |
| EnumMaps.EnumMap.OrdinalIndexesUniverse | src/EnumMap.php:78 | a key of the universe indexes the slot of its own ordinal |
| EnumMaps.EnumMap.ContainsKey | src/EnumMap.php:59-63 | raises exactly for a key of another class; otherwise true exactly when the key is mapped, to null included |
| EnumMaps.EnumMap.Get | src/EnumMap.php:65-69 | raises exactly for a key of another class; otherwise the mapped value, or null for an unmapped key |
| EnumMaps.EnumMap.Put | src/EnumMap.php:71-87 | a wrong key class or an invalid value raises with no state change; otherwise only slot `ordinal(k)` changes, the mapping becomes `old[k := v]`, the previous value or null is returned, size grows exactly when the key was unmapped, and `get(k)` then returns `v` and `containsKey(k)` true; the slot invariant is kept, and so is the gap between the counter and the occupied slots, which stays zero on a valid map |
| EnumMaps.EnumMap.Remove | src/EnumMap.php:89-100 | a wrong key class raises with no state change; otherwise only slot `ordinal(k)` is emptied, the key leaves the mapping, the previous value or null is returned, and size shrinks exactly when the key was mapped; the slot invariant is kept, and so is the gap between the counter and the occupied slots |
| EnumMaps.EnumMap.MappingAfterUpdate | src/EnumMap.php:78-80 | changing the slot of one key changes the mapping at that key alone |
| EnumMaps.EnumMap.Clear | src/EnumMap.php:102-105 | on any map whose slots are coherent, even one whose counter drifted: every slot is empty, size is zero and the map is valid again, the mapping and values() are empty, and the configuration is kept |
| EnumMaps.EnumMap.Equals | src/EnumMap.php:107-117 | true exactly when the slot arrays are identical; the identity shortcut and the size test agree with that |
| EnumMaps.EnumMap.EqualsSameMapping | src/EnumMap.php:116 | equal maps over one key class map the same keys to the same values |
| EnumMaps.EnumMap.Serialize | src/EnumMap.php:127-139 | the payload keeps the configuration and records exactly the mapped keys' ordinals with their unmasked values |
| EnumMaps.EnumMap.GetIterator | src/EnumMap.php:152-160 | the pairs yielded are those of the occupied slots, in slot order, with their keys |
| EnumMaps.EnumMap.IterationValues | src/EnumMap.php:152-160 | the iteration yields size pairs, and their values are values() in order |
| EnumMaps.EnumMap.IterationOrdered | src/EnumMap.php:153 | keys are yielded in strictly ascending ordinal order |
| EnumMaps.EnumMap.IterationEntries | src/EnumMap.php:152-160 | every pair yielded is an entry of the mapping, and every entry is yielded |
| EnumMaps.EnumMap.SerializedValuesAdmissible | src/EnumMap.php:147 | every value a valid map serializes passes that map's value check again |
| EnumMaps.EnumMap.UnserializeAsWritten | src/EnumMap.php:141-150 | fails for a non-enum key type, and otherwise exactly when some in-range payload value is invalid; on success the slots are the payload's values with the payload's configuration, and the counter is its old value plus the occupied slots, so the map is valid exactly when the counter was zero; an already loaded key class gives the same universe; a rejected key type leaves the map unchanged |
| EnumMaps.StaleSizeOnReunserialize | src/EnumMap.php:141-150 | unserializing a one-value payload into a valid map of size 2 succeeds, leaves one occupied slot, and reports size 3 |
| EnumMaps.EnumMap.Unserialize | src/EnumMap.php:141-150 | with the counter restarted: fails for a non-enum key type, and otherwise exactly when some in-range payload value is invalid; on success the map is valid, every slot holds the payload's value for its ordinal or is empty, size counts them, the configuration is the payload's, and an already loaded key class gives the same universe; a rejected key type leaves the map unchanged |
| EnumMaps.EnumMap.ReplayKey | src/EnumMap.php:146-148 | one `put` of the loop fails exactly when the payload holds an invalid value for that key, and otherwise fills that key's slot when the payload holds its ordinal and leaves the slots alone when not |
| EnumMaps.AdmissibleStep | src/EnumMap.php:145-149 | the payload's values are acceptable up to ordinal k+1 exactly when they are up to k and the value at k, if any, passes the value check |
| EnumMaps.EnumMap.Replay | src/EnumMap.php:145-149 | the put loop succeeds exactly when every in-range payload value is valid, then fills exactly the payload's ordinals, and adds the number of filled slots to the counter |
| EnumMaps.SerializeThenUnserialize | src/EnumMap.php:127-150 | unserializing a map's serialization into a newly allocated map, through `unserialize` as written, gives a map, valid and with the same configuration, that equals the original and holds the same mapping |

## Left out

- Reflection over class constants (src/AbstractEnum.php:88-99) is a runtime facility. The declared constants of a class are the `declared` input list: name, whether protected, and value. Declared names are assumed distinct, as PHP enforces.
- `__callStatic` (src/AbstractEnum.php:27-29) only forwards to `valueOf`.
- The byte format of PHP's `serialize()`/`unserialize()` is not modelled. The payload is the record the map builds and reads.
- `__clone`, `__sleep` and `__wakeup` only throw, and Dafny has no object cloning.
- NullValue.php is not part of this model beyond the `NullVal` slot. A user value that is itself a `NullValue` object, which `unmaskNull` would turn into null, is therefore not represented.
- Class names are plain strings. PHP's case-insensitive class names and leading backslashes are not modelled: `checkKeyType` compares `get_class` results and `keyType` exactly, and `Hierarchy` stands for the subclass relation.
- Exception messages are not modelled, only which check raised. This includes the value-type message at src/EnumMap.php:43, which prints the key types.
- Floats are compared by their bit pattern, which differs from PHP's `===`: `0.0 === -0.0` is true and `NAN === NAN` is false. `ContainsValue` (the strict `in_array` at src/EnumMap.php:56) and `Equals` therefore differ from PHP for signed zeros and NaN, and a map holding NaN would not equal its restored copy.
- Serialize: never fails in the model. PHP's `serialize()` raises for a map that stores an enumeration constant, or a `NullValue` nested in a stored array or object, since their `__sleep` throws (src/AbstractEnum.php:124-126, src/NullValue.php:24-26), and for a stored Closure.
- A PHP array value is its list of elements; keys of arrays inside values are not represented.
- `getIterator` is a lazy generator. The model takes the list of pairs it yields, read at once.
- `values()` of `AbstractEnum` returns an array keyed by constant name. The model returns the list of instances in the same order, since the map only counts and iterates it.
- `uasort` is modelled by `SortByOrdinal`, which reads the cached instances off the table in ordinal order. Ordinals are distinct, so this is the one order the sort can produce; the comparison sort itself is not modelled.
- `constants()` stores an empty table first and fills it during the reflection loop. The model builds the table in a local and stores it at the end, which is the same in the absence of an exception from reflection.
- Keys offered to the map satisfy `KnownKey`: an instance of the key class is one of its loaded constants. `RegisteredKeysKnown` proves this for every registered instance; the model does not prove that no other instance exists.
- Unserialize and UnserializeAsWritten: a failing `put` leaves a partially filled map in PHP. The model reports the error and states nothing about the map in that case.
- SerializeThenUnserialize: stated for maps whose values hold no object, since PHP's `unserialize` makes new objects and `equals` compares objects by identity.
- Unserialize: models the evidently intended behaviour, with the counter restarted; the code as written is `UnserializeAsWritten` (see "## Findings"), which is also what the round trip `SerializeThenUnserialize` goes through, since PHP's own `unserialize()` runs it on a newly allocated map.
- Concurrency and process-wide static state are not modelled. The static caches are per-class objects collected in one registry.

## Findings

| source | as written | input that shows it | evidently intended | confidence | as-written member | corrected member |
|---|---|---|---|---|---|---|
| src/EnumMap.php:141-150 | `unserialize` re-runs `__construct`, which never assigns `size` (its 0 comes only from the property default at src/EnumMap.php:23), and then each `put` into an empty slot adds one | `unserialize` called directly on a map holding two entries, with a payload holding one value: the map then has one occupied slot and `size()` 3 | the counter restarts at zero, as after `new` and `clear`, so that `size()` counts the entries | medium, not executed | EnumMaps.StaleSizeOnReunserialize | EnumMaps.EnumMap.Unserialize |
