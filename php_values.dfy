/** PHP runtime values as the enum library sees them, the class hierarchy
    it consults through `is_subclass_of` and `instanceof`, the errors it
    raises, and the value-type constraint an EnumMap enforces. */
module PhpValues {

  /** A PHP value. Floats are an opaque bit pattern: nothing here computes
      with them. An object is its class name and its identity; a PHP
      array is modelled as the list of its elements. */
  datatype Value =
    | Null
    | Bool(b: bool)
    | Int(i: int)
    | Float(bits: nat)
    | Str(s: string)
    | Obj(cls: string, id: nat)
    | Arr(items: seq<Value>)

  /** The class table: for each class, the set of all its proper ancestors
      (parent classes and implemented interfaces, transitively). */
  datatype Hierarchy = Hierarchy(ancestors: map<string, set<string>>) {

    /** `$x instanceof T` for an object of class `cls`. */
    predicate InstanceOf(cls: string, t: string) {
      cls == t || (cls in ancestors && t in ancestors[cls])
    }

    /** `is_subclass_of(cls, t)`: a proper descendant only. */
    predicate IsSubclassOf(cls: string, t: string) {
      cls != t && cls in ancestors && t in ancestors[cls]
    }
  }

  /** `v` holds no object, at any depth. PHP's `===` compares objects by
      identity and `unserialize` creates new objects, so only such values
      survive a serialization round trip identical. */
  predicate ObjectFree(v: Value) {
    match v
    case Obj(_, _) => false
    case Arr(items) => forall i | 0 <= i < |items| :: ObjectFree(items[i])
    case _ => true
  }

  /** Fully qualified name of the library's abstract enum base class. */
  const AbstractEnumClass: string := "W2W\\Enum\\AbstractEnum"

  /** The three configuration fields an `expect` call can find different. */
  datatype ConfigField = KeyTypeField | ValueTypeField | NullableField

  /** The exceptions of the core, by the check that raised them. */
  datatype Error =
    | NotAnEnumClass          // IllegalArgumentException from the EnumMap constructor
    | WrongKeyType            // IllegalArgumentException from checkKeyType
    | InvalidValue            // IllegalArgumentException from put
    | NoSuchConstant          // IllegalArgumentException from valueOf
    | Mismatch                // MismatchException from compareTo
    | Expectation(field: ConfigField)  // ExpectationException from expect

  datatype Option<+T> = None | Some(value: T)

  datatype Result<+T> = Ok(value: T) | Err(error: Error)

  datatype Outcome = Pass | Fail(error: Error)

  /** The value-type tags that `isValidValue` recognises before falling back
      to a class test. */
  predicate IsBuiltinTag(valueType: string) {
    valueType in {"mixed", "bool", "boolean", "int", "integer", "float", "double",
                  "string", "object", "array"}
  }

  /** Whether `v` may be stored in a map declared with `valueType` and
      `allowNullValues`: the switch of `isValidValue`. */
  function IsValidValue(h: Hierarchy, valueType: string, allowNullValues: bool, v: Value): (ok: bool)
  {
    if v == Null then allowNullValues
    else if valueType == "mixed" then true
    else if valueType == "bool" || valueType == "boolean" then v.Bool?
    else if valueType == "int" || valueType == "integer" then v.Int?
    else if valueType == "float" || valueType == "double" then v.Float?
    else if valueType == "string" then v.Str?
    else if valueType == "object" then v.Obj?
    else if valueType == "array" then v.Arr?
    else v.Obj? && h.InstanceOf(v.cls, valueType)
  }

  /** The rules the value check enforces: null only when nulls are allowed,
      "mixed" anything else, a primitive tag (under either spelling) only
      its own kind, and any other tag an object that is an instance of the
      class so named. */
  lemma IsValidValueRules(h: Hierarchy, valueType: string, allowNullValues: bool, v: Value)
    ensures v == Null ==> IsValidValue(h, valueType, allowNullValues, v) == allowNullValues
    ensures v != Null && valueType == "mixed" ==> IsValidValue(h, valueType, allowNullValues, v)
    ensures v != Null && valueType in {"bool", "boolean"} ==> IsValidValue(h, valueType, allowNullValues, v) == v.Bool?
    ensures v != Null && valueType in {"int", "integer"} ==> IsValidValue(h, valueType, allowNullValues, v) == v.Int?
    ensures v != Null && valueType in {"float", "double"} ==> IsValidValue(h, valueType, allowNullValues, v) == v.Float?
    ensures v != Null && valueType == "string" ==> IsValidValue(h, valueType, allowNullValues, v) == v.Str?
    ensures v != Null && valueType == "object" ==> IsValidValue(h, valueType, allowNullValues, v) == v.Obj?
    ensures v != Null && valueType == "array" ==> IsValidValue(h, valueType, allowNullValues, v) == v.Arr?
    ensures v != Null && !IsBuiltinTag(valueType) ==>
      IsValidValue(h, valueType, allowNullValues, v) == (v.Obj? && h.InstanceOf(v.cls, valueType))
  {
  }
}
