/**
 * An abstract model of the parts of Go's `reflect` package that the field
 * resolver uses. A struct type is the table of field names its `FieldByName`
 * resolves (embedded-field promotion already folded in); a value carries its
 * own type, as a `reflect.Value` does.
 */
module Reflection {
  import opened Wrappers

  /** A `reflect.Type`, by kind. */
  datatype Type =
    | Struct(fields: map<string, Type>)
    | Ptr(elem: Type)
    | Slice(elem: Type)
    | Basic(name: string)
  {
    /**
     * `Type.FieldByName`: the field of that name and true, or the zero
     * StructField and false. Go panics on a type that is not a struct.
     */
    function FieldByName(name: string): (StructField, bool)
      requires Struct?
    {
      if name in fields then (StructField(name, Some(fields[name])), true)
      else (ZeroField, false)
    }
  }

  /** A `reflect.StructField`; its `Type` is nil only in the zero StructField. */
  datatype StructField = StructField(name: string, fieldType: Option<Type>)

  /** `reflect.StructField{}`. */
  const ZeroField := StructField("", None)

  /**
   * A `reflect.Value`. `Invalid` is the zero Value (what `reflect.ValueOf(nil)`
   * and `Elem` of a nil pointer give); a nil pointer is `PtrVal(t, None)`.
   */
  datatype Value =
    | Invalid
    | PtrVal(elem: Type, target: Option<Value>)
    | SliceVal(elem: Type, items: seq<Value>)
    | StructVal(fieldTypes: map<string, Type>, fields: map<string, Value>)
    | BasicVal(name: string, datum: int)
  {
    /** `Value.Type()`; Go panics on the zero Value. */
    function TypeOf(): Type
      requires !Invalid?
    {
      match this
      case PtrVal(e, _) => Ptr(e)
      case SliceVal(e, _) => Slice(e)
      case StructVal(ft, _) => Struct(ft)
      case BasicVal(n, _) => Basic(n)
    }

    /** `Value.Elem()` of a pointer: the pointee, or the zero Value for nil. Go panics on a slice. */
    function Elem(): Value
      requires PtrVal?
    {
      if target.None? then Invalid else target.value
    }

    /** `Value.FieldByName`: the field's value, or the zero Value. Go panics on a non-struct. */
    function FieldByName(name: string): Value
      requires StructVal?
    {
      if name in fields then fields[name] else Invalid
    }
  }

  /**
   * A value is well typed when it is not the zero Value, every part has the
   * type its container declares, and a struct value has exactly its type's fields.
   */
  predicate WellTyped(v: Value)
  {
    match v
    case Invalid => false
    case PtrVal(e, target) =>
      target.None? || (!target.value.Invalid? && WellTyped(target.value) && target.value.TypeOf() == e)
    case SliceVal(e, items) =>
      forall i :: 0 <= i < |items| ==> !items[i].Invalid? && WellTyped(items[i]) && items[i].TypeOf() == e
    case StructVal(ft, fs) =>
      fs.Keys == ft.Keys &&
      forall k :: k in fs ==> !fs[k].Invalid? && WellTyped(fs[k]) && fs[k].TypeOf() == ft[k]
    case BasicVal(_, _) => true
  }

  /**
   * The `interface{}` argument of the resolver's functions: a `reflect.Type`,
   * a `reflect.Value`, or any other Go value, given by the Value that
   * `reflect.ValueOf` returns for it (`Invalid` for a nil interface).
   */
  datatype Arg = TypeArg(t: Type) | ValueArg(v: Value) | PlainArg(x: Value)

  /**
   * The Value an argument stands for: the argument itself when it is a
   * `reflect.Value`, otherwise what `reflect.ValueOf` gives for it.
   */
  function ArgValue(a: Arg): Value
    requires !a.TypeArg?
  {
    if a.ValueArg? then a.v else a.x
  }
}
