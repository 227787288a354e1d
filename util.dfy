/**
 * The field resolver of internal/util/reflect.go: unwrapping a value or a type
 * through pointers (and, for types, slices), and resolving a dotted field path
 * on a record or a record type.
 */
module Util {
  import opened Wrappers
  import opened Strings
  import opened Reflection

  /* ---------- unwrapping ---------- */

  /** The type under every pointer and slice layer of `t`. */
  function UnwrapType(t: Type): (r: Type)
    ensures !r.Ptr? && !r.Slice?
  {
    if t.Ptr? || t.Slice? then UnwrapType(t.elem) else t
  }

  /**
   * Unwrapping `v` never asks for `Elem` of a slice (Go panics there): the
   * chain of non-nil pointers from `v` ends in something other than a slice.
   */
  predicate ElemDefined(v: Value)
  {
    match v
    case SliceVal(_, _) => false
    case PtrVal(_, target) => target.None? || ElemDefined(target.value)
    case _ => true
  }

  /** The number of pointer layers the value loop strips from `v`. */
  function PointerDepth(v: Value): nat
  {
    match v
    case PtrVal(_, target) => if target.None? then 1 else 1 + PointerDepth(target.value)
    case _ => 0
  }

  /** The value under every pointer layer of `v`; a nil pointer on the way gives the zero Value. */
  function UnwrapValue(v: Value): (r: Value)
    requires ElemDefined(v)
    ensures !r.PtrVal? && !r.SliceVal?
    decreases PointerDepth(v)
  {
    if v.PtrVal? then UnwrapValue(v.Elem()) else v
  }

  /** `Value.Type()` does not panic on the value `ReflectType` starts from. */
  predicate HasType(a: Arg)
  {
    a.TypeArg? || !ArgValue(a).Invalid?
  }

  /** The type `ReflectType` starts unwrapping from. */
  function StartType(a: Arg): Type
    requires HasType(a)
  {
    if a.TypeArg? then a.t else ArgValue(a).TypeOf()
  }

  /** `ReflectValue` (reflect.go): strip pointer layers until none is left. */
  method ReflectValue(a: Arg) returns (rv: Value)
    requires !a.TypeArg? && ElemDefined(ArgValue(a))
    ensures rv == UnwrapValue(ArgValue(a))
    ensures !rv.PtrVal? && !rv.SliceVal?
  {
    if a.ValueArg? {
      rv := a.v;
    } else {
      rv := a.x;
    }
    while rv.PtrVal? || rv.SliceVal?
      invariant ElemDefined(rv)
      invariant UnwrapValue(rv) == UnwrapValue(ArgValue(a))
      decreases PointerDepth(rv)
    {
      rv := rv.Elem();
    }
  }

  /** `ReflectType` (reflect.go): pick the starting type, then strip pointer and slice layers. */
  method ReflectType(a: Arg) returns (rt: Type)
    requires HasType(a)
    ensures rt == UnwrapType(StartType(a))
    ensures !rt.Ptr? && !rt.Slice?
  {
    if a.TypeArg? {
      rt := a.t;
    } else {
      var rv := if a.ValueArg? then a.v else a.x;
      rt := rv.TypeOf();
    }
    while rt.Ptr? || rt.Slice?
      invariant UnwrapType(rt) == UnwrapType(StartType(a))
      decreases rt
    {
      rt := rt.elem;
    }
  }

  /* ---------- path walks ---------- */

  /**
   * Looking `segs` up one after another from type `t` never calls
   * `FieldByName` on a non-struct type: each type looked into is a struct,
   * and a segment that does not resolve ends the walk.
   */
  predicate NoTypePanic(t: Type, segs: seq<string>)
  {
    segs == [] ||
    (t.Struct? && (segs[0] in t.fields ==> NoTypePanic(t.fields[segs[0]], segs[1..])))
  }

  /**
   * The field reached by looking `segs[0]` up in `t` and each later segment in
   * the type of the field found before it, with no unwrapping; the zero
   * StructField and false as soon as a segment does not resolve.
   */
  function FieldPath(t: Type, segs: seq<string>): (StructField, bool)
    requires segs != [] && NoTypePanic(t, segs)
  {
    var (f, ok) := t.FieldByName(segs[0]);
    if !ok then (ZeroField, false)
    else if |segs| == 1 then (f, true)
    else FieldPath(f.fieldType.value, segs[1..])
  }

  /** `ReflectFieldByPath` (reflect.go). */
  method ReflectFieldByPath(a: Arg, path: string) returns (field: StructField, ok: bool)
    requires HasType(a)
    requires NoTypePanic(UnwrapType(StartType(a)), Split(path, '.'))
    ensures (field, ok) == FieldPath(UnwrapType(StartType(a)), Split(path, '.'))
    ensures !ok ==> field == ZeroField
    ensures ok ==> field.fieldType.Some?
    ensures '.' !in path ==> (field, ok) == UnwrapType(StartType(a)).FieldByName(path)
  {
    ghost var root := UnwrapType(StartType(a));
    var subkeys := Split(path, '.');
    if '.' !in path {
      SplitWithoutSeparator(path, '.');
    }
    field := ZeroField;
    var i := 0;
    while i < |subkeys|
      invariant 0 <= i <= |subkeys|
      invariant i == 0 ==> field == ZeroField
      invariant 0 < i ==> field.fieldType.Some?
      invariant 0 < i < |subkeys| ==>
        NoTypePanic(field.fieldType.value, subkeys[i..]) &&
        FieldPath(root, subkeys) == FieldPath(field.fieldType.value, subkeys[i..])
      invariant 0 < i == |subkeys| ==> FieldPath(root, subkeys) == (field, true)
    {
      var key := subkeys[i];
      var lookup;
      if field.fieldType.None? {
        var rt := ReflectType(a);
        lookup := rt.FieldByName(key);
      } else {
        lookup := field.fieldType.value.FieldByName(key);
      }
      var found;
      field, found := lookup.0, lookup.1;
      if !found {
        return ZeroField, false;
      }
      assert subkeys[i..][1..] == subkeys[i + 1..];
      i := i + 1;
    }
    ok := true;
  }

  /**
   * Walking `segs` from value `v` never calls `FieldByName` on a value that
   * is neither a struct nor the zero Value.
   */
  predicate NoValuePanic(v: Value, segs: seq<string>)
    decreases |segs|
  {
    segs == [] || v.Invalid? ||
    (v.StructVal? && NoValuePanic(v.FieldByName(segs[0]), segs[1..]))
  }

  /**
   * The value reached from `v` by looking each segment up in the value before
   * it; once the zero Value is reached it is the result.
   */
  function ValuePath(v: Value, segs: seq<string>): Value
    requires NoValuePanic(v, segs)
    decreases |segs|
  {
    if segs == [] then v
    else if v.Invalid? then Invalid
    else ValuePath(v.FieldByName(segs[0]), segs[1..])
  }

  /** `ReflectValueByPath` (reflect.go); only the root is unwrapped. */
  method ReflectValueByPath(a: Arg, path: string) returns (result: Value)
    requires !a.TypeArg? && ElemDefined(ArgValue(a))
    requires NoValuePanic(UnwrapValue(ArgValue(a)), Split(path, '.'))
    ensures result == ValuePath(UnwrapValue(ArgValue(a)), Split(path, '.'))
    ensures UnwrapValue(ArgValue(a)).Invalid? ==> result == Invalid
    ensures '.' !in path && !UnwrapValue(ArgValue(a)).Invalid? ==>
      result == UnwrapValue(ArgValue(a)).FieldByName(path)
  {
    ghost var root := UnwrapValue(ArgValue(a));
    var subkeys := Split(path, '.');
    if '.' !in path {
      SplitWithoutSeparator(path, '.');
    }
    var subfield := ReflectValue(a);
    var i := 0;
    while i < |subkeys|
      invariant 0 <= i <= |subkeys|
      invariant NoValuePanic(subfield, subkeys[i..])
      invariant ValuePath(subfield, subkeys[i..]) == ValuePath(root, subkeys)
    {
      if !subfield.Invalid? {
        subfield := subfield.FieldByName(subkeys[i]);
      } else {
        return Invalid;
      }
      assert subkeys[i..][1..] == subkeys[i + 1..];
      i := i + 1;
    }
    result := subfield;
  }
}
