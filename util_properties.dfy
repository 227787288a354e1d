/** What the resolver of internal/util/reflect.go promises, proved about its specification functions. */
module UtilProperties {
  import opened Wrappers
  import opened Strings
  import opened Reflection
  import opened Util

  /* ---------- unwrapping ---------- */

  /** Unwrapping a type twice is unwrapping it once. */
  lemma UnwrapTypeIdempotent(t: Type)
    ensures UnwrapType(UnwrapType(t)) == UnwrapType(t)
  {
  }

  /** The unwrap loop leaves a type alone exactly when it is neither a pointer nor a slice. */
  lemma UnwrapTypeFixedPoints(t: Type)
    ensures UnwrapType(t) == t <==> !t.Ptr? && !t.Slice?
  {
  }

  /** Unwrapping never gives back a type that contains the original one. */
  lemma {:induction false} UnwrapTypeShrinks(t: Type)
    ensures UnwrapType(t) == t || UnwrapType(t) < t
  {
    if t.Ptr? || t.Slice? {
      UnwrapTypeShrinks(t.elem);
    }
  }

  /** The value is the zero Value, or its chain of pointers reaches a nil one. */
  predicate ReachesNil(v: Value)
    decreases PointerDepth(v)
  {
    v.Invalid? || (v.PtrVal? && (v.target.None? || ReachesNil(v.target.value)))
  }

  /**
   * `ReflectValue` ends with the zero Value exactly when the value is the zero
   * Value or its chain of pointers reaches a nil one.
   */
  lemma {:induction false} UnwrapValueZero(v: Value)
    requires ElemDefined(v)
    ensures UnwrapValue(v).Invalid? <==> ReachesNil(v)
    decreases PointerDepth(v)
  {
    if v.PtrVal? && v.target.Some? {
      UnwrapValueZero(v.target.value);
    }
  }

  /** Unwrapping a value twice is unwrapping it once. */
  lemma UnwrapValueIdempotent(v: Value)
    requires ElemDefined(v)
    ensures ElemDefined(UnwrapValue(v)) && UnwrapValue(UnwrapValue(v)) == UnwrapValue(v)
  {
  }

  /** For a type argument `ReflectType` starts from it, otherwise from the value's type. */
  lemma StartTypeCases(a: Arg)
    requires HasType(a)
    ensures a.TypeArg? ==> UnwrapType(StartType(a)) == UnwrapType(a.t)
    ensures a.ValueArg? ==> UnwrapType(StartType(a)) == UnwrapType(a.v.TypeOf())
    ensures a.PlainArg? ==> UnwrapType(StartType(a)) == UnwrapType(a.x.TypeOf())
  {
  }

  /* ---------- the type walk ---------- */

  /** A failed walk yields the zero StructField. */
  lemma {:induction false} FieldPathFailureIsZero(t: Type, segs: seq<string>)
    requires segs != [] && NoTypePanic(t, segs)
    ensures !FieldPath(t, segs).1 ==> FieldPath(t, segs).0 == ZeroField
    decreases |segs|
  {
    var (f, ok) := t.FieldByName(segs[0]);
    if ok && |segs| > 1 {
      FieldPathFailureIsZero(f.fieldType.value, segs[1..]);
    }
  }

  /** A successful walk yields the field named by the last segment, which has a type. */
  lemma {:induction false} FieldPathSuccess(t: Type, segs: seq<string>)
    requires segs != [] && NoTypePanic(t, segs)
    ensures FieldPath(t, segs).1 ==>
      FieldPath(t, segs).0.name == segs[|segs| - 1] && FieldPath(t, segs).0.fieldType.Some?
    decreases |segs|
  {
    var (f, ok) := t.FieldByName(segs[0]);
    if ok && |segs| > 1 {
      FieldPathSuccess(f.fieldType.value, segs[1..]);
    }
  }

  /** Being panic-free is closed under prefixes. */
  lemma {:induction false} NoTypePanicPrefix(t: Type, p: seq<string>, rest: seq<string>)
    requires NoTypePanic(t, p + rest)
    ensures NoTypePanic(t, p)
    decreases |p|
  {
    if p != [] {
      assert (p + rest)[0] == p[0] && (p + rest)[1..] == p[1..] + rest;
      if p[0] in t.fields {
        NoTypePanicPrefix(t.fields[p[0]], p[1..], rest);
      }
    }
  }

  /**
   * Once a prefix of the path fails to resolve, the walk fails whatever
   * segments follow: later segments are never looked at.
   */
  lemma {:induction false} FieldPathStopsAtFailure(t: Type, p: seq<string>, rest: seq<string>)
    requires p != [] && NoTypePanic(t, p)
    requires !FieldPath(t, p).1
    ensures NoTypePanic(t, p + rest) && FieldPath(t, p + rest) == (ZeroField, false)
    decreases |p|
  {
    assert (p + rest)[0] == p[0] && (p + rest)[1..] == p[1..] + rest;
    var (f, ok) := t.FieldByName(p[0]);
    if ok {
      FieldPathStopsAtFailure(f.fieldType.value, p[1..], rest);
    }
  }

  /**
   * The walk one segment longer looks the new segment up in the type of the
   * field the shorter walk found, and fails if the shorter walk failed.
   */
  lemma {:induction false} FieldPathExtend(t: Type, p: seq<string>, s: string)
    requires p != [] && NoTypePanic(t, p + [s])
    ensures NoTypePanic(t, p)
    ensures var (g, ok) := FieldPath(t, p);
      if !ok then FieldPath(t, p + [s]) == (ZeroField, false)
      else g.fieldType.Some? && g.fieldType.value.Struct? &&
           FieldPath(t, p + [s]) == g.fieldType.value.FieldByName(s)
    decreases |p|
  {
    NoTypePanicPrefix(t, p, [s]);
    assert (p + [s])[0] == p[0] && (p + [s])[1..] == p[1..] + [s];
    var (f, ok) := t.FieldByName(p[0]);
    if ok {
      if |p| == 1 {
        assert p[1..] + [s] == [s];
      } else {
        FieldPathExtend(f.fieldType.value, p[1..], s);
      }
    }
  }

  /** A path of one segment is a single `FieldByName` on the root type. */
  lemma FieldPathSingle(t: Type, s: string)
    requires NoTypePanic(t, [s])
    ensures FieldPath(t, [s]) == t.FieldByName(s)
  {
  }

  /* ---------- the value walk ---------- */

  /** From the zero Value every walk is panic-free and gives the zero Value (the empty walk trivially). */
  lemma ValuePathFromZero(segs: seq<string>)
    ensures NoValuePanic(Invalid, segs)
    ensures ValuePath(Invalid, segs) == Invalid
  {
  }

  /**
   * Once the walk of a prefix has reached the zero Value, no later segment is
   * looked up and the result is the zero Value.
   */
  lemma {:induction false} ValuePathStopsAtZero(v: Value, p: seq<string>, rest: seq<string>)
    requires NoValuePanic(v, p)
    requires ValuePath(v, p).Invalid?
    ensures NoValuePanic(v, p + rest) && ValuePath(v, p + rest) == Invalid
    decreases |p|
  {
    if p == [] {
      assert p + rest == rest;
    } else {
      assert (p + rest)[0] == p[0] && (p + rest)[1..] == p[1..] + rest;
      if !v.Invalid? {
        ValuePathStopsAtZero(v.FieldByName(p[0]), p[1..], rest);
      }
    }
  }

  /** Being panic-free is closed under prefixes. */
  lemma {:induction false} NoValuePanicPrefix(v: Value, p: seq<string>, rest: seq<string>)
    requires NoValuePanic(v, p + rest)
    ensures NoValuePanic(v, p)
    decreases |p|
  {
    if p != [] {
      assert (p + rest)[0] == p[0] && (p + rest)[1..] == p[1..] + rest;
      if !v.Invalid? {
        NoValuePanicPrefix(v.FieldByName(p[0]), p[1..], rest);
      }
    }
  }

  /**
   * The walk one segment longer is the zero Value if the shorter walk reached it,
   * and otherwise the lookup of the new segment in the value the shorter walk reached.
   */
  lemma {:induction false} ValuePathExtend(v: Value, p: seq<string>, s: string)
    requires NoValuePanic(v, p + [s])
    ensures NoValuePanic(v, p)
    ensures var w := ValuePath(v, p);
      if w.Invalid? then ValuePath(v, p + [s]) == Invalid
      else w.StructVal? && ValuePath(v, p + [s]) == w.FieldByName(s)
    decreases |p|
  {
    NoValuePanicPrefix(v, p, [s]);
    if p == [] {
      assert p + [s] == [s];
    } else {
      assert (p + [s])[0] == p[0] && (p + [s])[1..] == p[1..] + [s];
      if !v.Invalid? {
        ValuePathExtend(v.FieldByName(p[0]), p[1..], s);
      }
    }
  }

  /* ---------- the two walks agree on well-typed records ---------- */

  /**
   * On a well-typed value, walking the value and walking its type panic on
   * the same paths, succeed on the same paths, and the field found has the
   * type of the value found.
   */
  lemma {:induction false} WalksAgree(v: Value, segs: seq<string>)
    requires WellTyped(v) && segs != []
    ensures NoTypePanic(v.TypeOf(), segs) <==> NoValuePanic(v, segs)
    ensures NoValuePanic(v, segs) ==>
      var (f, ok) := FieldPath(v.TypeOf(), segs);
      var w := ValuePath(v, segs);
      (ok <==> !w.Invalid?) && (ok ==> WellTyped(w) && f.fieldType == Some(w.TypeOf()))
    decreases |segs|
  {
    var s := segs[0];
    if v.StructVal? && s in v.fields {
      var w := v.fields[s];
      if |segs| > 1 {
        WalksAgree(w, segs[1..]);
      }
    }
  }

  /**
   * The root unwrapping agrees too: a well-typed value whose pointers are all
   * non-nil unwraps to a value of the unwrapped type.
   */
  lemma {:induction false} UnwrapsAgree(v: Value)
    requires WellTyped(v) && ElemDefined(v) && !UnwrapValue(v).Invalid?
    ensures WellTyped(UnwrapValue(v)) && UnwrapType(v.TypeOf()) == UnwrapValue(v).TypeOf()
    decreases PointerDepth(v)
  {
    if v.PtrVal? {
      UnwrapsAgree(v.target.value);
    }
  }

  /**
   * `ReflectFieldByPath` and `ReflectValueByPath` agree on a well-typed
   * record with no nil pointer above it: one panics exactly when the other
   * does, one finds a field exactly when the other yields a non-zero value,
   * and the field's type is that value's type. With a nil pointer above the
   * record the value walk gives the zero Value.
   */
  lemma ResolversAgree(a: Arg, path: string)
    requires !a.TypeArg? && WellTyped(ArgValue(a)) && ElemDefined(ArgValue(a))
    ensures var root := UnwrapValue(ArgValue(a));
      var segs := Split(path, '.');
      if root.Invalid? then ValuePath(root, segs) == Invalid
      else
        (NoTypePanic(UnwrapType(StartType(a)), segs) <==> NoValuePanic(root, segs)) &&
        (NoValuePanic(root, segs) ==>
          var (f, ok) := FieldPath(UnwrapType(StartType(a)), segs);
          var w := ValuePath(root, segs);
          (ok <==> !w.Invalid?) && (ok ==> f.fieldType == Some(w.TypeOf())))
  {
    var root := UnwrapValue(ArgValue(a));
    var segs := Split(path, '.');
    if !root.Invalid? {
      UnwrapsAgree(ArgValue(a));
      WalksAgree(root, segs);
    }
  }

  /* ---------- the records of the test suite ---------- */

  /** The type of `TestOrder`. */
  const TestOrderType := Struct(map[
    "ID" := Basic("int"), "Remark" := Ptr(Basic("string")), "CreatedAt" := Basic("time.Time")])

  /**
   * The type of `TestItem`, given the type of its `Order` field. That field's
   * type, `Order`, is declared outside the test file, so it is a parameter here.
   */
  function TestItemType(order: Type): Type
  {
    Struct(map[
      "ID" := Basic("int"), "Name" := Basic("string"), "Remark" := Ptr(Basic("string")),
      "OrderID" := Basic("int"), "Order" := order])
  }

  /**
   * On the test suite's item type, whatever the type of its `Order` field:
   * a slice of item pointers unwraps to the item type; a path "Order.f" can be
   * walked exactly when that type is a struct and then is one `FieldByName` on
   * it; a missing first segment fails; and "Remark.f" would look "f" up in a
   * pointer type, which is not unwrapped after the root.
   */
  lemma TestRecordPaths(order: Type, f: string)
    ensures UnwrapType(Slice(Ptr(TestItemType(order)))) == TestItemType(order)
    ensures NoTypePanic(TestItemType(order), ["Order", f]) <==> order.Struct?
    ensures order.Struct? ==> FieldPath(TestItemType(order), ["Order", f]) == order.FieldByName(f)
    ensures FieldPath(TestItemType(order), ["Missing", f]) == (ZeroField, false)
    ensures !NoTypePanic(TestItemType(order), ["Remark", f])
  {
    assert UnwrapType(Ptr(TestItemType(order))) == UnwrapType(TestItemType(order)) == TestItemType(order);
    var item := TestItemType(order);
    assert "Order" in item.fields && item.fields["Order"] == order;
    assert ["Order", f][1..] == [f];
    assert NoTypePanic(item, ["Order", f]) == NoTypePanic(order, [f]);
    assert [f][1..] == [];
    if order.Struct? && f in order.fields {
      assert NoTypePanic(order.fields[f], []);
    }
    assert ["Remark", f][1..] == [f];
  }

  /**
   * If the `Order` field had the type of `TestOrder` (an assumption: `Order`
   * itself is declared elsewhere), "Order.CreatedAt" would resolve to the
   * order's timestamp field.
   */
  lemma TestOrderCreatedAtPath()
    ensures FieldPath(TestItemType(TestOrderType), ["Order", "CreatedAt"])
      == (StructField("CreatedAt", Some(Basic("time.Time"))), true)
  {
    TestRecordPaths(TestOrderType, "CreatedAt");
  }
}
