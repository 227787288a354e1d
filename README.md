# Field resolver of gorm-cursor-paginator

The paginator reads the sort-key fields of a record through a small
reflection helper, `internal/util/reflect.go`. This project models that
helper in Dafny and proves what it promises:

- `ReflectValue` strips pointer layers off a value.
- `ReflectType` picks a starting type and strips pointer and slice layers off it.
- `ReflectFieldByPath` resolves a dotted path such as `Order.CreatedAt` on a record type.
- `ReflectValueByPath` resolves the same kind of path on a record value.

Go's reflection objects are modelled abstractly (module `Reflection`):

- a `Type` is a struct (a map from field name to field type), a pointer, a slice or a basic type;
- a `Value` carries its type, with `Invalid` as the zero `reflect.Value` and `PtrVal(t, None)` as a nil pointer;
- `FieldByName` is a map lookup;
- the `interface{}` argument is an `Arg`: a `reflect.Type`, a `reflect.Value`, or any other Go value.

`strings.Split(path, ".")` is the pure function `Strings.Split`. It keeps
empty pieces, so `""` splits to `[""]`.

The four Go functions are methods with `while` loops (module `Util`). Each
is proved equal to a specification function: `UnwrapValue`, `UnwrapType`,
`FieldPath` and `ValuePath`. The lemmas in `UtilProperties` prove the
behaviour of those functions.

Go panics in four places. A precondition rules each one out:

- `Value.Elem` on a slice (`ElemDefined`);
- `Type.FieldByName` on a non-struct (`NoTypePanic`);
- `Value.FieldByName` on a value that is neither a struct nor the zero Value (`NoValuePanic`);
- `Value.Type` on the zero Value (`HasType`).

Only the root is unwrapped. After the first segment, each lookup goes
directly into the previous field's type or value (internal/util/reflect.go:50
and :68). A path through a pointer field, such as `Remark.X`, therefore
falls outside `NoTypePanic`. The source's own comments promise more than the
code does, and the model follows the code:

- internal/util/reflect.go:38-41 and :59-62 say the path functions unwrap
  pointers and slices at all levels. The code unwraps only the root
  (internal/util/reflect.go:48, :50, :65).
- internal/util/reflect.go:8 says `ReflectValue` unwraps slices. `Elem` on a
  slice value panics in Go, so the slice case of the loop at
  internal/util/reflect.go:14 can never succeed; `ElemDefined` excludes it.

## Model

| member | source | states |
|---|---|---|
| Util.ReflectValue | internal/util/reflect.go:9-18 | the result is the value under all pointer layers of the argument (or of `reflect.ValueOf` of it), and it is neither a pointer nor a slice |
| Util.UnwrapValue | internal/util/reflect.go:14-17 | value unwrapping never ends on a pointer or a slice |
| Util.ReflectType | internal/util/reflect.go:21-36 | the result is the starting type with every pointer and slice layer stripped, and it is neither a pointer nor a slice |
| Util.UnwrapType | internal/util/reflect.go:32-35 | type unwrapping never ends on a pointer or a slice |
| Util.ReflectFieldByPath | internal/util/reflect.go:42-57 | the result equals `FieldPath` over the unwrapped root type and the split path; a failure returns the zero StructField; a found field has a type; a path with no dot is one `FieldByName` on `ReflectType(v)` |
| Util.ReflectValueByPath | internal/util/reflect.go:63-74 | the result equals `ValuePath` from the unwrapped root value along the split path; a zero root (a nil pointer on the way) gives the zero Value; otherwise a path with no dot is one `FieldByName` on the root |
| UtilProperties.UnwrapTypeIdempotent | internal/util/reflect.go:32-34 | applying type unwrapping to its own result changes nothing |
| UtilProperties.UnwrapTypeFixedPoints | internal/util/reflect.go:32-34 | the loop leaves a type unchanged exactly when it is neither a pointer nor a slice |
| UtilProperties.UnwrapTypeShrinks | internal/util/reflect.go:32-34 | the unwrapped type is the type itself or a part of it |
| UtilProperties.UnwrapValueZero | internal/util/reflect.go:10-17 | value unwrapping gives the zero Value exactly when the start is the zero Value or its pointer chain reaches a nil pointer |
| UtilProperties.UnwrapValueIdempotent | internal/util/reflect.go:14-16 | unwrapping an unwrapped value changes nothing |
| UtilProperties.StartTypeCases | internal/util/reflect.go:22-31 | a `reflect.Type` argument is used as is; a `reflect.Value` argument or any other value contributes its `Type()` |
| UtilProperties.FieldPathFailureIsZero | internal/util/reflect.go:52-54 | a failed path walk returns the zero StructField |
| UtilProperties.FieldPathSuccess | internal/util/reflect.go:45-56 | a successful path walk returns the field named by the last segment, with a non-nil type |
| UtilProperties.NoTypePanicPrefix | internal/util/reflect.go:45-51 | if a path can be walked without panicking, so can each of its prefixes |
| UtilProperties.FieldPathStopsAtFailure | internal/util/reflect.go:45-54 | once a prefix fails to resolve, the walk fails whatever segments follow and never looks at them |
| UtilProperties.FieldPathExtend | internal/util/reflect.go:47-51 | each later segment is looked up in the type of the field found for the previous prefix, with no unwrapping, and a failed prefix stays failed |
| UtilProperties.FieldPathSingle | internal/util/reflect.go:43-48 | a one-segment path is one `FieldByName` on the root type |
| UtilProperties.ValuePathFromZero | internal/util/reflect.go:67-71 | from the zero Value every walk yields the zero Value |
| UtilProperties.ValuePathStopsAtZero | internal/util/reflect.go:66-72 | once a prefix has reached the zero Value, later segments are skipped and the result is the zero Value |
| UtilProperties.NoValuePanicPrefix | internal/util/reflect.go:66-68 | if a value path can be walked without panicking, so can each of its prefixes |
| UtilProperties.ValuePathExtend | internal/util/reflect.go:66-73 | the final value is the zero Value if the walk before the last segment reached it, and otherwise that segment's lookup in the value reached |
| UtilProperties.WalksAgree | internal/util/reflect.go:42-74 | on a well-typed value, the type walk and the value walk panic on the same paths, succeed on the same paths, and the field found has the type of the value found |
| UtilProperties.UnwrapsAgree | internal/util/reflect.go:9-36 | a well-typed value with no nil pointer unwraps to a well-typed value of the unwrapped type |
| UtilProperties.ResolversAgree | internal/util/reflect.go:42-74 | `ReflectFieldByPath` and `ReflectValueByPath` agree on any well-typed record argument; with a nil pointer above the record the value path is the zero Value |
| UtilProperties.TestRecordPaths | paginator/paginator_test.go:21-41 | on the test suite's item type, for any type of its `Order` field: a slice of item pointers unwraps to the item type; `Order.f` can be walked exactly when that type is a struct, and is then one `FieldByName` on it; a missing first segment fails; a path into the pointer field `Remark` panics |
| UtilProperties.TestOrderCreatedAtPath | paginator/paginator_test.go:21-41 | assuming the `Order` field has the type of `TestOrder`, `Order.CreatedAt` resolves to the order's timestamp field |
| Strings.Split | internal/util/reflect.go:43 | a string with k separators splits into k + 1 pieces |
| Strings.SplitPiecesAreSeparatorFree | internal/util/reflect.go:43 | no piece contains the separator |
| Strings.JoinSplit | internal/util/reflect.go:43 | joining the pieces with the separator gives back the path |
| Strings.SplitJoin | internal/util/reflect.go:43 | splitting the join of a non-empty list of separator-free pieces gives back the pieces |
| Strings.SplitWithoutSeparator | internal/util/reflect.go:43 | a path without a dot splits to itself alone |

## Left out

- The keyset paginator, the cursor codec and the query planner are not part of this model. Their implementation is not among the files modelled.
- The test suite's database setup, fixtures and assertions (paginator/paginator_test.go) are not modelled. They are database I/O, clock reads and testify assertions.
- Go's `FieldByName` rules for embedded-field promotion, ambiguous names and struct tags are left out. A struct type is modelled as the map of names its `FieldByName` resolves.
- Go panics are not modelled as outcomes. Each is excluded by a precondition (`ElemDefined`, `NoTypePanic`, `NoValuePanic`, `HasType`).
- Util.ReflectValue: requires that the argument is not a `reflect.Type`. Go would reflect the type descriptor's own internal structure, which this model does not represent.
- Util.ReflectValueByPath: requires that the argument is not a `reflect.Type`, for the same reason.
- Interface-kind values (`Value.Elem` on an interface) are not modelled. The resolver's own loops only unwrap pointers and slices.
- Basic values carry an abstract integer datum. Their actual Go representation (strings, times, and the string a `*string` points to) is not modelled.
- UtilProperties.TestOrderCreatedAtPath: rests on an assumption. paginator/paginator_test.go:36 gives `TestItem.Order` the type `Order`, which is declared outside the test file. The lemma assumes that type has the fields of `TestOrder`. `UtilProperties.TestRecordPaths` makes no such assumption and holds for every type of that field.
- Util.ReflectType: self-referential types cannot be represented, because `Type` is a finite tree. Examples are `type S []S`, `type P *P` and `struct { Parent *Category }`. On `type S []S` or `type P *P`, the loop at internal/util/reflect.go:32-34 never ends, because `Elem` gives back the same type. The model's termination proof covers only the finite types it can represent.
- Util.ReflectValue: self-referential values cannot be represented, because `Value` is a finite tree. On a pointer that points to itself (`p := P(&p)`), the loop at internal/util/reflect.go:14-16 never ends, because `Elem` gives back the same value. The model's termination proof covers only the finite values it can represent.
