/** The runtime values and the static types the gql package inspects through
    Go's reflect package, as plain datatypes. */
module Values {

  /** A Go value held in an `interface{}`. */
  datatype Value =
    | VNil                          // the nil interface value
    | VBool(b: bool)
    | VInt(n: int)                  // Go int, 64 bits wide
    | VInt64(n64: int)              // Go int64
    | VFloat(f: real)               // a finite float64
    | VStr(s: string)
    | VList(items: seq<Value>)      // a slice
    | VRec(fields: seq<FieldVal>)   // a struct, fields in declaration order

  /** One struct field of a value: its Go name, its `json` tag (empty when
      absent), whether it is embedded, and its current value.  An embedded
      field's Go name is the name of its type. */
  datatype FieldVal = FieldVal(name: string, jsonTag: string, anonymous: bool, value: Value)

  /** Go exports an identifier whose first letter is upper case. */
  predicate Exported(name: string) {
    |name| > 0 && 'A' <= name[0] <= 'Z'
  }

  /** A Go reflect.Type, reduced to the kinds the schema builder tells apart.
      `TStruct.pkg` is the package path ("time" for time.Time); every kind the
      builder does not map (maps, pointers, funcs, int32, ...) is `TOther`. */
  datatype GoType =
    | TBool
    | TInt
    | TInt64
    | TFloat32
    | TFloat64
    | TString
    | TSlice(elem: GoType)
    | TStruct(pkg: string, name: string, fields: seq<GoField>)
    | TOther(kind: string)

  /** One struct field of a type: Go name, `json` and `description` tags
      (empty when absent), whether it is embedded, and its type. */
  datatype GoField = GoField(name: string, jsonTag: string, description: string, anonymous: bool, typ: GoType)
}
