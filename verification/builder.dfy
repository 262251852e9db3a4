/** The ObjectBuilder of gql/builder.go: GraphQL objects and interfaces built
    from Go struct types.  The builder's state is a value and every method
    that changes it returns the new state. */
module Builder {
  import opened Results
  import opened Strings
  import opened Values
  import opened Utils
  import opened Schema

  const DeprecationPrefix := "DEPRECATED:"
  const PrefixError := "namePrefix can not include the FieldPathSeparator \"_\""
  const NonStructPanic := "graphQL buildFields used with a non-struct"

  /** `interfaces` is None until BuildInterfaces has run; an interface's
      fields double as the builder's interfaceFields, which graphql-go shares
      with the interface it was built into. */
  datatype ObjectBuilder = ObjectBuilder(
    fieldAdditions: map<string, seq<GqlField>>,
    interfaces: Option<map<string, InterfaceDef>>,
    objects: map<string, GqlType>,
    prefix: string,
    structs: seq<GoType>)

  /** `NewObjectBuilder`: the prefix may not hold the path separator; absent
      additions become an empty map; nothing is built yet. */
  function NewObjectBuilder(structs: seq<GoType>, prefix: string, additions: Option<map<string, seq<GqlField>>>): (r: Result<ObjectBuilder>)
    ensures r.Err? <==> FieldPathSeparator in prefix
    ensures r.Err? ==> r.msg == PrefixError
    ensures r.Ok? ==> r.value.prefix == prefix && r.value.structs == structs
    ensures r.Ok? ==> r.value.interfaces.None? && r.value.objects == map[]
    ensures r.Ok? ==> (additions.Some? ==> r.value.fieldAdditions == additions.value)
                      && (additions.None? ==> r.value.fieldAdditions == map[])
  {
    if FieldPathSeparator in prefix then Err(PrefixError)
    else Ok(ObjectBuilder(additions.GetOr(map[]), None, map[], prefix, structs))
  }

  // ---------------------------------------------------------------- types

  /** graphqlKinds: the scalar each basic Go kind maps to. */
  const GraphqlKinds: map<GoType, string> :=
    map[TBool := "Boolean", TFloat32 := "Float", TFloat64 := "Float", TInt := "Int", TInt64 := "Int", TString := "String"]

  /** The element type under every slice layer. */
  function ElemBase(t: GoType): GoType {
    if t.TSlice? then ElemBase(t.elem) else t
  }

  function SliceOf(k: nat, t: GoType): GoType {
    if k == 0 then t else TSlice(SliceOf(k - 1, t))
  }

  function ListOf(k: nat, t: GqlType): GqlType {
    if k == 0 then t else List(ListOf(k - 1, t))
  }

  /** `graphQLType`: the schema type for a Go type.  Time structs are the
      DateTime scalar, other structs become objects named after their field
      path, slices become lists, and kinds without a scalar give Nil. */
  function GraphQLType(adds: map<string, seq<GqlField>>, t: GoType, name: string, parent: string): (r: GqlType)
    ensures !r.NonNull?
    ensures r.Nil? <==> !t.TSlice? && !t.TStruct? && t !in GraphqlKinds
    ensures Innermost(r).Object? <==> ElemBase(t).TStruct? && ElemBase(t).pkg != "time"
    ensures t.TStruct? && t.pkg == "time" ==> r == Scalar("DateTime")
    ensures t.TStruct? && t.pkg != "time" ==>
              r.Object? && r.name == ToLower(FullFieldName(name, parent)) && r.interfaces == []
    ensures t == TBool ==> r == Scalar("Boolean")
    ensures t == TFloat32 || t == TFloat64 ==> r == Scalar("Float")
    ensures t == TInt || t == TInt64 ==> r == Scalar("Int")
    ensures t == TString ==> r == Scalar("String")
    decreases t, 3
  {
    match t
    case TStruct(pkg, _, _) =>
      if pkg == "time" then Scalar("DateTime")
      else BuildObject(adds, t, FullFieldName(name, parent), [], map[])
    case TSlice(elem) => List(GraphQLType(adds, elem, name, parent))
    case _ => if t in GraphqlKinds then Scalar(GraphqlKinds[t]) else Nil
  }

  /** Some comma-separated segment of the json tag is "omitempty". */
  predicate OmitEmpty(jsonTag: string) {
    "omitempty" in Split(jsonTag, ',')
  }

  /** `fieldGraphQLType`: the field's schema type, non-null unless the json
      tag says "omitempty"; Nil stays Nil. */
  function FieldGraphQLType(adds: map<string, seq<GqlField>>, f: GoField, parent: string): (r: GqlType)
    ensures var g := GraphQLType(adds, f.typ, FieldName(f.jsonTag, f.name), parent);
            && (g.Nil? ==> r.Nil?)
            && (!g.Nil? ==> (r.NonNull? <==> !OmitEmpty(f.jsonTag)))
            && (r.NonNull? ==> r.ofType == g)
            && (!r.NonNull? ==> r == g)
    decreases f.typ, 4
  {
    var g := GraphQLType(adds, f.typ, FieldName(f.jsonTag, f.name), parent);
    if g.Nil? || OmitEmpty(f.jsonTag) then g else NonNull(g)
  }

  /** A list, possibly under one NonNull. */
  predicate IsListType(g: GqlType) {
    (if g.NonNull? then g.ofType else g).List?
  }

  /** The synthesized `total<Name>` count field of a list field. */
  function TotalField(name: string, parent: string): (r: GqlField)
    ensures r.name == "total" + Title(name) && r.typ == Scalar("Int")
    ensures !r.listArgs && r.deprecationReason == ""
    ensures r.description == "The total length of the " + name + " list at this same level in the data, this number is unaffected by filtering."
    ensures r.resolver == TotalCount(r.name, name, parent)
  {
    var totalName := "total" + Title(name);
    GqlField(totalName, Scalar("Int"),
             "The total length of the " + name + " list at this same level in the data, this number is unaffected by filtering.",
             "", false, TotalCount(totalName, name, parent))
  }

  /** The generated field for a struct field of schema type `g`; a
      description carrying the deprecation prefix is the deprecation reason
      instead. */
  function MainField(name: string, g: GqlType, desc: string, parent: string): (r: GqlField)
    ensures r.description == desc || r.deprecationReason == desc
    ensures r.description == "" || r.deprecationReason == ""
    ensures HasPrefix(desc, DeprecationPrefix) ==> r.deprecationReason == desc && r.description == ""
    ensures !HasPrefix(desc, DeprecationPrefix) ==> r.description == desc && r.deprecationReason == ""
    ensures !HasPrefix(r.description, DeprecationPrefix)
    ensures r.deprecationReason == "" || HasPrefix(r.deprecationReason, DeprecationPrefix)
    ensures r.name == name && r.typ == g
    ensures r.listArgs <==> IsListType(g)
    ensures r.resolver == (if IsListType(g) then ListField(name, parent) else ByField(name, parent))
  {
    var list := IsListType(g);
    var resolver := if list then ListField(name, parent) else ByField(name, parent);
    if HasPrefix(desc, DeprecationPrefix) then GqlField(name, g, "", desc, list, resolver)
    else GqlField(name, g, desc, "", list, resolver)
  }

  /** The map writes a struct's own fields make, from field `i` on, in
      order: anonymous fields and fields without a schema type are skipped,
      and a list field's count sibling is written just before it. */
  function FieldWrites(adds: map<string, seq<GqlField>>, t: GoType, parent: string, i: nat): (r: seq<GqlField>)
    requires t.TStruct? && i <= |t.fields|
    decreases t, 0, |t.fields| - i
  {
    if i == |t.fields| then []
    else
      var f := t.fields[i];
      assert f in t.fields;
      var rest := FieldWrites(adds, t, parent, i + 1);
      if f.anonymous then rest
      else
        var g := FieldGraphQLType(adds, f, parent);
        if g.Nil? then rest
        else
          FieldEntries(FieldName(f.jsonTag, f.name), g, f.description, parent) + rest
  }

  /** The writes for one struct field of schema type `g`: the count sibling
      first when `g` is a list, then the field itself. */
  function FieldEntries(name: string, g: GqlType, desc: string, parent: string): seq<GqlField> {
    var main := MainField(name, g, desc, parent);
    if IsListType(g) then [TotalField(name, parent), main] else [main]
  }

  /** The three layers of buildFields, later layers overwriting earlier
      ones by name. */
  function Merge(base: map<string, GqlField>, own: seq<GqlField>, extra: seq<GqlField>): map<string, GqlField> {
    ApplyFields(ApplyFields(base, own), extra)
  }

  /** `buildFields`: the interface's base fields, then the struct's own
      fields, then the additions registered for `parent`. */
  function BuildFields(adds: map<string, seq<GqlField>>, t: GoType, parent: string, base: map<string, GqlField>): (r: map<string, GqlField>)
    requires t.TStruct?
    ensures base.Keys <= r.Keys
    ensures forall i :: 0 <= i < |AdditionsFor(adds, parent)| && LastNamed(AdditionsFor(adds, parent), i) ==>
              AdditionsFor(adds, parent)[i].name in r && r[AdditionsFor(adds, parent)[i].name] == AdditionsFor(adds, parent)[i]
    ensures forall j :: 0 <= j < |FieldWrites(adds, t, parent, 0)| && LastNamed(FieldWrites(adds, t, parent, 0), j) &&
                        Unnamed(AdditionsFor(adds, parent), FieldWrites(adds, t, parent, 0)[j].name) ==>
              FieldWrites(adds, t, parent, 0)[j].name in r && r[FieldWrites(adds, t, parent, 0)[j].name] == FieldWrites(adds, t, parent, 0)[j]
    decreases t, 1
  {
    var own := FieldWrites(adds, t, parent, 0);
    AllAdditionsWin(base, own, AdditionsFor(adds, parent));
    AllOwnWin(base, own, AdditionsFor(adds, parent));
    Merge(base, own, AdditionsFor(adds, parent))
  }

  /** The fields registered by `AddFieldConfig` for the object at `parent`. */
  function AdditionsFor(adds: map<string, seq<GqlField>>, parent: string): seq<GqlField> {
    if parent in adds then adds[parent] else []
  }

  /** `buildObject`: the object named by the lower-cased name, whose fields
      use that name as their parent path. */
  function BuildObject(adds: map<string, seq<GqlField>>, t: GoType, name: string, ifaces: seq<string>, base: map<string, GqlField>): (r: GqlType)
    requires t.TStruct?
    ensures r.Object? && r.name == ToLower(name) && r.interfaces == ifaces
    ensures base.Keys <= r.fields.Keys
    ensures forall i :: 0 <= i < |AdditionsFor(adds, ToLower(name))| && LastNamed(AdditionsFor(adds, ToLower(name)), i) ==>
              AdditionsFor(adds, ToLower(name))[i].name in r.fields &&
              r.fields[AdditionsFor(adds, ToLower(name))[i].name] == AdditionsFor(adds, ToLower(name))[i]
    decreases t, 2
  {
    var lname := ToLower(name);
    Object(lname, BuildFields(adds, t, lname, base), ifaces)
  }

  /** Nesting a Go type in k slices nests its schema type in k lists. */
  lemma {:induction false} SliceDepth(adds: map<string, seq<GqlField>>, k: nat, t: GoType, name: string, parent: string)
    ensures GraphQLType(adds, SliceOf(k, t), name, parent) == ListOf(k, GraphQLType(adds, t, name, parent))
  {
    if k > 0 {
      SliceDepth(adds, k - 1, t, name, parent);
    }
  }

  /** Write `j` of `r` is well formed: it takes the list arguments and the
      list resolver exactly when it is list-typed, and then comes just after
      its count sibling; its description does not carry the deprecation
      prefix and its deprecation reason does; its name holds no path
      separator. */
  predicate WriteShaped(r: seq<GqlField>, j: int, parent: string)
    requires 0 <= j < |r|
  {
    && (r[j].listArgs <==> IsListType(r[j].typ))
    && (r[j].listArgs <==> r[j].resolver.ListField?)
    && (r[j].listArgs ==> j > 0 && r[j - 1] == TotalField(r[j].name, parent))
    && !HasPrefix(r[j].description, DeprecationPrefix)
    && (r[j].deprecationReason == "" || HasPrefix(r[j].deprecationReason, DeprecationPrefix))
    && FieldPathSeparator !in r[j].name
  }

  /** Every generated field is well formed in the sense of WriteShaped. */
  lemma {:induction false} FieldWritesShape(adds: map<string, seq<GqlField>>, t: GoType, parent: string, i: nat)
    requires t.TStruct? && i <= |t.fields|
    ensures forall j :: 0 <= j < |FieldWrites(adds, t, parent, i)| ==> WriteShaped(FieldWrites(adds, t, parent, i), j, parent)
    decreases |t.fields| - i
  {
    if i < |t.fields| {
      FieldWritesShape(adds, t, parent, i + 1);
      var rest := FieldWrites(adds, t, parent, i + 1);
      var f := t.fields[i];
      var g := FieldGraphQLType(adds, f, parent);
      if !f.anonymous && !g.Nil? {
        FieldNameShape(f.jsonTag, f.name);
        PrependShaped(FieldName(f.jsonTag, f.name), g, f.description, parent, rest);
      } else {
        assert FieldWrites(adds, t, parent, i) == rest;
      }
    }
  }

  /** Well-formed writes followed by well-formed writes are well formed: a
      list field never opens a run, so no count sibling is split off. */
  lemma ConcatShaped(head: seq<GqlField>, rest: seq<GqlField>, parent: string)
    requires forall j :: 0 <= j < |head| ==> WriteShaped(head, j, parent)
    requires forall j :: 0 <= j < |rest| ==> WriteShaped(rest, j, parent)
    ensures forall j :: 0 <= j < |head + rest| ==> WriteShaped(head + rest, j, parent)
  {
    var r := head + rest;
    forall j | 0 <= j < |r|
      ensures WriteShaped(r, j, parent)
    {
      if j < |head| {
        assert WriteShaped(head, j, parent);
        assert r[j] == head[j];
        if j > 0 {
          assert r[j - 1] == head[j - 1];
        }
      } else {
        assert WriteShaped(rest, j - |head|, parent);
        assert r[j] == rest[j - |head|];
        if r[j].listArgs {
          assert r[j - 1] == rest[j - |head| - 1];
        }
      }
    }
  }

  /** One struct field's writes in front of well-formed writes keep every
      write well formed. */
  lemma PrependShaped(name: string, g: GqlType, desc: string, parent: string, rest: seq<GqlField>)
    requires FieldPathSeparator !in name
    requires forall j :: 0 <= j < |rest| ==> WriteShaped(rest, j, parent)
    ensures forall j :: 0 <= j < |FieldEntries(name, g, desc, parent) + rest| ==>
              WriteShaped(FieldEntries(name, g, desc, parent) + rest, j, parent)
  {
    HeadShaped(name, g, desc, parent);
    ConcatShaped(FieldEntries(name, g, desc, parent), rest, parent);
  }

  /** One struct field's writes are well formed. */
  lemma HeadShaped(name: string, g: GqlType, desc: string, parent: string)
    requires FieldPathSeparator !in name
    ensures forall j :: 0 <= j < |FieldEntries(name, g, desc, parent)| ==>
              WriteShaped(FieldEntries(name, g, desc, parent), j, parent)
  {
    var total := TotalField(name, parent);
    var main := MainField(name, g, desc, parent);
    TitleKeepsSeparatorOut(name);
    assert FieldPathSeparator !in total.name by {
      assert total.name == "total" + Title(name);
    }
    assert !HasPrefix(total.description, DeprecationPrefix) by {
      assert total.description[..|DeprecationPrefix|][0] == 'T';
    }
  }

  lemma TitleKeepsSeparatorOut(s: string)
    requires FieldPathSeparator !in s
    ensures FieldPathSeparator !in Title(s)
  {
    if |s| > 0 && 'a' <= s[0] <= 'z' {
      assert Title(s)[1..] == s[1..];
      assert forall c :: c in s[1..] ==> c in s;
    }
  }

  /** Merge precedence, additions: the last addition of a name wins. */
  lemma AdditionsWin(base: map<string, GqlField>, own: seq<GqlField>, extra: seq<GqlField>, i: int)
    requires 0 <= i < |extra| && LastNamed(extra, i)
    ensures Merge(base, own, extra)[extra[i].name] == extra[i]
  {
    LastWriteWins(ApplyFields(base, own), extra, i);
  }

  /** Merge precedence, own fields: a struct field beats an interface field
      of the same name unless an addition writes that name. */
  lemma OwnBeatsBase(base: map<string, GqlField>, own: seq<GqlField>, extra: seq<GqlField>, i: int)
    requires 0 <= i < |own| && LastNamed(own, i) && Unnamed(extra, own[i].name)
    ensures Merge(base, own, extra)[own[i].name] == own[i]
  {
    LastWriteWins(base, own, i);
    UnwrittenKept(ApplyFields(base, own), extra, own[i].name);
  }

  /** Merge precedence, base: an interface field survives when nothing
      overwrites its name, and the merged map holds exactly the names of the
      three layers. */
  lemma BaseKept(base: map<string, GqlField>, own: seq<GqlField>, extra: seq<GqlField>, k: string)
    requires k in base && Unnamed(own, k) && Unnamed(extra, k)
    ensures Merge(base, own, extra)[k] == base[k]
  {
    UnwrittenKept(base, own, k);
    UnwrittenKept(ApplyFields(base, own), extra, k);
  }

  /** Every addition that is the last of its name wins. */
  lemma AllAdditionsWin(base: map<string, GqlField>, own: seq<GqlField>, extra: seq<GqlField>)
    ensures forall i :: 0 <= i < |extra| && LastNamed(extra, i) ==>
              extra[i].name in Merge(base, own, extra) && Merge(base, own, extra)[extra[i].name] == extra[i]
  {
    forall i | 0 <= i < |extra| && LastNamed(extra, i)
      ensures extra[i].name in Merge(base, own, extra) && Merge(base, own, extra)[extra[i].name] == extra[i]
    {
      AdditionsWin(base, own, extra, i);
    }
  }

  /** Every own field that is the last of its name, and that no addition
      writes, wins. */
  lemma AllOwnWin(base: map<string, GqlField>, own: seq<GqlField>, extra: seq<GqlField>)
    ensures forall j :: 0 <= j < |own| && LastNamed(own, j) && Unnamed(extra, own[j].name) ==>
              own[j].name in Merge(base, own, extra) && Merge(base, own, extra)[own[j].name] == own[j]
  {
    forall j | 0 <= j < |own| && LastNamed(own, j) && Unnamed(extra, own[j].name)
      ensures own[j].name in Merge(base, own, extra) && Merge(base, own, extra)[own[j].name] == own[j]
    {
      OwnBeatsBase(base, own, extra, j);
      MergeKeys(base, own, extra, own[j].name);
    }
  }

  lemma MergeKeys(base: map<string, GqlField>, own: seq<GqlField>, extra: seq<GqlField>, k: string)
    ensures k in Merge(base, own, extra) <==> k in base || !Unnamed(own, k) || !Unnamed(extra, k)
  {
  }

  // ------------------------------------------------------- field content

  /** Struct field `l` yields GraphQL fields: it is not anonymous and its
      kind has a schema type. */
  predicate Writes(adds: map<string, seq<GqlField>>, t: GoType, parent: string, l: int)
    requires t.TStruct? && 0 <= l < |t.fields|
  {
    !t.fields[l].anonymous && !FieldGraphQLType(adds, t.fields[l], parent).Nil?
  }

  /** The external name of struct field `l`. */
  function OwnName(t: GoType, l: int): string
    requires t.TStruct? && 0 <= l < |t.fields|
  {
    FieldName(t.fields[l].jsonTag, t.fields[l].name)
  }

  /** The GraphQL field struct field `l` is written as. */
  function OwnField(adds: map<string, seq<GqlField>>, t: GoType, parent: string, l: int): GqlField
    requires t.TStruct? && 0 <= l < |t.fields|
  {
    MainField(OwnName(t, l), FieldGraphQLType(adds, t.fields[l], parent), t.fields[l].description, parent)
  }

  /** Struct field `l` writes the name `k`: its own name, or the name of the
      count sibling of a list field. */
  predicate WritesName(adds: map<string, seq<GqlField>>, t: GoType, parent: string, l: int, k: string)
    requires t.TStruct? && 0 <= l < |t.fields|
  {
    && Writes(adds, t, parent, l)
    && (k == OwnName(t, l) || (IsListType(FieldGraphQLType(adds, t.fields[l], parent)) && k == "total" + Title(OwnName(t, l))))
  }

  /** Struct field `l` writes its name and no later struct field writes it
      again. */
  predicate LastOwn(adds: map<string, seq<GqlField>>, t: GoType, parent: string, l: int)
    requires t.TStruct? && 0 <= l < |t.fields|
  {
    && Writes(adds, t, parent, l)
    && forall m :: l < m < |t.fields| ==> !WritesName(adds, t, parent, m, OwnName(t, l))
  }

  /** The fields buildFields makes for struct `t` under `parent` on top of
      `base`, described without the order of the writes: exactly the base
      names, the names the struct's fields write and the additions' names;
      the last addition of a name wins; otherwise the last struct field of a
      name wins; otherwise the base field is kept. */
  ghost predicate BuiltFrom(adds: map<string, seq<GqlField>>, t: GoType, parent: string, base: map<string, GqlField>, fields: map<string, GqlField>)
    requires t.TStruct?
  {
    var extra := AdditionsFor(adds, parent);
    && (forall k :: k in fields <==>
          k in base || (exists l :: 0 <= l < |t.fields| && WritesName(adds, t, parent, l, k)) || !Unnamed(extra, k))
    && (forall i :: 0 <= i < |extra| && LastNamed(extra, i) ==> extra[i].name in fields && fields[extra[i].name] == extra[i])
    && (forall l :: 0 <= l < |t.fields| && LastOwn(adds, t, parent, l) && Unnamed(extra, OwnName(t, l)) ==>
          OwnName(t, l) in fields && fields[OwnName(t, l)] == OwnField(adds, t, parent, l))
    && (forall k :: k in base && Unnamed(extra, k) && (forall l :: 0 <= l < |t.fields| ==> !WritesName(adds, t, parent, l, k)) ==>
          k in fields && fields[k] == base[k])
  }

  lemma UnnamedConcat(a: seq<GqlField>, b: seq<GqlField>, k: string)
    ensures Unnamed(a + b, k) <==> Unnamed(a, k) && Unnamed(b, k)
  {
    if Unnamed(a, k) && Unnamed(b, k) {
      forall j | 0 <= j < |a + b| ensures (a + b)[j].name != k {
        if j >= |a| { assert (a + b)[j] == b[j - |a|]; }
      }
    }
    if Unnamed(a + b, k) {
      forall j | 0 <= j < |a| ensures a[j].name != k {
        assert (a + b)[j] == a[j];
      }
      forall j | 0 <= j < |b| ensures b[j].name != k {
        assert (a + b)[|a| + j] == b[j];
      }
    }
  }

  /** The writes of struct field `i`, if any. */
  function OwnWrites(adds: map<string, seq<GqlField>>, t: GoType, parent: string, i: int): seq<GqlField>
    requires t.TStruct? && 0 <= i < |t.fields|
  {
    if Writes(adds, t, parent, i)
    then FieldEntries(OwnName(t, i), FieldGraphQLType(adds, t.fields[i], parent), t.fields[i].description, parent)
    else []
  }

  /** The writes of every struct field, one entry per field. */
  function PerField(adds: map<string, seq<GqlField>>, t: GoType, parent: string): (r: seq<seq<GqlField>>)
    requires t.TStruct?
    ensures |r| == |t.fields| && forall l :: 0 <= l < |t.fields| ==> r[l] == OwnWrites(adds, t, parent, l)
  {
    seq(|t.fields|, l requires 0 <= l < |t.fields| => OwnWrites(adds, t, parent, l))
  }

  function Flatten(ws: seq<seq<GqlField>>): seq<GqlField> {
    if |ws| == 0 then [] else ws[0] + Flatten(ws[1..])
  }

  /** The writes from struct field `i` on are the flattened per-field
      writes from `i` on. */
  lemma {:induction false} FieldWritesFlatten(adds: map<string, seq<GqlField>>, t: GoType, parent: string, i: nat)
    requires t.TStruct? && i <= |t.fields|
    ensures FieldWrites(adds, t, parent, i) == Flatten(PerField(adds, t, parent)[i..])
    decreases |t.fields| - i
  {
    var ws := PerField(adds, t, parent)[i..];
    if i < |t.fields| {
      FieldWritesFlatten(adds, t, parent, i + 1);
      FieldWritesStep(adds, t, parent, i);
      assert ws[0] == OwnWrites(adds, t, parent, i) && ws[1..] == PerField(adds, t, parent)[i + 1..];
    } else {
      assert ws == [];
    }
  }

  /** The writes from struct field `i` on are field `i`'s writes, then the
      rest. */
  lemma FieldWritesStep(adds: map<string, seq<GqlField>>, t: GoType, parent: string, i: nat)
    requires t.TStruct? && i < |t.fields|
    ensures FieldWrites(adds, t, parent, i) == OwnWrites(adds, t, parent, i) + FieldWrites(adds, t, parent, i + 1)
  {
  }

  /** A flattened sequence writes a name exactly when one of its parts does. */
  lemma {:induction false} FlattenNames(ws: seq<seq<GqlField>>, k: string)
    ensures !Unnamed(Flatten(ws), k) <==> exists l :: 0 <= l < |ws| && !Unnamed(ws[l], k)
    decreases |ws|
  {
    if |ws| > 0 {
      FlattenNames(ws[1..], k);
      UnnamedConcat(ws[0], Flatten(ws[1..]), k);
      if exists l :: 0 <= l < |ws| && !Unnamed(ws[l], k) {
        var l :| 0 <= l < |ws| && !Unnamed(ws[l], k);
        if l > 0 { assert ws[1..][l - 1] == ws[l]; }
      }
      if exists l :: 0 <= l < |ws| - 1 && !Unnamed(ws[1..][l], k) {
        var l :| 0 <= l < |ws| - 1 && !Unnamed(ws[1..][l], k);
        assert ws[1..][l] == ws[l + 1];
      }
    }
  }

  /** The last write of part `l` is the last of its name when no later part
      writes that name. */
  lemma {:induction false} FlattenLast(ws: seq<seq<GqlField>>, l: int)
    requires 0 <= l < |ws| && |ws[l]| > 0
    requires forall m :: l < m < |ws| ==> Unnamed(ws[m], ws[l][|ws[l]| - 1].name)
    ensures exists j :: 0 <= j < |Flatten(ws)| && LastNamed(Flatten(ws), j) && Flatten(ws)[j] == ws[l][|ws[l]| - 1]
    decreases l
  {
    var rest := Flatten(ws[1..]);
    assert Flatten(ws) == ws[0] + rest;
    if l == 0 {
      assert Unnamed(rest, ws[0][|ws[0]| - 1].name) by {
        FlattenNames(ws[1..], ws[0][|ws[0]| - 1].name);
        forall m | 0 <= m < |ws| - 1 ensures Unnamed(ws[1..][m], ws[0][|ws[0]| - 1].name) {
          assert ws[1..][m] == ws[m + 1];
        }
      }
      LastOfHead(ws[0], rest);
      assert LastNamed(Flatten(ws), |ws[0]| - 1);
    } else {
      assert ws[1..][l - 1] == ws[l];
      forall m | l - 1 < m < |ws| - 1 ensures Unnamed(ws[1..][m], ws[l][|ws[l]| - 1].name) {
        assert ws[1..][m] == ws[m + 1];
      }
      FlattenLast(ws[1..], l - 1);
      var j :| 0 <= j < |rest| && LastNamed(rest, j) && rest[j] == ws[l][|ws[l]| - 1];
      LastNamedBehind(ws[0], rest, j);
      assert LastNamed(Flatten(ws), |ws[0]| + j);
    }
  }

  /** One struct field's writes: the count sibling's name for a list, the
      field's own name, and the main field last. */
  lemma EntriesNames(name: string, g: GqlType, desc: string, parent: string, k: string)
    ensures var e := FieldEntries(name, g, desc, parent);
            && (!Unnamed(e, k) <==> k == name || (IsListType(g) && k == "total" + Title(name)))
            && |e| > 0 && e[|e| - 1] == MainField(name, g, desc, parent)
  {
    var e := FieldEntries(name, g, desc, parent);
    var main := MainField(name, g, desc, parent);
    if IsListType(g) {
      var total := TotalField(name, parent);
      assert e == [total, main];
      if k == total.name { assert e[0].name == k; }
      if k == main.name { assert e[1].name == k; }
    } else {
      assert e == [main];
      if k == main.name { assert e[0].name == k; }
    }
  }

  /** Struct field `i` writes exactly the names WritesName says. */
  lemma OwnWritesNames(adds: map<string, seq<GqlField>>, t: GoType, parent: string, i: int, k: string)
    requires t.TStruct? && 0 <= i < |t.fields|
    ensures !Unnamed(OwnWrites(adds, t, parent, i), k) <==> WritesName(adds, t, parent, i, k)
  {
    if Writes(adds, t, parent, i) {
      EntriesNames(OwnName(t, i), FieldGraphQLType(adds, t.fields[i], parent), t.fields[i].description, parent, k);
    }
  }

  /** A struct field that writes anything writes its main field last. */
  lemma OwnWritesLast(adds: map<string, seq<GqlField>>, t: GoType, parent: string, i: int)
    requires t.TStruct? && 0 <= i < |t.fields| && Writes(adds, t, parent, i)
    ensures |OwnWrites(adds, t, parent, i)| > 0
    ensures OwnWrites(adds, t, parent, i)[|OwnWrites(adds, t, parent, i)| - 1] == OwnField(adds, t, parent, i)
  {
    EntriesNames(OwnName(t, i), FieldGraphQLType(adds, t.fields[i], parent), t.fields[i].description, parent, "");
  }

  /** A name is written exactly when some struct field writes it: anonymous
      fields and fields without a schema type write nothing. */
  lemma FieldWritesNames(adds: map<string, seq<GqlField>>, t: GoType, parent: string, k: string)
    requires t.TStruct?
    ensures !Unnamed(FieldWrites(adds, t, parent, 0), k) <==>
              exists l :: 0 <= l < |t.fields| && WritesName(adds, t, parent, l, k)
  {
    var ws := PerField(adds, t, parent);
    FieldWritesFlatten(adds, t, parent, 0);
    assert ws[0..] == ws;
    FlattenNames(ws, k);
    forall l | 0 <= l < |t.fields| ensures !Unnamed(ws[l], k) <==> WritesName(adds, t, parent, l, k) {
      OwnWritesNames(adds, t, parent, l, k);
    }
  }

  /** Write `j` of `s` moves to `|p| + j` behind `p`, and stays the last of
      its name. */
  lemma LastNamedBehind(p: seq<GqlField>, s: seq<GqlField>, j: int)
    requires 0 <= j < |s| && LastNamed(s, j)
    ensures (p + s)[|p| + j] == s[j] && LastNamed(p + s, |p| + j)
  {
    forall m | |p| + j < m < |p + s| ensures (p + s)[m].name != (p + s)[|p| + j].name {
      assert (p + s)[m] == s[m - |p|];
    }
  }

  /** The last write of `e` is the last of its name in `e + s` when `s`
      never writes that name. */
  lemma LastOfHead(e: seq<GqlField>, s: seq<GqlField>)
    requires |e| > 0 && Unnamed(s, e[|e| - 1].name)
    ensures (e + s)[|e| - 1] == e[|e| - 1] && LastNamed(e + s, |e| - 1)
  {
    forall m | |e| - 1 < m < |e + s| ensures (e + s)[m].name != e[|e| - 1].name {
      assert (e + s)[m] == s[m - |e|];
    }
  }

  /** The last struct field of a name is written as its main field, and no
      later write has that name. */
  lemma FieldWritesLast(adds: map<string, seq<GqlField>>, t: GoType, parent: string, l: int)
    requires t.TStruct? && 0 <= l < |t.fields| && LastOwn(adds, t, parent, l)
    ensures exists j :: 0 <= j < |FieldWrites(adds, t, parent, 0)| && LastNamed(FieldWrites(adds, t, parent, 0), j)
                        && FieldWrites(adds, t, parent, 0)[j] == OwnField(adds, t, parent, l)
  {
    var ws := PerField(adds, t, parent);
    FieldWritesFlatten(adds, t, parent, 0);
    assert ws[0..] == ws;
    OwnWritesLast(adds, t, parent, l);
    assert OwnField(adds, t, parent, l).name == OwnName(t, l);
    forall m | l < m < |ws| ensures Unnamed(ws[m], OwnName(t, l)) {
      OwnWritesNames(adds, t, parent, m, OwnName(t, l));
    }
    FlattenLast(ws, l);
  }

  /** buildFields makes exactly the fields BuiltFrom describes. */
  lemma BuildFieldsBuiltFrom(adds: map<string, seq<GqlField>>, t: GoType, parent: string, base: map<string, GqlField>)
    requires t.TStruct?
    ensures BuiltFrom(adds, t, parent, base, BuildFields(adds, t, parent, base))
  {
    var own := FieldWrites(adds, t, parent, 0);
    var extra := AdditionsFor(adds, parent);
    var r := BuildFields(adds, t, parent, base);
    assert r == Merge(base, own, extra);
    forall k ensures k in r <==> k in base || (exists l :: 0 <= l < |t.fields| && WritesName(adds, t, parent, l, k)) || !Unnamed(extra, k) {
      MergeKeys(base, own, extra, k);
      FieldWritesNames(adds, t, parent, k);
    }
    forall l | 0 <= l < |t.fields| && LastOwn(adds, t, parent, l) && Unnamed(extra, OwnName(t, l))
      ensures OwnName(t, l) in r && r[OwnName(t, l)] == OwnField(adds, t, parent, l)
    {
      FieldWritesLast(adds, t, parent, l);
      var j :| 0 <= j < |own| && LastNamed(own, j) && own[j] == OwnField(adds, t, parent, l);
      OwnBeatsBase(base, own, extra, j);
      MergeKeys(base, own, extra, OwnName(t, l));
    }
    forall k | k in base && Unnamed(extra, k) && (forall l :: 0 <= l < |t.fields| ==> !WritesName(adds, t, parent, l, k))
      ensures k in r && r[k] == base[k]
    {
      FieldWritesNames(adds, t, parent, k);
      BaseKept(base, own, extra, k);
    }
  }

  // ----------------------------------------------------------- interfaces

  /** A struct's embeds; ranging over the nil map of a struct without any
      does nothing. */
  function Embeds(t: GoType): map<string, GoType> {
    ExtractEmbeds(t).GetOr(map[])
  }

  /** Maps merged in order, later entries replacing earlier ones. */
  function UnionAll(ms: seq<map<string, GoType>>): map<string, GoType>
    decreases |ms|
  {
    if |ms| == 0 then map[] else UnionAll(ms[..|ms| - 1]) + ms[|ms| - 1]
  }

  /** Every embedded struct of every source struct by name; a later struct's
      embed of the same name replaces an earlier one. */
  function AllEmbeds(structs: seq<GoType>): map<string, GoType> {
    UnionAll(seq(|structs|, i requires 0 <= i < |structs| => Embeds(structs[i])))
  }

  lemma {:induction false} UnionAllKeys(ms: seq<map<string, GoType>>, name: string)
    ensures name in UnionAll(ms) <==> exists i :: 0 <= i < |ms| && name in ms[i]
    decreases |ms|
  {
    if |ms| > 0 {
      var front := ms[..|ms| - 1];
      UnionAllKeys(front, name);
      if name in UnionAll(front) {
        var i :| 0 <= i < |front| && name in front[i];
        assert name in ms[i];
      }
      if exists i :: 0 <= i < |ms| && name in ms[i] {
        var i :| 0 <= i < |ms| && name in ms[i];
        if i < |ms| - 1 {
          assert name in front[i];
        }
      }
    }
  }

  lemma {:induction false} UnionAllLastWins(ms: seq<map<string, GoType>>, i: int, name: string)
    requires 0 <= i < |ms| && name in ms[i]
    requires forall j :: i < j < |ms| ==> name !in ms[j]
    ensures name in UnionAll(ms) && UnionAll(ms)[name] == ms[i][name]
    decreases |ms|
  {
    if i < |ms| - 1 {
      var front := ms[..|ms| - 1];
      assert front[i] == ms[i];
      forall j | i < j < |front| ensures name !in front[j] {
        assert front[j] == ms[j];
      }
      UnionAllLastWins(front, i, name);
    }
  }

  /** A name has an interface exactly when some source struct embeds it. */
  lemma AllEmbedsKeys(structs: seq<GoType>, name: string)
    ensures name in AllEmbeds(structs) <==> exists i :: 0 <= i < |structs| && name in Embeds(structs[i])
  {
    var ms := seq(|structs|, i requires 0 <= i < |structs| => Embeds(structs[i]));
    UnionAllKeys(ms, name);
    if name in AllEmbeds(structs) {
      var i :| 0 <= i < |ms| && name in ms[i];
      assert name in Embeds(structs[i]);
    }
    if exists i :: 0 <= i < |structs| && name in Embeds(structs[i]) {
      var i :| 0 <= i < |structs| && name in Embeds(structs[i]);
      assert name in ms[i];
    }
  }

  /** The embed of the last source struct that has one of that name wins. */
  lemma AllEmbedsLastWins(structs: seq<GoType>, i: int, name: string)
    requires 0 <= i < |structs| && name in Embeds(structs[i])
    requires forall j :: i < j < |structs| ==> name !in Embeds(structs[j])
    ensures name in AllEmbeds(structs) && AllEmbeds(structs)[name] == Embeds(structs[i])[name]
  {
    UnionAllLastWins(seq(|structs|, i requires 0 <= i < |structs| => Embeds(structs[i])), i, name);
  }

  /** The interface built from embedded struct `t` under `name`: named with
      the prefix, its fields built with that name as parent and no base. */
  function Interface(adds: map<string, seq<GqlField>>, prefix: string, name: string, t: GoType): (r: InterfaceDef)
    requires t.TStruct?
    ensures r.name == prefix + name
    ensures BuiltFrom(adds, t, prefix + name, map[], r.fields)
  {
    BuildFieldsBuiltFrom(adds, t, prefix + name, map[]);
    InterfaceDef(prefix + name, BuildFields(adds, t, prefix + name, map[]))
  }

  predicate EmbedsAreStructs(all: map<string, GoType>) {
    forall name :: name in all ==> all[name].TStruct?
  }

  /** `BuildInterfaces`: one interface per embedded struct name; an embedded
      type that is not a struct makes buildFields panic. */
  function BuildInterfaces(ob: ObjectBuilder): (r: Result<ObjectBuilder>)
    ensures r.Ok? <==> EmbedsAreStructs(AllEmbeds(ob.structs))
    ensures r.Err? ==> r.msg == NonStructPanic
    ensures r.Ok? ==> r.value == ob.(interfaces := r.value.interfaces)
    ensures r.Ok? ==> r.value.interfaces.Some? && r.value.interfaces.value.Keys == AllEmbeds(ob.structs).Keys
    ensures r.Ok? ==> forall name :: name in r.value.interfaces.value ==>
              r.value.interfaces.value[name].name == ob.prefix + name
    ensures r.Ok? ==> forall name :: name in r.value.interfaces.value ==>
              && AllEmbeds(ob.structs)[name].TStruct?
              && BuiltFrom(ob.fieldAdditions, AllEmbeds(ob.structs)[name], ob.prefix + name, map[], r.value.interfaces.value[name].fields)
  {
    var all := AllEmbeds(ob.structs);
    if !EmbedsAreStructs(all) then Err(NonStructPanic)
    else Ok(ob.(interfaces := Some(InterfaceMap(ob.fieldAdditions, ob.prefix, all))))
  }

  /** One interface per embedded struct name. */
  function InterfaceMap(adds: map<string, seq<GqlField>>, prefix: string, all: map<string, GoType>): (r: map<string, InterfaceDef>)
    requires EmbedsAreStructs(all)
    ensures r.Keys == all.Keys
    ensures forall name :: name in r ==> r[name].name == prefix + name
    ensures forall name :: name in r ==> BuiltFrom(adds, all[name], prefix + name, map[], r[name].fields)
  {
    map name | name in all :: Interface(adds, prefix, name, all[name])
  }

  // ---------------------------------------------------------------- types

  /** The names of the embedded structs, in declaration order. */
  function EmbedNames(fs: seq<GoField>): (r: seq<string>)
    ensures forall n :: n in r <==> exists i :: 0 <= i < |fs| && IsEmbedType(fs[i]) && fs[i].name == n
    decreases |fs|
  {
    if |fs| == 0 then []
    else
      var rest := EmbedNames(fs[1..]);
      assert forall i :: 0 <= i < |fs| - 1 ==> fs[1..][i] == fs[i + 1];
      if IsEmbedType(fs[0]) then [fs[0].name] + rest else rest
  }

  /** The interfaces, among `names`, that were built, by their schema name. */
  function Implemented(names: seq<string>, ifaces: map<string, InterfaceDef>): (r: seq<string>)
    ensures |r| == 0 <==> forall j :: 0 <= j < |names| ==> names[j] !in ifaces
    ensures (forall j :: 0 <= j < |names| ==> names[j] in ifaces) ==>
              |r| == |names| && forall j :: 0 <= j < |names| ==> r[j] == ifaces[names[j]].name
    decreases |names|
  {
    if |names| == 0 then []
    else
      assert forall j :: 1 <= j < |names| ==> names[1..][j - 1] == names[j];
      (if names[0] in ifaces then [ifaces[names[0]].name] else []) + Implemented(names[1..], ifaces)
  }

  /** The interfaces' fields merged in the order of `names`. */
  function BaseFields(names: seq<string>, ifaces: map<string, InterfaceDef>): (r: map<string, GqlField>)
    ensures forall k :: k in r <==> exists n :: n in names && n in ifaces && k in ifaces[n].fields
    ensures forall k :: k in r ==> exists n :: n in names && n in ifaces && k in ifaces[n].fields && r[k] == ifaces[n].fields[k]
    decreases |names|
  {
    if |names| == 0 then map[]
    else
      var front := names[..|names| - 1];
      var last := names[|names| - 1];
      assert forall n :: n in names <==> n in front || n == last;
      BaseFields(front, ifaces) + (if last in ifaces then ifaces[last].fields else map[])
  }

  /** `buildType`: the object for a source struct.  It implements the built
      interfaces of its embeds and starts from their fields; only an object
      that implements some interface is recorded for interface type
      resolution. */
  function BuildType(ob: ObjectBuilder, t: GoType): (r: Result<(ObjectBuilder, GqlType)>)
    ensures r.Err? <==> !t.TStruct?
    ensures r.Err? ==> r.msg == NonStructPanic
    ensures r.Ok? ==> var obj := r.value.1;
              && obj.Object? && obj.name == ToLower(ob.prefix + t.name)
              && obj.interfaces == Implemented(EmbedNames(t.fields), ob.interfaces.GetOr(map[]))
              && r.value.0 == ob.(objects := r.value.0.objects)
              && (|obj.interfaces| == 0 ==> r.value.0.objects == ob.objects)
              && (|obj.interfaces| > 0 ==> r.value.0.objects == ob.objects[obj.name := obj])
    ensures r.Ok? ==> BaseFields(EmbedNames(t.fields), ob.interfaces.GetOr(map[])).Keys <= r.value.1.fields.Keys
  {
    if !t.TStruct? then Err(NonStructPanic)
    else
      var ifaces := ob.interfaces.GetOr(map[]);
      var embeds := EmbedNames(t.fields);
      var found := Implemented(embeds, ifaces);
      var name := ob.prefix + t.name;
      var base := BaseFields(embeds, ifaces);
      if |found| == 0 then
        assert base == map[] by { assert base.Keys == {}; }
        Ok((ob, BuildObject(ob.fieldAdditions, t, name, [], map[])))
      else
        var obj := BuildObject(ob.fieldAdditions, t, name, found, base);
        Ok((ob.(objects := ob.objects[obj.name := obj]), obj))
  }

  /** A type's object holds the fields built from its struct on top of the
      fields of its embeds' interfaces, with the additions registered at its
      lower-cased name. */
  lemma BuildTypeBuiltFrom(ob: ObjectBuilder, t: GoType)
    requires t.TStruct?
    ensures BuildType(ob, t).Ok?
    ensures BuiltFrom(ob.fieldAdditions, t, ToLower(ob.prefix + t.name),
                      BaseFields(EmbedNames(t.fields), ob.interfaces.GetOr(map[])), BuildType(ob, t).value.1.fields)
  {
    var ifaces := ob.interfaces.GetOr(map[]);
    var base := BaseFields(EmbedNames(t.fields), ifaces);
    BuildFieldsBuiltFrom(ob.fieldAdditions, t, ToLower(ob.prefix + t.name), base);
    if |Implemented(EmbedNames(t.fields), ifaces)| == 0 {
      assert base == map[] by { assert base.Keys == {}; }
    }
  }

  /** The objects for `structs` in order, the builder threaded through. */
  function BuildEach(ob: ObjectBuilder, structs: seq<GoType>): (r: Result<(ObjectBuilder, seq<GqlType>)>)
    ensures r.Ok? <==> forall i :: 0 <= i < |structs| ==> structs[i].TStruct?
    ensures r.Err? ==> r.msg == NonStructPanic
    ensures r.Ok? ==> |r.value.1| == |structs| && r.value.0 == ob.(objects := r.value.0.objects)
    ensures r.Ok? ==> forall i :: 0 <= i < |structs| ==>
              r.value.1[i] == BuildType(ob, structs[i]).value.1
    ensures r.Ok? ==> forall k :: k in ob.objects ==> k in r.value.0.objects
    decreases |structs|
  {
    if |structs| == 0 then Ok((ob, []))
    else
      var (ob1, obj) :- BuildType(ob, structs[0]);
      var (ob2, rest) :- BuildEach(ob1, structs[1..]);
      assert forall i :: 1 <= i < |structs| ==> structs[1..][i - 1] == structs[i];
      Ok((ob2, [obj] + rest))
  }

  /** `BuildTypes`: the interfaces first if they were not built yet, then
      one object per source struct. */
  function BuildTypes(ob: ObjectBuilder): (r: Result<(ObjectBuilder, seq<GqlType>)>)
    ensures r.Ok? ==> |r.value.1| == |ob.structs| && r.value.0.interfaces.Some?
    ensures ob.interfaces.Some? ==> (r.Ok? <==> forall i :: 0 <= i < |ob.structs| ==> ob.structs[i].TStruct?)
    ensures r.Ok? ==> forall i :: 0 <= i < |ob.structs| ==>
              ob.structs[i].TStruct? && r.value.1[i].Object? && r.value.1[i].name == ToLower(ob.prefix + ob.structs[i].name)
  {
    var ob1 :- if ob.interfaces.None? then BuildInterfaces(ob) else Ok(ob);
    BuildEach(ob1, ob1.structs)
  }

  function Prefixed(prefix: string, names: seq<string>): (r: seq<string>)
    ensures |r| == |names| && forall j :: 0 <= j < |names| ==> r[j] == prefix + names[j]
  {
    seq(|names|, j requires 0 <= j < |names| => prefix + names[j])
  }

  /** Built from a fresh builder, every object implements one interface per
      embedded struct, named with the prefix, in declaration order. */
  lemma FreshTypesImplementEmbeds(ob: ObjectBuilder, i: int)
    requires ob.interfaces.None? && BuildTypes(ob).Ok? && 0 <= i < |ob.structs|
    ensures ob.structs[i].TStruct?
    ensures BuildTypes(ob).value.1[i].interfaces == Prefixed(ob.prefix, EmbedNames(ob.structs[i].fields))
  {
    var ob1 := BuildInterfaces(ob).value;
    var ifaces := ob1.interfaces.value;
    assert BuildTypes(ob) == BuildEach(ob1, ob.structs);
    var t := ob.structs[i];
    var names := EmbedNames(t.fields);
    forall j | 0 <= j < |names|
      ensures names[j] in ifaces && ifaces[names[j]].name == ob.prefix + names[j]
    {
      InterfaceForEmbed(ob, i, names[j]);
    }
    ImplementedAll(names, ifaces, ob.prefix);
    assert BuildType(ob1, t).value.1.interfaces == Implemented(names, ifaces);
  }

  /** When every name has an interface named with the prefix, the object
      implements exactly the prefixed names. */
  lemma ImplementedAll(names: seq<string>, ifaces: map<string, InterfaceDef>, prefix: string)
    requires forall j :: 0 <= j < |names| ==> names[j] in ifaces && ifaces[names[j]].name == prefix + names[j]
    ensures Implemented(names, ifaces) == Prefixed(prefix, names)
  {
    var r := Implemented(names, ifaces);
    assert |r| == |names|;
    forall j | 0 <= j < |names| ensures r[j] == Prefixed(prefix, names)[j] {
      assert r[j] == ifaces[names[j]].name;
    }
  }

  /** Every embedded struct of a source struct has a built interface. */
  lemma InterfaceForEmbed(ob: ObjectBuilder, i: int, n: string)
    requires BuildInterfaces(ob).Ok? && 0 <= i < |ob.structs|
    requires ob.structs[i].TStruct? && n in EmbedNames(ob.structs[i].fields)
    ensures var ifaces := BuildInterfaces(ob).value.interfaces.value;
            n in ifaces && ifaces[n].name == ob.prefix + n
  {
    var t := ob.structs[i];
    var k :| 0 <= k < |t.fields| && IsEmbedType(t.fields[k]) && t.fields[k].name == n;
    assert ExtractEmbeds(t).Some?;
    assert n in Embeds(t);
    AllEmbedsKeys(ob.structs, n);
  }

  // -------------------------------------------------------- custom fields

  /** One entry of `AddCustomFields`: the additions are recorded for the key
      and, when the key's first segment names a built interface, written
      into the object the rest of the path finds there, or into the
      interface itself when the path finds no object. */
  function AddCustomField(ob: ObjectBuilder, key: string, fields: seq<GqlField>): (r: ObjectBuilder)
    ensures r.fieldAdditions == ob.fieldAdditions[key := fields]
    ensures r.objects == ob.objects && r.prefix == ob.prefix && r.structs == ob.structs
    ensures r.interfaces.Some? <==> ob.interfaces.Some?
    ensures r.interfaces.Some? ==> r.interfaces.value.Keys == ob.interfaces.value.Keys
    ensures r.interfaces.Some? ==> forall n :: n in ob.interfaces.value && n != Split(key, FieldPathSeparator)[0] ==>
              r.interfaces.value[n] == ob.interfaces.value[n]
    ensures r.interfaces.Some? ==> forall n :: n in r.interfaces.value ==>
              r.interfaces.value[n].name == ob.interfaces.value[n].name
  {
    var ob1 := ob.(fieldAdditions := ob.fieldAdditions[key := fields]);
    var splits := Split(key, FieldPathSeparator);
    match ob.interfaces
    case None => ob1
    case Some(ifaces) =>
      if splits[0] !in ifaces then ob1
      else
        var iface := ifaces[splits[0]];
        var path := splits[1..];
        var newFields :=
          if FindObjectField(iface.fields, path).None? then ApplyFields(iface.fields, fields)
          else AddFieldsAt(iface.fields, path, fields);
        ob1.(interfaces := Some(ifaces[splits[0] := iface.(fields := newFields)]))
  }

  /** A key whose path finds no object in its interface adds the fields to
      the interface root. */
  lemma AddCustomFieldAtRoot(ob: ObjectBuilder, key: string, fields: seq<GqlField>)
    requires ob.interfaces.Some? && Split(key, FieldPathSeparator)[0] in ob.interfaces.value
    requires FindObjectField(ob.interfaces.value[Split(key, FieldPathSeparator)[0]].fields, Split(key, FieldPathSeparator)[1..]).None?
    ensures var n := Split(key, FieldPathSeparator)[0];
            var before := ob.interfaces.value[n];
            AddCustomField(ob, key, fields).interfaces.value[n] == before.(fields := ApplyFields(before.fields, fields))
  {
  }

  /** A key whose path finds an object in its interface adds the fields to
      that object, and the interface keeps its own field names. */
  lemma AddCustomFieldNested(ob: ObjectBuilder, key: string, fields: seq<GqlField>)
    requires ob.interfaces.Some? && Split(key, FieldPathSeparator)[0] in ob.interfaces.value
    requires FindObjectField(ob.interfaces.value[Split(key, FieldPathSeparator)[0]].fields, Split(key, FieldPathSeparator)[1..]).Some?
    ensures var n := Split(key, FieldPathSeparator)[0];
            var path := Split(key, FieldPathSeparator)[1..];
            var before := ob.interfaces.value[n];
            var after := AddCustomField(ob, key, fields).interfaces.value[n];
            var found := FindObjectField(before.fields, path).value;
            && after.name == before.name
            && after.fields.Keys == before.fields.Keys
            && FindObjectField(after.fields, path) == Some(found.(fields := ApplyFields(found.fields, fields)))
  {
    var n := Split(key, FieldPathSeparator)[0];
    var path := Split(key, FieldPathSeparator)[1..];
    AddFieldsAtFound(ob.interfaces.value[n].fields, path, fields);
  }

  /** `AddCustomFields`, the entries applied in the given order. */
  function AddCustomFields(ob: ObjectBuilder, additions: seq<(string, seq<GqlField>)>): (r: ObjectBuilder)
    ensures r.objects == ob.objects && r.prefix == ob.prefix && r.structs == ob.structs
    ensures r.interfaces.Some? <==> ob.interfaces.Some?
    ensures forall k :: k in r.fieldAdditions <==> k in ob.fieldAdditions || exists i :: 0 <= i < |additions| && additions[i].0 == k
    decreases |additions|
  {
    if |additions| == 0 then ob
    else
      var front := additions[..|additions| - 1];
      var (key, fields) := additions[|additions| - 1];
      assert forall i :: 0 <= i < |front| ==> front[i] == additions[i];
      AddCustomField(AddCustomFields(ob, front), key, fields)
  }

  /** The last entry for a key decides the key's recorded additions. */
  lemma {:induction false} AddCustomFieldsLastWins(ob: ObjectBuilder, additions: seq<(string, seq<GqlField>)>, i: int)
    requires 0 <= i < |additions|
    requires forall j :: i < j < |additions| ==> additions[j].0 != additions[i].0
    ensures AddCustomFields(ob, additions).fieldAdditions[additions[i].0] == additions[i].1
    decreases |additions|
  {
    if i < |additions| - 1 {
      var front := additions[..|additions| - 1];
      assert front[i] == additions[i];
      forall j | i < j < |front| ensures front[j].0 != front[i].0 {
        assert front[j] == additions[j];
      }
      AddCustomFieldsLastWins(ob, front, i);
    }
  }
}
