/** The GraphQL schema objects the builder produces (graphql-go's Object,
    Interface, List, NonNull, Field), as plain type descriptors, and the
    path lookup over them (gql/builder.go, findObjectField and
    resolveGraphQLObject). */
module Schema {
  import opened Results

  /** A GraphQL output type.  `Nil` is the absent type graphQLType gives an
      unsupported Go kind. */
  datatype GqlType =
    | Nil
    | Scalar(name: string)                 // Boolean, Float, Int, String, DateTime
    | NonNull(ofType: GqlType)
    | List(ofType: GqlType)
    | Object(name: string, fields: map<string, GqlField>, interfaces: seq<string>)

  /** How a field's value is resolved: the generated resolvers, named by the
      field and parent path they were built for, or a caller's own. */
  datatype Resolver =
    | ByField(name: string, parent: string)
    | ListField(name: string, parent: string)
    | TotalCount(total: string, list: string, parent: string)
    | Custom(id: nat)

  /** A GraphQL field; `listArgs` says it takes the filter and sort
      arguments. */
  datatype GqlField = GqlField(name: string, typ: GqlType, description: string, deprecationReason: string,
                               listArgs: bool, resolver: Resolver)

  /** A GraphQL interface built from an embedded struct. */
  datatype InterfaceDef = InterfaceDef(name: string, fields: map<string, GqlField>)

  /** `gfields[f.Name] = f` for each field in order. */
  function ApplyFields(m: map<string, GqlField>, fs: seq<GqlField>): (r: map<string, GqlField>)
    ensures forall k :: k in r <==> k in m || exists i :: 0 <= i < |fs| && fs[i].name == k
    decreases |fs|
  {
    if |fs| == 0 then m
    else
      var front := fs[..|fs| - 1];
      assert forall i :: 0 <= i < |front| ==> front[i] == fs[i];
      ApplyFields(m, front)[fs[|fs| - 1].name := fs[|fs| - 1]]
  }

  /** Field `i` is the last of `fs` with its name. */
  predicate LastNamed(fs: seq<GqlField>, i: int)
    requires 0 <= i < |fs|
  {
    forall j :: i < j < |fs| ==> fs[j].name != fs[i].name
  }

  predicate Unnamed(fs: seq<GqlField>, k: string) {
    forall i :: 0 <= i < |fs| ==> fs[i].name != k
  }

  /** The last write of a name wins. */
  lemma {:induction false} LastWriteWins(m: map<string, GqlField>, fs: seq<GqlField>, i: int)
    requires 0 <= i < |fs| && LastNamed(fs, i)
    ensures ApplyFields(m, fs)[fs[i].name] == fs[i]
    decreases |fs|
  {
    var n := |fs|;
    if i < n - 1 {
      var front := fs[..n - 1];
      assert fs[n - 1].name != fs[i].name;
      assert LastNamed(front, i) by {
        forall j | i < j < |front| ensures front[j].name != front[i].name {
          assert front[j] == fs[j];
        }
      }
      LastWriteWins(m, front, i);
    }
  }

  /** A name the fields never write keeps its value. */
  lemma {:induction false} UnwrittenKept(m: map<string, GqlField>, fs: seq<GqlField>, k: string)
    requires k in m && Unnamed(fs, k)
    ensures ApplyFields(m, fs)[k] == m[k]
    decreases |fs|
  {
    if |fs| > 0 {
      var front := fs[..|fs| - 1];
      assert Unnamed(front, k) by {
        forall j | 0 <= j < |front| ensures front[j].name != k {
          assert front[j] == fs[j];
        }
      }
      UnwrittenKept(m, front, k);
    }
  }

  /** `resolveGraphQLObject`: the object under any NonNull and List
      wrappers, if that is where the wrappers end. */
  function ResolveGraphQLObject(t: GqlType): (r: Option<GqlType>)
    ensures r.Some? ==> r.value.Object?
    ensures r.Some? <==> Innermost(t).Object?
    ensures r.Some? ==> r.value == Innermost(t)
  {
    match t
    case Object(_, _, _) => Some(t)
    case NonNull(o) => ResolveGraphQLObject(o)
    case List(o) => ResolveGraphQLObject(o)
    case _ => None
  }

  /** The type with every NonNull and List wrapper removed. */
  function Innermost(t: GqlType): GqlType {
    match t
    case NonNull(o) => Innermost(o)
    case List(o) => Innermost(o)
    case _ => t
  }

  /** `findObjectField`: follow `path` through nested object fields, each
      step through the object inside the field's wrappers.  None for an
      empty path, a missing name or a field that holds no object. */
  function FindObjectField(fields: map<string, GqlField>, path: seq<string>): (r: Option<GqlType>)
    ensures r.Some? ==> r.value.Object?
    ensures |path| == 0 ==> r.None?
    ensures |path| > 0 && path[0] !in fields ==> r.None?
    ensures |path| > 0 && path[0] in fields && !Innermost(fields[path[0]].typ).Object? ==> r.None?
    ensures |path| == 1 && path[0] in fields && Innermost(fields[path[0]].typ).Object? ==> r == Some(Innermost(fields[path[0]].typ))
    decreases |path|
  {
    if |path| == 0 then None
    else if path[0] !in fields then None
    else
      match ResolveGraphQLObject(fields[path[0]].typ)
      case None => None
      case Some(child) =>
        if |path| == 1 then Some(child) else FindObjectField(child.fields, path[1..])
  }

  /** The type with its innermost object replaced, wrappers kept. */
  function ReplaceInner(t: GqlType, o: GqlType): (r: GqlType)
    requires Innermost(t).Object?
    ensures Innermost(r) == Innermost(o)
  {
    match t
    case NonNull(x) => NonNull(ReplaceInner(x, o))
    case List(x) => List(ReplaceInner(x, o))
    case Object(_, _, _) => o
  }

  /** `parent.AddFieldConfig` on the object `findObjectField` finds: the
      fields written into that nested object, every enclosing field and
      wrapper rebuilt around it. */
  function AddFieldsAt(fields: map<string, GqlField>, path: seq<string>, adds: seq<GqlField>): (r: map<string, GqlField>)
    requires FindObjectField(fields, path).Some?
    ensures r.Keys == fields.Keys
    decreases |path|
  {
    var f := fields[path[0]];
    var child := Innermost(f.typ);
    var newChild :=
      if |path| == 1 then child.(fields := ApplyFields(child.fields, adds))
      else child.(fields := AddFieldsAt(child.fields, path[1..], adds));
    fields[path[0] := f.(typ := ReplaceInner(f.typ, newChild))]
  }

  /** After the additions, the object at the path holds them: its fields are
      the old ones with the additions written over them. */
  lemma {:induction false} AddFieldsAtFound(fields: map<string, GqlField>, path: seq<string>, adds: seq<GqlField>)
    requires FindObjectField(fields, path).Some?
    ensures var found := FindObjectField(fields, path).value;
            FindObjectField(AddFieldsAt(fields, path, adds), path) == Some(found.(fields := ApplyFields(found.fields, adds)))
    decreases |path|
  {
    var f := fields[path[0]];
    var child := Innermost(f.typ);
    if |path| > 1 {
      AddFieldsAtFound(child.fields, path[1..], adds);
    }
  }

  /** Fields off the path are untouched. */
  lemma AddFieldsAtOthers(fields: map<string, GqlField>, path: seq<string>, adds: seq<GqlField>, k: string)
    requires FindObjectField(fields, path).Some?
    requires k in fields && k != path[0]
    ensures AddFieldsAt(fields, path, adds)[k] == fields[k]
  {
  }
}
