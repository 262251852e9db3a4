/** List filters (gql/filter.go): the filter argument's literal is decoded
    into a field path, an operation and an argument map; the operation is
    looked up in the registry of comparator constructors; and each list item
    is matched against the comparator. */
module Filter {
  import opened Results
  import opened Strings
  import opened Values
  import opened Numbers
  import opened Ast
  import opened Utils
  import opened Comparator

  const UnparsableFilter := "unable to parse filter argument"
  const UndefinedOperation := "filter Operation is undefined"
  const UnparsableInteger := "unable to determine value of integer"

  /** The values an argument literal can decode to: strings, ints and lists
      of those. */
  predicate Plain(v: Value) {
    match v
    case VStr(_) => true
    case VInt(n) => InIntRange(n)
    case VList(items) => forall i :: 0 <= i < |items| ==> Plain(items[i])
    case _ => false
  }

  /** `parseASTValue`: strings and ints (their text converted with Atoi) and
      lists of those, recursively; every other kind is an error naming it.
      A list fails with the error of its first failing item. */
  function ParseAstValue(v: AstValue): (r: Result<Value>)
    decreases v, 1, 0
    ensures r.Ok? ==> Plain(r.value)
    ensures v.AStr? ==> r == Ok(VStr(v.s))
    ensures v.AInt? ==> (r.Ok? <==> Atoi(v.raw).Some?)
    ensures v.AInt? && r.Ok? ==> r.value == VInt(Atoi(v.raw).value)
    ensures v.AInt? && r.Err? ==> r.msg == UnparsableInteger
    ensures v.AList? ==> (r.Ok? <==> forall i :: 0 <= i < |v.values| ==> ParseAstValue(v.values[i]).Ok?)
    ensures v.AList? && r.Ok? ==> r.value.VList? && |r.value.items| == |v.values|
    ensures !(v.AStr? || v.AInt? || v.AList?) ==> r == Err("unhandled AST value type " + Quote(KindName(v)))
  {
    match v
    case AStr(s) => Ok(VStr(s))
    case AInt(raw) =>
      (match Atoi(raw)
       case Some(n) => Ok(VInt(n))
       case None => Err(UnparsableInteger))
    case AList(values) =>
      var items :- ParseItems(v, 0);
      Ok(VList(items))
    case _ => Err("unhandled AST value type " + Quote(KindName(v)))
  }

  /** The items of a list literal from index `i` on. */
  function ParseItems(v: AstValue, i: nat): (r: Result<seq<Value>>)
    requires v.AList? && i <= |v.values|
    decreases v, 0, |v.values| - i
    ensures r.Ok? <==> forall j :: i <= j < |v.values| ==> ParseAstValue(v.values[j]).Ok?
    ensures r.Ok? ==> |r.value| == |v.values| - i
    ensures r.Ok? ==> forall j :: 0 <= j < |r.value| ==> Plain(r.value[j])
    ensures r.Ok? ==> forall j :: i <= j < |v.values| ==> r.value[j - i] == ParseAstValue(v.values[j]).value
  {
    if i == |v.values| then Ok([])
    else
      var x :- ParseAstValue(v.values[i]);
      var rest :- ParseItems(v, i + 1);
      Ok([x] + rest)
  }

  /** The literal a decoded argument value is written as. */
  function ToAst(v: Value): AstValue
    requires Plain(v)
  {
    match v
    case VStr(s) => AStr(s)
    case VInt(n) => AInt(IntToString(n))
    case VList(items) => AList(seq(|items|, i requires 0 <= i < |items| => ToAst(items[i])))
  }

  /** Decoding the literal of a decodable value gives the value back. */
  lemma {:induction false} ParseToAst(v: Value)
    requires Plain(v)
    ensures ParseAstValue(ToAst(v)) == Ok(v)
  {
    match v
    case VStr(_) =>
    case VInt(n) => AtoiIntToString(n);
    case VList(items) =>
      var a := ToAst(v);
      forall i | 0 <= i < |items|
        ensures ParseAstValue(a.values[i]) == Ok(items[i])
      {
        ParseToAst(items[i]);
      }
      var r := ParseItems(a, 0);
      assert r.value == items;
  }

  /** The decoded filter literal, `listFilterJSON`.  An absent Argument is an
      empty map, which every lookup treats as Go treats a nil map. */
  datatype ListFilterJson = ListFilterJson(field: string, operation: string, argument: map<string, Value>)

  /** The Argument object's entries, decoded; the first entry that does not
      decode is the error. */
  function ParseArgument(afs: seq<ObjectField>): (r: Result<map<string, Value>>)
    decreases |afs|
    ensures r.Ok? <==> forall i :: 0 <= i < |afs| ==> ParseAstValue(afs[i].value).Ok?
  {
    if |afs| == 0 then Ok(map[])
    else
      var front := afs[..|afs| - 1];
      var last := afs[|afs| - 1];
      assert forall i :: 0 <= i < |front| ==> front[i] == afs[i];
      var m :- ParseArgument(front);
      match ParseAstValue(last.value)
      case Err(e) => Err("unable to parse filter -> Argument -> " + last.name + ": " + e)
      case Ok(x) => Ok(m[last.name := x])
  }

  /** The decoded Argument has one key per entry name. */
  lemma {:induction false} ParseArgumentKeys(afs: seq<ObjectField>)
    requires ParseArgument(afs).Ok?
    ensures forall k :: k in ParseArgument(afs).value <==> exists i :: 0 <= i < |afs| && afs[i].name == k
    decreases |afs|
  {
    if |afs| > 0 {
      var n := |afs|;
      var front := afs[..n - 1];
      var last := afs[n - 1];
      ParseArgumentKeys(front);
      var m := ParseArgument(front).value;
      var r := ParseArgument(afs).value;
      assert r.Keys == m.Keys + {last.name};
      forall k
        ensures k in r <==> exists i :: 0 <= i < n && afs[i].name == k
      {
        if k in m {
          var i :| 0 <= i < |front| && front[i].name == k;
          assert afs[i].name == k;
        }
        if exists i :: 0 <= i < n && afs[i].name == k {
          var i :| 0 <= i < n && afs[i].name == k;
          if i < n - 1 {
            assert front[i].name == k;
          }
        }
      }
    }
  }

  /** Each key holds the value of the last entry of that name. */
  lemma {:induction false} ParseArgumentLastWins(afs: seq<ObjectField>, i: nat)
    requires ParseArgument(afs).Ok?
    requires i < |afs| && IsLast(afs, i, afs[i].name)
    ensures afs[i].name in ParseArgument(afs).value
    ensures ParseArgument(afs).value[afs[i].name] == ParseAstValue(afs[i].value).value
    decreases |afs|
  {
    var n := |afs|;
    var front := afs[..n - 1];
    var last := afs[n - 1];
    var m := ParseArgument(front).value;
    assert ParseArgument(afs).value == m[last.name := ParseAstValue(last.value).value];
    if i < n - 1 {
      assert front[i] == afs[i];
      assert IsLast(front, i, front[i].name);
      ParseArgumentLastWins(front, i);
    }
  }

  /** An entry of the filter literal that decodes: Field and Operation must be
      string literals and Argument an object literal whose entries decode;
      every other entry is ignored. */
  predicate EntryDecodes(f: ObjectField) {
    && (f.name == "Field" ==> f.value.AStr?)
    && (f.name == "Operation" ==> f.value.AStr?)
    && (f.name == "Argument" ==> f.value.AObject? && ParseArgument(f.value.fields).Ok?)
  }

  /** One step of the loop of `newListFilterJSON`. */
  function DecodeEntry(lf: ListFilterJson, f: ObjectField): Result<ListFilterJson> {
    if f.name == "Field" then
      if f.value.AStr? then Ok(lf.(field := f.value.s)) else Err("unable to parse filter argument field Field")
    else if f.name == "Operation" then
      if f.value.AStr? then Ok(lf.(operation := f.value.s)) else Err("unable to parse filter argument field Operation")
    else if f.name == "Argument" then
      if f.value.AObject? then
        var m :- ParseArgument(f.value.fields);
        Ok(lf.(argument := m))
      else Err("unable to parse filter argument field Argument")
    else Ok(lf)
  }

  /** `newListFilterJSON`: the entries in order; the first entry that does not
      decode is the error. */
  function NewListFilterJson(fields: seq<ObjectField>): (r: Result<ListFilterJson>)
    decreases |fields|
    ensures r.Ok? <==> forall i :: 0 <= i < |fields| ==> EntryDecodes(fields[i])
  {
    if |fields| == 0 then Ok(ListFilterJson("", "", map[]))
    else
      var front := fields[..|fields| - 1];
      assert forall i :: 0 <= i < |front| ==> front[i] == fields[i];
      var lf :- NewListFilterJson(front);
      DecodeEntry(lf, fields[|fields| - 1])
  }

  /** For each known name the last entry of that name wins. */
  lemma {:induction false} NewListFilterJsonLastWins(fields: seq<ObjectField>, i: nat)
    requires NewListFilterJson(fields).Ok?
    requires i < |fields| && IsLast(fields, i, fields[i].name)
    ensures var lf := NewListFilterJson(fields).value;
            && (fields[i].name == "Operation" ==> lf.operation == fields[i].value.s)
            && (fields[i].name == "Field" ==> lf.field == fields[i].value.s)
            && (fields[i].name == "Argument" ==> lf.argument == ParseArgument(fields[i].value.fields).value)
    decreases |fields|
  {
    var n := |fields|;
    if i < n - 1 {
      var front := fields[..n - 1];
      assert front[i] == fields[i];
      assert IsLast(front, i, front[i].name);
      NewListFilterJsonLastWins(front, i);
    }
  }

  /** A known name with no entry leaves its part empty. */
  lemma {:induction false} NewListFilterJsonAbsent(fields: seq<ObjectField>)
    requires NewListFilterJson(fields).Ok?
    ensures var lf := NewListFilterJson(fields).value;
            && (NoEntry(fields, "Operation") ==> lf.operation == "")
            && (NoEntry(fields, "Field") ==> lf.field == "")
            && (NoEntry(fields, "Argument") ==> lf.argument == map[])
    decreases |fields|
  {
    if |fields| > 0 {
      var front := fields[..|fields| - 1];
      NewListFilterJsonAbsent(front);
      assert forall key :: NoEntry(fields, key) ==> NoEntry(front, key);
    }
  }

  /** An entry with any other name changes nothing. */
  lemma OtherEntriesIgnored(fields: seq<ObjectField>, f: ObjectField)
    requires f.name != "Field" && f.name != "Operation" && f.name != "Argument"
    ensures NewListFilterJson(fields + [f]) == NewListFilterJson(fields)
  {
    assert (fields + [f])[..|fields|] == fields;
  }

  /** The constructors the registry holds. */
  datatype Operation = OpEqual | OpNotEqual | OpInteger(op: IntOp) | OpLimit | OpIn | OpNotIn

  /** `ListOperations`, the registry of filter operations. */
  const ListOperations: map<string, Operation> := map[
    "==" := OpEqual,
    "!=" := OpNotEqual,
    ">" := OpInteger(Gt),
    ">=" := OpInteger(Ge),
    "<" := OpInteger(Lt),
    "<=" := OpInteger(Le),
    "LIMIT" := OpLimit,
    "IN" := OpIn,
    "NOT IN" := OpNotIn
  ]

  /** Calling a registered constructor on an argument map. */
  function NewOperation(op: Operation, arg: map<string, Value>): Result<Comparator> {
    match op
    case OpEqual => NewEqual(arg)
    case OpNotEqual => NewNotEqual(arg)
    case OpInteger(o) => NewIntegerComparison(o, arg)
    case OpLimit => NewLimitLength(arg)
    case OpIn => NewIn(arg)
    case OpNotIn => NewNotIn(arg)
  }

  /** The integer entries are the ones `NewIntegerComparator` accepts, each
      under its own symbol. */
  lemma RegistryIntegerOps(key: string)
    ensures key in ListOperations && ListOperations[key].OpInteger? <==> IntegerOp(key).Ok?
    ensures IntegerOp(key).Ok? ==> ListOperations[key] == OpInteger(IntegerOp(key).value)
  {
  }

  /** A decoded filter: the field path, the comparator and the literal. */
  datatype ListFilter = ListFilter(fieldName: string, op: Comparator, json: ListFilterJson)

  /** `newListFilter`.  The argument is the literal's value: None when the
      query gives no filter, and the entries of an object literal otherwise;
      any other literal cannot be a filter. */
  function NewListFilter(arg: Option<AstValue>): (r: Result<Option<ListFilter>>)
    ensures arg.None? <==> r == Ok(None)
    ensures arg.Some? && !arg.value.AObject? ==> r == Err(UnparsableFilter)
    ensures arg.Some? && arg.value.AObject? && NewListFilterJson(arg.value.fields).Err? ==> r == NewListFilterJson(arg.value.fields).PropagateFailure()
    ensures arg.Some? && arg.value.AObject? && NewListFilterJson(arg.value.fields).Ok? ==>
              var lf := NewListFilterJson(arg.value.fields).value;
              && (lf.operation == "" ==> r == Err(UndefinedOperation))
              && (lf.operation != "" && lf.operation !in ListOperations ==> r == Err("unknown filter operator " + Quote(lf.operation)))
              && (lf.operation in ListOperations ==>
                    var c := NewOperation(ListOperations[lf.operation], lf.argument);
                    (c.Err? ==> r == Err(c.msg)) && (c.Ok? ==> r == Ok(Some(ListFilter(lf.field, c.value, lf)))))
  {
    match arg
    case None => Ok(None)
    case Some(AObject(fields)) =>
      var lf :- NewListFilterJson(fields);
      if lf.operation == "" then Err(UndefinedOperation)
      else if lf.operation !in ListOperations then Err("unknown filter operator " + Quote(lf.operation))
      else
        var c :- NewOperation(ListOperations[lf.operation], lf.argument);
        Ok(Some(ListFilter(lf.field, c, lf)))
    case Some(_) => Err(UnparsableFilter)
  }

  /** An `==` filter on a field path matches exactly the items whose value at
      that path equals the decoded argument. */
  lemma EqualFilterMatches(field: string, value: AstValue, item: Value)
    requires field != "" && ParseAstValue(value).Ok? && (value.AStr? || value.AInt?)
    ensures var r := NewListFilter(Some(AObject(EqualFilterLiteral(field, value))));
            && r.Ok? && r.value.Some?
            && (MatchOperand(field, item).Ok? ==>
                  (Match(r.value.value.op, MatchOperand(field, item).value).0
                   <==> DeepExtractField(item, field) == ParseAstValue(value).value))
  {
    EqualFilterDecodes(field, value);
    var lf := NewListFilterJson(EqualFilterLiteral(field, value)).value;
    assert "==" in ListOperations && ListOperations["=="] == OpEqual;
    var c := NewOperation(OpEqual, lf.argument);
    assert c.Ok?;
  }

  /** The literal of an `==` filter decodes to its field, operation and
      argument. */
  lemma EqualFilterDecodes(field: string, value: AstValue)
    requires ParseAstValue(value).Ok?
    ensures var r := NewListFilterJson(EqualFilterLiteral(field, value));
            && r.Ok? && r.value.operation == "==" && r.value.field == field
            && "Value" in r.value.argument && r.value.argument["Value"] == ParseAstValue(value).value
  {
    var fields := EqualFilterLiteral(field, value);
    var afs := [ObjectField("Value", value)];
    assert ParseArgument(afs).Ok?;
    ParseArgumentLastWins(afs, 0);
    assert IsLast(afs, 0, "Value");
    assert forall i :: 0 <= i < |fields| ==> EntryDecodes(fields[i]);
    assert IsLast(fields, 0, "Field") && IsLast(fields, 1, "Operation") && IsLast(fields, 2, "Argument");
    NewListFilterJsonLastWins(fields, 0);
    NewListFilterJsonLastWins(fields, 1);
    NewListFilterJsonLastWins(fields, 2);
  }

  /** The literal {Field: field, Operation: "==", Argument: {Value: value}}. */
  function EqualFilterLiteral(field: string, value: AstValue): seq<ObjectField> {
    [ObjectField("Field", AStr(field)), ObjectField("Operation", AStr("==")),
     ObjectField("Argument", AObject([ObjectField("Value", value)]))]
  }

  /** The operand a filter hands its comparator: nil when there is no field
      path, otherwise the value at that path. */
  function MatchOperand(field: string, raw: Value): (r: Result<Value>)
    ensures field == "" ==> r == Ok(VNil)
    ensures field != "" ==> (r.Err? <==> ExtractField(raw, Split(field, FieldPathSeparator)[0]) == VNil)
    ensures field != "" && r.Ok? ==> r.value == DeepExtractField(raw, field)
  {
    if field == "" then Ok(VNil) else DeepExtractFieldWithError(raw, field)
  }

  /** `listFilter.match`: the verdict and the filter to use for the next item.
      Without a field path the comparator sees nil and nothing is extracted;
      with one, a missing first segment is an error, not a non-match. */
  function ListFilterMatch(lf: ListFilter, raw: Value): (r: Result<(bool, ListFilter)>)
    ensures lf.fieldName == "" ==> r.Ok? && r.value.0 == Match(lf.op, VNil).0
    ensures lf.fieldName != "" ==> (r.Err? <==> ExtractField(raw, Split(lf.fieldName, FieldPathSeparator)[0]) == VNil)
    ensures lf.fieldName != "" && r.Ok? ==> r.value.0 == Match(lf.op, DeepExtractField(raw, lf.fieldName)).0
    ensures r.Ok? ==> r.value.1 == lf.(op := Match(lf.op, MatchOperand(lf.fieldName, raw).value).1)
  {
    var operand :- MatchOperand(lf.fieldName, raw);
    var (b, next) := Match(lf.op, operand);
    Ok((b, lf.(op := next)))
  }

  /** The items whose verdict is true, in order. */
  function Select(items: seq<Value>, verdicts: seq<bool>): (r: seq<Value>)
    requires |verdicts| == |items|
    ensures |r| <= |items|
    ensures forall x :: x in r ==> x in items
    decreases |items|
  {
    if |items| == 0 then []
    else (if verdicts[0] then [items[0]] else []) + Select(items[1..], verdicts[1..])
  }

  /** Every item's operand, or the first item's error. */
  function Operands(field: string, items: seq<Value>): (r: Result<seq<Value>>)
    ensures r.Ok? <==> forall i :: 0 <= i < |items| ==> MatchOperand(field, items[i]).Ok?
    ensures r.Ok? ==> |r.value| == |items| && forall i :: 0 <= i < |items| ==> r.value[i] == MatchOperand(field, items[i]).value
    decreases |items|
  {
    if |items| == 0 then Ok([])
    else
      var x :- MatchOperand(field, items[0]);
      var rest :- Operands(field, items[1..]);
      Ok([x] + rest)
  }

  /** The filter loop of ResolveListField without its error wrapping: the
      matching items in order, one comparator threaded through. */
  function FilterItems(lf: ListFilter, items: seq<Value>): (r: Result<seq<Value>>)
    ensures r.Ok? ==> |r.value| <= |items| && forall x :: x in r.value ==> x in items
    decreases |items|
  {
    if |items| == 0 then Ok([])
    else
      var (b, next) :- ListFilterMatch(lf, items[0]);
      var rest :- FilterItems(next, items[1..]);
      Ok((if b then [items[0]] else []) + rest)
  }

  /** Filtering keeps exactly the items whose successive Match calls say
      true, and fails exactly when some item's operand cannot be extracted,
      with the error of the first such item. */
  lemma {:induction false} FilterItemsSelects(lf: ListFilter, items: seq<Value>)
    ensures FilterItems(lf, items).Ok? <==> Operands(lf.fieldName, items).Ok?
    ensures FilterItems(lf, items).Ok? ==> FilterItems(lf, items).value == Select(items, Run(lf.op, Operands(lf.fieldName, items).value))
    ensures FilterItems(lf, items).Err? ==>
              exists i :: 0 <= i < |items| && MatchOperand(lf.fieldName, items[i]).Err? && FilterItems(lf, items).msg == MatchOperand(lf.fieldName, items[i]).msg
    decreases |items|
  {
    if |items| > 0 {
      var m := ListFilterMatch(lf, items[0]);
      if m.Ok? {
        var next := m.value.1;
        FilterItemsSelects(next, items[1..]);
        assert next.fieldName == lf.fieldName;
        if FilterItems(lf, items).Err? {
          var i :| 0 <= i < |items[1..]| && MatchOperand(lf.fieldName, items[1..][i]).Err? && FilterItems(next, items[1..]).msg == MatchOperand(lf.fieldName, items[1..][i]).msg;
          assert items[1..][i] == items[i + 1];
        }
        if Operands(lf.fieldName, items).Ok? {
          var ops := Operands(lf.fieldName, items).value;
          assert ops[1..] == Operands(lf.fieldName, items[1..]).value;
          assert items[1..] == items[1..];
        }
      }
    }
  }

  /** A LIMIT filter without a field path keeps the first `limit` items. */
  lemma {:induction false} LimitFilterKeepsPrefix(lf: ListFilter, items: seq<Value>)
    requires lf.fieldName == "" && lf.op.LimitLength?
    ensures FilterItems(lf, items).Ok?
    ensures var k := lf.op.limit - lf.op.count;
            FilterItems(lf, items).value == items[..if k < 0 then 0 else if k > |items| then |items| else k]
    decreases |items|
  {
    if |items| > 0 {
      var next := lf.(op := LimitLength(lf.op.limit, lf.op.count + 1));
      LimitFilterKeepsPrefix(next, items[1..]);
      var k := lf.op.limit - lf.op.count;
      if k >= 1 {
        var n := if k > |items| then |items| else k;
        assert items[..n] == [items[0]] + items[1..][..n - 1];
      }
    }
  }
}
