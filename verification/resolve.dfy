/** The field resolvers the builder attaches to generated fields
    (gql/builder.go: ResolveByField, ResolveTotalCount, ResolveListField).
    A resolver's source is the object the parent field resolved to; the
    query's `filter` and `sort` arguments arrive as literals, None when the
    query leaves them out. */
module Resolve {
  import opened Results
  import opened Strings
  import opened Values
  import opened Utils
  import opened Ast
  import opened Comparator
  import opened Filter
  import opened Sort

  const NotAValidList := "field value is not a valid list in the data"
  const HydratedNote := ". Note: filtering and sorting is not available on hydrated items"

  /** `ResolveByField`: the named field of the source; a missing or nil
      field is an error naming the field. */
  function ResolveByField(source: Value, name: string): (r: Result<Value>)
    ensures r.Err? <==> ExtractField(source, name) == VNil
    ensures r.Err? ==> r.msg == "failed to extract field " + Quote(name) + " value from data"
    ensures r.Ok? ==> r.value == ExtractField(source, name) && r.value != VNil
  {
    var field := ExtractField(source, name);
    if field == VNil then Err("failed to extract field " + Quote(name) + " value from data") else Ok(field)
  }

  /** A record whose first field of that external name holds a value
      resolves to that value. */
  lemma ResolveByFieldDirect(fields: seq<FieldVal>, name: string, i: nat)
    requires i < |fields| && IsDirect(fields[i], name) && NoDirectBefore(fields, name, i)
    requires fields[i].value != VNil
    ensures ResolveByField(VRec(fields), name) == Ok(fields[i].value)
  {
    FirstDirectFinds(fields, name, 0, i);
  }

  lemma {:induction false} FirstDirectFinds(fs: seq<FieldVal>, key: string, j: nat, i: nat)
    requires j <= i < |fs| && IsDirect(fs[i], key) && NoDirectBefore(fs, key, i)
    ensures FirstDirect(fs, key, j) == Some(i)
    decreases i - j
  {
    if j < i {
      assert !IsDirect(fs[j], key);
      FirstDirectFinds(fs, key, j + 1, i);
    }
  }

  /** `ResolveTotalCount`: the length of the named list, 0 when the field is
      absent, an error when it holds something other than a list. */
  function ResolveTotalCount(source: Value, listName: string): (r: Result<nat>)
    ensures ExtractField(source, listName) == VNil ==> r == Ok(0)
    ensures r.Err? <==> ExtractField(source, listName) != VNil && !ExtractField(source, listName).VList?
    ensures r.Err? ==> r.msg == NotAValidList
    ensures ExtractField(source, listName).VList? ==> r == Ok(|ExtractField(source, listName).items|)
  {
    match ExtractField(source, listName)
    case VNil => Ok(0)
    case VList(items) => Ok(|items|)
    case _ => Err(NotAValidList)
  }

  /** `ResolveListField`.  The filter and the sort argument are decoded
      first, then the field is resolved.  Without either argument the value
      is returned as it is; otherwise it must be a list, which is sorted
      first and then filtered, since a LIMIT filter depends on the order. */
  function ResolveListField(source: Value, name: string, parent: string,
                            filterArg: Option<AstValue>, sortArg: Option<AstValue>): (r: Result<Value>)
    ensures NewListFilter(filterArg).Err? ==> r == NewListFilter(filterArg).PropagateFailure()
    ensures NewListFilter(filterArg).Ok? && ParseSortParameters(sortArg).Err? ==> r == ParseSortParameters(sortArg).PropagateFailure()
    ensures filterArg.None? && sortArg.None? ==> r == ResolveByField(source, name)
    ensures r.Ok? && (filterArg.Some? || sortArg.Some?) ==> r.value.VList?
    ensures NewListFilter(filterArg).Ok? && ParseSortParameters(sortArg).Ok? && (filterArg.Some? || sortArg.Some?)
            && ResolveByField(source, name).Ok? && !ResolveByField(source, name).value.VList? ==>
              r == Err("value returned from field " + Quote(FullFieldName(name, parent)) + " is not a list as expected")
  {
    var filter :- NewListFilter(filterArg);
    var sortParams :- ParseSortParameters(sortArg);
    var resolved :- ResolveByField(source, name);
    ApplyListArgs(filter, sortParams, resolved, FullFieldName(name, parent))
  }

  /** The decoded arguments applied to the resolved value of the field named
      `fullName`: the value as it is without either, otherwise its list
      sorted and then filtered, which keeps only items of the list. */
  function ApplyListArgs(filter: Option<ListFilter>, sp: Option<SortParameters>, resolved: Value, fullName: string): (r: Result<Value>)
    ensures filter.None? && sp.None? ==> r == Ok(resolved)
    ensures r.Ok? && (filter.Some? || sp.Some?) ==> r.value.VList?
    ensures (filter.Some? || sp.Some?) && !resolved.VList? ==>
              r == Err("value returned from field " + Quote(fullName) + " is not a list as expected")
    ensures r.Ok? && resolved.VList? ==>
              && r.value.VList? && |r.value.items| <= |resolved.items|
              && forall x :: x in r.value.items ==> x in resolved.items
  {
    if filter.None? && sp.None? then Ok(resolved)
    else if !resolved.VList? then
      Err("value returned from field " + Quote(fullName) + " is not a list as expected")
    else
      var sorted :- SortedItems(resolved.items, sp);
      SortedWithin(resolved.items, sp);
      if filter.None? then Ok(VList(sorted))
      else
        match FilterItems(filter.value, sorted)
        case Err(e) => Err(e + HydratedNote)
        case Ok(kept) => Ok(VList(kept))
  }

  /** The field's list after the sort argument, if any, was applied. */
  function SortedItems(items: seq<Value>, sp: Option<SortParameters>): Result<seq<Value>> {
    if sp.Some? then ListSort(sp.value, items) else Ok(items)
  }

  /** Sorting happens before filtering: with a filter, the result keeps the
      items of the sorted list whose successive comparator calls say true,
      and a filter error carries the hydration note. */
  lemma SortThenFilter(source: Value, name: string, parent: string, filterArg: Option<AstValue>, sortArg: Option<AstValue>)
    requires NewListFilter(filterArg).Ok? && NewListFilter(filterArg).value.Some?
    requires ParseSortParameters(sortArg).Ok? && ExtractField(source, name).VList?
    ensures var lf := NewListFilter(filterArg).value.value;
            var sorted := SortedItems(ExtractField(source, name).items, ParseSortParameters(sortArg).value);
            var r := ResolveListField(source, name, parent, filterArg, sortArg);
            && (sorted.Err? ==> r == sorted.PropagateFailure())
            && (sorted.Ok? && FilterItems(lf, sorted.value).Err? ==> r == Err(FilterItems(lf, sorted.value).msg + HydratedNote))
            && (sorted.Ok? ==> (r.Ok? <==> Operands(lf.fieldName, sorted.value).Ok?))
            && (sorted.Ok? && Operands(lf.fieldName, sorted.value).Ok? ==>
                  r == Ok(VList(Select(sorted.value, Run(lf.op, Operands(lf.fieldName, sorted.value).value)))))
  {
    var lf := NewListFilter(filterArg).value.value;
    var sorted := SortedItems(ExtractField(source, name).items, ParseSortParameters(sortArg).value);
    if sorted.Ok? {
      FilterItemsSelects(lf, sorted.value);
    }
  }

  /** With a sort argument and no filter, the result is the sorted list. */
  lemma SortOnly(source: Value, name: string, parent: string, sortArg: Option<AstValue>)
    requires sortArg.Some? && ParseSortParameters(sortArg).Ok? && ExtractField(source, name).VList?
    ensures ParseSortParameters(sortArg).value.Some?
    ensures var sorted := ListSort(ParseSortParameters(sortArg).value.value, ExtractField(source, name).items);
            var r := ResolveListField(source, name, parent, None, sortArg);
            && (sorted.Err? ==> r == sorted.PropagateFailure())
            && (sorted.Ok? ==> r == Ok(VList(sorted.value)))
  {
  }

  /** A LIMIT filter without a field path, applied after the sort, keeps the
      first `limit` items of the sorted list. */
  lemma LimitAfterSort(source: Value, name: string, parent: string, filterArg: Option<AstValue>, sortArg: Option<AstValue>)
    requires NewListFilter(filterArg).Ok? && NewListFilter(filterArg).value.Some?
    requires NewListFilter(filterArg).value.value.fieldName == ""
    requires NewListFilter(filterArg).value.value.op.LimitLength?
    requires ParseSortParameters(sortArg).Ok? && ExtractField(source, name).VList?
    requires SortedItems(ExtractField(source, name).items, ParseSortParameters(sortArg).value).Ok?
    ensures var op := NewListFilter(filterArg).value.value.op;
            var sorted := SortedItems(ExtractField(source, name).items, ParseSortParameters(sortArg).value).value;
            var k := op.limit - op.count;
            ResolveListField(source, name, parent, filterArg, sortArg) ==
              Ok(VList(sorted[..if k < 0 then 0 else if k > |sorted| then |sorted| else k]))
  {
    var lf := NewListFilter(filterArg).value.value;
    var sorted := SortedItems(ExtractField(source, name).items, ParseSortParameters(sortArg).value).value;
    LimitFilterKeepsPrefix(lf, sorted);
  }

  /** A list field never resolves to more items than its count sibling
      reports, and only to items of the field's list. */
  lemma ListFieldWithinTotal(source: Value, name: string, parent: string, filterArg: Option<AstValue>, sortArg: Option<AstValue>)
    requires ResolveListField(source, name, parent, filterArg, sortArg).Ok?
    requires ResolveListField(source, name, parent, filterArg, sortArg).value.VList?
    ensures var items := ResolveListField(source, name, parent, filterArg, sortArg).value.items;
            && ResolveTotalCount(source, name).Ok?
            && |items| <= ResolveTotalCount(source, name).value
            && forall x :: x in items ==> x in ExtractField(source, name).items
  {
    var filter := NewListFilter(filterArg).value;
    var sp := ParseSortParameters(sortArg).value;
    var resolved := ResolveByField(source, name).value;
    assert ResolveListField(source, name, parent, filterArg, sortArg) == ApplyListArgs(filter, sp, resolved, FullFieldName(name, parent));
  }

  /** Sorting keeps the list's items. */
  lemma SortedWithin(items: seq<Value>, sp: Option<SortParameters>)
    requires SortedItems(items, sp).Ok?
    ensures |SortedItems(items, sp).value| == |items|
    ensures forall x :: x in SortedItems(items, sp).value ==> x in items
  {
    var sorted := SortedItems(items, sp).value;
    assert multiset(sorted) == multiset(items);
    forall x | x in sorted ensures x in items {
      assert x in multiset(sorted);
    }
  }
}
