/** List sorting (gql/sort.go): the sort argument's literal is decoded into a
    field path and an order, and a list is sorted stably by the value at that
    path in each item.  The kind of the first item's key decides the
    comparison; an item whose key cannot be found or has another kind makes
    the sort fail. */
module Sort {
  import opened Results
  import opened Strings
  import opened Values
  import opened Ast
  import opened Utils

  const Ascending := "ASC"
  const Descending := "DESC"
  const BadOrder := "sort order must be \"ASC\" or \"DESC\" or undefined"

  /** `sortParameters`: the field path ("" for the items themselves) and the
      order ("ASC", "DESC" or "" for ascending). */
  datatype SortParameters = SortParameters(field: string, order: string)

  /** An entry of the sort literal that decodes: Field must be a string
      literal and Order one of the three order strings; every other entry is
      ignored. */
  predicate SortEntryDecodes(f: ObjectField) {
    && (f.name == "Field" ==> f.value.AStr?)
    && (f.name == "Order" ==> f.value.AStr? && f.value.s in {Ascending, Descending, ""})
  }

  /** One step of the loop of `parseSortParameters`. */
  function DecodeSortEntry(p: SortParameters, f: ObjectField): Result<SortParameters> {
    if f.name == "Field" then
      if f.value.AStr? then Ok(p.(field := f.value.s)) else Err("unable to parse sort argument field Field")
    else if f.name == "Order" then
      if !f.value.AStr? then Err("unable to parse sort argument field Order")
      else if f.value.s in {Ascending, Descending, ""} then Ok(p.(order := f.value.s))
      else Err(BadOrder)
    else Ok(p)
  }

  /** The entries of the sort literal in order; the first that does not
      decode is the error. */
  function DecodeSortFields(fields: seq<ObjectField>): (r: Result<SortParameters>)
    decreases |fields|
    ensures r.Ok? <==> forall i :: 0 <= i < |fields| ==> SortEntryDecodes(fields[i])
    ensures r.Ok? ==> r.value.order in {Ascending, Descending, ""}
  {
    if |fields| == 0 then Ok(SortParameters("", ""))
    else
      var front := fields[..|fields| - 1];
      assert forall i :: 0 <= i < |front| ==> front[i] == fields[i];
      var p :- DecodeSortFields(front);
      DecodeSortEntry(p, fields[|fields| - 1])
  }

  /** `parseSortParameters`: None when the query gives no sort; the literal
      must be an object. */
  function ParseSortParameters(arg: Option<AstValue>): (r: Result<Option<SortParameters>>)
    ensures arg.None? <==> r == Ok(None)
    ensures arg.Some? && !arg.value.AObject? ==> r == Err("unable to parse sort argument")
    ensures arg.Some? && arg.value.AObject? ==>
              (r.Ok? <==> forall i :: 0 <= i < |arg.value.fields| ==> SortEntryDecodes(arg.value.fields[i]))
    ensures r.Ok? && r.value.Some? ==> r.value.value.order in {Ascending, Descending, ""}
  {
    match arg
    case None => Ok(None)
    case Some(AObject(fields)) =>
      var p :- DecodeSortFields(fields);
      Ok(Some(p))
    case Some(_) => Err("unable to parse sort argument")
  }

  /** The last Field and Order entries win, and absent ones leave "". */
  lemma {:induction false} SortFieldsLastWins(fields: seq<ObjectField>, i: nat)
    requires DecodeSortFields(fields).Ok?
    requires i < |fields| && IsLast(fields, i, fields[i].name)
    ensures fields[i].name == "Field" ==> DecodeSortFields(fields).value.field == fields[i].value.s
    ensures fields[i].name == "Order" ==> DecodeSortFields(fields).value.order == fields[i].value.s
    decreases |fields|
  {
    var n := |fields|;
    if i < n - 1 {
      var front := fields[..n - 1];
      assert front[i] == fields[i];
      assert IsLast(front, i, front[i].name);
      SortFieldsLastWins(front, i);
    }
  }

  lemma {:induction false} SortFieldsAbsent(fields: seq<ObjectField>)
    requires DecodeSortFields(fields).Ok?
    ensures NoEntry(fields, "Field") ==> DecodeSortFields(fields).value.field == ""
    ensures NoEntry(fields, "Order") ==> DecodeSortFields(fields).value.order == ""
    decreases |fields|
  {
    if |fields| > 0 {
      var front := fields[..|fields| - 1];
      SortFieldsAbsent(front);
      assert forall key :: NoEntry(fields, key) ==> NoEntry(front, key);
    }
  }

  /** The key kinds a sort accepts. */
  datatype KeyKind = KInt | KInt64 | KString | KFloat

  function KindOf(v: Value): Option<KeyKind> {
    match v
    case VInt(_) => Some(KInt)
    case VInt64(_) => Some(KInt64)
    case VStr(_) => Some(KString)
    case VFloat(_) => Some(KFloat)
    case _ => None
  }

  function KindTypeName(k: KeyKind): string {
    match k
    case KInt => "int"
    case KInt64 => "int64"
    case KString => "string"
    case KFloat => "float64"
  }

  /** The dynamic type Go names in a failed type assertion; struct and slice
      values are named by their kind only. */
  function GoTypeName(v: Value): string {
    match v
    case VNil => "nil"
    case VBool(_) => "bool"
    case VInt(_) => "int"
    case VInt64(_) => "int64"
    case VFloat(_) => "float64"
    case VStr(_) => "string"
    case VList(_) => "[]interface {}"
    case VRec(_) => "struct"
  }

  /** Go's `<` on two keys of the same kind. */
  predicate KeyLess(a: Value, b: Value) {
    match (a, b)
    case (VInt(x), VInt(y)) => x < y
    case (VInt64(x), VInt64(y)) => x < y
    case (VStr(x), VStr(y)) => StrLess(x, y)
    case (VFloat(x), VFloat(y)) => x < y
    case _ => false
  }

  /** On keys of one kind `<` is a strict total order. */
  lemma KeyLessTotalOrder(a: Value, b: Value, c: Value)
    requires KindOf(a).Some? && KindOf(a) == KindOf(b) && KindOf(b) == KindOf(c)
    ensures !KeyLess(a, a)
    ensures KeyLess(a, b) && KeyLess(b, c) ==> KeyLess(a, c)
    ensures a == b || KeyLess(a, b) || KeyLess(b, a)
    ensures !(KeyLess(a, b) && KeyLess(b, a))
  {
    if a.VStr? {
      StrLessIrreflexive(a.s);
      StrLessTotal(a.s, b.s);
      if KeyLess(a, b) && KeyLess(b, c) {
        StrLessTransitive(a.s, b.s, c.s);
      }
      if KeyLess(a, b) && KeyLess(b, a) {
        StrLessTransitive(a.s, b.s, a.s);
      }
    }
  }

  /** The sort key of an item: the item itself for an empty path, otherwise
      the deep lookup, whose error the sort reports. */
  function KeyOf(field: string, item: Value): Result<Value> {
    if field == "" then Ok(item) else DeepExtractFieldWithError(item, field)
  }

  /** The message of the panic the less function raises on a bad key,
      recovered and prefixed "failed to sort: ". */
  function BadKeyMessage(field: string, kind: KeyKind, item: Value): string
    requires KeyOf(field, item).Err? || KindOf(KeyOf(field, item).value) != Some(kind)
  {
    match KeyOf(field, item)
    case Err(e) => "failed to sort: " + e
    case Ok(k) => "failed to sort: interface conversion: interface {} is " + GoTypeName(k) + ", not " + KindTypeName(kind)
  }

  predicate GoodKey(field: string, kind: KeyKind, item: Value) {
    KeyOf(field, item).Ok? && KindOf(KeyOf(field, item).value) == Some(kind)
  }

  /** The keys of `list` from index `i` on, all of kind `kind`; otherwise the
      message for the first bad item. */
  function Keys(field: string, kind: KeyKind, list: seq<Value>, i: nat): (r: Result<seq<Value>>)
    requires i <= |list|
    decreases |list| - i
    ensures r.Ok? <==> forall j :: i <= j < |list| ==> GoodKey(field, kind, list[j])
    ensures r.Ok? ==> |r.value| == |list| - i && forall j :: i <= j < |list| ==> r.value[j - i] == KeyOf(field, list[j]).value
  {
    if i == |list| then Ok([])
    else if !GoodKey(field, kind, list[i]) then Err(BadKeyMessage(field, kind, list[i]))
    else
      match Keys(field, kind, list, i + 1)
      case Err(e) => Err(e)
      case Ok(rest) =>
        var r := [KeyOf(field, list[i]).value] + rest;
        assert forall k :: 1 <= k < |r| ==> r[k] == rest[k - 1];
        Ok(r)
  }

  /** A key check that fails reports the first bad item. */
  lemma {:induction false} KeysFirstBad(field: string, kind: KeyKind, list: seq<Value>, i: nat)
    requires i <= |list| && Keys(field, kind, list, i).Err?
    ensures exists j :: i <= j < |list| && !GoodKey(field, kind, list[j])
                        && (forall l :: i <= l < j ==> GoodKey(field, kind, list[l]))
                        && Keys(field, kind, list, i).msg == BadKeyMessage(field, kind, list[j])
    decreases |list| - i
  {
    if GoodKey(field, kind, list[i]) {
      KeysFirstBad(field, kind, list, i + 1);
      var j :| i + 1 <= j < |list| && !GoodKey(field, kind, list[j])
               && (forall l :: i + 1 <= l < j ==> GoodKey(field, kind, list[l]))
               && Keys(field, kind, list, i + 1).msg == BadKeyMessage(field, kind, list[j]);
      assert Keys(field, kind, list, i).msg == Keys(field, kind, list, i + 1).msg;
      assert forall l :: i <= l < j ==> GoodKey(field, kind, list[l]);
    } else {
      assert Keys(field, kind, list, i).msg == BadKeyMessage(field, kind, list[i]);
    }
  }

  /** sort.SliceStable insertion-sorts blocks of this many items before it
      merges them. */
  const StableBlock := 20

  /** The item whose key sort.SliceStable extracts first at slot `k` of an
      n-item list.  The blocks are insertion-sorted in turn.  In a block of
      two or more items the first comparison, less(a + 1, a), extracts item
      a + 1 before item a, and every later item i is first extracted as the
      left operand of less(i, i - 1).  A last block of one item is first
      compared by the merges, which come after every block, so it keeps the
      last slot. */
  function Slot(n: nat, k: nat): (r: nat)
    requires k < n
    ensures r < n
    ensures k < StableBlock ==> r < StableBlock
    decreases k
  {
    if k >= StableBlock then Slot(n - StableBlock, k - StableBlock) + StableBlock
    else if k < 2 && n >= 2 then 1 - k
    else k
  }

  /** Slot and item swap places: the slot order is a permutation. */
  lemma {:induction false} SlotInvolution(n: nat, k: nat)
    requires k < n
    ensures Slot(n, Slot(n, k)) == k
    decreases k
  {
    if k >= StableBlock {
      SlotInvolution(n - StableBlock, k - StableBlock);
    }
  }

  /** The items of an n-item list in the order Go's stable sort first
      extracts their keys: every item exactly once. */
  function CheckOrder(n: nat): (r: seq<nat>)
    ensures |r| == n
    ensures forall k :: 0 <= k < n ==> r[k] < n
    ensures forall j :: 0 <= j < n ==> j in r
  {
    var r := seq(n, k requires 0 <= k < n => Slot(n, k));
    assert forall j :: 0 <= j < n ==> j in r by {
      forall j | 0 <= j < n ensures j in r {
        SlotInvolution(n, j);
        assert r[Slot(n, j)] == j;
      }
    }
    r
  }

  /** The message of the first bad item in `order`, or None when every item
      the order names has a good key. */
  function FirstBadMessage(field: string, kind: KeyKind, list: seq<Value>, order: seq<nat>): (r: Option<string>)
    requires forall k :: 0 <= k < |order| ==> order[k] < |list|
    ensures r.None? <==> forall k :: 0 <= k < |order| ==> GoodKey(field, kind, list[order[k]])
    decreases |order|
  {
    if |order| == 0 then None
    else if !GoodKey(field, kind, list[order[0]]) then Some(BadKeyMessage(field, kind, list[order[0]]))
    else
      assert forall k :: 1 <= k < |order| ==> order[1..][k - 1] == order[k];
      FirstBadMessage(field, kind, list, order[1..])
  }

  /** The message names the first item of the order whose key is bad. */
  lemma {:induction false} FirstBadInOrder(field: string, kind: KeyKind, list: seq<Value>, order: seq<nat>)
    requires forall k :: 0 <= k < |order| ==> order[k] < |list|
    requires FirstBadMessage(field, kind, list, order).Some?
    ensures exists k :: 0 <= k < |order| && !GoodKey(field, kind, list[order[k]])
                        && (forall l :: 0 <= l < k ==> GoodKey(field, kind, list[order[l]]))
                        && FirstBadMessage(field, kind, list, order).value == BadKeyMessage(field, kind, list[order[k]])
    decreases |order|
  {
    if GoodKey(field, kind, list[order[0]]) {
      var rest := order[1..];
      FirstBadInOrder(field, kind, list, rest);
      var k :| 0 <= k < |rest| && !GoodKey(field, kind, list[rest[k]])
               && (forall l :: 0 <= l < k ==> GoodKey(field, kind, list[rest[l]]))
               && FirstBadMessage(field, kind, list, rest).value == BadKeyMessage(field, kind, list[rest[k]]);
      assert forall l :: 0 <= l < k + 1 ==> GoodKey(field, kind, list[order[l]]) by {
        forall l | 0 <= l < k + 1 ensures GoodKey(field, kind, list[order[l]]) {
          if l > 0 { assert order[l] == rest[l - 1]; }
        }
      }
      assert order[k + 1] == rest[k];
    } else {
      assert !GoodKey(field, kind, list[order[0]]);
    }
  }

  /** The first bad item of an order is found at the first slot holding a
      bad key. */
  lemma {:induction false} FirstBadAt(field: string, kind: KeyKind, list: seq<Value>, order: seq<nat>, k: nat)
    requires forall l :: 0 <= l < |order| ==> order[l] < |list|
    requires k < |order| && !GoodKey(field, kind, list[order[k]])
    requires forall l :: 0 <= l < k ==> GoodKey(field, kind, list[order[l]])
    ensures FirstBadMessage(field, kind, list, order) == Some(BadKeyMessage(field, kind, list[order[k]]))
    decreases k
  {
    if k > 0 {
      assert forall l :: 0 <= l < k - 1 ==> order[1..][l] == order[l + 1];
      FirstBadAt(field, kind, list, order[1..], k - 1);
    }
  }

  /** Go's check order names every item, so it finds a bad key exactly
      when some item has one. */
  lemma CheckOrderCoversAll(field: string, kind: KeyKind, list: seq<Value>)
    ensures FirstBadMessage(field, kind, list, CheckOrder(|list|)).None? <==>
              forall i :: 0 <= i < |list| ==> GoodKey(field, kind, list[i])
    ensures FirstBadMessage(field, kind, list, CheckOrder(|list|)).None? <==>
              Keys(field, kind, list, 0).Ok?
  {
    var order := CheckOrder(|list|);
    if FirstBadMessage(field, kind, list, order).None? {
      forall i | 0 <= i < |list| ensures GoodKey(field, kind, list[i]) {
        assert i in order;
        var k :| 0 <= k < |order| && order[k] == i;
      }
    }
  }

  /** The positions `a + k` for `k < n`. */
  function Range(a: nat, n: nat): (r: seq<nat>)
    ensures |r| == n && forall k :: 0 <= k < n ==> r[k] == a + k
  {
    seq(n, k requires 0 <= k < n => a + k)
  }

  /** The first bad item of a concatenated order is the first part's, if
      it has one, and otherwise the second part's. */
  lemma {:induction false} FirstBadConcat(field: string, kind: KeyKind, list: seq<Value>, a: seq<nat>, b: seq<nat>)
    requires forall k :: 0 <= k < |a| ==> a[k] < |list|
    requires forall k :: 0 <= k < |b| ==> b[k] < |list|
    ensures forall k :: 0 <= k < |a + b| ==> (a + b)[k] < |list|
    ensures FirstBadMessage(field, kind, list, a + b) ==
              if FirstBadMessage(field, kind, list, a).Some? then FirstBadMessage(field, kind, list, a)
              else FirstBadMessage(field, kind, list, b)
    decreases |a|
  {
    if |a| > 0 {
      assert (a + b)[0] == a[0] && (a + b)[1..] == a[1..] + b;
      FirstBadConcat(field, kind, list, a[1..], b);
    } else {
      assert a + b == b;
    }
  }

  /** Checking the positions from `i` on in index order reports what the
      index-order key check reports. */
  lemma RangeIsKeys(field: string, kind: KeyKind, list: seq<Value>, i: nat)
    requires i <= |list|
    ensures FirstBadMessage(field, kind, list, Range(i, |list| - i)) ==
              if Keys(field, kind, list, i).Ok? then None else Some(Keys(field, kind, list, i).msg)
  {
    if Keys(field, kind, list, i).Err? {
      RangeBad(field, kind, list, i);
    } else {
      RangeGood(field, kind, list, i);
    }
  }

  lemma RangeBad(field: string, kind: KeyKind, list: seq<Value>, i: nat)
    requires i <= |list| && Keys(field, kind, list, i).Err?
    ensures FirstBadMessage(field, kind, list, Range(i, |list| - i)) == Some(Keys(field, kind, list, i).msg)
  {
    KeysFirstBad(field, kind, list, i);
    var j :| i <= j < |list| && !GoodKey(field, kind, list[j])
             && (forall l :: i <= l < j ==> GoodKey(field, kind, list[l]))
             && Keys(field, kind, list, i).msg == BadKeyMessage(field, kind, list[j]);
    RangeBadAt(field, kind, list, i, j);
  }

  lemma RangeBadAt(field: string, kind: KeyKind, list: seq<Value>, i: nat, j: nat)
    requires i <= j < |list| && !GoodKey(field, kind, list[j])
    requires forall l :: i <= l < j ==> GoodKey(field, kind, list[l])
    ensures FirstBadMessage(field, kind, list, Range(i, |list| - i)) == Some(BadKeyMessage(field, kind, list[j]))
  {
    var r := Range(i, |list| - i);
    assert r[j - i] == j;
    forall l | 0 <= l < j - i ensures GoodKey(field, kind, list[r[l]]) {
      assert r[l] == i + l;
    }
    FirstBadAt(field, kind, list, r, j - i);
  }

  lemma RangeGood(field: string, kind: KeyKind, list: seq<Value>, i: nat)
    requires i <= |list| && Keys(field, kind, list, i).Ok?
    ensures FirstBadMessage(field, kind, list, Range(i, |list| - i)) == None
  {
    var r := Range(i, |list| - i);
    forall k | 0 <= k < |r| ensures GoodKey(field, kind, list[r[k]]) {
      assert r[k] == i + k;
    }
  }

  /** The check order of a list of two to 21 items: item 1, item 0, then the
      rest in index order. */
  lemma ShortCheckOrder(n: nat)
    requires 2 <= n <= StableBlock + 1
    ensures CheckOrder(n) == [1, 0] + Range(2, n - 2)
  {
    var r := [1, 0] + Range(2, n - 2);
    forall k | 0 <= k < n ensures CheckOrder(n)[k] == r[k] {
      if k >= 2 { assert r[k] == Range(2, n - 2)[k - 2]; }
    }
  }

  /** For up to 21 items the first comparisons reach the items in index
      order, item 0 aside, whose key set the kind: the sort reports the first
      bad item by index. */
  lemma ShortListFirstBad(field: string, kind: KeyKind, list: seq<Value>)
    requires 2 <= |list| <= StableBlock + 1 && GoodKey(field, kind, list[0])
    ensures FirstBadMessage(field, kind, list, CheckOrder(|list|)) ==
              if Keys(field, kind, list, 0).Ok? then None else Some(Keys(field, kind, list, 0).msg)
  {
    var n := |list|;
    ShortCheckOrder(n);
    RangeIsKeys(field, kind, list, 0);
    var rest := Range(2, n - 2);
    RangeSplit(n);
    SwapGoodHead(field, kind, list, rest);
    assert FirstBadMessage(field, kind, list, CheckOrder(n)) == FirstBadMessage(field, kind, list, Range(0, n));
  }

  lemma RangeSplit(n: nat)
    requires n >= 2
    ensures Range(0, n) == [0, 1] + Range(2, n - 2)
  {
    var r := [0, 1] + Range(2, n - 2);
    forall k | 0 <= k < n ensures r[k] == k {
      if k >= 2 { assert r[k] == Range(2, n - 2)[k - 2]; }
    }
  }

  /** With item 0 good, checking item 1 before item 0 finds what checking
      them in index order finds. */
  lemma SwapGoodHead(field: string, kind: KeyKind, list: seq<Value>, t: seq<nat>)
    requires |list| >= 2 && GoodKey(field, kind, list[0])
    requires forall k :: 0 <= k < |t| ==> t[k] < |list|
    ensures forall k :: 0 <= k < |[1, 0] + t| ==> ([1, 0] + t)[k] < |list|
    ensures forall k :: 0 <= k < |[0, 1] + t| ==> ([0, 1] + t)[k] < |list|
    ensures FirstBadMessage(field, kind, list, [1, 0] + t) == FirstBadMessage(field, kind, list, [0, 1] + t)
  {
    FirstBadConcat(field, kind, list, [1, 0], t);
    FirstBadConcat(field, kind, list, [0, 1], t);
    assert [1, 0][1..] == [0] && [0, 1][1..] == [1];
    assert [0][1..] == [] && [1][1..] == [];
  }

  /** The first position of block `q`. */
  function BlockStart(q: nat): nat {
    if q == 0 then 0 else BlockStart(q - 1) + StableBlock
  }

  /** The items before `c` all have good keys. */
  predicate GoodUpTo(field: string, kind: KeyKind, list: seq<Value>, c: nat)
    requires c <= |list|
  {
    forall i :: 0 <= i < c ==> GoodKey(field, kind, list[i])
  }

  /** Block `q`'s second item is checked right after every item of the
      earlier blocks. */
  lemma {:induction false} SecondItemSlot(n: nat, q: nat)
    requires BlockStart(q) + 1 < n
    ensures Slot(n, BlockStart(q)) == BlockStart(q) + 1
    ensures forall l :: 0 <= l < BlockStart(q) ==> Slot(n, l) < BlockStart(q)
    decreases q
  {
    if q > 0 {
      SecondItemSlot(n - StableBlock, q - 1);
      forall l | StableBlock <= l < BlockStart(q) ensures Slot(n, l) < BlockStart(q) {
        assert Slot(n, l) == Slot(n - StableBlock, l - StableBlock) + StableBlock;
      }
    }
  }

  /** In any block after the first, the item at its second position is
      checked before the block's first item: when every earlier block is
      good and that second item is bad, the sort reports it whatever the
      first item's key. */
  lemma BlockSecondFirst(field: string, kind: KeyKind, list: seq<Value>, q: nat)
    requires BlockStart(q) + 1 < |list| && GoodUpTo(field, kind, list, BlockStart(q))
    requires !GoodKey(field, kind, list[BlockStart(q) + 1])
    ensures FirstBadMessage(field, kind, list, CheckOrder(|list|)) ==
              Some(BadKeyMessage(field, kind, list[BlockStart(q) + 1]))
  {
    var order := CheckOrder(|list|);
    SecondItemSlot(|list|, q);
    assert order[BlockStart(q)] == BlockStart(q) + 1;
    forall l | 0 <= l < BlockStart(q) ensures GoodKey(field, kind, list[order[l]]) {
      assert order[l] < BlockStart(q);
    }
    FirstBadAt(field, kind, list, order, BlockStart(q));
  }

  /** Twenty int keys followed by a string and a nil. */
  function SecondBlockList(): seq<Value> {
    seq(StableBlock, _ => VInt(0)) + [VStr("a"), VNil]
  }

  /** The second block's first comparison extracts the nil key before the
      string key, so the nil item is reported. */
  lemma SecondBlockReport()
    ensures FirstBadMessage("", KInt, SecondBlockList(), CheckOrder(22)) == Some(BadKeyMessage("", KInt, VNil))
  {
    var list := SecondBlockList();
    assert |list| == 22 && list[21] == VNil;
    assert GoodUpTo("", KInt, list, StableBlock) by {
      forall i | 0 <= i < StableBlock ensures GoodKey("", KInt, list[i]) {
        assert list[i] == VInt(0);
      }
    }
    assert BlockStart(1) == StableBlock;
    BlockSecondFirst("", KInt, list, 1);
  }

  /** Sorting that list ascending on the items themselves fails with the
      nil item's message, not the string item's. */
  lemma SecondBlockExample()
    ensures ListSort(SortParameters("", "ASC"), SecondBlockList()) ==
              Err("failed to sort: interface conversion: interface {} is nil, not int")
  {
    var list := SecondBlockList();
    assert |list| == 22 && list[0] == VInt(0);
    SecondBlockReport();
    NilKeyMessage();
  }

  /** The recovered panic for a nil key where an int was expected. */
  lemma NilKeyMessage()
    ensures BadKeyMessage("", KInt, VNil) == "failed to sort: interface conversion: interface {} is nil, not int"
  {
  }

  /** An item tagged with its key and its position in the input. */
  datatype Entry = Entry(key: Value, pos: nat, item: Value)

  function Tag(keys: seq<Value>, list: seq<Value>): (es: seq<Entry>)
    requires |keys| == |list|
    ensures |es| == |list|
    ensures forall i :: 0 <= i < |es| ==> es[i] == Entry(keys[i], i, list[i])
  {
    seq(|list|, i requires 0 <= i < |list| => Entry(keys[i], i, list[i]))
  }

  function Items(es: seq<Entry>): (r: seq<Value>)
    ensures |r| == |es|
    ensures forall i :: 0 <= i < |es| ==> r[i] == es[i].item
  {
    seq(|es|, i requires 0 <= i < |es| => es[i].item)
  }

  /** The less function handed to sort.SliceStable: `<` on keys, or its
      negation (`notLess`) for DESC. */
  predicate Before(x: Entry, y: Entry, desc: bool) {
    if desc then !KeyLess(x.key, y.key) else KeyLess(x.key, y.key)
  }

  /** Go's insertion step: the new entry moves left past every entry it is
      less than, as `insertionSort` swaps it down. */
  function Insert(s: seq<Entry>, x: Entry, desc: bool): (r: seq<Entry>)
    ensures |r| == |s| + 1
    decreases |s|
  {
    if |s| == 0 then [x]
    else if Before(x, s[|s| - 1], desc) then Insert(s[..|s| - 1], x, desc) + [s[|s| - 1]]
    else s + [x]
  }

  /** Insertion sort: each entry in input order inserted into the sorted
      prefix. */
  function InsertionSort(es: seq<Entry>, desc: bool): (r: seq<Entry>)
    ensures |r| == |es|
    decreases |es|
  {
    if |es| == 0 then [] else Insert(InsertionSort(es[..|es| - 1], desc), es[|es| - 1], desc)
  }

  /** The order a stable sort produces: by key, ties by input position; for
      DESC by descending key, ties by descending position, which is the
      order the negated less function gives them. */
  predicate Order(a: Entry, b: Entry, desc: bool) {
    if desc then KeyLess(b.key, a.key) || (a.key == b.key && a.pos > b.pos)
    else KeyLess(a.key, b.key) || (a.key == b.key && a.pos < b.pos)
  }

  predicate Sorted(s: seq<Entry>, desc: bool) {
    forall i, j :: 0 <= i < j < |s| ==> Order(s[i], s[j], desc)
  }

  predicate KeysOfKind(s: seq<Entry>, kind: KeyKind) {
    forall i :: 0 <= i < |s| ==> KindOf(s[i].key) == Some(kind)
  }

  /** For an entry placed after `y` in the input, the less function says it
      goes first exactly when the stable order does. */
  lemma BeforeIsOrder(x: Entry, y: Entry, desc: bool)
    requires KindOf(x.key).Some? && KindOf(x.key) == KindOf(y.key)
    requires x.pos > y.pos
    ensures Before(x, y, desc) <==> Order(x, y, desc)
  {
    KeyLessTotalOrder(x.key, y.key, y.key);
  }

  /** The stable order is transitive and total on entries of one kind at
      distinct positions. */
  lemma OrderTotal(a: Entry, b: Entry, c: Entry, desc: bool)
    requires KindOf(a.key).Some? && KindOf(a.key) == KindOf(b.key) && KindOf(b.key) == KindOf(c.key)
    ensures Order(a, b, desc) && Order(b, c, desc) ==> Order(a, c, desc)
    ensures a.pos != b.pos ==> Order(a, b, desc) || Order(b, a, desc)
  {
    KeyLessTotalOrder(a.key, b.key, c.key);
    KeyLessTotalOrder(c.key, b.key, a.key);
    KeyLessTotalOrder(a.key, c.key, b.key);
    KeyLessTotalOrder(b.key, a.key, c.key);
  }

  /** Insertion adds exactly the new entry. */
  lemma {:induction false} InsertPermutes(s: seq<Entry>, x: Entry, desc: bool)
    ensures multiset(Insert(s, x, desc)) == multiset(s) + multiset{x}
    decreases |s|
  {
    if |s| > 0 {
      var n := |s|;
      var front := s[..n - 1];
      var y := s[n - 1];
      assert s == front + [y];
      if Before(x, y, desc) {
        InsertPermutes(front, x, desc);
        var t := Insert(front, x, desc);
        assert multiset(t + [y]) == multiset(t) + multiset{y};
      }
    }
  }

  /** Insertion adds exactly the new entry's item. */
  lemma {:induction false} InsertPermutesItems(s: seq<Entry>, x: Entry, desc: bool)
    ensures multiset(Items(Insert(s, x, desc))) == multiset(Items(s)) + multiset{x.item}
    decreases |s|
  {
    if |s| > 0 {
      var n := |s|;
      var front := s[..n - 1];
      var y := s[n - 1];
      assert Items(s) == Items(front) + [y.item];
      if Before(x, y, desc) {
        InsertPermutesItems(front, x, desc);
        var t := Insert(front, x, desc);
        assert Items(t + [y]) == Items(t) + [y.item];
      } else {
        assert Items(s + [x]) == Items(s) + [x.item];
      }
    }
  }

  /** Inserting an entry from a later position into a sorted run keeps it
      sorted. */
  lemma {:induction false} InsertSorted(s: seq<Entry>, x: Entry, desc: bool, kind: KeyKind)
    requires Sorted(s, desc) && KeysOfKind(s, kind) && KindOf(x.key) == Some(kind)
    requires forall i :: 0 <= i < |s| ==> s[i].pos < x.pos
    ensures Sorted(Insert(s, x, desc), desc)
    decreases |s|
  {
    if |s| > 0 {
      var n := |s|;
      var front := s[..n - 1];
      var y := s[n - 1];
      BeforeIsOrder(x, y, desc);
      if Before(x, y, desc) {
        InsertSorted(front, x, desc, kind);
        InsertPermutes(front, x, desc);
        var t := Insert(front, x, desc);
        forall k | 0 <= k < |front| ensures Order(front[k], y, desc) {
          assert front[k] == s[k];
        }
        PermutedBefore(front, x, y, t, desc);
        AppendSorted(t, y, desc);
      } else {
        OrderTotal(y, x, x, desc);
        forall i | 0 <= i < n
          ensures Order(s[i], x, desc)
        {
          if i < n - 1 {
            OrderTotal(s[i], y, x, desc);
          }
        }
        AppendSorted(s, x, desc);
      }
    }
  }

  /** A rearrangement of entries that all precede `y` still does. */
  lemma PermutedBefore(front: seq<Entry>, x: Entry, y: Entry, t: seq<Entry>, desc: bool)
    requires multiset(t) == multiset(front) + multiset{x}
    requires forall k :: 0 <= k < |front| ==> Order(front[k], y, desc)
    requires Order(x, y, desc)
    ensures forall i :: 0 <= i < |t| ==> Order(t[i], y, desc)
  {
    forall i | 0 <= i < |t| ensures Order(t[i], y, desc) {
      assert t[i] in multiset(front) + multiset{x};
      if t[i] != x {
        assert t[i] in multiset(front);
        var k :| 0 <= k < |front| && front[k] == t[i];
      }
    }
  }

  /** An entry that every entry of a sorted run precedes can follow it. */
  lemma AppendSorted(t: seq<Entry>, y: Entry, desc: bool)
    requires Sorted(t, desc)
    requires forall i :: 0 <= i < |t| ==> Order(t[i], y, desc)
    ensures Sorted(t + [y], desc)
  {
    var r := t + [y];
    forall i, j | 0 <= i < j < |r|
      ensures Order(r[i], r[j], desc)
    {
      if j < |t| {
        assert r[i] == t[i] && r[j] == t[j];
      } else {
        assert r[i] == t[i] && r[j] == y;
      }
    }
  }

  /** Insertion sort over entries in input-position order yields the stable
      order, and is a permutation of entries and of items. */
  lemma {:induction false} InsertionSortSorted(es: seq<Entry>, desc: bool, kind: KeyKind)
    requires KeysOfKind(es, kind)
    requires forall i, j :: 0 <= i < j < |es| ==> es[i].pos < es[j].pos
    ensures Sorted(InsertionSort(es, desc), desc)
    ensures multiset(InsertionSort(es, desc)) == multiset(es)
    ensures multiset(Items(InsertionSort(es, desc))) == multiset(Items(es))
    decreases |es|
  {
    if |es| > 0 {
      var n := |es|;
      var front := es[..n - 1];
      var x := es[n - 1];
      assert es == front + [x];
      assert Items(es) == Items(front) + [x.item];
      InsertionSortSorted(front, desc, kind);
      var s := InsertionSort(front, desc);
      PermutedEarlier(front, s, x, kind);
      InsertSorted(s, x, desc, kind);
      InsertPermutes(s, x, desc);
      InsertPermutesItems(s, x, desc);
    }
  }

  /** A rearrangement of entries of one kind from positions before `x`'s
      keeps both properties. */
  lemma PermutedEarlier(front: seq<Entry>, s: seq<Entry>, x: Entry, kind: KeyKind)
    requires multiset(s) == multiset(front) && KeysOfKind(front, kind)
    requires forall k :: 0 <= k < |front| ==> front[k].pos < x.pos
    ensures KeysOfKind(s, kind) && forall i :: 0 <= i < |s| ==> s[i].pos < x.pos
  {
    forall i | 0 <= i < |s|
      ensures s[i].pos < x.pos && KindOf(s[i].key) == Some(kind)
    {
      assert s[i] in multiset(front);
      var k :| 0 <= k < |front| && front[k] == s[i];
    }
  }

  /** `listSort` and `unprotectedListSort` as one sequential function.  A
      list of fewer than two items is returned as it is.  The first item's
      key decides the kind: a failed lookup, a nil key and an unsupported
      kind are errors.  Every other item is then compared, so any bad key
      fails the sort with the recovered panic's message; otherwise the items
      come out in the stable order of their keys. */
  function ListSort(params: SortParameters, list: seq<Value>): (r: Result<seq<Value>>)
    ensures |list| < 2 ==> r == Ok(list)
    ensures |list| >= 2 && KeyOf(params.field, list[0]).Err? ==>
              r == Err("failed to sort: " + KeyOf(params.field, list[0]).msg)
    ensures |list| >= 2 && KeyOf(params.field, list[0]) == Ok(VNil) ==>
              r == Err("unable to extract sort field " + Quote(params.field))
    ensures |list| >= 2 && KeyOf(params.field, list[0]).Ok? && KeyOf(params.field, list[0]).value != VNil
            && KindOf(KeyOf(params.field, list[0]).value).None? ==>
              r == Err("unknown type for sort field " + Quote(params.field))
    ensures |list| >= 2 && KeyOf(params.field, list[0]).Ok? && KindOf(KeyOf(params.field, list[0]).value).Some? ==>
              var kind := KindOf(KeyOf(params.field, list[0]).value).value;
              && (r.Ok? <==> forall i :: 0 <= i < |list| ==> GoodKey(params.field, kind, list[i]))
              && (r.Err? ==> FirstBadMessage(params.field, kind, list, CheckOrder(|list|)) == Some(r.msg))
    ensures r.Ok? ==> |r.value| == |list| && multiset(r.value) == multiset(list)
  {
    if |list| < 2 then Ok(list)
    else
      match KeyOf(params.field, list[0])
      case Err(e) => Err("failed to sort: " + e)
      case Ok(first) =>
        if first == VNil then Err("unable to extract sort field " + Quote(params.field))
        else
          match KindOf(first)
          case None => Err("unknown type for sort field " + Quote(params.field))
          case Some(kind) =>
            match FirstBadMessage(params.field, kind, list, CheckOrder(|list|))
            case Some(msg) => Err(msg)
            case None =>
              CheckOrderCoversAll(params.field, kind, list);
              var keys := Keys(params.field, kind, list, 0).value;
              var es := Tag(keys, list);
              TaggedKeys(params.field, kind, list);
              InsertionSortSorted(es, params.order == Descending, kind);
              Ok(Items(InsertionSort(es, params.order == Descending)))
  }

  /** The entries behind a successful sort of two or more items: the tagged
      input arranged in the stable order, each entry keyed by its item's own
      key, of the first item's kind. */
  lemma SortedEntries(params: SortParameters, list: seq<Value>) returns (tagged: seq<Entry>, es: seq<Entry>)
    requires |list| >= 2 && ListSort(params, list).Ok?
    ensures KeyOf(params.field, list[0]).Ok? && KindOf(KeyOf(params.field, list[0]).value).Some?
    ensures Keys(params.field, KindOf(KeyOf(params.field, list[0]).value).value, list, 0).Ok?
    ensures tagged == Tag(Keys(params.field, KindOf(KeyOf(params.field, list[0]).value).value, list, 0).value, list)
    ensures multiset(es) == multiset(tagged) && Sorted(es, params.order == Descending)
    ensures ListSort(params, list).value == Items(es)
    ensures forall i :: 0 <= i < |es| ==>
              KeyOf(params.field, es[i].item).Ok? && es[i].key == KeyOf(params.field, es[i].item).value
              && KindOf(es[i].key) == KindOf(KeyOf(params.field, list[0]).value)
  {
    var kind := KindOf(KeyOf(params.field, list[0]).value).value;
    var keys := Keys(params.field, kind, list, 0).value;
    tagged := Tag(keys, list);
    es := InsertionSort(tagged, params.order == Descending);
    TaggedKeys(params.field, kind, list);
    InsertionSortSorted(tagged, params.order == Descending, kind);
    KeyedByPermuted(params.field, kind, tagged, es);
  }

  /** The input tagged with its keys: each entry keyed by its item's key of
      the one kind, positions increasing, the items those of the input. */
  lemma TaggedKeys(field: string, kind: KeyKind, list: seq<Value>)
    requires Keys(field, kind, list, 0).Ok?
    ensures var t := Tag(Keys(field, kind, list, 0).value, list);
            && KeyedBy(field, kind, t) && KeysOfKind(t, kind) && Items(t) == list
            && forall i, j :: 0 <= i < j < |t| ==> t[i].pos < t[j].pos
  {
    var t := Tag(Keys(field, kind, list, 0).value, list);
    forall k | 0 <= k < |t|
      ensures KeyOf(field, t[k].item).Ok? && t[k].key == KeyOf(field, t[k].item).value && KindOf(t[k].key) == Some(kind)
    {
      assert t[k].item == list[k] && GoodKey(field, kind, list[k]);
    }
    assert Items(t) == list;
  }

  /** Every entry is keyed by its item's key, of kind `kind`. */
  predicate KeyedBy(field: string, kind: KeyKind, s: seq<Entry>) {
    forall i :: 0 <= i < |s| ==>
      KeyOf(field, s[i].item).Ok? && s[i].key == KeyOf(field, s[i].item).value && KindOf(s[i].key) == Some(kind)
  }

  lemma KeyedByPermuted(field: string, kind: KeyKind, a: seq<Entry>, b: seq<Entry>)
    requires multiset(a) == multiset(b) && KeyedBy(field, kind, a)
    ensures KeyedBy(field, kind, b)
  {
    forall i | 0 <= i < |b|
      ensures KeyOf(field, b[i].item).Ok? && b[i].key == KeyOf(field, b[i].item).value && KindOf(b[i].key) == Some(kind)
    {
      assert b[i] in multiset(a);
      var k :| 0 <= k < |a| && a[k] == b[i];
    }
  }

  /** A successful sort is the stable order of the tagged items: ascending
      by key with ties in input order, or for DESC descending by key with
      ties in reverse input order. */
  lemma ListSortStable(params: SortParameters, list: seq<Value>)
    requires |list| >= 2 && ListSort(params, list).Ok?
    ensures var kind := KindOf(KeyOf(params.field, list[0]).value).value;
            var keys := Keys(params.field, kind, list, 0).value;
            exists es :: && multiset(es) == multiset(Tag(keys, list))
                         && Sorted(es, params.order == Descending)
                         && ListSort(params, list).value == Items(es)
  {
    var tagged, es := SortedEntries(params, list);
  }

  /** The items of a successful sort are in key order: no later key is less
      than an earlier one for ASC, and none is greater for DESC. */
  lemma ListSortOrdered(params: SortParameters, list: seq<Value>)
    requires ListSort(params, list).Ok?
    ensures var r := ListSort(params, list).value;
            forall i, j :: 0 <= i < j < |r| ==>
              KeyOf(params.field, r[i]).Ok? && KeyOf(params.field, r[j]).Ok? &&
              if params.order == Descending then !KeyLess(KeyOf(params.field, r[i]).value, KeyOf(params.field, r[j]).value)
              else !KeyLess(KeyOf(params.field, r[j]).value, KeyOf(params.field, r[i]).value)
  {
    var r := ListSort(params, list).value;
    var desc := params.order == Descending;
    if |list| < 2 {
      assert |r| < 2;
    } else {
      var tagged, es := SortedEntries(params, list);
      forall i, j | 0 <= i < j < |r|
        ensures if desc then !KeyLess(KeyOf(params.field, r[i]).value, KeyOf(params.field, r[j]).value)
                else !KeyLess(KeyOf(params.field, r[j]).value, KeyOf(params.field, r[i]).value)
      {
        assert r[i] == es[i].item && r[j] == es[j].item;
        assert Order(es[i], es[j], desc);
        KeyLessTotalOrder(es[i].key, es[j].key, es[j].key);
      }
    }
  }

  /** Of any two items both have a key, and the later one's key is
      strictly less. */
  predicate StrictlyDescending(field: string, r: seq<Value>) {
    forall i, j :: 0 <= i < j < |r| ==>
      KeyOf(field, r[i]).Ok? && KeyOf(field, r[j]).Ok? &&
      KeyLess(KeyOf(field, r[j]).value, KeyOf(field, r[i]).value)
  }

  /** With pairwise distinct keys a DESC sort puts the keys in strictly
      descending order. */
  lemma ListSortDescendingDistinct(params: SortParameters, list: seq<Value>)
    requires ListSort(params, list).Ok? && params.order == Descending
    requires forall a, b :: 0 <= a < b < |list| ==> KeyOf(params.field, list[a]) != KeyOf(params.field, list[b])
    ensures StrictlyDescending(params.field, ListSort(params, list).value)
  {
    var r := ListSort(params, list).value;
    if |list| >= 2 {
      var tagged, es := SortedEntries(params, list);
      TaggedKeysDistinct(params.field, KindOf(KeyOf(params.field, list[0]).value).value, list);
      DescendingPairs(params.field, r, tagged, es);
    }
  }

  /** Every pair of a DESC-sorted arrangement of items with distinct keys is
      strictly descending. */
  lemma DescendingPairs(field: string, r: seq<Value>, tagged: seq<Entry>, es: seq<Entry>)
    requires r == Items(es) && Sorted(es, true) && multiset(es) == multiset(tagged)
    requires forall a, b :: 0 <= a < b < |tagged| ==> tagged[a].key != tagged[b].key
    requires forall k :: 0 <= k < |es| ==> KeyOf(field, es[k].item).Ok? && es[k].key == KeyOf(field, es[k].item).value
    ensures StrictlyDescending(field, r)
  {
    forall i, j | 0 <= i < j < |r|
      ensures KeyOf(field, r[i]).Ok? && KeyOf(field, r[j]).Ok? &&
              KeyLess(KeyOf(field, r[j]).value, KeyOf(field, r[i]).value)
    {
      assert r[i] == es[i].item && r[j] == es[j].item;
      SortedDistinctKeys(tagged, es, i, j);
    }
  }

  /** Items with pairwise distinct sort keys are tagged with pairwise
      distinct keys. */
  lemma TaggedKeysDistinct(field: string, kind: KeyKind, list: seq<Value>)
    requires Keys(field, kind, list, 0).Ok?
    requires forall a, b :: 0 <= a < b < |list| ==> KeyOf(field, list[a]) != KeyOf(field, list[b])
    ensures var tagged := Tag(Keys(field, kind, list, 0).value, list);
            forall a, b :: 0 <= a < b < |tagged| ==> tagged[a].key != tagged[b].key
  {
    var keys := Keys(field, kind, list, 0).value;
    forall a, b | 0 <= a < b < |list|
      ensures keys[a] != keys[b]
    {
      assert KeyOf(field, list[a]) != KeyOf(field, list[b]);
    }
  }

  /** In a DESC-sorted arrangement of entries with pairwise distinct keys,
      every key is strictly less than the keys before it. */
  lemma SortedDistinctKeys(tagged: seq<Entry>, es: seq<Entry>, i: int, j: int)
    requires Sorted(es, true) && multiset(es) == multiset(tagged)
    requires forall a, b :: 0 <= a < b < |tagged| ==> tagged[a].key != tagged[b].key
    requires 0 <= i < j < |es|
    ensures KeyLess(es[j].key, es[i].key)
  {
    assert es[i] in multiset(tagged) && es[j] in multiset(tagged);
    var a :| 0 <= a < |tagged| && tagged[a] == es[i];
    var b :| 0 <= b < |tagged| && tagged[b] == es[j];
    assert Order(es[i], es[j], true);
    if es[i].key.VStr? {
      StrLessIrreflexive(es[i].key.s);
    }
    if a < b {
      assert tagged[a].key != tagged[b].key;
    } else if b < a {
      assert tagged[b].key != tagged[a].key;
    }
  }

  /** Two arrangements of the same entries in the stable order are the same
      sequence: the stable order leaves no choice. */
  lemma {:induction false} SortedUnique(a: seq<Entry>, b: seq<Entry>, desc: bool)
    requires Sorted(a, desc) && Sorted(b, desc) && multiset(a) == multiset(b)
    ensures a == b
    decreases |a|
  {
    if |a| > 0 {
      assert |b| == |multiset(b)| == |multiset(a)| == |a|;
      SortedHeads(a, b, desc);
      TailMultiset(a);
      TailMultiset(b);
      assert Sorted(a[1..], desc) && Sorted(b[1..], desc);
      SortedUnique(a[1..], b[1..], desc);
      assert a == [a[0]] + a[1..] && b == [b[0]] + b[1..];
    }
  }

  lemma TailMultiset(a: seq<Entry>)
    requires |a| > 0
    ensures multiset(a[1..]) == multiset(a) - multiset{a[0]}
  {
    assert a == [a[0]] + a[1..];
  }

  lemma SortedHeads(a: seq<Entry>, b: seq<Entry>, desc: bool)
    requires Sorted(a, desc) && Sorted(b, desc) && multiset(a) == multiset(b)
    requires |a| > 0 && |b| > 0
    ensures a[0] == b[0]
  {
    var x := a[0];
    var y := b[0];
    assert y in multiset(a) && x in multiset(b);
    var i :| 0 <= i < |a| && a[i] == y;
    var j :| 0 <= j < |b| && b[j] == x;
    if i > 0 && j > 0 {
      assert Order(a[0], a[i], desc);
      assert Order(b[0], b[j], desc);
      OrderAsymmetric(x, y, desc);
    }
  }

  lemma OrderAsymmetric(x: Entry, y: Entry, desc: bool)
    ensures !(Order(x, y, desc) && Order(y, x, desc))
  {
    if KeyLess(x.key, y.key) && KeyLess(y.key, x.key) {
      assert KindOf(x.key).Some? && KindOf(x.key) == KindOf(y.key);
      KeyLessTotalOrder(x.key, y.key, y.key);
    }
  }
}
