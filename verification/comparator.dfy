/** The list-filter comparators (gql/comparator.go).  A comparator is a value;
    `Match` returns the verdict together with the comparator to use for the
    next item, which differs from the input only for the LIMIT counter. */
module Comparator {
  import opened Results
  import opened Strings
  import opened Values

  /** The four orderings an integer comparator supports. */
  datatype IntOp = Gt | Ge | Lt | Le

  datatype Comparator =
    | StringEqual(s: string)
    | IntEqual(n: int)
    | In(values: seq<string>)
    | IntCompare(op: IntOp, bound: int)
    | LimitLength(limit: int, count: int)
    | Not(child: Comparator)

  const MissingValue := "filter argument is missing 'Value'"
  const MissingValues := "filter argument is missing 'Values'"
  const UnsupportedEqualValue := "unsupported argument value, strings and integers are supported"
  const ValuesNotStrings := "filter argument 'Values' should be a list of strings"
  const ValueNotInteger := "filter argument 'Value' must be an integer"

  /** The operator text a comparison is written with. */
  function OpSymbol(op: IntOp): string {
    match op
    case Gt => ">"
    case Ge => ">="
    case Lt => "<"
    case Le => "<="
  }

  /** The meaning of each operator on integers. */
  predicate Holds(op: IntOp, x: int, bound: int) {
    match op
    case Gt => x > bound
    case Ge => x >= bound
    case Lt => x < bound
    case Le => x <= bound
  }

  /** Go's int(f) for a float64 in range: truncation toward zero. */
  function TruncToInt(f: real): (n: int)
    ensures f >= 0.0 ==> 0 <= n && n as real <= f < n as real + 1.0
    ensures f < 0.0 ==> n <= 0 && n as real - 1.0 < f <= n as real
  {
    if f >= 0.0 then f.Floor else -((-f).Floor)
  }

  /** One call of the comparator's Match method on the operand `raw`. */
  function Match(c: Comparator, raw: Value): (r: (bool, Comparator))
    ensures c.StringEqual? ==> r.1 == c && (r.0 <==> raw == VStr(c.s))
    ensures c.IntEqual? ==> r.1 == c && (r.0 <==> raw == VInt(c.n))
    ensures c.In? ==> r.1 == c && (r.0 <==> raw.VStr? && raw.s in c.values)
    ensures c.IntCompare? ==> r.1 == c
    ensures c.IntCompare? && raw.VInt? ==> (r.0 <==> Holds(c.op, raw.n, c.bound))
    ensures c.IntCompare? && raw.VFloat? ==> (r.0 <==> Holds(c.op, TruncToInt(raw.f), c.bound))
    ensures c.IntCompare? && !raw.VInt? && !raw.VFloat? ==> !r.0
    ensures c.LimitLength? ==> r.1 == LimitLength(c.limit, c.count + 1) && (r.0 <==> c.count + 1 <= c.limit)
    ensures c.Not? ==> r.1.Not?
  {
    match c
    case StringEqual(s) => (raw.VStr? && raw.s == s, c)
    case IntEqual(n) => (raw.VInt? && raw.n == n, c)
    case In(values) => (raw.VStr? && Contains(values, raw.s), c)
    case IntCompare(op, bound) =>
      (match raw
       case VInt(x) => Holds(op, x, bound)
       case VFloat(f) => Holds(op, TruncToInt(f), bound)
       case _ => false, c)
    case LimitLength(limit, count) => (count + 1 <= limit, LimitLength(limit, count + 1))
    case Not(child) =>
      var (b, next) := Match(child, raw);
      (!b, Not(next))
  }

  /** The loop of inComparator.Match over its values. */
  function Contains(values: seq<string>, x: string): (b: bool)
    ensures b <==> x in values
  {
    if |values| == 0 then false
    else if values[0] == x then true
    else Contains(values[1..], x)
  }

  /** NotComparator: the verdict is the exact negation of the child's, and the
      child's state advances as it would on its own. */
  lemma NotNegates(child: Comparator, raw: Value)
    ensures Match(Not(child), raw).0 == !Match(child, raw).0
    ensures Match(Not(child), raw).1 == Not(Match(child, raw).1)
  {
  }

  /** Every comparator except the LIMIT counter is stateless. */
  predicate Stateless(c: Comparator) {
    match c
    case LimitLength(_, _) => false
    case Not(child) => Stateless(child)
    case _ => true
  }

  lemma {:induction false} StatelessKeepsState(c: Comparator, raw: Value)
    requires Stateless(c)
    ensures Match(c, raw).1 == c
  {
    if c.Not? {
      StatelessKeepsState(c.child, raw);
    }
  }

  /** The verdicts of successive Match calls on `raws`, one comparator
      threaded through. */
  function Run(c: Comparator, raws: seq<Value>): (r: seq<bool>)
    ensures |r| == |raws|
    decreases |raws|
  {
    if |raws| == 0 then []
    else
      var (b, next) := Match(c, raws[0]);
      [b] + Run(next, raws[1..])
  }

  /** The LIMIT counter: the call numbered count + i + 1 matches exactly when
      that number does not exceed the limit.  From a fresh counter, the first
      `limit` calls match and every later call does not; a limit of 0 or less
      never matches. */
  lemma {:induction false} LimitRun(limit: int, count: int, raws: seq<Value>)
    ensures forall i :: 0 <= i < |raws| ==> (Run(LimitLength(limit, count), raws)[i] <==> count + i + 1 <= limit)
    decreases |raws|
  {
    if |raws| > 0 {
      LimitRun(limit, count + 1, raws[1..]);
      var r := Run(LimitLength(limit, count), raws);
      assert r == [count + 1 <= limit] + Run(LimitLength(limit, count + 1), raws[1..]);
      forall i | 0 <= i < |raws|
        ensures r[i] <==> count + i + 1 <= limit
      {
        if i > 0 {
          assert r[i] == Run(LimitLength(limit, count + 1), raws[1..])[i - 1];
        }
      }
    }
  }

  /** A stateless comparator judges every operand on its own. */
  lemma {:induction false} StatelessRun(c: Comparator, raws: seq<Value>)
    requires Stateless(c)
    ensures forall i :: 0 <= i < |raws| ==> Run(c, raws)[i] == Match(c, raws[i]).0
    decreases |raws|
  {
    if |raws| > 0 {
      StatelessKeepsState(c, raws[0]);
      StatelessRun(c, raws[1..]);
      var r := Run(c, raws);
      assert r == [Match(c, raws[0]).0] + Run(c, raws[1..]);
      forall i | 0 <= i < |raws|
        ensures r[i] == Match(c, raws[i]).0
      {
        if i > 0 {
          assert r[i] == Run(c, raws[1..])[i - 1];
        }
      }
    }
  }

  /** `NewEqualComparator`: "Value" must be an int or a string; the comparator
      then matches exactly the operands equal to it, of the same type. */
  function NewEqual(arg: map<string, Value>): (r: Result<Comparator>)
    ensures r.Ok? <==> "Value" in arg && (arg["Value"].VInt? || arg["Value"].VStr?)
    ensures r.Ok? ==> Stateless(r.value) && forall raw :: Match(r.value, raw).0 <==> raw == arg["Value"]
    ensures "Value" !in arg ==> r == Err(MissingValue)
    ensures "Value" in arg && r.Err? ==> r == Err(UnsupportedEqualValue)
  {
    if "Value" !in arg then Err(MissingValue)
    else
      match arg["Value"]
      case VInt(n) => Ok(IntEqual(n))
      case VStr(s) => Ok(StringEqual(s))
      case _ => Err(UnsupportedEqualValue)
  }

  /** `NewNotEqualComparator`: the negation of equality, with its errors. */
  function NewNotEqual(arg: map<string, Value>): (r: Result<Comparator>)
    ensures r.Err? <==> NewEqual(arg).Err?
    ensures r.Err? ==> r == NewEqual(arg)
    ensures r.Ok? ==> Stateless(r.value) && forall raw :: Match(r.value, raw).0 <==> raw != arg["Value"]
  {
    var eq :- NewEqual(arg);
    Ok(Not(eq))
  }

  /** The string items of a list, or None when some item is not a string. */
  function StringItems(items: seq<Value>): (r: Option<seq<string>>)
    ensures r.Some? <==> forall i :: 0 <= i < |items| ==> items[i].VStr?
    ensures r.Some? ==> |r.value| == |items| && forall i :: 0 <= i < |items| ==> items[i] == VStr(r.value[i])
  {
    if |items| == 0 then Some([])
    else if !items[0].VStr? then None
    else
      match StringItems(items[1..])
      case None => None
      case Some(rest) => Some([items[0].s] + rest)
  }

  /** `NewInComparator`: "Values" must be a list of strings; the comparator
      then matches exactly the strings in it. */
  function NewIn(arg: map<string, Value>): (r: Result<Comparator>)
    ensures r.Ok? <==> "Values" in arg && arg["Values"].VList? && forall i :: 0 <= i < |arg["Values"].items| ==> arg["Values"].items[i].VStr?
    ensures r.Ok? ==> Stateless(r.value) && forall raw :: Match(r.value, raw).0 <==> raw.VStr? && raw in arg["Values"].items
    ensures "Values" !in arg ==> r == Err(MissingValues)
    ensures "Values" in arg && r.Err? ==> r == Err(ValuesNotStrings)
  {
    if "Values" !in arg then Err(MissingValues)
    else if !arg["Values"].VList? then Err(ValuesNotStrings)
    else
      match StringItems(arg["Values"].items)
      case None => Err(ValuesNotStrings)
      case Some(values) =>
        var items := arg["Values"].items;
        assert forall raw: Value :: raw.VStr? ==> (raw.s in values <==> raw in items) by {
          forall raw: Value | raw.VStr?
            ensures raw.s in values <==> raw in items
          {
            if raw.s in values {
              var i :| 0 <= i < |values| && values[i] == raw.s;
              assert items[i] == raw;
            }
            if raw in items {
              var i :| 0 <= i < |items| && items[i] == raw;
              assert values[i] == raw.s;
            }
          }
        }
        Ok(In(values))
  }

  /** `NewNotInComparator`: the negation of IN, with its errors. */
  function NewNotIn(arg: map<string, Value>): (r: Result<Comparator>)
    ensures r.Err? <==> NewIn(arg).Err?
    ensures r.Err? ==> r == NewIn(arg)
    ensures r.Ok? ==> Stateless(r.value) && forall raw :: Match(r.value, raw).0 <==> !(raw.VStr? && raw in arg["Values"].items)
  {
    var in_ :- NewIn(arg);
    Ok(Not(in_))
  }

  /** `NewIntegerComparator(op)` checks its operator when it is called; an
      operator other than the four orderings is a panic. */
  function IntegerOp(op: string): (r: Result<IntOp>)
    ensures r.Ok? <==> op in {">", ">=", "<", "<="}
    ensures r.Ok? ==> OpSymbol(r.value) == op
    ensures r.Err? ==> r.msg == "unsupported integer comparison operation " + Quote(op)
  {
    if op == ">" then Ok(Gt)
    else if op == ">=" then Ok(Ge)
    else if op == "<" then Ok(Lt)
    else if op == "<=" then Ok(Le)
    else Err("unsupported integer comparison operation " + Quote(op))
  }

  /** Every ordering is recovered from its symbol. */
  lemma IntegerOpSymbol(op: IntOp)
    ensures IntegerOp(OpSymbol(op)) == Ok(op)
  {
  }

  /** The operation `NewIntegerComparator(op)` returns: "Value" must be an int. */
  function NewIntegerComparison(op: IntOp, arg: map<string, Value>): (r: Result<Comparator>)
    ensures r.Ok? <==> "Value" in arg && arg["Value"].VInt?
    ensures r.Ok? ==> Stateless(r.value) && forall x :: Match(r.value, VInt(x)).0 <==> Holds(op, x, arg["Value"].n)
    ensures r.Err? ==> r.msg == if "Value" in arg then ValueNotInteger else MissingValue
  {
    if "Value" !in arg then Err(MissingValue)
    else if !arg["Value"].VInt? then Err(ValueNotInteger)
    else Ok(IntCompare(op, arg["Value"].n))
  }

  /** `NewLimitLengthComparator`: "Value" must be an int; the counter starts
      at zero. */
  function NewLimitLength(arg: map<string, Value>): (r: Result<Comparator>)
    ensures r.Ok? <==> "Value" in arg && arg["Value"].VInt?
    ensures r.Ok? ==> r.value == LimitLength(arg["Value"].n, 0)
    ensures r.Err? ==> r.msg == if "Value" in arg then ValueNotInteger else MissingValue
  {
    if "Value" !in arg then Err(MissingValue)
    else if !arg["Value"].VInt? then Err(ValueNotInteger)
    else Ok(LimitLength(arg["Value"].n, 0))
  }
}
