/** Parameter binding: the loops of `insertRecord`, `updateRecords` and
    `deleteRecords` that walk the values and call one `PreparedStatement`
    setter per value, chosen by a chain of `instanceof` tests. */
module Binding {
  import opened Base
  import opened Data

  datatype Setter =
    | SetString | SetInt | SetLong | SetDouble | SetTimestamp | SetDate | SetBoolean | SetObject

  /** One `pstmt.setXxx(index, value)` call; `index` is the 1-based
      position of the placeholder it fills. */
  datatype Bind = Bind(index: nat, setter: Setter, value: Value)

  /** The two chains of tests in the source: the one of `insertRecord` and
      `deleteRecords`, and the one of `updateRecords`, which alone tests for
      `java.sql.Timestamp` (just before `java.sql.Date`). */
  datatype Chain = InsertChain | UpdateChain

  /** Whether the value passes the `instanceof` test guarding the setter;
      the final `setObject` branch takes any non-null value. */
  predicate Fits(s: Setter, v: Value): (ok: bool)
    ensures ok ==> v != Null
  {
    match s
    case SetString => v.Str?
    case SetInt => v.Int32?
    case SetLong => v.Int64?
    case SetDouble => v.Dbl?
    case SetTimestamp => v.Timestamp?
    case SetDate => v.SqlDate?
    case SetBoolean => v.Bool?
    case SetObject => v != Null
  }

  /** The setter the chain of tests picks, or None for a null value, which
      no branch binds. */
  function SetterFor(chain: Chain, v: Value): (r: Option<Setter>)
    ensures r.None? <==> v == Null
    ensures r.Some? ==> Fits(r.value, v)
  {
    if v.Str? then Some(SetString)
    else if v.Int32? then Some(SetInt)
    else if v.Int64? then Some(SetLong)
    else if v.Dbl? then Some(SetDouble)
    else if chain == UpdateChain && v.Timestamp? then Some(SetTimestamp)
    else if v.SqlDate? then Some(SetDate)
    else if v.Bool? then Some(SetBoolean)
    else if v != Null then Some(SetObject)
    else None
  }

  /** The typed tests of each chain, in the order the source tries them. */
  function Tests(chain: Chain): (r: seq<Setter>)
    ensures SetObject !in r
    ensures SetTimestamp in r <==> chain == UpdateChain
    ensures forall i, j :: 0 <= i < j < |r| ==> r[i] != r[j]
  {
    match chain
    case InsertChain => [SetString, SetInt, SetLong, SetDouble, SetDate, SetBoolean]
    case UpdateChain => [SetString, SetInt, SetLong, SetDouble, SetTimestamp, SetDate, SetBoolean]
  }

  /** Reference definition of an ordered dispatch: the first test the value
      passes, `setObject` when it passes none, nothing for null. */
  function FirstFit(tests: seq<Setter>, v: Value): Option<Setter>
  {
    if v == Null then None
    else if tests == [] then Some(SetObject)
    else if Fits(tests[0], v) then Some(tests[0])
    else FirstFit(tests[1..], v)
  }

  /** Tests a value fails are passed over. */
  lemma {:induction false} FirstFitSkips(tests: seq<Setter>, v: Value, n: nat)
    requires n <= |tests| && v != Null
    requires forall i :: 0 <= i < n ==> !Fits(tests[i], v)
    ensures FirstFit(tests, v) == FirstFit(tests[n..], v)
  {
    if n > 0 {
      assert tests[1..][n - 1..] == tests[n..];
      FirstFitSkips(tests[1..], v, n - 1);
    }
  }

  /** Each chain is the ordered dispatch over its list of tests; in
      particular a Timestamp falls through to `setObject` on insert and
      delete but gets `setTimestamp` on update. */
  lemma SetterForIsFirstFit(chain: Chain, v: Value)
    ensures SetterFor(chain, v) == FirstFit(Tests(chain), v)
  {
    var t := Tests(chain);
    if v != Null {
      // the position of the first test the value passes; |t| when none
      var n :=
        if v.Str? then 0 else if v.Int32? then 1 else if v.Int64? then 2 else if v.Dbl? then 3
        else if chain == UpdateChain then (if v.Timestamp? then 4 else if v.SqlDate? then 5 else if v.Bool? then 6 else 7)
        else (if v.SqlDate? then 4 else if v.Bool? then 5 else 6);
      FirstFitSkips(t, v, n);
    }
  }

  /** The binds a loop over `vals` issues: null values are skipped without
      using up an index, every other value takes the next index. */
  function BindAll(chain: Chain, vals: seq<Value>): (binds: seq<Bind>)
    ensures |binds| <= |vals|
    ensures forall k :: 0 <= k < |binds| ==> binds[k].index == k + 1 && binds[k].value != Null
  {
    if vals == [] then []
    else
      var front := BindAll(chain, vals[..|vals| - 1]);
      var last := vals[|vals| - 1];
      match SetterFor(chain, last)
      case None => front
      case Some(s) => front + [Bind(|front| + 1, s, last)]
  }

  /** The k-th bind fills placeholder k+1 with the k-th non-null value,
      through the setter the chain picks for it. */
  lemma {:induction false} BindAllMeaning(chain: Chain, vals: seq<Value>)
    ensures |BindAll(chain, vals)| == |NonNulls(vals)|
    ensures forall k :: 0 <= k < |NonNulls(vals)| ==>
      BindAll(chain, vals)[k]
        == Bind(k + 1, SetterFor(chain, NonNulls(vals)[k]).value, NonNulls(vals)[k])
  {
    if vals != [] {
      var front := vals[..|vals| - 1];
      assert vals == front + [vals[|vals| - 1]];
      BindAllMeaning(chain, front);
    }
  }

  /** Binding a map without null values uses every value, so the number of
      binds equals the number of columns. */
  lemma {:induction false} BindsCoverAllValues(chain: Chain, vals: seq<Value>)
    requires Null !in vals
    ensures |BindAll(chain, vals)| == |vals|
  {
    BindAllMeaning(chain, vals);
  }

  /** The loop of `insertRecord`. */
  method InsertBinds(values: seq<Value>) returns (binds: seq<Bind>)
    ensures binds == BindAll(InsertChain, values)
  {
    binds := [];
    var index := 1;
    var i := 0;
    while i < |values|
      invariant 0 <= i <= |values|
      invariant binds == BindAll(InsertChain, values[..i])
      invariant index == |binds| + 1
    {
      assert values[..i + 1][..i] == values[..i];
      var obj := values[i];
      i := i + 1;
      var setter := SetterFor(InsertChain, obj);
      if setter.Some? {
        binds := binds + [Bind(index, setter.value, obj)];
        index := index + 1;
      }
    }
    assert values[..|values|] == values;
  }

  /** The loop of `updateRecords`: after the last field value it sets a
      flag, binds the where-value through the same chain and stops. With no
      field values at all the loop does not run, and nothing is bound. */
  method UpdateBinds(values: seq<Value>, whereValue: Value) returns (binds: seq<Bind>)
    ensures binds == if values == [] then [] else BindAll(UpdateChain, values + [whereValue])
  {
    binds := [];
    var index := 1;
    var i := 0;
    var whereNext := false;
    var obj := Null;
    while i < |values| || whereNext
      invariant 0 <= i <= |values|
      invariant whereNext ==> i == |values| && values != [] && obj == whereValue
      invariant !whereNext ==> i < |values| || values == []
      invariant binds == BindAll(UpdateChain, values[..i])
      invariant index == |binds| + 1
      decreases |values| - i, if whereNext then 1 else 0
    {
      if !whereNext {
        assert values[..i + 1][..i] == values[..i];
        obj := values[i];
        i := i + 1;
      }
      var setter := SetterFor(UpdateChain, obj);
      if setter.Some? {
        binds := binds + [Bind(index, setter.value, obj)];
        index := index + 1;
      }
      if whereNext {
        assert values[..i] == values;
        assert (values + [whereValue])[..|values|] == values;
        break;
      }
      if i == |values| {
        whereNext := true;
        obj := whereValue;
      }
    }
  }

  /** `updateRecords` binds the field values in order and then the
      where-value exactly once, last, at index 1 + the number of non-null
      field values. */
  lemma {:induction false} UpdateBindsWhereLast(values: seq<Value>, whereValue: Value)
    requires values != [] && whereValue != Null
    ensures var b := BindAll(UpdateChain, values + [whereValue]);
      && |b| == |NonNulls(values)| + 1
      && b[..|b| - 1] == BindAll(UpdateChain, values)
      && b[|b| - 1] == Bind(|NonNulls(values)| + 1, SetterFor(UpdateChain, whereValue).value, whereValue)
  {
    assert (values + [whereValue])[..|values|] == values;
    BindAllMeaning(UpdateChain, values);
  }

  /** A null where-value is skipped like a null field value. */
  lemma UpdateNullWhereUnbound(values: seq<Value>)
    ensures BindAll(UpdateChain, values + [Null]) == BindAll(UpdateChain, values)
  {
    assert (values + [Null])[..|values|] == values;
  }

  /** The single bind of `deleteRecords`: index 1, only with a where field,
      and not for a null where-value. */
  function DeleteBinds(whereField: Option<string>, whereValue: Value): (binds: seq<Bind>)
    ensures whereField.None? || whereValue == Null ==> binds == []
    ensures whereField.Some? && whereValue != Null
        ==> binds == [Bind(1, SetterFor(InsertChain, whereValue).value, whereValue)]
  {
    if whereField.None? then []
    else
      match SetterFor(InsertChain, whereValue)
      case None => []
      case Some(s) => [Bind(1, s, whereValue)]
  }
}
