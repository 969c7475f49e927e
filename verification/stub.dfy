/**
 * The sequenced stub builder: a table of canned result tuples, each with a
 * repeat count, becomes a substitute function that returns them one per call
 * and panics once they run out.
 */
module Stub {
  import opened Words
  import opened Values

  /** `OutputCell`: a result tuple and the number of calls that return it. */
  datatype OutputCell = OutputCell(values: Params, times: int)

  /** The number of calls a cell serves: its `Times`, but at least 1. */
  function Repeats(c: OutputCell): (n: nat)
    ensures n >= 1
    ensures c.times >= 1 ==> n == c.times
    ensures c.times <= 1 ==> n == 1
  {
    if c.times <= 1 then 1 else c.times
  }

  /** A cell's tuple, once per call it serves. */
  function Block(c: OutputCell): seq<Params>
  {
    seq(Repeats(c), _ => c.values)
  }

  /** The expansion of a table: the blocks of its cells, in table order. */
  function Flatten(outputs: seq<OutputCell>): seq<Params>
  {
    if |outputs| == 0 then [] else Flatten(outputs[..|outputs| - 1]) + Block(outputs[|outputs| - 1])
  }

  /** The number of calls a table serves: the sum of its cells' repeat counts. */
  function Calls(outputs: seq<OutputCell>): nat
  {
    if |outputs| == 0 then 0 else Calls(outputs[..|outputs| - 1]) + Repeats(outputs[|outputs| - 1])
  }

  /** The expansion has one tuple per call the table serves. */
  lemma {:induction false} FlattenLength(outputs: seq<OutputCell>)
    ensures |Flatten(outputs)| == Calls(outputs)
  {
    if |outputs| > 0 {
      FlattenLength(outputs[..|outputs| - 1]);
    }
  }

  /** Calls are counted cell by cell: a prefix of the table serves no more calls than the table. */
  lemma {:induction false} CallsPrefix(outputs: seq<OutputCell>, c: nat)
    requires c <= |outputs|
    ensures Calls(outputs[..c]) <= Calls(outputs)
  {
    if c < |outputs| {
      var init := outputs[..|outputs| - 1];
      assert init[..c] == outputs[..c];
      CallsPrefix(init, c);
    } else {
      assert outputs[..c] == outputs;
    }
  }

  /**
   * Call j of the expansion returns the tuple of the cell c whose calls
   * cover j: cell c serves calls Calls(outputs[..c]) up to, not including,
   * Calls(outputs[..c + 1]).
   */
  lemma {:induction false} FlattenAt(outputs: seq<OutputCell>, c: nat, j: nat)
    requires c < |outputs|
    requires Calls(outputs[..c]) <= j < Calls(outputs[..c + 1])
    ensures j < |Flatten(outputs)|
    ensures Flatten(outputs)[j] == outputs[c].values
  {
    var n := |outputs|;
    var init := outputs[..n - 1];
    FlattenLength(outputs);
    FlattenLength(init);
    CallsPrefix(outputs, c + 1);
    if c == n - 1 {
      assert outputs[..c] == init;
      assert outputs[..c + 1] == outputs;
      assert Flatten(outputs)[j] == Block(outputs[c])[j - |Flatten(init)|];
    } else {
      assert init[..c] == outputs[..c];
      assert init[..c + 1] == outputs[..c + 1];
      FlattenAt(init, c, j);
    }
  }

  /** The nested `append` loops of `getDoubleFunc`. */
  method ExpandOutputs(outputs: seq<OutputCell>) returns (slice: seq<Params>)
    ensures slice == Flatten(outputs)
  {
    slice := [];
    for k := 0 to |outputs|
      invariant slice == Flatten(outputs[..k])
    {
      var output := outputs[k];
      var t := if output.times <= 1 then 1 else output.times;
      for j := 0 to t
        invariant slice == Flatten(outputs[..k]) + seq(j, _ => output.values)
      {
        slice := slice + [output.values];
      }
      assert outputs[..k + 1][..k] == outputs[..k];
    }
    assert outputs[..|outputs|] == outputs;
  }

  /**
   * Element k of a result tuple can be stored as result k: the signature has
   * a result k, and the element is nil or a value of that type.
   */
  predicate Fits(outs: seq<Type>, results: Params, k: nat)
    requires k < |results|
  {
    k < |outs| && (results[k].Some? ==> results[k].value.typ == outs[k])
  }

  /** Why element k cannot be stored: result k does not exist (`Out(k)`), or the value is of another type (`Set`). */
  function Misfit(outs: seq<Type>, results: Params, k: nat): Fault
    requires k < |results| && !Fits(outs, results, k)
  {
    if k >= |outs| then ResultIndexOutOfRange(k) else NotAssignable(outs[k], results[k].value.typ)
  }

  /** The first element, from k on, that cannot be stored; |results| when every one can. */
  function FirstMisfit(outs: seq<Type>, results: Params, k: nat): (j: nat)
    requires k <= |results|
    decreases |results| - k
    ensures k <= j <= |results|
    ensures forall i | k <= i < j :: Fits(outs, results, i)
    ensures j < |results| ==> !Fits(outs, results, j)
  {
    if k == |results| || !Fits(outs, results, k) then k else FirstMisfit(outs, results, k + 1)
  }

  /** One element stored as a value of result type t; nil becomes t's zero value. */
  function ResultValue(t: Type, r: Param): Value
  {
    match r
    case None => Zero(t)
    case Some(v) => v
  }

  /** The loop of `GetResultValues` from element k on. */
  function ResultValuesFrom(outs: seq<Type>, results: Params, k: nat): (r: Result<seq<Value>, Fault>)
    requires k <= |results|
    decreases |results| - k
    ensures r.Ok? <==> FirstMisfit(outs, results, k) == |results|
    ensures r.Ok? ==> |r.value| == |results| - k
    ensures r.Ok? ==> forall j | k <= j < |results| :: j < |outs| && r.value[j - k] == ResultValue(outs[j], results[j])
    ensures r.Err? ==> r.error == Misfit(outs, results, FirstMisfit(outs, results, k))
  {
    if k == |results| then Ok([])
    else if !Fits(outs, results, k) then Err(Misfit(outs, results, k))
    else
      match ResultValuesFrom(outs, results, k + 1)
      case Err(e) => Err(e)
      case Ok(rest) => Ok([ResultValue(outs[k], results[k])] + rest)
  }

  /**
   * `GetResultValues`: element i becomes a value of result type i, nil
   * becoming that type's zero value. It panics at the first element that has
   * no result type or whose value is of another type.
   */
  function GetResultValues(outs: seq<Type>, results: Params): (r: Result<seq<Value>, Fault>)
    ensures r.Ok? <==> forall i | 0 <= i < |results| :: Fits(outs, results, i)
    ensures r.Ok? ==> |r.value| == |results| && |results| <= |outs|
    ensures r.Ok? ==> forall i | 0 <= i < |results| ::
              i < |outs| &&
              (results[i].None? ==> r.value[i] == Zero(outs[i])) &&
              (results[i].Some? ==> r.value[i] == results[i].value)
    ensures r.Err? ==> r.error == Misfit(outs, results, FirstMisfit(outs, results, 0))
  {
    var r := ResultValuesFrom(outs, results, 0);
    assert r.Ok? && |results| > |outs| ==> !Fits(outs, results, |outs|);
    r
  }

  /**
   * What one call of the made function returns: the converted tuple, which
   * `reflect.MakeFunc` then refuses unless it has one value per result.
   */
  function CallResults(outs: seq<Type>, results: Params): (r: Result<seq<Value>, Fault>)
    ensures r.Ok? <==> |results| == |outs| && forall i | 0 <= i < |results| :: Fits(outs, results, i)
    ensures r.Ok? || GetResultValues(outs, results).Err? ==> r == GetResultValues(outs, results)
    ensures GetResultValues(outs, results).Ok? && |results| < |outs| ==> r == Err(WrongReturnCount(|outs|, |results|))
  {
    match GetResultValues(outs, results)
    case Err(e) => Err(e)
    case Ok(values) => if |values| != |outs| then Err(WrongReturnCount(|outs|, |values|)) else Ok(values)
  }

  /** The closure `getDoubleFunc` hands to `reflect.MakeFunc`, with its call counter. */
  class SeqStub {
    /** The signature the made function has. */
    const funcType: Type
    /** The address of the made function's funcval. */
    const closure: Word
    /** The expanded table, one tuple per call. */
    const slice: seq<Params>
    /** Calls served so far. */
    var i: nat

    predicate Valid()
      reads this
    {
      funcType.FuncType? && i <= |slice|
    }

    /** The function value `reflect.MakeFunc` returns. */
    function AsValue(): (v: Value)
      ensures v.typ == funcType
    {
      Value(funcType, closure)
    }

    constructor (funcType: Type, closure: Word, slice: seq<Params>)
      requires funcType.FuncType?
      ensures Valid()
      ensures this.funcType == funcType && this.closure == closure && this.slice == slice && i == 0
    {
      this.funcType := funcType;
      this.closure := closure;
      this.slice := slice;
      i := 0;
    }

    /** One invocation of the made function. */
    method Call() returns (r: Result<seq<Value>, Fault>)
      requires Valid()
      modifies this
      ensures Valid()
      ensures old(i) < |slice| ==> i == old(i) + 1 && r == CallResults(funcType.outs, slice[old(i)])
      ensures old(i) == |slice| ==> i == old(i) && r == Err(SequenceExhausted)
    {
      if i < |slice| {
        i := i + 1;
        return CallResults(funcType.outs, slice[i - 1]);
      }
      r := Err(SequenceExhausted);
    }
  }

  /**
   * The checks `getDoubleFunc` makes before expanding the table, in its
   * order: the type must be a function type (`NumOut`), the table must have a
   * first cell (`outputs[0]`), and that cell must have one value per result.
   * Later cells are not checked.
   */
  function OutputsCheck(funcType: Type, outputs: seq<OutputCell>): (r: Outcome)
    ensures r.Done? <==> funcType.FuncType? && |outputs| > 0 && |funcType.outs| == |outputs[0].values|
    ensures !funcType.FuncType? ==> r == Panic(NotFuncType(funcType))
    ensures funcType.FuncType? && |outputs| == 0 ==> r == Panic(NoOutputs)
    ensures funcType.FuncType? && |outputs| > 0 && |funcType.outs| != |outputs[0].values| ==>
              r == Panic(ArityMismatch(|funcType.outs|, |outputs[0].values|))
  {
    if !funcType.FuncType? then Panic(NotFuncType(funcType))
    else if |outputs| == 0 then Panic(NoOutputs)
    else if |funcType.outs| != |outputs[0].values| then Panic(ArityMismatch(|funcType.outs|, |outputs[0].values|))
    else Done
  }

  /**
   * `getDoubleFunc(funcType, outputs)`: check the table, expand it, and make
   * the counting function; its funcval is placed at `closure`.
   */
  method GetDoubleFunc(funcType: Type, outputs: seq<OutputCell>, closure: Word) returns (r: Result<SeqStub, Fault>)
    ensures r.Err? <==> OutputsCheck(funcType, outputs).Panic?
    ensures r.Err? ==> OutputsCheck(funcType, outputs) == Panic(r.error)
    ensures r.Ok? ==> (fresh(r.value) && r.value.Valid() && r.value.i == 0 &&
                       r.value.funcType == funcType && r.value.closure == closure &&
                       r.value.slice == Flatten(outputs))
  {
    var check := OutputsCheck(funcType, outputs);
    if check.Panic? {
      return Err(check.fault);
    }
    var slice := ExpandOutputs(outputs);
    var stub := new SeqStub(funcType, closure, slice);
    r := Ok(stub);
  }

  /**
   * A two-result signature with table [((1, "a"), 2), ((2, "b"), 1)]: calls 1
   * and 2 return (1, "a"), call 3 returns (2, "b"), call 4 panics; a table
   * whose first tuple has one element is refused before any call.
   */
  method SequenceScenario()
  {
    var intT, strT := BasicType("int"), BasicType("string");
    var sig := FuncType("", [], [intT, strT]);
    var oneA: Params := [Some(Value(intT, 1)), Some(Value(strT, 0x61))];
    var twoB: Params := [Some(Value(intT, 2)), Some(Value(strT, 0x62))];
    var table := [OutputCell(oneA, 2), OutputCell(twoB, 1)];
    assert Block(table[0]) == [oneA, oneA] && Block(table[1]) == [twoB];
    assert table[..1] == [table[0]] && [table[0]][..0] == [];
    assert Flatten([table[0]]) == [oneA, oneA];
    assert Flatten(table) == [oneA, oneA, twoB];

    var made := GetDoubleFunc(sig, table, 0x1000);
    var stub := made.value;
    var c1 := stub.Call();
    var c2 := stub.Call();
    var c3 := stub.Call();
    var c4 := stub.Call();
    var first, third := GetResultValues(sig.outs, oneA), GetResultValues(sig.outs, twoB);
    assert first.value[0] == Value(intT, 1) && first.value[1] == Value(strT, 0x61);
    assert third.value[0] == Value(intT, 2) && third.value[1] == Value(strT, 0x62);
    assert |first.value| == 2;
    assert first.value == [Value(intT, 1), Value(strT, 0x61)];
    assert first == Ok([Value(intT, 1), Value(strT, 0x61)]);
    assert |third.value| == 2;
    assert third.value == [Value(intT, 2), Value(strT, 0x62)];
    assert third == Ok([Value(intT, 2), Value(strT, 0x62)]);
    assert c1 == c2 == Ok([Value(intT, 1), Value(strT, 0x61)]);
    assert c3 == Ok([Value(intT, 2), Value(strT, 0x62)]);
    assert c4 == Err(SequenceExhausted);

    var short := GetDoubleFunc(sig, [OutputCell([Some(Value(intT, 1))], 1)], 0x1000);
    assert short == Err(ArityMismatch(2, 1));
  }

  /**
   * Only the first cell's length is checked before any call: with results
   * (int, string), a later cell holding one value makes its call panic for
   * the wrong return count, and a string where the int belongs panics in
   * the conversion.
   */
  method LaterCellScenario()
  {
    var intT, strT := BasicType("int"), BasicType("string");
    var sig := FuncType("", [], [intT, strT]);
    var oneA: Params := [Some(Value(intT, 1)), Some(Value(strT, 0x61))];
    var two: Params := [Some(Value(intT, 2))];
    var swapped: Params := [Some(Value(strT, 0x62)), Some(Value(intT, 3))];
    var table := [OutputCell(oneA, 1), OutputCell(two, 1), OutputCell(swapped, 1)];
    assert table[..2][..1] == [table[0]] && table[..1] == [table[0]] && [table[0]][..0] == [];
    assert Flatten([table[0]]) == [oneA];
    assert Flatten(table[..2]) == [oneA, two];
    assert Flatten(table) == [oneA, two, swapped];

    var made := GetDoubleFunc(sig, table, 0x2000);
    var stub := made.value;
    var c1 := stub.Call();
    var c2 := stub.Call();
    var c3 := stub.Call();
    assert c1.Ok?;
    assert GetResultValues(sig.outs, two).Ok?;
    assert c2 == Err(WrongReturnCount(2, 1));
    assert !Fits(sig.outs, swapped, 0);
    assert c3 == Err(NotAssignable(intT, strT));
  }
}
