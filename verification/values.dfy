/**
 * The runtime values the patching code handles, with the introspection the
 * Go `reflect` package gives it kept abstract: a type is known by its shape,
 * a value by its type and one machine word.
 */
module Values {
  import opened Words

  datatype Option<+T> = None | Some(value: T)

  datatype Result<+T, +E> = Ok(value: T) | Err(error: E)

  /**
   * Go types, as far as the patching code inspects them (`Kind`, `Elem`,
   * `NumOut`, `Out`). Two types are identical exactly when they are equal
   * here: a function type declared with a name (`type H func()`) carries
   * that name, and a function type literal has the empty name.
   */
  datatype Type =
    | FuncType(name: string, ins: seq<Type>, outs: seq<Type>)
    | PtrType(elem: Type)
    | BasicType(name: string)

  /**
   * A Go value. For a function value `data` is the address of its funcval,
   * the word in memory that holds the code pointer (what `getPointer` yields);
   * for a pointer it is the storage location pointed to; otherwise it is the
   * value's bits.
   */
  datatype Value = Value(typ: Type, data: Word)

  /** `reflect.Zero(t)`: nil for functions and pointers, all bits clear otherwise. */
  function Zero(t: Type): (v: Value)
    ensures v.typ == t && v.data == 0
  {
    Value(t, 0)
  }

  /** One element of a canned result tuple (`interface{}`): nil, or a value. */
  type Param = Option<Value>

  /** A canned result tuple (`Params`). */
  type Params = seq<Param>

  /** The reasons the patching code panics. */
  datatype Fault =
    | TargetNotFunc
    | DoubleNotFunc
    | TypeMismatch(target: Type, double: Type)
    | PatchExists
    | NilDereference
    | TargetNotPointer
    | NilPointer
    | NotAssignable(want: Type, got: Type)
    | MethodNotFound(name: string)
    | NotFuncType(t: Type)
    | NoOutputs
    | ArityMismatch(expected: nat, provided: nat)
    | ResultIndexOutOfRange(index: nat)
    | WrongReturnCount(expected: nat, returned: nat)
    | SequenceExhausted
    | MprotectFailed(page: nat, prot: Prot)

  /** Page protection flags (`PROT_READ`, `PROT_WRITE`, `PROT_EXEC`). */
  datatype Prot = Prot(read: bool, write: bool, exec: bool)

  const ReadExec := Prot(true, false, true)
  const ReadWriteExec := Prot(true, true, true)

  /** How an operation ended: normally, or by a panic that unwinds to the caller. */
  datatype Outcome = Done | Panic(fault: Fault)
}
