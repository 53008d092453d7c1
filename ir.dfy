/**
 * The program graph the tracer walks: every value of the compiled module
 * (instructions, arguments, functions, globals, constants) under a stable
 * id, with the fields the tracer and the classifier look at. The graph is
 * read-only; it stands for the host compiler's intermediate representation.
 */
module IR {
  import opened Wrappers

  /** Identity of a value; set membership and the visited set use it. */
  type ValueId = nat

  /** One use of a function: either an (abstract) call site, given by its
      actual arguments in formal-parameter order, or any other use. */
  datatype Use = CallSite(args: seq<ValueId>) | NotCallSite

  /** The kinds of value that the tracer and the classifier distinguish. */
  datatype Value =
    | Call(callee: Option<ValueId>)          // callee: the directly called Function, if resolved
    | Invoke(callee: Option<ValueId>)
    | Argument(parent: ValueId, argNo: nat)  // formal parameter argNo of Function parent
    | Load(pointer: ValueId)
    | GetElementPtr(pointer: ValueId)
    | ExtractValue(aggregate: ValueId)
    | InsertValue(aggregate: ValueId)
    | IntToPtr(operand: ValueId)
    | Phi(incoming: seq<ValueId>)
    | Select(condition: ValueId, trueValue: ValueId, falseValue: ValueId)
    | Ret(returned: Option<ValueId>)         // `ret void` has no returned value
    | Alloca
    | LandingPad
    | Function(name: string, blocks: seq<seq<ValueId>>, uses: seq<Use>)
    | GlobalVariable(name: string, initializer: Option<ValueId>)
    | Poison
    | NullPointer
    | ConstantDataArray
    | OtherInstruction(operands: seq<ValueId>)
    | OtherConstant(operands: seq<ValueId>)  // constant expressions such as a bitcast

  datatype Program = Program(values: map<ValueId, Value>)

  /** A function without basic blocks is only declared. */
  predicate IsDeclaration(f: Value)
    requires f.Function?
  {
    f.blocks == []
  }

  predicate IsConstant(v: Value)
  {
    v.Function? || v.GlobalVariable? || v.Poison? || v.NullPointer? || v.ConstantDataArray? || v.OtherConstant?
  }

  /** The operand list of a constant (a global's operand is its initializer). */
  function ConstantOperands(v: Value): seq<ValueId>
    requires IsConstant(v)
  {
    match v
    case GlobalVariable(_, init) => if init.Some? then [init.value] else []
    case OtherConstant(ops) => ops
    case _ => []
  }

  predicate IsFunction(p: Program, id: ValueId)
  {
    id in p.values && p.values[id].Function?
  }

  /** Every id a value refers to names a value of the program, the operands
      of a constant are constants, callees are functions, and every call site of a function passes an actual for each
      formal parameter that the function's arguments name. */
  predicate ValueWellFormed(p: Program, v: Value)
  {
    match v
    case Call(callee) => callee.Some? ==> IsFunction(p, callee.value)
    case Invoke(callee) => callee.Some? ==> IsFunction(p, callee.value)
    case Argument(parent, argNo) =>
      IsFunction(p, parent) &&
      forall u <- p.values[parent].uses :: u.CallSite? ==> argNo < |u.args|
    case Load(ptr) => ptr in p.values
    case GetElementPtr(ptr) => ptr in p.values
    case ExtractValue(agg) => agg in p.values
    case InsertValue(agg) => agg in p.values
    case IntToPtr(op) => op in p.values
    case Phi(incoming) => forall x <- incoming :: x in p.values
    case Select(c, t, f) => c in p.values && t in p.values && f in p.values
    case Ret(rv) => rv.Some? ==> rv.value in p.values
    case Function(_, blocks, uses) =>
      (forall b <- blocks, i <- b :: i in p.values) &&
      (forall u <- uses :: u.CallSite? ==> forall a <- u.args :: a in p.values)
    case GlobalVariable(_, init) => init.Some? ==> init.value in p.values && IsConstant(p.values[init.value])
    case OtherInstruction(ops) => forall x <- ops :: x in p.values
    case OtherConstant(ops) => forall x <- ops :: x in p.values && IsConstant(p.values[x])
    case _ => true
  }

  predicate WellFormed(p: Program)
  {
    forall id {:trigger ValueWellFormed(p, p.values[id])} | id in p.values :: ValueWellFormed(p, p.values[id])
  }
}
