/**
 * The two helpers of plugin_utils.h that the plugins use: getValueOneLevel,
 * which looks through at most one wrapping constant (a bitcast, say) for a
 * value of a requested kind, and guessOutputName, which finds the output
 * file named on the compiler's command line.
 */
module PluginUtils {
  import opened Wrappers
  import opened IR

  /** getValueOneLevel<T>(V, idx): V itself when it is of kind T; otherwise
      its operand idx when that is of kind T; null (None) when V has no
      operands or the operand is of another kind. The kind T is the
      predicate isT. Reading operand idx of a constant that has operands
      requires idx to be in range. */
  function GetValueOneLevel(p: Program, v: ValueId, idx: nat, isT: Value -> bool): (r: Option<ValueId>)
    requires WellFormed(p) && v in p.values && IsConstant(p.values[v])
    requires isT(p.values[v]) || ConstantOperands(p.values[v]) == [] || idx < |ConstantOperands(p.values[v])|
    ensures r.Some? ==> r.value in p.values && isT(p.values[r.value]) && IsConstant(p.values[r.value])
    ensures r.Some? && r.value != v ==>
      idx < |ConstantOperands(p.values[v])| && r.value == ConstantOperands(p.values[v])[idx]
  {
    assert ValueWellFormed(p, p.values[v]);
    if isT(p.values[v]) then Some(v)
    else if ConstantOperands(p.values[v]) == [] then None
    else if isT(p.values[ConstantOperands(p.values[v])[idx]]) then Some(ConstantOperands(p.values[v])[idx])
    else None
  }

  /** The three outcomes: V itself when it has the kind; null when it has
      neither the kind nor operands; otherwise operand idx exactly when that
      operand has the kind. */
  lemma GetValueOneLevelCases(p: Program, v: ValueId, idx: nat, isT: Value -> bool)
    requires WellFormed(p) && v in p.values && IsConstant(p.values[v])
    requires isT(p.values[v]) || ConstantOperands(p.values[v]) == [] || idx < |ConstantOperands(p.values[v])|
    ensures forall x <- ConstantOperands(p.values[v]) :: x in p.values
    ensures isT(p.values[v]) ==> GetValueOneLevel(p, v, idx, isT) == Some(v)
    ensures !isT(p.values[v]) && ConstantOperands(p.values[v]) == [] ==> GetValueOneLevel(p, v, idx, isT) == None
    ensures !isT(p.values[v]) && ConstantOperands(p.values[v]) != [] ==>
      var operand := ConstantOperands(p.values[v])[idx];
      GetValueOneLevel(p, v, idx, isT) == (if isT(p.values[operand]) then Some(operand) else None)
  {
    assert ValueWellFormed(p, p.values[v]);
  }

  /** Looking again at what was found finds the same value. */
  lemma GetValueOneLevelIdempotent(p: Program, v: ValueId, idx: nat, isT: Value -> bool)
    requires WellFormed(p) && v in p.values && IsConstant(p.values[v])
    requires isT(p.values[v]) || ConstantOperands(p.values[v]) == [] || idx < |ConstantOperands(p.values[v])|
    ensures var r := GetValueOneLevel(p, v, idx, isT);
      r.Some? ==> GetValueOneLevel(p, r.value, idx, isT) == r
  {
  }

  /** A global g, a bitcast of g, and a bitcast of that bitcast. */
  function BitcastChain(): Program
  {
    Program(map[0 := GlobalVariable("g", None), 1 := OtherConstant([0]), 2 := OtherConstant([1])])
  }

  predicate IsGlobal(v: Value)
  {
    v.GlobalVariable?
  }

  lemma BitcastChainWellFormed()
    ensures WellFormed(BitcastChain())
  {
    var p := BitcastChain();
    forall id | id in p.values
      ensures ValueWellFormed(p, p.values[id])
    {
      assert id == 0 || id == 1 || id == 2;
    }
  }

  /** Only one level is looked through: the global is found through one
      bitcast but not through two. */
  lemma GetValueOneLevelIsShallow()
    ensures WellFormed(BitcastChain())
    ensures GetValueOneLevel(BitcastChain(), 1, 0, IsGlobal) == Some(0)
    ensures GetValueOneLevel(BitcastChain(), 2, 0, IsGlobal) == None
  {
    BitcastChainWellFormed();
    var p := BitcastChain();
    assert ConstantOperands(p.values[1]) == [0] && ConstantOperands(p.values[2]) == [1];
  }

  /** Position i holds the first "-o" of args that has an argument after it. */
  predicate FirstOutputFlag(args: seq<string>, i: nat)
  {
    i + 1 < |args| && args[i] == "-o" && forall j | 0 <= j < i :: args[j] != "-o"
  }

  /** guessOutputName over the command line args: the argument after the
      first "-o" that has one; None when there is none, so a trailing "-o"
      is ignored. */
  method GuessOutputName(args: seq<string>) returns (r: Option<string>)
    ensures r.None? <==> forall i | 0 <= i < |args| - 1 :: args[i] != "-o"
    ensures r.Some? ==> exists i :: FirstOutputFlag(args, i) && r.value == args[i + 1]
  {
    var i := 0;
    while i < |args|
      invariant i <= |args|
      invariant forall j | 0 <= j < i && j < |args| - 1 :: args[j] != "-o"
    {
      if args[i] == "-o" && i + 1 < |args| {
        assert FirstOutputFlag(args, i);
        return Some(args[i + 1]);
      }
      i := i + 1;
    }
    return None;
  }
}
