/**
 * The allocation classifier of ptr-tracer/plugin.cpp: the table of known
 * allocator and deallocator symbols (AllocFunctions), isAllocating, and the
 * count of traced origins that it does not classify as allocating. The C++
 * demangler is a parameter: it maps a symbol to its demangled name, or to
 * None when demangling fails.
 */
module AllocClassifier {
  import opened Wrappers
  import opened IR
  import opened OriginTracer

  /** Allocation and deallocation symbols, each with the family it belongs to. */
  const AllocFunctions: map<string, string> := map[
    "aligned_alloc" := "aligned_alloc",
    "calloc" := "calloc",
    "free" := "free",
    "malloc" := "malloc",
    "memalign" := "aligned_alloc",
    "posix_memalign" := "posix_aligned_alloc",
    "realloc" := "realloc",
    "reallocarray" := "realloc_array",
    "_ZdaPv" := "operator_delete",
    "_ZdaPvm" := "operator_delete_sized",
    "_ZdaPvSt11align_val_t" := "operator_delete_aligned",
    "_ZdaPvmSt11align_val_t" := "operator_delete_aligned_sized",
    "_ZdlPv" := "operator_delete",
    "_ZdlPvm" := "operator_delete_sized",
    "_ZdlPvSt11align_val_t" := "operator_delete_aligned",
    "_ZdlPvmSt11align_val_t" := "operator_delete_aligned_sized",
    "_Znam" := "operator_new",
    "_ZnamRKSt9nothrow_t" := "operator_new_nothrow",
    "_ZnamSt11align_val_t" := "operator_new_aligned",
    "_ZnamSt11align_val_tRKSt9nothrow_t" := "operator_new_aligned_nothrow",
    "_Znwm" := "operator_new",
    "_ZnwmRKSt9nothrow_t" := "operator_new_nothrow",
    "_ZnwmSt11align_val_t" := "operator_new_aligned",
    "_ZnwmSt11align_val_tRKSt9nothrow_t" := "operator_new_aligned_nothrow",
    "__builtin_calloc" := "calloc",
    "__builtin_free" := "free",
    "__builtin_malloc" := "malloc",
    "__builtin_operator_delete" := "operator_delete",
    "__builtin_operator_new" := "operator_new",
    "__builtin_realloc" := "realloc",
    "__libc_calloc" := "calloc",
    "__libc_free" := "free",
    "__libc_malloc" := "malloc",
    "__libc_memalign" := "aligned_alloc",
    "__libc_realloc" := "realloc"
  ]

  predicate StartsWith(s: string, prefix: string)
  {
    |prefix| <= |s| && s[..|prefix|] == prefix
  }

  /** handleFn: a callee is an allocator when its symbol is in the table, or
      when it demangles to a name in namespace std. */
  predicate IsAllocatorName(name: string, demangle: string -> Option<string>)
  {
    if name in AllocFunctions then true
    else if demangle(name).Some? then StartsWith(demangle(name).value, "std::")
    else false
  }

  /** isAllocating: the fixed kinds are allocating; a call or invoke is when
      it directly calls an allocator; nothing else is. */
  predicate IsAllocating(p: Program, demangle: string -> Option<string>, v: ValueId)
    requires WellFormed(p) && v in p.values
  {
    var x := p.values[v];
    assert ValueWellFormed(p, x);
    match x
    case Poison => true
    case NullPointer => true
    case GlobalVariable(_, _) => true
    case ConstantDataArray => true
    case Alloca => true
    case LandingPad => true
    case Function(_, _, _) => true
    case Call(callee) => callee.Some? && IsAllocatorName(p.values[callee.value].name, demangle)
    case Invoke(callee) => callee.Some? && IsAllocatorName(p.values[callee.value].name, demangle)
    case _ => false
  }

  /** nonAllocOrigins: how many of the results isAllocating rejects. */
  function NonAllocOrigins(p: Program, demangle: string -> Option<string>, results: seq<ValueId>): (n: nat)
    requires WellFormed(p) && forall x <- results :: x in p.values
    ensures n <= |results|
    ensures n == 0 <==> forall x <- results :: IsAllocating(p, demangle, x)
  {
    if results == [] then 0
    else
      NonAllocOrigins(p, demangle, results[1..]) + (if IsAllocating(p, demangle, results[0]) then 0 else 1)
  }

  /** handleFn accepts exactly the table's symbols and the names in namespace
      std; a symbol the demangler rejects and the table lacks is not an allocator. */
  lemma AllocatorNameCases(name: string, demangle: string -> Option<string>)
    ensures IsAllocatorName(name, demangle)
        <==> name in AllocFunctions || (demangle(name).Some? && StartsWith(demangle(name).value, "std::"))
    ensures name !in AllocFunctions && demangle(name).None? ==> !IsAllocatorName(name, demangle)
  {
  }

  /** The builtin and libc-internal spellings of calloc, free, malloc and
      realloc are in the table, and each is filed under the same family as
      the plain symbol, which is the symbol itself. */
  lemma AllocFunctionsAliases(base: string)
    requires base in {"calloc", "free", "malloc", "realloc"}
    ensures base in AllocFunctions && "__builtin_" + base in AllocFunctions && "__libc_" + base in AllocFunctions
    ensures AllocFunctions["__builtin_" + base] == AllocFunctions["__libc_" + base] == AllocFunctions[base] == base
  {
    if base == "calloc" {
      assert "__builtin_" + base == "__builtin_calloc" && "__libc_" + base == "__libc_calloc";
    } else if base == "free" {
      assert "__builtin_" + base == "__builtin_free" && "__libc_" + base == "__libc_free";
    } else if base == "malloc" {
      assert "__builtin_" + base == "__builtin_malloc" && "__libc_" + base == "__libc_malloc";
    } else {
      assert base == "realloc";
      assert "__builtin_" + base == "__builtin_realloc" && "__libc_" + base == "__libc_realloc";
    }
  }

  /** The call and invoke arms of isAllocating: with a direct callee the
      answer is handleFn's on the callee's symbol; an indirect call is not
      allocating, and neither is an argument or a value of a kind that a
      trace looks through. */
  lemma CallAllocatingCases(p: Program, demangle: string -> Option<string>, v: ValueId)
    requires WellFormed(p) && v in p.values
    ensures var x := p.values[v];
      (x.Call? || x.Invoke?) && x.callee.Some? ==> IsFunction(p, x.callee.value)
    ensures var x := p.values[v];
      (x.Call? || x.Invoke?) && x.callee.Some? ==>
        (IsAllocating(p, demangle, v) <==> IsAllocatorName(p.values[x.callee.value].name, demangle))
    ensures var x := p.values[v];
      (x.Call? || x.Invoke?) && x.callee.None? ==> !IsAllocating(p, demangle, v)
    ensures var x := p.values[v];
      (x.Argument? || x.Load? || x.GetElementPtr? || x.ExtractValue? || x.InsertValue? || x.IntToPtr?
       || x.Phi? || x.Select?) ==> !IsAllocating(p, demangle, v)
  {
    assert ValueWellFormed(p, p.values[v]);
  }

  /** On a value of an origin kind (the only kind a trace appends) the call
      arms of isAllocating never apply: it accepts every origin except the
      kinds it has no rule for, other instructions, other constants and
      `ret` instructions, whatever the demangler says. */
  lemma OriginAllocatingCases(p: Program, demangle: string -> Option<string>, v: ValueId)
    requires WellFormed(p) && v in p.values && IsOrigin(p.values[v])
    ensures var x := p.values[v];
      IsAllocating(p, demangle, v) <==> !(x.OtherInstruction? || x.OtherConstant? || x.Ret?)
  {
  }

  /** Hence nonAllocOrigins over origins does not depend on the symbol table
      lookups at all: any two demanglers give the same count. */
  lemma {:induction false} NonAllocOriginsOfOrigins(p: Program, d1: string -> Option<string>,
                                                   d2: string -> Option<string>, results: seq<ValueId>)
    requires WellFormed(p) && forall x <- results :: x in p.values && IsOrigin(p.values[x])
    ensures NonAllocOrigins(p, d1, results) == NonAllocOrigins(p, d2, results)
    decreases |results|
  {
    if results != [] {
      OriginAllocatingCases(p, d1, results[0]);
      OriginAllocatingCases(p, d2, results[0]);
      NonAllocOriginsOfOrigins(p, d1, d2, results[1..]);
    }
  }
}
