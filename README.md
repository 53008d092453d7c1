# Pointer-origin tracer of llvm-experiments, in Dafny

This project models the `ptr-tracer` compiler plugin and the helpers it uses from `plugin_utils.h`.
The plugin is given a pointer passed as a call argument. It walks backwards through the program graph to
find where that pointer can come from (its *origins*), and then counts how many of those origins it does not
recognise as allocating.

The model has these parts:

- `IR` (`ir.dfy`) is the program graph. Every value has an id and a `Value` kind:
  - calls and invokes, each with an optional resolved callee;
  - formal arguments;
  - the five single-operand instructions (load, GEP, extractvalue, insertvalue, inttoptr);
  - PHI and select;
  - `ret`;
  - allocas and landing pads;
  - functions, with their basic blocks of instruction ids and their uses;
  - globals, the three constant kinds, and every other instruction or constant.

  `WellFormed` says that every id a value refers to exists and that callees are functions. It also says that
  every call site passes an actual for each formal argument that is referenced.
- `OriginTracer` (`origin_tracer.dfy`) is the reference definition of `traceValueOrigin`.
  - `TraceValue` is one call of the tracer.
  - `TraceRoot` handles a root that has just been marked visited.
  - `TraceEach` is a run of `traceSingle` calls.
  - `Step` is the per-kind dispatch table.

  The three functions thread the shared results list, the shared visited set and the running depth. They
  terminate because the number of unvisited values shrinks.
- `PtrTracer` (`ptr_tracer.dfy`) is the tracer as the source writes it. It is a recursive method over
  in/out results, visited and depth, and it loops over blocks, instructions, uses and incoming values.
  `traceFn`, `traceSingle`, the argument handler, the PHI handler and the select handler are each a method.
  The method `Trace` is proved equal to `TraceValue`.
- `TracerProperties` (`tracer_properties.dfy`) holds the guarantees: the visited guard, the per-kind
  dispatch rules, the three outcomes of a call, and the invariants of a fresh trace.
- `AllocClassifier` (`alloc_classifier.dfy`) models the `AllocFunctions` table, `isAllocating` and the
  `nonAllocOrigins` count.
- `PtrReport` (`ptr_report.dfy`) models the figures reported for one pointer argument: the origins,
  `maxDepth`, `indirections` and `nonAllocOrigins`.
- `PluginUtils` (`plugin_utils.dfy`) models `getValueOneLevel` and `guessOutputName`.
- `BarScenario` (`bar_scenario.dfy`) proves the outcome of two traces over a program shaped like `ptr-tracer/bar.c`.

Three operations of the host compiler are parameters of the model:

- `getUnderlyingObject(V, 0)` is `underlying: ValueId -> ValueId`. `Closed` requires it to map values to values.
- The C++ demangler is `demangle: string -> Option<string>`, with `None` when demangling fails.
- `AbstractCallSite` is replaced by the `uses` of a function. Each use is either a call site, carrying its
  actuals in parameter order, or some other use.

### Calls and arguments are never origins

- `plugin.cpp:84` traces a call without a resolved callee again, one level deeper. Its root is already
  visited by then, so no origin is added (`UnresolvedCallAddsNoOrigin`).
- `plugin.cpp:85` traces a callee that is only declared. The callee `Function` becomes the origin
  (`DeclaredCalleeIsOrigin`).
- An argument is never an origin, not even at the end of a recursive cycle. An argument of a function with
  no call sites adds nothing (`UncalledArgumentAddsNoOrigin`).

So calls, invokes and arguments are never appended to the results (`FreshTrace`: every origin has an
origin kind). The call rules of `isAllocating` therefore never apply to traced origins: `nonAllocOrigins`
counts only `ret` instructions, other instructions and other constants, whatever the demangler says
(`OriginAllocatingCases`, `NonAllocOriginsOfOrigins`).

### How far a trace reaches

A set of roots is *step-closed* (`StepClosed`) when, for each root in it, the roots of the values the
tracer follows it to are in it too. The roots reachable from a value are the least step-closed set holding
that value's root. A trace visits only roots in every such set (`TraceValueStaysInReach`), so the
`indirections` count is bounded by the number of roots reachable from the argument.

## Model

| member | source | states |
|---|---|---|
| OriginTracer.RootImage | ptr-tracer/plugin.cpp:96 | the canonical roots of the program are values of the program |
| OriginTracer.TraceValue | ptr-tracer/plugin.cpp:79-101 | one call of the tracer; the visited set never shrinks |
| OriginTracer.TraceRoot | ptr-tracer/plugin.cpp:110-139 | handling a freshly visited root never shrinks the visited set |
| OriginTracer.TraceEach | ptr-tracer/plugin.cpp:81 | a run of traceSingle calls never shrinks the visited set |
| OriginTracer.Step | ptr-tracer/plugin.cpp:82-134 | the dispatch follows only values of the program, and a root is an origin exactly when it is none of the ten kinds the tracer looks through |
| OriginTracer.BlockReturns | ptr-tracer/plugin.cpp:87-91 | the returned values of a block's `ret` instructions are values of the program |
| OriginTracer.BodyReturns | ptr-tracer/plugin.cpp:86-92 | the returned values of all the blocks of a body are values of the program |
| OriginTracer.CallSiteActuals | ptr-tracer/plugin.cpp:115-117 | the actuals at the argument's position, one for each call-site use, are values of the program |
| OriginTracer.TraceEachAppend | ptr-tracer/plugin.cpp:86-92 | tracing the returns of several blocks means tracing each block in turn from the state the previous one left |
| OriginTracer.TraceValueKeepsInvariant | ptr-tracer/plugin.cpp:79-140 | the visited set only grows, and only by canonical roots; results only grow at the end, by visited roots of origin kinds; no duplicates and results within visited are preserved; the root ends up visited; the depth returned is never below the depth passed in |
| OriginTracer.TraceEachKeepsInvariant | ptr-tracer/plugin.cpp:80-81 | the same for a run of traceSingle calls, with every value's root visited |
| OriginTracer.RootImageStepClosed | ptr-tracer/plugin.cpp:82-134 | the canonical roots of the whole program are closed under the tracer's steps |
| OriginTracer.TraceValueStaysInReach | ptr-tracer/plugin.cpp:79-140 | every root a trace of v adds to the visited set is in every step-closed set holding the root of v, i.e. reachable from v |
| OriginTracer.TraceEachStaysInReach | ptr-tracer/plugin.cpp:80-81 | the same for a run of traceSingle calls over values whose roots are in the set |
| PtrTracer.Trace | ptr-tracer/plugin.cpp:79-101 | the in-place tracer returns exactly the results, visited set and depth of TraceValue |
| PtrTracer.Visit | ptr-tracer/plugin.cpp:110-139 | dispatch on the root's kind, equal to TraceRoot |
| PtrTracer.TraceFn | ptr-tracer/plugin.cpp:82-94 | traceFn for all three callee cases, equal to TraceRoot on the call |
| PtrTracer.TraceSingle | ptr-tracer/plugin.cpp:81 | traceSingle leaves exactly the results and visited set of tracing x one level deeper, and the larger of the running depth and that trace's depth; so it advances a run over [x] + rest by its first value |
| PtrTracer.TraceSelect | ptr-tracer/plugin.cpp:130-134 | the true arm, then the false arm, with traceSingle |
| PtrTracer.TraceReturns | ptr-tracer/plugin.cpp:86-92 | the loop over the callee's blocks traces BodyReturns |
| PtrTracer.TraceBlock | ptr-tracer/plugin.cpp:87-91 | the loop over one block's instructions traces the values of its `ret`s |
| PtrTracer.TraceCallSites | ptr-tracer/plugin.cpp:114-119 | the loop over the parent's uses traces CallSiteActuals |
| PtrTracer.TraceIncoming | ptr-tracer/plugin.cpp:125-129 | the loop over a PHI's incoming values traces each of them |
| TracerProperties.VisitedRootStops | ptr-tracer/plugin.cpp:96-101 | a visited root leaves results, visited set and depth unchanged |
| TracerProperties.SingleOperandFollowed | ptr-tracer/plugin.cpp:120-124 | the five through-links return their operand's trace one level deeper, append nothing themselves, and return a depth above the input depth |
| TracerProperties.PhiFollowsEveryIncoming | ptr-tracer/plugin.cpp:125-129 | a PHI is the traceSingle run over all its incoming values; every incoming root is visited; the depth does not drop |
| TracerProperties.SelectFollowsBothArms | ptr-tracer/plugin.cpp:130-134 | a select is the run over its true and then its false arm; both roots are visited; the depth does not drop |
| TracerProperties.ArgumentFollowsCallSites | ptr-tracer/plugin.cpp:114-119 | an argument is the run over the actual at its position at every call-site use, appends nothing itself, and every such actual's root is visited |
| TracerProperties.UncalledArgumentAddsNoOrigin | ptr-tracer/plugin.cpp:114-119 | an argument of a function with no call sites is only marked visited |
| TracerProperties.UnresolvedCallAddsNoOrigin | ptr-tracer/plugin.cpp:84 | a call without a callee that is its own root only marks itself visited, one level deeper |
| TracerProperties.DeclaredCalleeIsOrigin | ptr-tracer/plugin.cpp:85 | a call to a declared-only function appends that function, and only it, one level deeper |
| TracerProperties.DefinedCalleeFollowsReturns | ptr-tracer/plugin.cpp:86-93 | a call to a defined function is the run over every returned value of its body, and each returned value's root is visited |
| TracerProperties.OtherRootIsOrigin | ptr-tracer/plugin.cpp:135-139 | any other root is appended once at the depth passed in |
| TracerProperties.FreshTraceStaysInReach | ptr-tracer/plugin.cpp:249-251 | a fresh trace visits only roots reachable from the argument |
| TracerProperties.FreshTrace | ptr-tracer/plugin.cpp:249-251 | a fresh trace has no duplicate origins; every origin is a visited value of an origin kind; only canonical roots are visited, including the argument's own |
| AllocClassifier.AllocFunctionsAliases | ptr-tracer/plugin.cpp:142-178 | the table holds calloc, free, malloc and realloc with their `__builtin_` and `__libc_` spellings, all filed under the plain symbol's family |
| AllocClassifier.CallAllocatingCases | ptr-tracer/plugin.cpp:196-227 | a call or invoke with a direct callee is allocating exactly when handleFn accepts the callee's symbol; an indirect one is not; nor is an argument, a PHI, a select or one of the five single-operand instructions |
| AllocClassifier.NonAllocOrigins | ptr-tracer/plugin.cpp:253 | the count never exceeds the number of origins, and it is zero exactly when every origin is allocating |
| AllocClassifier.AllocatorNameCases | ptr-tracer/plugin.cpp:197-205 | a callee is an allocator iff its symbol is in AllocFunctions or demangles into namespace `std::`; an unknown symbol that does not demangle is not an allocator |
| AllocClassifier.OriginAllocatingCases | ptr-tracer/plugin.cpp:206-227 | on an origin kind, isAllocating holds exactly when the value is not a `ret`, another instruction or another constant |
| AllocClassifier.NonAllocOriginsOfOrigins | ptr-tracer/plugin.cpp:253 | over origins, the nonAllocOrigins count is the same for any demangler |
| PtrReport.ReportArgument | ptr-tracer/plugin.cpp:249-263 | the reported origins, maxDepth and indirections are those of a fresh trace; nonAllocOrigins <= origins <= indirections <= canonical roots; indirections is at most the size of every step-closed set holding the argument's root; indirections >= 1; no duplicate origins |
| PluginUtils.GetValueOneLevel | plugin_utils.h:45-52 | a found value has kind T and is either V itself or operand idx of V |
| PluginUtils.GetValueOneLevelCases | plugin_utils.h:47-51 | V when V has kind T; null when V has neither the kind nor operands; otherwise operand idx exactly when it has kind T |
| PluginUtils.GetValueOneLevelIdempotent | plugin_utils.h:45-52 | looking again at a found value finds that value |
| PluginUtils.GetValueOneLevelIsShallow | plugin_utils.h:49-51 | a global is found through one bitcast but not through two |
| PluginUtils.GuessOutputName | plugin_utils.h:119-125 | none exactly when no "-o" has an argument after it (a trailing "-o" is ignored); otherwise the argument after the first such "-o" |
| BarScenario.TraceFoo2Xs | ptr-tracer/bar.c:15-28 | foo2's xs traces through main's call foo2(xs, 5, xs) to the declared malloc: origins [malloc], depth 2, three roots visited, no non-allocating origin |
| BarScenario.TraceAddressOfM | ptr-tracer/bar.c:16-19 | `&m` is its own origin at depth 0 |

## Left out

- `getUnderlyingObject`, `AbstractCallSite`, `dyn_cast`, `__cxa_demangle` (`demangleCXXName`) and the
  `visitDyn` templates are not modelled. They are foreign LLVM and C++ ABI code. The first and the
  demangler are parameters, call-site resolution is the `uses` list, and the type dispatch is a `match`.
- An abstract call site whose callee operand maps a parameter to no actual (a callback encoding with
  operand number -1) is not modelled. Every call-site use carries an actual for each referenced position.
- Printing the report (`tee_ostream` and the YAML lines of `runPtrTracer`) is not modelled; it is output I/O.
  So are the naming of arguments and origins, and the skipping of arguments that are not pointers.
  `PtrReport.ReportArgument` models the figures for one pointer argument.
- Pass registration, the output-file suffix and `PreservedAnalyses` are not modelled; they are host-compiler glue.
- `getCmdLine` is not modelled, since it reads the process's command line. `GuessOutputName` takes the
  arguments as a parameter instead.
- `findFunctionsWithStringAnnotations*` is not part of this model; it is annotation-walking glue with no
  caller in the tracer.
- `ptr-reflect/plugin.cpp` and `lambda-reflect/plugin.cpp` are not part of this model. They are IR
  instrumentation and Clang AST rewriting.
- `size_t` wrap-around of the depth and of the counts is not modelled: depths and counts are unbounded
  naturals.
- The table's family names (the values of `AllocFunctions`) are modelled but never used, as in the source;
  only its keys are looked up.
- Operands of instructions that the tracer does not read (the stored value, GEP indices, the select
  condition's use) are not modelled beyond being values of the program.
