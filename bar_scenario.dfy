/**
 * Two traces over a small program shaped like ptr-tracer/bar.c: main stores
 * the result of malloc (a declared function) in xs and passes it on to
 * foo2, and foo2 passes the address of its local m to swallow.
 */
module BarScenario {
  import opened Wrappers
  import opened IR
  import opened OriginTracer
  import opened AllocClassifier
  import opened TracerProperties

  const Malloc: ValueId := 1       // declare ptr @malloc(i64)
  const MallocCall: ValueId := 2   // %xs = call ptr @malloc(i64 40), in main
  const Five: ValueId := 3         // the constant 5 passed as n
  const Foo2: ValueId := 4         // define void @foo2(ptr %xs, i32 %n, ptr %ys)
  const Foo2Ret: ValueId := 5      // ret void, in foo2
  const Foo2Xs: ValueId := 6       // the formal %xs of foo2
  const M: ValueId := 7            // %m = alloca i32, in foo2

  /** The program: foo2 is called once, from main, as foo2(xs, 5, xs). */
  function Bar(): Program
  {
    Program(map[
      Malloc := Function("malloc", [], []),
      MallocCall := Call(Some(Malloc)),
      Five := OtherConstant([]),
      Foo2 := Function("foo2", [[Foo2Ret]], [CallSite([MallocCall, Five, MallocCall])]),
      Foo2Ret := Ret(None),
      Foo2Xs := Argument(Foo2, 0),
      M := Alloca
    ])
  }

  /** Every value is its own canonical root. */
  function Identity(v: ValueId): ValueId { v }

  lemma BarWellFormed()
    ensures WellFormed(Bar()) && Closed(Bar(), Identity)
  {
    var p := Bar();
    forall id | id in p.values
      ensures ValueWellFormed(p, p.values[id])
    {
      assert id in {Malloc, MallocCall, Five, Foo2, Foo2Ret, Foo2Xs, M};
    }
  }

  /** foo2's xs is traced through its one call site to the malloc call and
      from there to the declared malloc, the one origin, two levels down;
      three roots are visited and, malloc being a function, every origin is
      allocating. */
  lemma TraceFoo2Xs(demangle: string -> Option<string>)
    ensures WellFormed(Bar()) && Closed(Bar(), Identity)
    ensures var r := TraceValue(Bar(), Identity, Foo2Xs, State([], {}), 0);
      && r == Traced(State([Malloc], {Foo2Xs, MallocCall, Malloc}), 2)
      && NonAllocOrigins(Bar(), demangle, r.state.results) == 0
  {
    BarWellFormed();
    var p := Bar();
    var st' := State([], {Foo2Xs});
    assert {} + {Identity(Foo2Xs)} == {Foo2Xs};
    ArgumentFollowsCallSites(p, Identity, Foo2Xs, State([], {}), 0);
    assert CallSiteActuals(p, p.values[Foo2].uses, 0) == [MallocCall];
    TraceEachCons(p, Identity, MallocCall, [], st', 0);
    DeclaredCalleeIsOrigin(p, Identity, MallocCall, st', 1, Malloc);
    assert {Foo2Xs} + {MallocCall, Malloc} == {Foo2Xs, MallocCall, Malloc};
    assert IsAllocating(p, demangle, Malloc);
  }

  /** swallow(&m): the stack slot is the origin at once, at depth 0. */
  lemma TraceAddressOfM()
    ensures WellFormed(Bar()) && Closed(Bar(), Identity)
    ensures TraceValue(Bar(), Identity, M, State([], {}), 0) == Traced(State([M], {M}), 0)
  {
    BarWellFormed();
    OtherRootIsOrigin(Bar(), Identity, M, State([], {}), 0);
  }
}
