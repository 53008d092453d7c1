/**
 * The imperative tracer of ptr-tracer/plugin.cpp: traceValueOrigin as a
 * recursive method that threads the results list, the visited set and the
 * depth through its handlers and loops, proved equal to the reference
 * definition OriginTracer.TraceValue. The handlers that the source writes
 * as lambdas (traceSingle, traceFn and the visitDyn cases) are methods
 * here; each takes the ghost bound of the trace that called it, which is
 * what makes the mutual recursion terminate.
 */
module PtrTracer {
  import opened Wrappers
  import opened IR
  import opened OriginTracer

  /** traceValueOrigin(V, Results, Visited, depth): Results and Visited are
      passed in and handed back updated, as the source updates them through
      its reference parameters. */
  method Trace(p: Program, underlying: ValueId -> ValueId, v: ValueId,
               results: seq<ValueId>, visited: set<ValueId>, depth: nat)
    returns (results': seq<ValueId>, visited': set<ValueId>, depth': nat)
    requires WellFormed(p) && Closed(p, underlying) && v in p.values
    ensures Traced(State(results', visited'), depth') == TraceValue(p, underlying, v, State(results, visited), depth)
    decreases |p.values.Keys - visited|, 5
  {
    var root := underlying(v);
    if root in visited {
      // already visited: give up on this chain
      return results, visited, depth;
    }
    results', visited', depth' := results, visited + {root}, depth;
    ghost var bound := |p.values.Keys - visited|;
    assert |p.values.Keys - visited'| < bound by {
      assert p.values.Keys - visited == (p.values.Keys - visited') + {root};
    }
    results', visited', depth' := Visit(p, underlying, root, results', visited', depth, bound);
  }

  /** The dispatch on the kind of a root just marked visited (visitDyn and
      its handlers); a root of no handled kind is appended to the results. */
  method Visit(p: Program, underlying: ValueId -> ValueId, root: ValueId,
               results: seq<ValueId>, visited: set<ValueId>, depth: nat, ghost bound: nat)
    returns (results': seq<ValueId>, visited': set<ValueId>, depth': nat)
    requires WellFormed(p) && Closed(p, underlying) && root in p.values
    requires |p.values.Keys - visited| < bound
    ensures Traced(State(results', visited'), depth') == TraceRoot(p, underlying, root, State(results, visited), depth)
    decreases bound, 4
  {
    TraceRootStep(p, underlying, root, State(results, visited), depth);
    var x := p.values[root];
    assert ValueWellFormed(p, x);
    match x
    case Call(callee) =>
      results', visited', depth' := TraceFn(p, underlying, root, callee, results, visited, depth, bound);
    case Invoke(callee) =>
      results', visited', depth' := TraceFn(p, underlying, root, callee, results, visited, depth, bound);
    case Argument(parent, argNo) =>
      assert ValueWellFormed(p, p.values[parent]);
      assert Step(p, root) == Each(CallSiteActuals(p, p.values[parent].uses, argNo));
      results', visited', depth' := TraceCallSites(p, underlying, p.values[parent].uses, argNo, results, visited, depth, bound);
    case Load(ptr) =>
      assert Step(p, root) == Single(ptr);
      results', visited', depth' := Trace(p, underlying, ptr, results, visited, depth + 1);
    case GetElementPtr(ptr) =>
      assert Step(p, root) == Single(ptr);
      results', visited', depth' := Trace(p, underlying, ptr, results, visited, depth + 1);
    case ExtractValue(agg) =>
      assert Step(p, root) == Single(agg);
      results', visited', depth' := Trace(p, underlying, agg, results, visited, depth + 1);
    case InsertValue(agg) =>
      assert Step(p, root) == Single(agg);
      results', visited', depth' := Trace(p, underlying, agg, results, visited, depth + 1);
    case IntToPtr(op) =>
      assert Step(p, root) == Single(op);
      results', visited', depth' := Trace(p, underlying, op, results, visited, depth + 1);
    case Phi(incoming) =>
      assert Step(p, root) == Each(incoming);
      results', visited', depth' := TraceIncoming(p, underlying, incoming, results, visited, depth, bound);
    case Select(_, t, f) =>
      assert Step(p, root) == Each([t, f]);
      results', visited', depth' := TraceSelect(p, underlying, t, f, results, visited, depth, bound);
    case _ =>
      // not looked through: the root is an origin
      assert Step(p, root) == Origin;
      results', visited', depth' := results + [root], visited, depth;
  }

  /** traceFn: a call whose callee is not known is traced again as itself;
      a callee that is only declared is traced in its place; a defined
      callee has the value of every `ret` in its body traced. */
  method TraceFn(p: Program, underlying: ValueId -> ValueId, root: ValueId, callee: Option<ValueId>,
                 results: seq<ValueId>, visited: set<ValueId>, depth: nat, ghost bound: nat)
    returns (results': seq<ValueId>, visited': set<ValueId>, depth': nat)
    requires WellFormed(p) && Closed(p, underlying) && root in p.values
    requires (p.values[root].Call? || p.values[root].Invoke?) && callee == p.values[root].callee
    requires |p.values.Keys - visited| < bound
    ensures Traced(State(results', visited'), depth') == TraceRoot(p, underlying, root, State(results, visited), depth)
    decreases bound, 3
  {
    TraceRootStep(p, underlying, root, State(results, visited), depth);
    assert ValueWellFormed(p, p.values[root]);
    if callee.None? {
      assert Step(p, root) == Single(root);
      results', visited', depth' := Trace(p, underlying, root, results, visited, depth + 1);
    } else if IsDeclaration(p.values[callee.value]) {
      assert Step(p, root) == Single(callee.value);
      results', visited', depth' := Trace(p, underlying, callee.value, results, visited, depth + 1);
    } else {
      assert ValueWellFormed(p, p.values[callee.value]);
      assert Step(p, root) == Each(BodyReturns(p, p.values[callee.value].blocks));
      results', visited', depth' := TraceReturns(p, underlying, p.values[callee.value].blocks, results, visited, depth, bound);
    }
  }

  /** traceSingle: trace x one level deeper and raise the running depth to
      what that trace returns. Stated as the first step of a run over
      [x] + rest, the form every caller's loop invariant uses. */
  method TraceSingle(p: Program, underlying: ValueId -> ValueId, x: ValueId, ghost rest: seq<ValueId>,
                     results: seq<ValueId>, visited: set<ValueId>, depth: nat, ghost bound: nat)
    returns (results': seq<ValueId>, visited': set<ValueId>, depth': nat)
    requires WellFormed(p) && Closed(p, underlying) && x in p.values && forall y <- rest :: y in p.values
    requires |p.values.Keys - visited| < bound
    ensures var first := TraceValue(p, underlying, x, State(results, visited), depth + 1);
            results' == first.state.results && visited' == first.state.visited && depth' == Max(depth, first.depth)
    ensures TraceEach(p, underlying, rest, State(results', visited'), depth')
         == TraceEach(p, underlying, [x] + rest, State(results, visited), depth)
    ensures visited <= visited'
    decreases bound, 0
  {
    TraceEachCons(p, underlying, x, rest, State(results, visited), depth);
    var d;
    results', visited', d := Trace(p, underlying, x, results, visited, depth + 1);
    depth' := Max(depth, d);
  }

  /** The select handler: traceSingle on the true arm, then on the false arm. */
  method TraceSelect(p: Program, underlying: ValueId -> ValueId, t: ValueId, f: ValueId,
                     results: seq<ValueId>, visited: set<ValueId>, depth: nat, ghost bound: nat)
    returns (results': seq<ValueId>, visited': set<ValueId>, depth': nat)
    requires WellFormed(p) && Closed(p, underlying) && t in p.values && f in p.values
    requires |p.values.Keys - visited| < bound
    ensures Traced(State(results', visited'), depth') == TraceEach(p, underlying, [t, f], State(results, visited), depth)
    decreases bound, 1
  {
    assert [t, f] == [t] + [f] && [f] == [f] + [];
    results', visited', depth' := TraceSingle(p, underlying, t, [f], results, visited, depth, bound);
    UnvisitedShrinks(p.values.Keys, visited, visited');
    results', visited', depth' := TraceSingle(p, underlying, f, [], results', visited', depth', bound);
  }

  /** The loop of traceFn over the callee's basic blocks: each block's
      instructions are handled by TraceBlock. */
  method TraceReturns(p: Program, underlying: ValueId -> ValueId, blocks: seq<seq<ValueId>>,
                      results: seq<ValueId>, visited: set<ValueId>, depth: nat, ghost bound: nat)
    returns (results': seq<ValueId>, visited': set<ValueId>, depth': nat)
    requires WellFormed(p) && Closed(p, underlying)
    requires forall b <- blocks, i <- b :: i in p.values
    requires |p.values.Keys - visited| < bound
    ensures Traced(State(results', visited'), depth')
         == TraceEach(p, underlying, BodyReturns(p, blocks), State(results, visited), depth)
    decreases bound, 2
  {
    ghost var total := TraceEach(p, underlying, BodyReturns(p, blocks), State(results, visited), depth);
    results', visited', depth' := results, visited, depth;
    assert blocks[0..] == blocks;
    var b := 0;
    while b < |blocks|
      invariant b <= |blocks|
      invariant visited <= visited'
      invariant TraceEach(p, underlying, BodyReturns(p, blocks[b..]), State(results', visited'), depth') == total
    {
      assert forall i <- blocks[b] :: i in p.values;
      assert blocks[b..][0] == blocks[b] && blocks[b..][1..] == blocks[b + 1..];
      TraceEachAppend(p, underlying, BlockReturns(p, blocks[b]), BodyReturns(p, blocks[b + 1..]),
                      State(results', visited'), depth');
      UnvisitedShrinks(p.values.Keys, visited, visited');
      results', visited', depth' := TraceBlock(p, underlying, blocks[b], results', visited', depth', bound);
      b := b + 1;
    }
  }

  /** The loop of traceFn over the instructions of one basic block:
      traceSingle on the value of every `ret` that returns one. */
  method TraceBlock(p: Program, underlying: ValueId -> ValueId, insts: seq<ValueId>,
                    results: seq<ValueId>, visited: set<ValueId>, depth: nat, ghost bound: nat)
    returns (results': seq<ValueId>, visited': set<ValueId>, depth': nat)
    requires WellFormed(p) && Closed(p, underlying)
    requires forall i <- insts :: i in p.values
    requires |p.values.Keys - visited| < bound
    ensures Traced(State(results', visited'), depth')
         == TraceEach(p, underlying, BlockReturns(p, insts), State(results, visited), depth)
    decreases bound, 1
  {
    ghost var total := TraceEach(p, underlying, BlockReturns(p, insts), State(results, visited), depth);
    results', visited', depth' := results, visited, depth;
    assert insts[0..] == insts;
    var k := 0;
    while k < |insts|
      invariant k <= |insts|
      invariant visited <= visited'
      invariant TraceEach(p, underlying, BlockReturns(p, insts[k..]), State(results', visited'), depth') == total
    {
      BlockReturnsAt(p, insts, k);
      var inst := p.values[insts[k]];
      if inst.Ret? && inst.returned.Some? {
        UnvisitedShrinks(p.values.Keys, visited, visited');
        results', visited', depth' :=
          TraceSingle(p, underlying, inst.returned.value, BlockReturns(p, insts[k + 1..]), results', visited', depth', bound);
      } else {
        assert BlockReturns(p, insts[k..]) == BlockReturns(p, insts[k + 1..]);
      }
      k := k + 1;
    }
  }

  /** The argument handler: traceSingle on the actual at position argNo of
      every use of the parent function that is a call site. */
  method TraceCallSites(p: Program, underlying: ValueId -> ValueId, uses: seq<Use>, argNo: nat,
                        results: seq<ValueId>, visited: set<ValueId>, depth: nat, ghost bound: nat)
    returns (results': seq<ValueId>, visited': set<ValueId>, depth': nat)
    requires WellFormed(p) && Closed(p, underlying)
    requires forall u <- uses :: u.CallSite? ==> argNo < |u.args| && forall a <- u.args :: a in p.values
    requires |p.values.Keys - visited| < bound
    ensures Traced(State(results', visited'), depth')
         == TraceEach(p, underlying, CallSiteActuals(p, uses, argNo), State(results, visited), depth)
    decreases bound, 1
  {
    ghost var total := TraceEach(p, underlying, CallSiteActuals(p, uses, argNo), State(results, visited), depth);
    results', visited', depth' := results, visited, depth;
    assert uses[0..] == uses;
    var i := 0;
    while i < |uses|
      invariant i <= |uses|
      invariant visited <= visited'
      invariant TraceEach(p, underlying, CallSiteActuals(p, uses[i..], argNo), State(results', visited'), depth') == total
    {
      ghost var later := CallSiteActuals(p, uses[i + 1..], argNo);
      CallSiteActualsAt(p, uses, argNo, i);
      if uses[i].CallSite? {
        UnvisitedShrinks(p.values.Keys, visited, visited');
        results', visited', depth' := TraceSingle(p, underlying, uses[i].args[argNo], later, results', visited', depth', bound);
      } else {
        assert CallSiteActuals(p, uses[i..], argNo) == later;
      }
      i := i + 1;
    }
  }

  /** The PHI handler: traceSingle on each incoming value. */
  method TraceIncoming(p: Program, underlying: ValueId -> ValueId, incoming: seq<ValueId>,
                       results: seq<ValueId>, visited: set<ValueId>, depth: nat, ghost bound: nat)
    returns (results': seq<ValueId>, visited': set<ValueId>, depth': nat)
    requires WellFormed(p) && Closed(p, underlying)
    requires forall x <- incoming :: x in p.values
    requires |p.values.Keys - visited| < bound
    ensures Traced(State(results', visited'), depth') == TraceEach(p, underlying, incoming, State(results, visited), depth)
    decreases bound, 1
  {
    ghost var total := TraceEach(p, underlying, incoming, State(results, visited), depth);
    results', visited', depth' := results, visited, depth;
    assert incoming[0..] == incoming;
    var i := 0;
    while i < |incoming|
      invariant i <= |incoming|
      invariant visited <= visited'
      invariant TraceEach(p, underlying, incoming[i..], State(results', visited'), depth') == total
    {
      assert incoming[i..] == [incoming[i]] + incoming[i + 1..];
      UnvisitedShrinks(p.values.Keys, visited, visited');
      results', visited', depth' :=
        TraceSingle(p, underlying, incoming[i], incoming[i + 1..], results', visited', depth', bound);
      i := i + 1;
    }
  }
}
