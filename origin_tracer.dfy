/**
 * The pointer-origin tracer (traceValueOrigin in ptr-tracer/plugin.cpp).
 *
 * TraceValue and TraceEach are the reference definition: TraceValue is one
 * call of the tracer, TraceEach is a run of `traceSingle` calls over a list
 * of values, threading the shared results, visited set and running depth.
 * The method Trace in module PtrTracer is the imperative tracer, proved equal
 * to TraceValue.
 */
module OriginTracer {
  import opened Wrappers
  import opened IR

  /** The two collections the source passes by reference: the origins found
      so far, in order, and the canonical roots visited so far. */
  datatype State = State(results: seq<ValueId>, visited: set<ValueId>)

  /** What one trace leaves behind: the new state and the depth it returns. */
  datatype Traced = Traced(state: State, depth: nat)

  /** The canonicaliser maps every value of the program to a value of the program. */
  predicate Closed(p: Program, underlying: ValueId -> ValueId)
  {
    forall v {:trigger underlying(v)} | v in p.values :: underlying(v) in p.values
  }

  /** The canonical roots of the program: the only ids the tracer ever visits. */
  function RootImage(p: Program, underlying: ValueId -> ValueId): (r: set<ValueId>)
    requires Closed(p, underlying)
    ensures r <= p.values.Keys
  {
    set v | v in p.values :: underlying(v)
  }

  /** Kinds the tracer does not look through: a root of one of these kinds
      is appended to the results. */
  predicate IsOrigin(v: Value)
  {
    !(v.Call? || v.Invoke? || v.Argument? || v.Load? || v.GetElementPtr? || v.ExtractValue? ||
      v.InsertValue? || v.IntToPtr? || v.Phi? || v.Select?)
  }

  predicate NoDuplicates(s: seq<ValueId>)
  {
    forall i, j | 0 <= i < j < |s| :: s[i] != s[j]
  }

  /** The invariant the tracer keeps: no origin twice, and every origin visited. */
  predicate Consistent(st: State)
  {
    NoDuplicates(st.results) && forall x <- st.results :: x in st.visited
  }

  /** How a trace may change the state: the visited set only grows, and only
      by canonical roots; the results only grow at the end, and every origin
      appended is a root visited by this trace, of an origin kind. */
  predicate Grows(p: Program, underlying: ValueId -> ValueId, before: State, after: State)
    requires Closed(p, underlying)
  {
    && before.visited <= after.visited
    && before.results <= after.results
    && after.visited - before.visited <= RootImage(p, underlying)
    && forall i | |before.results| <= i < |after.results| ::
         && after.results[i] in after.visited - before.visited
         && after.results[i] in p.values
         && IsOrigin(p.values[after.results[i]])
  }

  lemma GrowsTransitive(p: Program, underlying: ValueId -> ValueId, s0: State, s1: State, s2: State)
    requires Closed(p, underlying)
    requires Grows(p, underlying, s0, s1) && Grows(p, underlying, s1, s2)
    ensures Grows(p, underlying, s0, s2)
  {
    forall i | |s0.results| <= i < |s2.results|
      ensures s2.results[i] in s2.visited - s0.visited
    {
      if i < |s1.results| {
        assert s2.results[i] == s1.results[i];
      }
    }
  }

  /** The returned value of a `ret` instruction, if it has one. */
  function ReturnedValue(v: Value): seq<ValueId>
  {
    if v.Ret? && v.returned.Some? then [v.returned.value] else []
  }

  /** The returned values of the `ret` instructions of one basic block, in order. */
  function BlockReturns(p: Program, insts: seq<ValueId>): (r: seq<ValueId>)
    requires WellFormed(p)
    requires forall i <- insts :: i in p.values
    ensures forall x <- r :: x in p.values
  {
    if insts == [] then []
    else
      assert ValueWellFormed(p, p.values[insts[0]]);
      ReturnedValue(p.values[insts[0]]) + BlockReturns(p, insts[1..])
  }

  /** The returned values of every `ret` in a function body, block by block. */
  function BodyReturns(p: Program, blocks: seq<seq<ValueId>>): (r: seq<ValueId>)
    requires WellFormed(p)
    requires forall b <- blocks, i <- b :: i in p.values
    ensures forall x <- r :: x in p.values
  {
    if blocks == [] then []
    else BlockReturns(p, blocks[0]) + BodyReturns(p, blocks[1..])
  }

  lemma BlockReturnsAt(p: Program, insts: seq<ValueId>, k: nat)
    requires WellFormed(p) && forall i <- insts :: i in p.values
    requires k < |insts|
    ensures BlockReturns(p, insts[k..]) == ReturnedValue(p.values[insts[k]]) + BlockReturns(p, insts[k + 1..])
  {
    assert insts[k..][1..] == insts[k + 1..];
  }

  /** The actual bound to formal argNo at each use of a function that is a call site. */
  function CallSiteActuals(p: Program, uses: seq<Use>, argNo: nat): (r: seq<ValueId>)
    requires forall u <- uses :: u.CallSite? ==> argNo < |u.args| && forall a <- u.args :: a in p.values
    ensures forall x <- r :: x in p.values
  {
    if uses == [] then []
    else (if uses[0].CallSite? then [uses[0].args[argNo]] else []) + CallSiteActuals(p, uses[1..], argNo)
  }

  lemma CallSiteActualsAt(p: Program, uses: seq<Use>, argNo: nat, i: nat)
    requires forall u <- uses :: u.CallSite? ==> argNo < |u.args| && forall a <- u.args :: a in p.values
    requires i < |uses|
    ensures CallSiteActuals(p, uses[i..], argNo)
         == (if uses[i].CallSite? then [uses[i].args[argNo]] else []) + CallSiteActuals(p, uses[i + 1..], argNo)
  {
    assert uses[i..][1..] == uses[i + 1..];
  }

  /** What the tracer does with a root that was not yet visited, by its kind. */
  datatype Dispatch =
    | Single(next: ValueId)       // traceSingle0: follow one value, return its depth
    | Each(values: seq<ValueId>)  // traceSingle on each value, return the running depth
    | Origin                      // append the root to the results

  /** The dispatch table of traceValueOrigin: calls follow the callee's
      returned values (or, unresolved, the call itself; declared only, the
      callee), arguments the actuals at every call site, the five single-operand
      instructions their operand, PHI and select all their incoming values. */
  function Step(p: Program, root: ValueId): (d: Dispatch)
    requires WellFormed(p) && root in p.values
    ensures d.Single? ==> d.next in p.values
    ensures d.Each? ==> forall x <- d.values :: x in p.values
    ensures d.Origin? <==> IsOrigin(p.values[root])
  {
    var x := p.values[root];
    assert ValueWellFormed(p, x);
    if x.Call? || x.Invoke? then
      if x.callee.None? then Single(root)
      else if IsDeclaration(p.values[x.callee.value]) then Single(x.callee.value)
      else
        assert ValueWellFormed(p, p.values[x.callee.value]);
        Each(BodyReturns(p, p.values[x.callee.value].blocks))
    else
      match x
      case Argument(parent, argNo) =>
        assert ValueWellFormed(p, p.values[parent]);
        Each(CallSiteActuals(p, p.values[parent].uses, argNo))
      case Load(ptr) => Single(ptr)
      case GetElementPtr(ptr) => Single(ptr)
      case ExtractValue(agg) => Single(agg)
      case InsertValue(agg) => Single(agg)
      case IntToPtr(op) => Single(op)
      case Phi(incoming) => Each(incoming)
      case Select(_, t, f) => Each([t, f])
      case _ => Origin
  }

  /** One call of the tracer on value v (traceValueOrigin): a root already
      visited ends the trace at once; otherwise it is marked visited and
      handled by TraceRoot. */
  function TraceValue(p: Program, underlying: ValueId -> ValueId, v: ValueId, st: State, depth: nat): (r: Traced)
    requires WellFormed(p) && Closed(p, underlying) && v in p.values
    ensures st.visited <= r.state.visited
    decreases |p.values.Keys - st.visited|, 0, 0
  {
    var root := underlying(v);
    if root in st.visited then Traced(st, depth)
    else
      var st' := State(st.results, st.visited + {root});
      assert |p.values.Keys - st'.visited| < |p.values.Keys - st.visited| by {
        assert p.values.Keys - st.visited == (p.values.Keys - st'.visited) + {root};
      }
      TraceRoot(p, underlying, root, st', depth)
  }

  /** What the tracer does with a root it has just marked visited: follow it
      as Step says, or append it to the results. */
  function TraceRoot(p: Program, underlying: ValueId -> ValueId, root: ValueId, st: State, depth: nat): (r: Traced)
    requires WellFormed(p) && Closed(p, underlying) && root in p.values
    ensures st.visited <= r.state.visited
    decreases |p.values.Keys - st.visited|, 1, 0
  {
    match Step(p, root)
    case Single(next) => TraceValue(p, underlying, next, st, depth + 1)
    case Each(xs) => TraceEach(p, underlying, xs, st, depth)
    case Origin => Traced(State(st.results + [root], st.visited), depth)
  }

  /** `traceSingle` applied to each of xs in turn: each child is traced one
      level deeper than the running depth, and the running depth becomes the
      larger of itself and the child's depth. */
  function TraceEach(p: Program, underlying: ValueId -> ValueId, xs: seq<ValueId>, st: State, depth: nat): (r: Traced)
    requires WellFormed(p) && Closed(p, underlying) && forall x <- xs :: x in p.values
    ensures st.visited <= r.state.visited
    decreases |p.values.Keys - st.visited|, 0, |xs|
  {
    if xs == [] then Traced(st, depth)
    else
      var first := TraceValue(p, underlying, xs[0], st, depth + 1);
      UnvisitedShrinks(p.values.Keys, st.visited, first.state.visited);
      TraceEach(p, underlying, xs[1..], first.state, Max(depth, first.depth))
  }

  /** TraceRoot by the three kinds of dispatch. */
  lemma TraceRootStep(p: Program, underlying: ValueId -> ValueId, root: ValueId, st: State, depth: nat)
    requires WellFormed(p) && Closed(p, underlying) && root in p.values
    ensures var r := TraceRoot(p, underlying, root, st, depth);
      && (Step(p, root).Single? ==> r == TraceValue(p, underlying, Step(p, root).next, st, depth + 1))
      && (Step(p, root).Each? ==> r == TraceEach(p, underlying, Step(p, root).values, st, depth))
      && (Step(p, root).Origin? ==> r == Traced(State(st.results + [root], st.visited), depth))
  {
  }

  /** One traceSingle step: tracing [x] + rest traces x one level deeper,
      then the rest from the state and running depth it leaves. */
  lemma TraceEachCons(p: Program, underlying: ValueId -> ValueId, x: ValueId, rest: seq<ValueId>,
                      st: State, depth: nat)
    requires WellFormed(p) && Closed(p, underlying) && x in p.values && forall y <- rest :: y in p.values
    ensures var first := TraceValue(p, underlying, x, st, depth + 1);
      TraceEach(p, underlying, [x] + rest, st, depth) == TraceEach(p, underlying, rest, first.state, Max(depth, first.depth))
  {
    assert ([x] + rest)[1..] == rest;
  }

  /** Tracing a + b traces a, then b from where a left off. */
  lemma {:induction false} TraceEachAppend(p: Program, underlying: ValueId -> ValueId, a: seq<ValueId>, b: seq<ValueId>,
                                          st: State, depth: nat)
    requires WellFormed(p) && Closed(p, underlying) && (forall x <- a :: x in p.values) && forall x <- b :: x in p.values
    ensures var ra := TraceEach(p, underlying, a, st, depth);
      TraceEach(p, underlying, a + b, st, depth) == TraceEach(p, underlying, b, ra.state, ra.depth)
    decreases |a|
  {
    if a == [] {
      assert a + b == b;
    } else {
      var first := TraceValue(p, underlying, a[0], st, depth + 1);
      assert (a + b)[0] == a[0] && (a + b)[1..] == a[1..] + b;
      TraceEachAppend(p, underlying, a[1..], b, first.state, Max(depth, first.depth));
    }
  }

  /** What every trace guarantees: the state only Grows, the Consistent
      invariant is kept, the root of v ends up visited, and the depth
      returned is never below the depth passed in. */
  lemma {:induction false} TraceValueKeepsInvariant(p: Program, underlying: ValueId -> ValueId, v: ValueId,
                                                   st: State, depth: nat)
    requires WellFormed(p) && Closed(p, underlying) && v in p.values
    ensures var r := TraceValue(p, underlying, v, st, depth);
      && Grows(p, underlying, st, r.state)
      && (Consistent(st) ==> Consistent(r.state))
      && underlying(v) in r.state.visited
      && depth <= r.depth
    decreases |p.values.Keys - st.visited|, 0, 0
  {
    var root := underlying(v);
    if root !in st.visited {
      var st' := State(st.results, st.visited + {root});
      assert |p.values.Keys - st'.visited| < |p.values.Keys - st.visited| by {
        assert p.values.Keys - st.visited == (p.values.Keys - st'.visited) + {root};
      }
      assert Grows(p, underlying, st, st');
      TraceRootStep(p, underlying, root, st', depth);
      match Step(p, root)
      case Single(next) =>
        TraceValueKeepsInvariant(p, underlying, next, st', depth + 1);
        GrowsTransitive(p, underlying, st, st', TraceValue(p, underlying, next, st', depth + 1).state);
      case Each(xs) =>
        TraceEachKeepsInvariant(p, underlying, xs, st', depth);
        GrowsTransitive(p, underlying, st, st', TraceEach(p, underlying, xs, st', depth).state);
      case Origin =>
    }
  }

  /** The same for a run of traceSingle calls; every one of xs has its root visited. */
  lemma {:induction false} TraceEachKeepsInvariant(p: Program, underlying: ValueId -> ValueId, xs: seq<ValueId>,
                                                  st: State, depth: nat)
    requires WellFormed(p) && Closed(p, underlying) && forall x <- xs :: x in p.values
    ensures var r := TraceEach(p, underlying, xs, st, depth);
      && Grows(p, underlying, st, r.state)
      && (Consistent(st) ==> Consistent(r.state))
      && (forall x <- xs :: underlying(x) in r.state.visited)
      && depth <= r.depth
    decreases |p.values.Keys - st.visited|, 0, |xs|
  {
    if xs != [] {
      var first := TraceValue(p, underlying, xs[0], st, depth + 1);
      TraceValueKeepsInvariant(p, underlying, xs[0], st, depth + 1);
      UnvisitedShrinks(p.values.Keys, st.visited, first.state.visited);
      TraceEachKeepsInvariant(p, underlying, xs[1..], first.state, Max(depth, first.depth));
      var rest := TraceEach(p, underlying, xs[1..], first.state, Max(depth, first.depth));
      GrowsTransitive(p, underlying, st, first.state, rest.state);
      assert forall x <- xs :: x == xs[0] || x in xs[1..];
    }
  }

  /** The values the tracer follows a root to, as Step dispatches it. */
  function Successors(p: Program, root: ValueId): (s: seq<ValueId>)
    requires WellFormed(p) && root in p.values
    ensures forall x <- s :: x in p.values
    ensures s == [] <== IsOrigin(p.values[root])
  {
    match Step(p, root)
    case Single(next) => [next]
    case Each(xs) => xs
    case Origin => []
  }

  /** A set of canonical roots closed under the tracer's steps: for every
      root of the program in R, the root of every value it is followed to is
      in R. The roots reachable from a value are the least such set holding
      the value's own root. */
  predicate StepClosed(p: Program, underlying: ValueId -> ValueId, R: set<ValueId>)
    requires WellFormed(p)
  {
    forall r, x | r in R && r in p.values && x in Successors(p, r) :: underlying(x) in R
  }

  /** All the canonical roots of the program form one such set. */
  lemma RootImageStepClosed(p: Program, underlying: ValueId -> ValueId)
    requires WellFormed(p) && Closed(p, underlying)
    ensures StepClosed(p, underlying, RootImage(p, underlying))
  {
  }

  /** A trace visits only roots reachable from v: every root it adds to the
      visited set lies in each step-closed set holding the root of v. */
  lemma {:induction false} TraceValueStaysInReach(p: Program, underlying: ValueId -> ValueId, v: ValueId,
                                                 st: State, depth: nat, R: set<ValueId>)
    requires WellFormed(p) && Closed(p, underlying) && v in p.values
    requires StepClosed(p, underlying, R) && underlying(v) in R
    ensures TraceValue(p, underlying, v, st, depth).state.visited <= st.visited + R
    decreases |p.values.Keys - st.visited|, 0, 0
  {
    var root := underlying(v);
    if root !in st.visited {
      var st' := State(st.results, st.visited + {root});
      assert |p.values.Keys - st'.visited| < |p.values.Keys - st.visited| by {
        assert p.values.Keys - st.visited == (p.values.Keys - st'.visited) + {root};
      }
      TraceRootStep(p, underlying, root, st', depth);
      match Step(p, root)
      case Single(next) =>
        assert next in Successors(p, root);
        TraceValueStaysInReach(p, underlying, next, st', depth + 1, R);
      case Each(xs) =>
        assert Successors(p, root) == xs;
        TraceEachStaysInReach(p, underlying, xs, st', depth, R);
      case Origin =>
    }
  }

  /** The same for a run of traceSingle calls over values whose roots are in R. */
  lemma {:induction false} TraceEachStaysInReach(p: Program, underlying: ValueId -> ValueId, xs: seq<ValueId>,
                                                st: State, depth: nat, R: set<ValueId>)
    requires WellFormed(p) && Closed(p, underlying) && forall x <- xs :: x in p.values
    requires StepClosed(p, underlying, R) && forall x <- xs :: underlying(x) in R
    ensures TraceEach(p, underlying, xs, st, depth).state.visited <= st.visited + R
    decreases |p.values.Keys - st.visited|, 0, |xs|
  {
    if xs != [] {
      var first := TraceValue(p, underlying, xs[0], st, depth + 1);
      TraceValueStaysInReach(p, underlying, xs[0], st, depth + 1, R);
      UnvisitedShrinks(p.values.Keys, st.visited, first.state.visited);
      TraceEachStaysInReach(p, underlying, xs[1..], first.state, Max(depth, first.depth), R);
    }
  }

  /** Visiting more leaves fewer ids unvisited: the measure of the recursion. */
  lemma UnvisitedShrinks(all: set<ValueId>, a: set<ValueId>, b: set<ValueId>)
    requires a <= b
    ensures |all - b| <= |all - a|
  {
    assert all - a == (all - b) + ((all - a) - (all - b));
  }

  function Max(a: nat, b: nat): nat
  {
    if a < b then b else a
  }
}
