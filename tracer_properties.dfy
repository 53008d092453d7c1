/**
 * What traceValueOrigin promises, stated of the reference definition
 * OriginTracer.TraceValue (and so, through PtrTracer.Trace, of the tracer):
 * the visited guard, the per-kind dispatch rules, the two ways a call with
 * no body to look into ends, and the invariants of a trace started afresh.
 */
module TracerProperties {
  import opened Wrappers
  import opened IR
  import opened OriginTracer

  /** A root already visited ends the trace: nothing changes and the depth
      passed in is returned. */
  lemma VisitedRootStops(p: Program, underlying: ValueId -> ValueId, v: ValueId, st: State, depth: nat)
    requires WellFormed(p) && Closed(p, underlying) && v in p.values
    requires underlying(v) in st.visited
    ensures TraceValue(p, underlying, v, st, depth) == Traced(st, depth)
  {
  }

  /** A load, GEP, extractvalue, insertvalue or inttoptr root is marked
      visited and its one operand is traced one level deeper; the trace of
      the operand is the whole result, so nothing is appended for the root
      and the depth returned exceeds the depth passed in. */
  lemma SingleOperandFollowed(p: Program, underlying: ValueId -> ValueId, v: ValueId, st: State, depth: nat,
                              operand: ValueId)
    requires WellFormed(p) && Closed(p, underlying) && v in p.values
    requires underlying(v) !in st.visited
    requires var x := p.values[underlying(v)];
      || x == Load(operand) || x == GetElementPtr(operand) || x == ExtractValue(operand)
      || x == InsertValue(operand) || x == IntToPtr(operand)
    ensures operand in p.values
    ensures var st' := State(st.results, st.visited + {underlying(v)});
      var r := TraceValue(p, underlying, v, st, depth);
      && r == TraceValue(p, underlying, operand, st', depth + 1)
      && depth < r.depth
  {
    var root := underlying(v);
    var st' := State(st.results, st.visited + {root});
    assert ValueWellFormed(p, p.values[root]);
    TraceRootStep(p, underlying, root, st', depth);
    assert Step(p, root) == Single(operand);
    TraceValueKeepsInvariant(p, underlying, operand, st', depth + 1);
  }

  /** A PHI root traces every incoming value in turn with traceSingle: the
      result is that run, every incoming value's root ends up visited, and
      the depth never drops. */
  lemma PhiFollowsEveryIncoming(p: Program, underlying: ValueId -> ValueId, v: ValueId, st: State, depth: nat)
    requires WellFormed(p) && Closed(p, underlying) && v in p.values
    requires underlying(v) !in st.visited && p.values[underlying(v)].Phi?
    ensures var incoming := p.values[underlying(v)].incoming;
      var st' := State(st.results, st.visited + {underlying(v)});
      var r := TraceValue(p, underlying, v, st, depth);
      && (forall x <- incoming :: x in p.values)
      && r == TraceEach(p, underlying, incoming, st', depth)
      && (forall x <- incoming :: underlying(x) in r.state.visited)
      && depth <= r.depth
  {
    var root := underlying(v);
    var st' := State(st.results, st.visited + {root});
    assert ValueWellFormed(p, p.values[root]);
    TraceRootStep(p, underlying, root, st', depth);
    TraceEachKeepsInvariant(p, underlying, p.values[root].incoming, st', depth);
  }

  /** A select root traces its true arm, then its false arm. */
  lemma SelectFollowsBothArms(p: Program, underlying: ValueId -> ValueId, v: ValueId, st: State, depth: nat)
    requires WellFormed(p) && Closed(p, underlying) && v in p.values
    requires underlying(v) !in st.visited && p.values[underlying(v)].Select?
    ensures var x := p.values[underlying(v)];
      var st' := State(st.results, st.visited + {underlying(v)});
      var r := TraceValue(p, underlying, v, st, depth);
      && x.trueValue in p.values && x.falseValue in p.values
      && r == TraceEach(p, underlying, [x.trueValue, x.falseValue], st', depth)
      && underlying(x.trueValue) in r.state.visited && underlying(x.falseValue) in r.state.visited
      && depth <= r.depth
  {
    var root := underlying(v);
    var x := p.values[root];
    var st' := State(st.results, st.visited + {root});
    assert ValueWellFormed(p, x);
    TraceRootStep(p, underlying, root, st', depth);
    TraceEachKeepsInvariant(p, underlying, [x.trueValue, x.falseValue], st', depth);
  }

  /** An argument root traces, with traceSingle, the actual passed at its
      position at every call site of its function, and appends nothing itself. */
  lemma ArgumentFollowsCallSites(p: Program, underlying: ValueId -> ValueId, v: ValueId, st: State, depth: nat)
    requires WellFormed(p) && Closed(p, underlying) && v in p.values
    requires underlying(v) !in st.visited && p.values[underlying(v)].Argument?
    ensures var x := p.values[underlying(v)];
      && IsFunction(p, x.parent)
      && forall u <- p.values[x.parent].uses ::
           u.CallSite? ==> x.argNo < |u.args| && forall a <- u.args :: a in p.values
    ensures var x := p.values[underlying(v)];
      var f := p.values[x.parent];
      var st' := State(st.results, st.visited + {underlying(v)});
      var r := TraceValue(p, underlying, v, st, depth);
      && r == TraceEach(p, underlying, CallSiteActuals(p, f.uses, x.argNo), st', depth)
      && (forall u <- f.uses :: u.CallSite? ==> underlying(u.args[x.argNo]) in r.state.visited)
  {
    var root := underlying(v);
    var x := p.values[root];
    var st' := State(st.results, st.visited + {root});
    assert ValueWellFormed(p, x);
    assert ValueWellFormed(p, p.values[x.parent]);
    TraceRootStep(p, underlying, root, st', depth);
    var actuals := CallSiteActuals(p, p.values[x.parent].uses, x.argNo);
    TraceEachKeepsInvariant(p, underlying, actuals, st', depth);
    forall u <- p.values[x.parent].uses | u.CallSite?
      ensures u.args[x.argNo] in actuals
    {
      ActualInCallSiteActuals(p, p.values[x.parent].uses, x.argNo, u);
    }
  }

  /** An argument of a function that no call site calls is not an origin
      either: it is marked visited and the trace adds nothing. */
  lemma UncalledArgumentAddsNoOrigin(p: Program, underlying: ValueId -> ValueId, v: ValueId, st: State, depth: nat)
    requires WellFormed(p) && Closed(p, underlying) && v in p.values
    requires var root := underlying(v);
      && root !in st.visited && p.values[root].Argument?
      && IsFunction(p, p.values[root].parent)
      && forall u <- p.values[p.values[root].parent].uses :: !u.CallSite?
    ensures TraceValue(p, underlying, v, st, depth) == Traced(State(st.results, st.visited + {underlying(v)}), depth)
  {
    var root := underlying(v);
    var x := p.values[root];
    ArgumentFollowsCallSites(p, underlying, v, st, depth);
    NoCallSiteNoActuals(p, p.values[x.parent].uses, x.argNo);
  }

  lemma {:induction false} NoCallSiteNoActuals(p: Program, uses: seq<Use>, argNo: nat)
    requires forall u <- uses :: !u.CallSite?
    ensures CallSiteActuals(p, uses, argNo) == []
    decreases |uses|
  {
    if uses != [] {
      assert uses[0] in uses;
      NoCallSiteNoActuals(p, uses[1..], argNo);
    }
  }

  /** Every call site contributes its actual to CallSiteActuals. */
  lemma {:induction false} ActualInCallSiteActuals(p: Program, uses: seq<Use>, argNo: nat, u: Use)
    requires forall w <- uses :: w.CallSite? ==> argNo < |w.args| && forall a <- w.args :: a in p.values
    requires u in uses && u.CallSite?
    ensures u.args[argNo] in CallSiteActuals(p, uses, argNo)
    decreases |uses|
  {
    if uses[0] != u {
      assert u in uses[1..];
      ActualInCallSiteActuals(p, uses[1..], argNo, u);
    }
  }

  /** A call with no resolvable callee traces itself again one level deeper;
      when the call is its own root, that trace stops at the visited guard,
      so the call adds no origin and only marks itself visited. */
  lemma UnresolvedCallAddsNoOrigin(p: Program, underlying: ValueId -> ValueId, v: ValueId, st: State, depth: nat)
    requires WellFormed(p) && Closed(p, underlying) && v in p.values
    requires var root := underlying(v);
      && root !in st.visited
      && (p.values[root] == Call(None) || p.values[root] == Invoke(None))
      && underlying(root) == root
    ensures TraceValue(p, underlying, v, st, depth)
         == Traced(State(st.results, st.visited + {underlying(v)}), depth + 1)
  {
    var root := underlying(v);
    var st' := State(st.results, st.visited + {root});
    TraceRootStep(p, underlying, root, st', depth);
    assert Step(p, root) == Single(root);
  }

  /** A call to a function that is only declared traces that function; the
      function is its own root, so it is appended as the one origin. */
  lemma DeclaredCalleeIsOrigin(p: Program, underlying: ValueId -> ValueId, v: ValueId, st: State, depth: nat,
                               callee: ValueId)
    requires WellFormed(p) && Closed(p, underlying) && v in p.values
    requires var root := underlying(v);
      && root !in st.visited
      && (p.values[root] == Call(Some(callee)) || p.values[root] == Invoke(Some(callee)))
      && underlying(callee) == callee && callee !in st.visited
    requires IsFunction(p, callee) && IsDeclaration(p.values[callee])
    ensures TraceValue(p, underlying, v, st, depth)
         == Traced(State(st.results + [callee], st.visited + {underlying(v), callee}), depth + 1)
  {
    var root := underlying(v);
    var st' := State(st.results, st.visited + {root});
    TraceRootStep(p, underlying, root, st', depth);
    assert Step(p, root) == Single(callee);
    assert callee != root;
    var st'' := State(st.results, st'.visited + {callee});
    TraceRootStep(p, underlying, callee, st'', depth + 1);
    assert Step(p, callee) == Origin;
    assert st'.visited + {callee} == st.visited + {root, callee};
  }

  /** A call to a function with a body traces the returned value of every
      `ret` in that body, block by block, with traceSingle. */
  lemma DefinedCalleeFollowsReturns(p: Program, underlying: ValueId -> ValueId, v: ValueId, st: State, depth: nat,
                                    callee: ValueId)
    requires WellFormed(p) && Closed(p, underlying) && v in p.values
    requires var root := underlying(v);
      && root !in st.visited
      && (p.values[root] == Call(Some(callee)) || p.values[root] == Invoke(Some(callee)))
    requires IsFunction(p, callee) && !IsDeclaration(p.values[callee])
    ensures var f := p.values[callee];
      var st' := State(st.results, st.visited + {underlying(v)});
      var r := TraceValue(p, underlying, v, st, depth);
      && (forall b <- f.blocks, i <- b :: i in p.values)
      && r == TraceEach(p, underlying, BodyReturns(p, f.blocks), st', depth)
      && (forall x <- BodyReturns(p, f.blocks) :: underlying(x) in r.state.visited)
  {
    var root := underlying(v);
    var st' := State(st.results, st.visited + {root});
    assert ValueWellFormed(p, p.values[callee]);
    TraceRootStep(p, underlying, root, st', depth);
    assert Step(p, root) == Each(BodyReturns(p, p.values[callee].blocks));
    TraceEachKeepsInvariant(p, underlying, BodyReturns(p, p.values[callee].blocks), st', depth);
  }

  /** Any other kind of root is an origin: it is appended, once, at the
      depth passed in. */
  lemma OtherRootIsOrigin(p: Program, underlying: ValueId -> ValueId, v: ValueId, st: State, depth: nat)
    requires WellFormed(p) && Closed(p, underlying) && v in p.values
    requires underlying(v) !in st.visited && IsOrigin(p.values[underlying(v)])
    ensures TraceValue(p, underlying, v, st, depth)
         == Traced(State(st.results + [underlying(v)], st.visited + {underlying(v)}), depth)
  {
    var root := underlying(v);
    TraceRootStep(p, underlying, root, State(st.results, st.visited + {root}), depth);
  }

  /** A trace started afresh, as the report starts one for every pointer
      argument: no origin twice, every origin a visited root of an origin
      kind, only canonical roots visited, and the root of v among them. */
  lemma FreshTrace(p: Program, underlying: ValueId -> ValueId, v: ValueId)
    requires WellFormed(p) && Closed(p, underlying) && v in p.values
    ensures var r := TraceValue(p, underlying, v, State([], {}), 0);
      && NoDuplicates(r.state.results)
      && (forall x <- r.state.results :: x in r.state.visited && x in p.values && IsOrigin(p.values[x]))
      && r.state.visited <= RootImage(p, underlying)
      && underlying(v) in r.state.visited
  {
    var r := TraceValue(p, underlying, v, State([], {}), 0);
    TraceValueKeepsInvariant(p, underlying, v, State([], {}), 0);
    forall x <- r.state.results
      ensures x in p.values && IsOrigin(p.values[x])
    {
      var i :| 0 <= i < |r.state.results| && r.state.results[i] == x;
    }
  }

  /** A fresh trace visits only the roots reachable from v: its visited set
      lies within every step-closed set that holds the root of v. */
  lemma FreshTraceStaysInReach(p: Program, underlying: ValueId -> ValueId, v: ValueId, R: set<ValueId>)
    requires WellFormed(p) && Closed(p, underlying) && v in p.values
    requires StepClosed(p, underlying, R) && underlying(v) in R
    ensures TraceValue(p, underlying, v, State([], {}), 0).state.visited <= R
  {
    TraceValueStaysInReach(p, underlying, v, State([], {}), 0, R);
  }

  /** A list without duplicates drawn from a set is no longer than the set. */
  lemma {:induction false} DistinctWithin(s: seq<ValueId>, within: set<ValueId>)
    requires NoDuplicates(s) && forall x <- s :: x in within
    ensures |s| <= |within|
    decreases |s|
  {
    if s != [] {
      assert forall x <- s[1..] :: x != s[0] by {
        forall x <- s[1..] ensures x != s[0] {
          var j :| 0 <= j < |s[1..]| && s[1..][j] == x;
          assert s[j + 1] == x;
        }
      }
      assert NoDuplicates(s[1..]) by {
        forall i, j | 0 <= i < j < |s[1..]| ensures s[1..][i] != s[1..][j] {
          assert s[1..][i] == s[i + 1] && s[1..][j] == s[j + 1];
        }
      }
      DistinctWithin(s[1..], within - {s[0]});
    }
  }
}
