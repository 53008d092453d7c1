/**
 * The figures runPtrTracer reports for one pointer argument of a call: a
 * fresh trace of the argument, its origins, the depth it returns (maxDepth),
 * how many roots it visited (indirections) and how many of its origins
 * isAllocating rejects (nonAllocOrigins). Printing them is not modelled.
 */
module PtrReport {
  import opened Wrappers
  import opened IR
  import opened OriginTracer
  import opened PtrTracer
  import opened AllocClassifier
  import opened TracerProperties

  datatype ArgumentReport = ArgumentReport(origins: seq<ValueId>, maxDepth: nat, indirections: nat,
                                           nonAllocOrigins: nat)

  /** Trace argument v from an empty results list and visited set at depth 0,
      then count the origins that are not allocating. The counts nest:
      nonAllocOrigins <= origins <= indirections <= the canonical roots
      reachable from v (bounded by every step-closed set holding its root),
      and there is at least one indirection. */
  method ReportArgument(p: Program, underlying: ValueId -> ValueId, demangle: string -> Option<string>, v: ValueId)
    returns (report: ArgumentReport)
    requires WellFormed(p) && Closed(p, underlying) && v in p.values
    ensures var r := TraceValue(p, underlying, v, State([], {}), 0);
      && report.origins == r.state.results
      && report.maxDepth == r.depth
      && report.indirections == |r.state.visited|
    ensures forall x <- report.origins :: x in p.values
    ensures report.nonAllocOrigins == NonAllocOrigins(p, demangle, report.origins)
    ensures report.nonAllocOrigins <= |report.origins| <= report.indirections <= |RootImage(p, underlying)|
    ensures forall R | StepClosed(p, underlying, R) && underlying(v) in R :: report.indirections <= |R|
    ensures 1 <= report.indirections
    ensures NoDuplicates(report.origins)
  {
    var results, visited, depth := Trace(p, underlying, v, [], {}, 0);
    FreshTrace(p, underlying, v);
    DistinctWithin(results, visited);
    SubsetCardinality(visited, RootImage(p, underlying));
    forall R | StepClosed(p, underlying, R) && underlying(v) in R
      ensures |visited| <= |R|
    {
      FreshTraceStaysInReach(p, underlying, v, R);
      SubsetCardinality(visited, R);
    }
    var nonAlloc := NonAllocOrigins(p, demangle, results);
    report := ArgumentReport(results, depth, |visited|, nonAlloc);
  }

  lemma SubsetCardinality(a: set<ValueId>, b: set<ValueId>)
    requires a <= b
    ensures |a| <= |b|
  {
    assert b == a + (b - a);
  }
}
