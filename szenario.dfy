/**
 * `Szenario` of trace_explorer/analysis/models.py: one end-to-end test execution with the
 * traces it produced, and the summary the report is rendered from.
 */
module Szenarios {
  import opened Traces
  import opened Sorting

  /** `Trace.__dict__`. */
  datatype TraceSummary = TraceSummary(traceId: string, errorCount: int, startTime: int, filename: string)

  /** `Szenario.__dict__`. */
  datatype SzenarioSummary = SzenarioSummary(
    name: string,
    errors: string,
    failures: string,
    traces: seq<TraceSummary>,
    tracesCount: nat,
    errorsCount: nat,
    testError: bool,
    testFailed: bool)

  function SummaryOf(t: Trace): TraceSummary
    reads t
  {
    TraceSummary(t.traceId, t.errorCount, t.startTime, t.filename)
  }

  /**
   * `re.match(r'^\[\]$', s)`: the two characters `[]`, then the end of the string or a
   * newline that ends it (`$` also matches before a final newline).
   */
  function MatchesEmptyList(s: string): (b: bool)
    ensures b <==> s == "[]" || s == "[]\n"
  {
    && |s| >= 2 && s[0] == '[' && s[1] == ']'
    && (|s| == 2 || (|s| == 3 && s[2] == '\n'))
  }

  /** The summary of each trace, in order. */
  function Summaries(ts: seq<Trace>): (r: seq<TraceSummary>)
    reads ts
    ensures |r| == |ts| && forall i :: 0 <= i < |ts| ==> r[i] == SummaryOf(ts[i])
    decreases |ts|
  {
    if ts == [] then [] else Summaries(ts[..|ts| - 1]) + [SummaryOf(ts[|ts| - 1])]
  }

  /** The test of `traces_with_error`. */
  predicate HasErrors(x: TraceSummary)
  {
    x.errorCount > 0
  }

  /** The positions of the traces with a positive error count. */
  function ErroredIndices(ts: seq<Trace>): set<nat>
    reads ts
  {
    set i: nat | i < |ts| && ts[i].errorCount > 0
  }

  /** The last trace adds its own position to the errored positions of the others, if it has errors. */
  lemma ErroredIndicesSnoc(ts: seq<Trace>)
    requires ts != []
    ensures var front := ts[..|ts| - 1];
            && ErroredIndices(ts) == ErroredIndices(front) + (if ts[|ts| - 1].errorCount > 0 then {|ts| - 1} else {})
            && |ts| - 1 !in ErroredIndices(front)
  {
    var front := ts[..|ts| - 1];
    var extra: set<nat> := if ts[|ts| - 1].errorCount > 0 then {|ts| - 1} else {};
    forall i: nat ensures i in ErroredIndices(ts) <==> i in ErroredIndices(front) + extra {
      if i < |ts| - 1 {
        assert front[i] == ts[i];
      }
    }
  }

  /**
   * `traces_with_error`: the summaries of the traces with a positive error count, in order
   * and each as often as its trace occurs; there are as many as there are such traces.
   */
  function ErroredSummaries(ts: seq<Trace>): (r: seq<TraceSummary>)
    reads ts
    ensures |r| <= |ts|
    ensures r == Keep(Summaries(ts), HasErrors)
    ensures |r| == |ErroredIndices(ts)|
    decreases |ts|
  {
    if ts == [] then
      assert ErroredIndices(ts) == {};
      []
    else
      var front := ts[..|ts| - 1];
      var rest := ErroredSummaries(front);
      var t := ts[|ts| - 1];
      assert forall i :: 0 <= i < |ts| - 1 ==> front[i] == ts[i];
      KeepAppend(Summaries(front), [SummaryOf(t)], HasErrors);
      assert Keep([SummaryOf(t)], HasErrors) == if t.errorCount > 0 then [SummaryOf(t)] else [] by {
        assert [SummaryOf(t)][1..] == [];
      }
      ErroredIndicesSnoc(ts);
      if t.errorCount > 0 then rest + [SummaryOf(t)] else rest
  }

  /** A summary is listed exactly when it is that of a trace with a positive error count. */
  lemma ErroredSummariesMembers(ts: seq<Trace>)
    ensures forall x :: x in ErroredSummaries(ts) ==>
              exists i :: 0 <= i < |ts| && ts[i].errorCount > 0 && x == SummaryOf(ts[i])
    ensures forall i :: 0 <= i < |ts| && ts[i].errorCount > 0 ==> SummaryOf(ts[i]) in ErroredSummaries(ts)
  {
    var all := Summaries(ts);
    forall x ensures x in ErroredSummaries(ts) <==> x in all && HasErrors(x) {
      KeepMembers(all, HasErrors, x);
    }
    forall x | x in ErroredSummaries(ts)
      ensures exists i :: 0 <= i < |ts| && ts[i].errorCount > 0 && x == SummaryOf(ts[i])
    {
      var i :| 0 <= i < |all| && all[i] == x;
    }
    forall i | 0 <= i < |ts| && ts[i].errorCount > 0 ensures SummaryOf(ts[i]) in ErroredSummaries(ts) {
      assert all[i] == SummaryOf(ts[i]);
    }
  }

  function Sum(xs: seq<int>): int
    decreases |xs|
  {
    if xs == [] then 0 else Sum(xs[..|xs| - 1]) + xs[|xs| - 1]
  }

  class Szenario {
    var name: string
    var errors: string
    var failures: string
    var traces: seq<Trace>
    var tracesErrorCount: int
    /** The error count of each trace at the moment it was added. */
    ghost var addedCounts: seq<int>

    /** `traces_error_count` is the sum of the error counts the traces had when added. */
    ghost predicate Valid()
      reads this
    {
      |addedCounts| == |traces| && tracesErrorCount == Sum(addedCounts)
    }

    constructor (name: string, errors: string, failures: string)
      ensures Valid()
      ensures this.name == name && this.errors == errors && this.failures == failures
      ensures traces == [] && tracesErrorCount == 0
    {
      this.name := name;
      this.errors := errors;
      this.failures := failures;
      traces := [];
      tracesErrorCount := 0;
      addedCounts := [];
    }

    /** `add_trace`: the trace is appended and its error count added to the total. */
    method AddTrace(t: Trace)
      requires Valid()
      modifies this
      ensures Valid()
      ensures traces == old(traces) + [t] && addedCounts == old(addedCounts) + [t.errorCount]
      ensures tracesErrorCount == old(tracesErrorCount) + t.errorCount
      ensures name == old(name) && errors == old(errors) && failures == old(failures)
    {
      traces := traces + [t];
      tracesErrorCount := tracesErrorCount + t.errorCount;
      addedCounts := addedCounts + [t.errorCount];
      assert addedCounts[..|addedCounts| - 1] == old(addedCounts);
    }

    /** `has_error`: the test reported errors unless its error list is the empty list `[]`. */
    function HasError(): (b: bool)
      reads this
      ensures b <==> errors != "[]" && errors != "[]\n"
    {
      !MatchesEmptyList(errors)
    }

    /** `has_failed`, the same test on the failure list. */
    function HasFailed(): (b: bool)
      reads this
      ensures b <==> failures != "[]" && failures != "[]\n"
    {
      !MatchesEmptyList(failures)
    }

    /**
     * `__dict__`: the summaries of the traces that have errors, how many traces there
     * are and how many of them have errors.
     */
    function Summary(): (r: SzenarioSummary)
      reads this, traces
      ensures r.tracesCount == |traces| && r.errorsCount == |r.traces| <= r.tracesCount
      ensures r.traces == Keep(Summaries(traces), HasErrors)
      ensures r.errorsCount == |ErroredIndices(traces)|
      ensures forall i :: 0 <= i < |traces| && traces[i].errorCount > 0 ==> SummaryOf(traces[i]) in r.traces
      ensures forall x :: x in r.traces ==> x.errorCount > 0
      ensures r.testError == HasError() && r.testFailed == HasFailed()
    {
      var withError := ErroredSummaries(traces);
      ErroredSummariesMembers(traces);
      SzenarioSummary(name, errors, failures, withError, |traces|, |withError|, HasError(), HasFailed())
    }
  }

  /**
   * With error counts that are counts (as `set_error_count` leaves them), the total of a
   * scenario is zero exactly when none of its traces had an error when it was added.
   */
  lemma {:induction false} SumOfCounts(xs: seq<int>)
    requires forall i :: 0 <= i < |xs| ==> xs[i] >= 0
    ensures Sum(xs) >= 0
    ensures Sum(xs) == 0 <==> forall i :: 0 <= i < |xs| ==> xs[i] == 0
    decreases |xs|
  {
    if xs != [] {
      var ys := xs[..|xs| - 1];
      assert forall i :: 0 <= i < |ys| ==> ys[i] == xs[i];
      SumOfCounts(ys);
    }
  }
}
