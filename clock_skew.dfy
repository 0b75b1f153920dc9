/**
 * Clock-skew adjustment of trace_explorer/analysis/clock_skew.py: a child span that does
 * not start after its parent is moved, with every timestamp it owns, to one microsecond
 * after the parent's start.
 */
module ClockSkew {
  import opened Wrappers
  import opened Spans
  import opened Traces

  /** `get_time_shift`: the shift that puts the child one microsecond after the parent. */
  function TimeShift(parentTime: int, childTime: int): (d: int)
    ensures childTime + d == parentTime + 1
    ensures d > 0 <==> childTime <= parentTime
  {
    parentTime - childTime + 1
  }

  /**
   * `if span.cause_timestamp:` on a span that has one (a span without an error log has
   * none, and the test raises): a timestamp of 0 is falsy.
   */
  predicate CauseTimestampSet(o: Option<int>)
  {
    o.Some? && o.value != 0
  }

  function ShiftLogs(logs: seq<Log>, shift: int): (r: seq<Log>)
  {
    seq(|logs|, k requires 0 <= k < |logs| => logs[k].(timestamp := logs[k].timestamp + shift))
  }

  /** `adjust_timestamps` on a span value. */
  function Shifted(x: Span, shift: int): Span
  {
    x.(startTime := x.startTime + shift,
       endTime := x.endTime + shift,
       causeTimestamp := if CauseTimestampSet(x.causeTimestamp) then Some(x.causeTimestamp.value + shift) else x.causeTimestamp,
       logs := ShiftLogs(x.logs, shift))
  }

  /**
   * A shift moves the span as a whole: its length, the distances between its logs and
   * the log fields are kept, and nothing but the timestamps changes.
   */
  lemma ShiftedKeepsDistances(x: Span, shift: int)
    ensures var y := Shifted(x, shift);
            && y.startTime == x.startTime + shift && y.endTime == x.endTime + shift
            && y.endTime - y.startTime == x.endTime - x.startTime
            && |y.logs| == |x.logs|
            && (forall k :: 0 <= k < |x.logs| ==>
                  y.logs[k].timestamp == x.logs[k].timestamp + shift && y.logs[k].fields == x.logs[k].fields)
            && (forall j, k :: 0 <= j < |x.logs| && 0 <= k < |x.logs| ==>
                  (y.logs[j].timestamp <= y.logs[k].timestamp <==> x.logs[j].timestamp <= x.logs[k].timestamp))
            && (CauseTimestampSet(x.causeTimestamp) ==> y.causeTimestamp == Some(x.causeTimestamp.value + shift))
            && (!CauseTimestampSet(x.causeTimestamp) ==> y.causeTimestamp == x.causeTimestamp)
            && y == x.(startTime := y.startTime, endTime := y.endTime, causeTimestamp := y.causeTimestamp, logs := y.logs)
  {
  }

  /**
   * Shifting back undoes a shift, unless the shift brought the cause timestamp to 0,
   * which the truthiness test then leaves where it is.
   */
  lemma ShiftedBack(x: Span, shift: int)
    requires CauseTimestampSet(x.causeTimestamp) ==> x.causeTimestamp.value + shift != 0
    ensures Shifted(Shifted(x, shift), -shift) == x
  {
    var y := Shifted(Shifted(x, shift), -shift);
    assert y.logs == x.logs;
  }

  /** A cause timestamp shifted to 0 is stuck there. */
  lemma CauseTimestampStuckAtZero(x: Span)
    requires x.causeTimestamp == Some(5)
    ensures Shifted(Shifted(x, -5), 5).causeTimestamp == Some(0)
  {
  }

  /** The start and the end of a span moved by `shift`, and nothing else. */
  function Moved(x: Span, shift: int): Span
  {
    x.(startTime := x.startTime + shift, endTime := x.endTime + shift)
  }

  /** What goes wrong in `adjust_timestamps` and `adjust_clock_skew`. */
  datatype SkewError =
    | MissingCauseTimestamp(spanId: string)  // AttributeError: a span without error log has no `cause_timestamp`
    | MissingShiftArgument                   // TypeError: adjust_timestamps called without `shift`

  /**
   * `adjust_timestamps`: in place on span `i` of the trace, log by log. On a span without
   * an error log the test of `cause_timestamp` raises once the start and the end have
   * been moved.
   */
  method AdjustTimestamps(t: Trace, i: nat, shift: int) returns (r: Result<(), SkewError>)
    requires i < |t.spans|
    modifies t`spans
    ensures r.Err? <==> old(t.spans)[i].causeTimestamp.None?
    ensures r.Err? ==> r.error == MissingCauseTimestamp(old(t.spans)[i].spanId)
                       && t.spans == old(t.spans)[i := Moved(old(t.spans)[i], shift)]
    ensures r.Ok? ==> t.spans == old(t.spans)[i := Shifted(old(t.spans)[i], shift)]
  {
    var x := t.spans[i];
    x := x.(startTime := x.startTime + shift);
    x := x.(endTime := x.endTime + shift);
    if x.causeTimestamp.None? {
      t.spans := t.spans[i := x];
      return Err(MissingCauseTimestamp(x.spanId));
    }
    if x.causeTimestamp.value != 0 {
      x := x.(causeTimestamp := Some(x.causeTimestamp.value + shift));
    }
    var logs := x.logs;
    var k := 0;
    while k < |logs|
      invariant 0 <= k <= |logs| && |logs| == |x.logs|
      invariant forall j :: 0 <= j < k ==> logs[j] == x.logs[j].(timestamp := x.logs[j].timestamp + shift)
      invariant forall j :: k <= j < |logs| ==> logs[j] == x.logs[j]
      decreases |logs| - k
    {
      logs := logs[k := logs[k].(timestamp := logs[k].timestamp + shift)];
      k := k + 1;
    }
    assert logs == ShiftLogs(x.logs, shift);
    t.spans := t.spans[i := x.(logs := logs)];
    return Ok(());
  }

  /**
   * `adjust_clock_skew` as written: the shift is computed but `adjust_timestamps` is
   * called without it, so every child that needs adjusting raises.
   */
  function AdjustClockSkewAsWritten(s: seq<Span>, parent: nat, child: nat): (r: Result<seq<Span>, SkewError>)
    requires parent < |s| && child < |s|
  {
    if s[parent].startTime < s[child].startTime then Ok(s) else Err(MissingShiftArgument)
  }

  /** As written, adjusting raises exactly when an adjustment is needed. */
  lemma {:induction false} AdjustClockSkewAsWrittenRaises(s: seq<Span>, parent: nat, child: nat)
    requires parent < |s| && child < |s|
    ensures AdjustClockSkewAsWritten(s, parent, child).Err? <==> s[child].startTime <= s[parent].startTime
    ensures AdjustClockSkewAsWritten(s, parent, child).Ok? ==> AdjustClockSkewAsWritten(s, parent, child).value == s
  {
  }

  /**
   * `adjust_clock_skew` as intended: the child is shifted by the computed shift; a child
   * without an error log makes `adjust_timestamps` raise.
   */
  function ClockSkewAdjusted(s: seq<Span>, parent: nat, child: nat): Result<seq<Span>, SkewError>
    requires parent < |s| && child < |s|
  {
    if s[parent].startTime < s[child].startTime then Ok(s)
    else if s[child].causeTimestamp.None? then Err(MissingCauseTimestamp(s[child].spanId))
    else Ok(s[child := Shifted(s[child], TimeShift(s[parent].startTime, s[child].startTime))])
  }

  /**
   * After the adjustment the child starts after its parent: it is left alone if it
   * already did, and otherwise starts one microsecond after the parent, keeping its
   * length; no other span changes. Only a child that needs moving and has no error log
   * makes the adjustment raise.
   */
  lemma ClockSkewAdjustedOrders(s: seq<Span>, parent: nat, child: nat)
    requires parent < |s| && child < |s| && parent != child
    ensures ClockSkewAdjusted(s, parent, child).Err? <==>
              s[child].startTime <= s[parent].startTime && s[child].causeTimestamp.None?
    ensures var r := ClockSkewAdjusted(s, parent, child);
            r.Ok? ==>
            && |r.value| == |s| && r.value[parent].startTime < r.value[child].startTime
            && (s[parent].startTime < s[child].startTime ==> r.value == s)
            && (s[child].startTime <= s[parent].startTime ==> r.value[child].startTime == s[parent].startTime + 1)
            && r.value[child].endTime - r.value[child].startTime == s[child].endTime - s[child].startTime
            && forall i :: 0 <= i < |s| && i != child ==> r.value[i] == s[i]
  {
  }

  /** Adjusting twice is adjusting once. */
  lemma ClockSkewAdjustedIdempotent(s: seq<Span>, parent: nat, child: nat)
    requires parent < |s| && child < |s| && parent != child
    requires ClockSkewAdjusted(s, parent, child).Ok?
    ensures var r := ClockSkewAdjusted(s, parent, child).value;
            |r| == |s| && ClockSkewAdjusted(r, parent, child) == Ok(r)
  {
    ClockSkewAdjustedOrders(s, parent, child);
  }

  /** `adjust_clock_skew` with the shift passed on, as intended. */
  method AdjustClockSkew(t: Trace, parent: nat, child: nat) returns (r: Result<(), SkewError>)
    requires parent < |t.spans| && child < |t.spans|
    modifies t`spans
    ensures r.Err? ==> ClockSkewAdjusted(old(t.spans), parent, child) == Err(r.error)
                       && t.spans == old(t.spans)[child := Moved(old(t.spans)[child], TimeShift(old(t.spans)[parent].startTime, old(t.spans)[child].startTime))]
    ensures r.Ok? ==> ClockSkewAdjusted(old(t.spans), parent, child) == Ok(t.spans)
  {
    if t.spans[parent].startTime < t.spans[child].startTime {
      return Ok(());
    }
    var shift := TimeShift(t.spans[parent].startTime, t.spans[child].startTime);
    r := AdjustTimestamps(t, child, shift);
  }
}
