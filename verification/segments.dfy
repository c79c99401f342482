/** The segment planner: from the silence ends found in a recording, the
    start offset and optional length of every segment the recording is cut
    into, with Python's truthiness of `end` and `duration` kept as written. */
module Segments {
  import opened Wrappers

  /** One planned segment: the offset it starts at and, when present, the
      length it is limited to (absent means "to the end of the file"). */
  datatype Cut = Cut(start: real, limit: Option<real>)

  /** Python truthiness of a value that is a float or `None`: both `None`
      and `0.0` are false. */
  predicate Truthy(x: Option<real>)
  {
    x.Some? && x.value != 0.0
  }

  /** The sequence the planning loop walks: every silence end, then a `None`
      sentinel that produces the final, open-ended segment. */
  function WithSentinel(ends: seq<real>): (items: seq<Option<real>>)
    ensures |items| == |ends| + 1
    ensures items[|ends|] == None
    ensures forall i :: 0 <= i < |ends| ==> items[i] == Some(ends[i])
  {
    seq(|ends|, i requires 0 <= i < |ends| => Some(ends[i])) + [None]
  }

  /** The planning loop from a given previous end onwards. Each item opens a
      segment at the previous end; a truthy end gives the duration
      `end - start`, and only a truthy duration becomes the length limit; the
      previous end moves on only when the end is truthy. */
  function PlanFrom(items: seq<Option<real>>, prevEnd: real): (cuts: seq<Cut>)
    ensures |cuts| == |items|
    ensures |items| > 0 ==> cuts[0].start == prevEnd
  {
    if |items| == 0 then []
    else
      var end := items[0];
      var start := prevEnd;
      var duration := if Truthy(end) then Some(end.value - start) else None;
      var cut := Cut(start, if Truthy(duration) then duration else None);
      [cut] + PlanFrom(items[1..], if Truthy(end) then end.value else prevEnd)
  }

  /** The cuts planned for a recording whose silence ends are `ends`. */
  function Plan(ends: seq<real>): (cuts: seq<Cut>)
    ensures |cuts| == |ends| + 1
    ensures cuts[0].start == 0.0
  {
    PlanFrom(WithSentinel(ends), 0.0)
  }

  /** Reference: the last non-zero value of `xs`, or 0 when there is none. */
  function LastNonZero(xs: seq<real>): real
  {
    if |xs| == 0 then 0.0
    else if xs[|xs| - 1] != 0.0 then xs[|xs| - 1]
    else LastNonZero(xs[..|xs| - 1])
  }

  /** Reference: the length limit a segment opened at `start` and closed by
      the silence end `end` receives. */
  function LimitFor(end: real, start: real): Option<real>
  {
    if end != 0.0 && end - start != 0.0 then Some(end - start) else None
  }

  /** The last truthy item of `items`, or `p` when there is none. */
  function LastTruthyOr(items: seq<Option<real>>, p: real): real
  {
    if |items| == 0 then p
    else if Truthy(items[|items| - 1]) then items[|items| - 1].value
    else LastTruthyOr(items[..|items| - 1], p)
  }

  /** Sum of the length limits of `cuts`, an absent limit counting as 0. */
  function TotalLimit(cuts: seq<Cut>): real
  {
    if |cuts| == 0 then 0.0
    else TotalLimit(cuts[..|cuts| - 1]) + cuts[|cuts| - 1].limit.GetOr(0.0)
  }

  /** Silence ends that are positive and strictly increasing, as a
      well-behaved silence detector reports them. */
  predicate Ascending(ends: seq<real>)
  {
    forall i :: 0 <= i < |ends| ==> 0.0 < ends[i] && (i > 0 ==> ends[i - 1] < ends[i])
  }

  /** The options the input stage of one ffmpeg run receives: the file, a
      seek offset (`ss`) and a length limit (`t`). */
  datatype InputCall = InputCall(path: string, seek: Option<real>, limit: Option<real>)

  /** The input stage as written: the options built from the plan are never
      handed over, so each run receives no seek and no limit. */
  function InputCallsAsWritten(path: string, ends: seq<real>): (calls: seq<InputCall>)
    ensures |calls| == |Plan(ends)|
  {
    seq(|Plan(ends)|, i requires 0 <= i < |Plan(ends)| => InputCall(path, None, None))
  }

  /** The input stage with the planned options handed over: every run seeks
      to its cut's start and, when the cut has a limit, stops after it. */
  function InputCalls(path: string, ends: seq<real>): (calls: seq<InputCall>)
    ensures |calls| == |ends| + 1
  {
    var cuts := Plan(ends);
    seq(|cuts|, i requires 0 <= i < |cuts| => InputCall(path, Some(cuts[i].start), cuts[i].limit))
  }
}

module SegmentFacts {
  import opened Wrappers
  import opened Segments

  /** Moving the first item into the starting value. */
  lemma {:induction false} LastTruthyCons(x: Option<real>, ys: seq<Option<real>>, p: real)
    ensures LastTruthyOr([x] + ys, p) == LastTruthyOr(ys, if Truthy(x) then x.value else p)
    decreases |ys|
  {
    if |ys| > 0 {
      var xs := [x] + ys;
      assert xs[..|xs| - 1] == [x] + ys[..|ys| - 1];
      if !Truthy(ys[|ys| - 1]) {
        LastTruthyCons(x, ys[..|ys| - 1], p);
      }
    } else {
      assert [x] + ys == [x];
      assert ([x] + ys)[..0] == [];
    }
  }

  /** Every cut of the loop started at `p`: its start is the last truthy item
      before it (or `p`), and its limit is what that start and its own item
      give. */
  lemma {:induction false} PlanFromReference(items: seq<Option<real>>, p: real, i: nat)
    requires i < |items|
    ensures PlanFrom(items, p)[i].start == LastTruthyOr(items[..i], p)
    ensures PlanFrom(items, p)[i].limit ==
      if Truthy(items[i]) then LimitFor(items[i].value, LastTruthyOr(items[..i], p)) else None
    decreases i
  {
    if i == 0 {
      assert items[..0] == [];
    } else {
      var p' := if Truthy(items[0]) then items[0].value else p;
      var rest := items[1..];
      PlanFromReference(rest, p', i - 1);
      assert PlanFrom(items, p)[i] == PlanFrom(rest, p')[i - 1];
      assert items[..i] == [items[0]] + rest[..i - 1];
      LastTruthyCons(items[0], rest[..i - 1], p);
    }
  }

  /** Over the sentinel list, the last truthy item is the last non-zero end. */
  lemma {:induction false} LastTruthyIsLastNonZero(ends: seq<real>, i: nat)
    requires i <= |ends|
    ensures LastTruthyOr(WithSentinel(ends)[..i], 0.0) == LastNonZero(ends[..i])
    decreases i
  {
    if i > 0 {
      var items := WithSentinel(ends)[..i];
      assert items[..i - 1] == WithSentinel(ends)[..i - 1];
      assert ends[..i][..i - 1] == ends[..i - 1];
      LastTruthyIsLastNonZero(ends, i - 1);
    }
  }

  /** Cut `i` as the reference describes it. */
  lemma {:induction false} PlanAt(ends: seq<real>, i: nat)
    requires i <= |ends|
    ensures Plan(ends)[i].start == LastNonZero(ends[..i])
    ensures i < |ends| ==> Plan(ends)[i].limit == LimitFor(ends[i], LastNonZero(ends[..i]))
    ensures i == |ends| ==> Plan(ends)[i].limit == None
  {
    PlanFromReference(WithSentinel(ends), 0.0, i);
    LastTruthyIsLastNonZero(ends, i);
  }

  /** The planned cuts agree with the reference description: segment `i`
      starts at the last non-zero end among the first `i` ends (0 if none);
      segment `i < |ends|` has a limit exactly when its end is non-zero and
      differs from its start, and the limit is then `end - start`; the final
      segment has no limit. */
  lemma {:induction false} PlanSpec(ends: seq<real>)
    ensures |Plan(ends)| == |ends| + 1
    ensures forall i :: 0 <= i <= |ends| ==> Plan(ends)[i].start == LastNonZero(ends[..i])
    ensures forall i :: 0 <= i < |ends| ==>
      Plan(ends)[i].limit == LimitFor(ends[i], LastNonZero(ends[..i]))
    ensures Plan(ends)[|ends|] == Cut(LastNonZero(ends), None)
  {
    forall i | 0 <= i <= |ends|
      ensures Plan(ends)[i].start == LastNonZero(ends[..i])
      ensures i < |ends| ==> Plan(ends)[i].limit == LimitFor(ends[i], LastNonZero(ends[..i]))
    {
      PlanAt(ends, i);
    }
    assert ends[..|ends|] == ends;
    PlanAt(ends, |ends|);
  }

  /** A silence end of 0 is falsy, so it behaves like the sentinel: its
      segment gets no limit and the next segment starts where it did. */
  lemma {:induction false} ZeroEndActsAsSentinel(ends: seq<real>, i: nat)
    requires i < |ends| && ends[i] == 0.0
    ensures Plan(ends)[i].limit == None
    ensures Plan(ends)[i + 1].start == Plan(ends)[i].start
  {
    PlanSpec(ends);
    assert ends[..i + 1][..i] == ends[..i];
  }

  /** A silence end equal to the current start gives a duration of 0, which
      is falsy, so that segment gets no limit either. */
  lemma {:induction false} ZeroDurationHasNoLimit(ends: seq<real>, i: nat)
    requires i < |ends| && ends[i] == Plan(ends)[i].start
    ensures Plan(ends)[i].limit == None
  {
    PlanSpec(ends);
  }

  /** Under ascending ends, each segment starts at the previous end. */
  lemma {:induction false} AscendingStarts(ends: seq<real>, i: nat)
    requires Ascending(ends) && i <= |ends|
    ensures LastNonZero(ends[..i]) == if i == 0 then 0.0 else ends[i - 1]
  {
  }

  /** For ascending ends, cut `i` starts at the previous end (0 for the
      first) and every cut but the last is limited to reach the next end. */
  lemma {:induction false} AscendingCut(ends: seq<real>, i: nat)
    requires Ascending(ends) && i <= |ends|
    ensures Plan(ends)[i].start == if i == 0 then 0.0 else ends[i - 1]
    ensures i < |ends| ==> Plan(ends)[i].limit == Some(ends[i] - Plan(ends)[i].start)
    ensures i == |ends| ==> Plan(ends)[i].limit == None
  {
    PlanAt(ends, i);
    AscendingStarts(ends, i);
  }

  /** For ascending positive ends the segments tile the recording: each
      limited segment ends exactly where the next one starts, every segment
      before the last is limited to `ends[i] - start`, and the final segment
      starts at the last end. */
  lemma {:induction false} Contiguous(ends: seq<real>)
    requires Ascending(ends)
    ensures forall i :: 0 <= i <= |ends| ==> Plan(ends)[i].start == if i == 0 then 0.0 else ends[i - 1]
    ensures forall i :: 0 <= i < |ends| ==>
      Plan(ends)[i].limit == Some(ends[i] - Plan(ends)[i].start) &&
      Plan(ends)[i + 1].start == Plan(ends)[i].start + Plan(ends)[i].limit.value
    ensures Plan(ends)[|ends|].start == if |ends| == 0 then 0.0 else ends[|ends| - 1]
  {
    forall i | 0 <= i <= |ends|
      ensures Plan(ends)[i].start == if i == 0 then 0.0 else ends[i - 1]
      ensures i < |ends| ==> Plan(ends)[i].limit == Some(ends[i] - Plan(ends)[i].start)
    {
      AscendingCut(ends, i);
    }
  }

  /** For ascending positive ends the limits of the first `k` segments add up
      to the start of segment `k`; in particular all limited segments
      together cover the recording up to the last silence end. */
  lemma {:induction false} LimitsSumToStart(ends: seq<real>, k: nat)
    requires Ascending(ends) && k <= |ends|
    ensures TotalLimit(Plan(ends)[..k]) == Plan(ends)[k].start
    decreases k
  {
    AscendingCut(ends, k);
    if k > 0 {
      var cuts := Plan(ends);
      AscendingCut(ends, k - 1);
      assert cuts[..k][..k - 1] == cuts[..k - 1];
      LimitsSumToStart(ends, k - 1);
    }
  }

  /** The limits of all limited segments add up to the last silence end. */
  lemma {:induction false} LimitsSumToLastEnd(ends: seq<real>)
    requires Ascending(ends) && |ends| > 0
    ensures TotalLimit(Plan(ends)[..|ends|]) == ends[|ends| - 1]
  {
    LimitsSumToStart(ends, |ends|);
    AscendingCut(ends, |ends|);
  }

  /** As written, every ffmpeg run receives the same input options, although
      the plan asks for different cuts: with one silence end at 5 seconds the
      plan is "0 to 5" and "5 to the end", yet both runs receive no seek and
      no limit. */
  lemma {:induction false} AsWrittenIgnoresPlan(path: string)
    ensures Plan([5.0]) == [Cut(0.0, Some(5.0)), Cut(5.0, None)]
    ensures InputCallsAsWritten(path, [5.0])[0] == InputCallsAsWritten(path, [5.0])[1]
    ensures InputCallsAsWritten(path, [5.0])[0] == InputCall(path, None, None)
  {
    PlanSpec([5.0]);
    assert [5.0][..0] == [];
    assert [5.0][..1] == [5.0];
  }

  /** As written, every run of every plan receives no seek and no limit. */
  lemma {:induction false} AsWrittenAllRunsAlike(path: string, ends: seq<real>, i: nat, j: nat)
    requires i < |ends| + 1 && j < |ends| + 1
    ensures InputCallsAsWritten(path, ends)[i] == InputCallsAsWritten(path, ends)[j]
    ensures InputCallsAsWritten(path, ends)[i].seek.None?
    ensures InputCallsAsWritten(path, ends)[i].limit.None?
  {
  }

  /** With the options handed over, each run carries its own cut, whatever
      the order of the ends: run `i` seeks to the last non-zero silence end
      before it (0 if none), is limited as that start and its own end
      dictate, and the run after the last end is open-ended. */
  lemma {:induction false} CallsCarryPlan(path: string, ends: seq<real>, i: nat)
    requires i <= |ends|
    ensures InputCalls(path, ends)[i].path == path
    ensures InputCalls(path, ends)[i].seek == Some(LastNonZero(ends[..i]))
    ensures InputCalls(path, ends)[i].limit ==
      if i < |ends| then LimitFor(ends[i], LastNonZero(ends[..i])) else None
  {
    PlanSpec(ends);
  }

  /** As written, the options the runs receive depend only on how many silence
      ends there are, never on where they lie. */
  lemma {:induction false} AsWrittenIgnoresEnds(path: string, a: seq<real>, b: seq<real>)
    ensures InputCallsAsWritten(path, a) == InputCallsAsWritten(path, b) <==> |a| == |b|
  {
    if |a| == |b| {
      forall i | 0 <= i <= |a|
        ensures InputCallsAsWritten(path, a)[i] == InputCallsAsWritten(path, b)[i]
      {
        AsWrittenAllRunsAlike(path, a, i, i);
        AsWrittenAllRunsAlike(path, b, i, i);
      }
    }
  }

  /** For ascending ends the corrected runs tile the recording: run `i` seeks
      to the previous silence end (0 for the first), each run but the last
      stops where the next one seeks to, and only the last is open-ended. */
  lemma {:induction false} CallsTile(path: string, ends: seq<real>, i: nat)
    requires Ascending(ends) && i <= |ends|
    ensures InputCalls(path, ends)[i].seek == Some(if i == 0 then 0.0 else ends[i - 1])
    ensures i < |ends| ==>
      InputCalls(path, ends)[i].limit.Some? &&
      InputCalls(path, ends)[i].seek.value + InputCalls(path, ends)[i].limit.value
        == InputCalls(path, ends)[i + 1].seek.value
    ensures i == |ends| ==> InputCalls(path, ends)[i].limit == None
  {
    AscendingCut(ends, i);
    if i < |ends| {
      AscendingCut(ends, i + 1);
    }
  }

  /** For ascending ends the corrected runs seek to strictly increasing
      offsets, so no two runs read the same part of the recording. */
  lemma {:induction false} CallsDistinct(path: string, ends: seq<real>, i: nat, j: nat)
    requires Ascending(ends) && i < j <= |ends|
    ensures InputCalls(path, ends)[i].seek.value < InputCalls(path, ends)[j].seek.value
  {
    CallsTile(path, ends, i);
    CallsTile(path, ends, j);
    AscendingBelow(ends, i, j);
  }

  /** In ascending ends, an earlier start lies below a later one. */
  lemma {:induction false} AscendingBelow(ends: seq<real>, i: nat, j: nat)
    requires Ascending(ends) && i < j <= |ends|
    ensures (if i == 0 then 0.0 else ends[i - 1]) < ends[j - 1]
    decreases j - i
  {
    if i + 1 < j {
      AscendingBelow(ends, i, j - 1);
    }
  }
}
