/** How coverage.py groups breakpoint numbers into the ranges on which it registers callbacks.
    A range is registered on the first and last number of a run of consecutive numbers. */
module HapRanges {
  import opened Collections

  datatype Range = Range(lo: nat, hi: nat)

  /** The breakpoint numbers that a callback on this range fires for. */
  function Span(r: Range): seq<nat> {
    if r.lo <= r.hi then seq(r.hi - r.lo + 1, k requires 0 <= k => r.lo + k) else []
  }

  function Spans(rs: seq<Range>): seq<nat> {
    if rs == [] then [] else Spans(rs[..|rs| - 1]) + Span(rs[|rs| - 1])
  }

  predicate Increasing(s: seq<nat>) {
    forall i, j :: 0 <= i < j < |s| ==> s[i] < s[j]
  }

  /** A non-empty run of consecutive numbers. */
  predicate IsRun(s: seq<nat>) {
    s != [] && forall i :: 0 <= i < |s| ==> s[i] == s[0] + i
  }

  /** What doHapRange and addHapAlone register for a list of breakpoints. */
  function RangeOf(s: seq<nat>): Range
    requires s != []
  {
    Range(s[0], s[|s| - 1])
  }

  /** A callback on the ends of a run fires for exactly the run. */
  lemma RunIsSpan(s: seq<nat>)
    requires IsRun(s)
    ensures Span(RangeOf(s)) == s
  {
    assert s[|s| - 1] == s[0] + (|s| - 1);
  }

  /** Only a run may be registered by its ends: a list with a gap would catch foreign breakpoints. */
  lemma SpanIsRun(s: seq<nat>)
    requires s != [] && Span(RangeOf(s)) == s
    ensures IsRun(s)
  {
    forall i | 0 <= i < |s| ensures s[i] == s[0] + i {
      assert Span(RangeOf(s))[i] == s[0] + i;
    }
  }

  lemma SpansAppend(rs: seq<Range>, r: Range)
    ensures Spans(rs + [r]) == Spans(rs) + Span(r)
  {
    assert (rs + [r])[..|rs|] == rs;
  }

  lemma ConcatAppend(runs: seq<seq<nat>>, run: seq<nat>)
    ensures Concat(runs + [run]) == Concat(runs) + run
  {
    assert (runs + [run])[..|runs|] == runs;
  }

  lemma {:induction false} ConcatFirst(runs: seq<seq<nat>>)
    requires runs != []
    ensures Concat(runs) == runs[0] + Concat(runs[1..])
  {
    var most, last := runs[..|runs| - 1], runs[|runs| - 1];
    if most == [] {
    } else {
      ConcatFirst(most);
      assert runs[1..] == most[1..] + [last];
      ConcatAppend(most[1..], last);
    }
  }

  // ---- The grouping loop of setBlockBreaks ----

  /** Runs of consecutive numbers, as the loop collects them: a break in the sequence closes a run. */
  function Runs(bps: seq<nat>): (runs: seq<seq<nat>>)
    ensures bps == [] <==> runs == []
    ensures forall i :: 0 <= i < |runs| ==> runs[i] != []
  {
    if bps == [] then []
    else
      var before, bp := Runs(bps[..|bps| - 1]), bps[|bps| - 1];
      if |bps| > 1 && bp == bps[|bps| - 2] + 1
      then before[|before| - 1 := before[|before| - 1] + [bp]]
      else before + [[bp]]
  }

  /** A gap separates the end of one run from the start of the next. */
  predicate Gap(a: seq<nat>, b: seq<nat>) {
    a != [] && b != [] && a[|a| - 1] + 1 < b[0]
  }

  /** Runs in order, each consecutive, with a gap between one and the next. */
  ghost predicate Separated(runs: seq<seq<nat>>) {
    && (forall i :: 0 <= i < |runs| ==> IsRun(runs[i]))
    && (forall i, j :: 0 <= i < j < |runs| && j == i + 1 ==> Gap(runs[i], runs[j]))
  }

  predicate Continues(bps: seq<nat>) {
    |bps| > 1 && bps[|bps| - 1] == bps[|bps| - 2] + 1
  }

  /** One turn of the loop: the last breakpoint extends the open run or starts a new one. */
  lemma RunsStep(bps: seq<nat>) returns (closed: seq<seq<nat>>, open: seq<nat>)
    requires bps != []
    ensures Runs(bps) == closed + [open + [bps[|bps| - 1]]]
    ensures Continues(bps) ==> Runs(bps[..|bps| - 1]) == closed + [open] && open != []
    ensures !Continues(bps) ==> Runs(bps[..|bps| - 1]) == closed && open == []
  {
    var before := Runs(bps[..|bps| - 1]);
    if Continues(bps) {
      closed, open := before[..|before| - 1], before[|before| - 1];
    } else {
      closed, open := before, [];
      assert [] + [bps[|bps| - 1]] == [bps[|bps| - 1]];
    }
  }

  lemma ConcatExtended(closed: seq<seq<nat>>, open: seq<nat>, bp: nat, all: seq<nat>)
    requires Concat(closed) + open == all
    ensures Concat(closed + [open + [bp]]) == all + [bp]
  {
    ConcatAppend(closed, open + [bp]);
    assert Concat(closed) + (open + [bp]) == Concat(closed) + open + [bp];
  }

  /** The loop keeps every breakpoint, in order. */
  lemma {:induction false} RunsKeepAll(bps: seq<nat>)
    ensures Concat(Runs(bps)) == bps
  {
    if bps != [] {
      hide Runs, Concat;
      var butLast, bp := bps[..|bps| - 1], bps[|bps| - 1];
      RunsKeepAll(butLast);
      var closed, open := RunsStep(bps);
      assert Concat(closed) + open == butLast by {
        if Continues(bps) { ConcatAppend(closed, open); }
      }
      ConcatExtended(closed, open, bp, butLast);
      assert butLast + [bp] == bps;
    }
  }

  /** The last run ends where the list ends. */
  lemma LastRunEnds(bps: seq<nat>)
    requires bps != []
    ensures var last := Runs(bps)[|Runs(bps)| - 1]; last[|last| - 1] == bps[|bps| - 1]
  {
    hide Runs;
    var closed, open := RunsStep(bps);
    var last := open + [bps[|bps| - 1]];
    assert (closed + [last])[|closed|] == last;
  }

  lemma {:induction false} RunsSeparated(bps: seq<nat>)
    requires Increasing(bps)
    ensures Separated(Runs(bps))
  {
    if bps != [] {
      hide Runs;
      var butLast, bp := bps[..|bps| - 1], bps[|bps| - 1];
      RunsSeparated(butLast);
      if butLast != [] {
        LastRunEnds(butLast);
      }
      var closed, open := RunsStep(bps);
      if |bps| > 1 {
        assert butLast[|butLast| - 1] == bps[|bps| - 2] < bp;
      }
      if Continues(bps) {
        assert (closed + [open])[|closed|] == open;
        LongerRun(closed, open, bp);
      } else {
        assert [] + [bp] == [bp];
        NewRun(closed, bp);
      }
    }
  }

  lemma LongerRun(closed: seq<seq<nat>>, open: seq<nat>, bp: nat)
    requires open != [] && Separated(closed + [open]) && bp == open[|open| - 1] + 1
    ensures Separated(closed + [open + [bp]])
  {
    var before, after := closed + [open], closed + [open + [bp]];
    assert IsRun(before[|closed|]);
    forall i, j | 0 <= i < j < |after| && j == i + 1 ensures Gap(after[i], after[j]) {
      assert Gap(before[i], before[j]);
    }
    forall i | 0 <= i < |after| ensures IsRun(after[i]) {
      assert IsRun(before[i]);
    }
  }

  lemma NewRun(closed: seq<seq<nat>>, bp: nat)
    requires Separated(closed)
    requires closed != [] ==> var last := closed[|closed| - 1]; last != [] && last[|last| - 1] + 1 < bp
    ensures Separated(closed + [[bp]])
  {
    var after := closed + [[bp]];
    forall i | 0 <= i < |after| ensures IsRun(after[i]) {
      if i < |closed| { assert IsRun(closed[i]); }
    }
    forall i, j | 0 <= i < j < |after| && j == i + 1 ensures Gap(after[i], after[j]) {
      if j < |closed| { assert Gap(closed[i], closed[j]); }
    }
  }

  function RangesOf(runs: seq<seq<nat>>): seq<Range>
    requires forall i :: 0 <= i < |runs| ==> runs[i] != []
  {
    seq(|runs|, i requires 0 <= i < |runs| => RangeOf(runs[i]))
  }

  lemma {:induction false} SpansOfRuns(runs: seq<seq<nat>>)
    requires forall i :: 0 <= i < |runs| ==> IsRun(runs[i])
    ensures forall i :: 0 <= i < |runs| ==> runs[i] != []
    ensures Spans(RangesOf(runs)) == Concat(runs)
  {
    if runs != [] {
      var butLast := runs[..|runs| - 1];
      assert forall i :: 0 <= i < |butLast| ==> IsRun(butLast[i]);
      SpansOfRuns(butLast);
      assert RangesOf(runs)[..|runs| - 1] == RangesOf(butLast);
      RunIsSpan(runs[|runs| - 1]);
    }
  }

  /** Where the loop stands: every run but the last has its range, and the last is still open. */
  ghost predicate Tracks(bps: seq<nat>, ranges: seq<Range>, open: seq<nat>) {
    var runs := Runs(bps);
    if bps == [] then ranges == [] && open == []
    else open == runs[|runs| - 1] && ranges == RangesOf(runs[..|runs| - 1])
  }

  /** A number that continues the open run extends it; any other closes it and opens a new one. */
  lemma TracksNext(bps: seq<nat>, ranges: seq<Range>, open: seq<nat>, bp: nat)
    requires Tracks(bps, ranges, open)
    ensures bps == [] <==> open == []
    ensures if open != [] && bp != open[|open| - 1] + 1
            then Tracks(bps + [bp], ranges + [RangeOf(open)], [bp])
            else Tracks(bps + [bp], ranges, open + [bp])
  {
    hide Runs;
    var after := bps + [bp];
    assert after[..|after| - 1] == bps;
    if bps != [] {
      LastRunEnds(bps);
    }
    var closed, before := RunsStep(after);
    assert (closed + [before + [bp]])[..|closed|] == closed;
    if Continues(after) {
      assert (closed + [before])[..|closed|] == closed;
    } else {
      assert [] + [bp] == [bp];
      if bps != [] {
        assert RangesOf(closed) == RangesOf(closed[..|closed| - 1]) + [RangeOf(open)];
      }
    }
  }

  /** At the end of the loop the open run gets its range as well. */
  lemma TracksLast(bps: seq<nat>, ranges: seq<Range>, open: seq<nat>)
    requires Tracks(bps, ranges, open)
    ensures ranges + (if open == [] then [] else [RangeOf(open)]) == RangesOf(Runs(bps))
  {
    hide Runs;
  }

  predicate InRange(bp: nat, r: Range) {
    r.lo <= bp <= r.hi
  }

  lemma {:induction false} InSpans(rs: seq<Range>, bp: nat)
    ensures bp in Spans(rs) <==> exists i :: 0 <= i < |rs| && InRange(bp, rs[i])
  {
    if rs != [] {
      var last := rs[|rs| - 1];
      InSpans(rs[..|rs| - 1], bp);
      assert bp in Span(last) <==> InRange(bp, last) by {
        if InRange(bp, last) { SpanAt(last, bp); }
      }
      if exists i :: 0 <= i < |rs| && InRange(bp, rs[i]) {
        var i :| 0 <= i < |rs| && InRange(bp, rs[i]);
        if i < |rs| - 1 { assert InRange(bp, rs[..|rs| - 1][i]); }
      }
      if bp in Spans(rs[..|rs| - 1]) {
        var i :| 0 <= i < |rs| - 1 && InRange(bp, rs[..|rs| - 1][i]);
        assert InRange(bp, rs[i]);
      }
    }
  }

  lemma SpanAt(r: Range, bp: nat)
    requires InRange(bp, r)
    ensures bp - r.lo < |Span(r)| && Span(r)[bp - r.lo] == bp
  {
  }

  lemma IndexInLast(rs: seq<Range>, bp: nat)
    requires rs != [] && InRange(bp, rs[|rs| - 1])
    ensures var b := |Spans(rs[..|rs| - 1])| + (bp - rs[|rs| - 1].lo); b < |Spans(rs)| && Spans(rs)[b] == bp
  {
    SpanAt(rs[|rs| - 1], bp);
  }

  /** If the ranges spell out an increasing list of breakpoints, no breakpoint lies in two of them. */
  lemma {:induction false} SpansDisjoint(rs: seq<Range>, i: nat, j: nat, bp: nat)
    requires Increasing(Spans(rs)) && i < j < |rs|
    ensures !(InRange(bp, rs[i]) && InRange(bp, rs[j]))
  {
    var butLast, last := rs[..|rs| - 1], rs[|rs| - 1];
    assert forall a, b :: 0 <= a < b < |Spans(butLast)| ==>
      Spans(butLast)[a] == Spans(rs)[a] && Spans(butLast)[b] == Spans(rs)[b];
    if j < |rs| - 1 {
      SpansDisjoint(butLast, i, j, bp);
    } else if InRange(bp, rs[i]) && last.lo <= last.hi {
      InSpans(butLast, bp);
      assert InRange(bp, butLast[i]);
      var a :| 0 <= a < |Spans(butLast)| && Spans(butLast)[a] == bp;
      IndexInLast(rs, last.lo);
      assert Spans(rs)[a] == bp;
    }
  }

  /** The ranges set up for any increasing sequence of breakpoint numbers, whatever its gaps: each
      breakpoint set is in exactly one range, no other number is in any, and none is empty. */
  lemma RangesPartition(bps: seq<nat>)
    requires Increasing(bps)
    ensures forall i :: 0 <= i < |Runs(bps)| ==> Runs(bps)[i] != []
    ensures forall bp :: bp in bps <==> exists i :: 0 <= i < |Runs(bps)| && InRange(bp, RangesOf(Runs(bps))[i])
    ensures forall i, j, bp :: 0 <= i < j < |Runs(bps)| ==>
      !(InRange(bp, RangesOf(Runs(bps))[i]) && InRange(bp, RangesOf(Runs(bps))[j]))
    ensures forall i :: 0 <= i < |Runs(bps)| ==> RangesOf(Runs(bps))[i].lo <= RangesOf(Runs(bps))[i].hi
  {
    RunsKeepAll(bps);
    RunsSeparated(bps);
    var rs := RangesOf(Runs(bps));
    SpansOfRuns(Runs(bps));
    forall bp: nat ensures bp in bps <==> exists i :: 0 <= i < |rs| && InRange(bp, rs[i]) {
      InSpans(rs, bp);
    }
    forall i, j, bp | 0 <= i < j < |rs| ensures !(InRange(bp, rs[i]) && InRange(bp, rs[j])) {
      SpansDisjoint(rs, i, j, bp);
    }
  }
}
