/** The release gate (gate.py): the verdict over the selected series, the result object and its
    dictionary form, and the command line's argument normalisation and exit code. */
module Gate {
  import opened Wrappers
  import opened Text
  import opened OrderedSets
  import opened GateScores
  import opened GateLoad

  /** An endpoint whose minimum reliability is under the threshold, with the entry attaining it. */
  datatype Violation = Violation(endpoint: string, worst: Score)

  /** What the verdict is based on: the mean of the per-endpoint minima ("mean" mode) or the least
      of them (any other mode). */
  datatype Statistic = Mean(value: real) | Minimum(value: real)

  /** The reason of a gate result, as data: a skipped gate names the results mode it was asked for;
      a verdict lists the violations in endpoint-name order. */
  datatype Reason =
    | Skipped(resultsMode: Option<string>)
    | Verdict(violations: seq<Violation>, statistic: Statistic, threshold: real)

  datatype GateResult = GateResult(passed: bool, reason: Reason, scores: map<string, seq<Score>>)

  /** Decoded JSON values, as far as the gate produces them. */
  datatype Value =
    | Null
    | Bool(b: bool)
    | Num(r: real)
    | Str(s: string)
    | Arr(items: seq<Value>)
    | Obj(members: map<string, Value>)

  // ---------------------------------------------------------------------------------------------
  // The statistics

  function Sum(xs: seq<real>): real
  {
    if xs == [] then 0.0 else Sum(xs[..|xs| - 1]) + xs[|xs| - 1]
  }

  /** `min(values)` of a non-empty list. */
  function MinOf(xs: seq<real>): (m: real)
    requires xs != []
    ensures forall i :: 0 <= i < |xs| ==> m <= xs[i]
    ensures exists i :: 0 <= i < |xs| && m == xs[i]
  {
    if |xs| == 1 then xs[0]
    else
      var m0 := MinOf(xs[..|xs| - 1]);
      assert forall i :: 0 <= i < |xs| - 1 ==> xs[..|xs| - 1][i] == xs[i];
      if xs[|xs| - 1] < m0 then xs[|xs| - 1] else m0
  }

  /** A sum of values none of which is below `t` is at least `|xs|` times `t`. */
  lemma {:induction false} SumAtLeast(xs: seq<real>, t: real)
    requires forall i :: 0 <= i < |xs| ==> t <= xs[i]
    ensures Sum(xs) >= |xs| as real * t
  {
    if xs != [] {
      var init := xs[..|xs| - 1];
      assert forall i :: 0 <= i < |init| ==> init[i] == xs[i];
      SumAtLeast(init, t);
    }
  }

  /** A sum of values none of which is above `t` is at most `|xs|` times `t`. */
  lemma {:induction false} SumAtMost(xs: seq<real>, t: real)
    requires forall i :: 0 <= i < |xs| ==> xs[i] <= t
    ensures Sum(xs) <= |xs| as real * t
  {
    if xs != [] {
      var init := xs[..|xs| - 1];
      assert forall i :: 0 <= i < |init| ==> init[i] == xs[i];
      SumAtMost(init, t);
    }
  }

  /** When the least value reaches `t`, every value does. */
  lemma MinAtLeast(xs: seq<real>, t: real)
    requires xs != [] && t <= MinOf(xs)
    ensures forall i :: 0 <= i < |xs| ==> t <= xs[i]
  {
  }

  /** The mean of values none of which is below `t` is not below `t`. */
  lemma MeanAtLeast(xs: seq<real>, t: real)
    requires xs != [] && forall i :: 0 <= i < |xs| ==> t <= xs[i]
    ensures Sum(xs) / |xs| as real >= t
  {
    SumAtLeast(xs, t);
    DivideBounds(Sum(xs), |xs| as real, t);
  }

  /** The mean of values none of which is above `t` is not above `t`. */
  lemma MeanAtMost(xs: seq<real>, t: real)
    requires xs != [] && forall i :: 0 <= i < |xs| ==> xs[i] <= t
    ensures Sum(xs) / |xs| as real <= t
  {
    SumAtMost(xs, t);
    DivideBounds(Sum(xs), |xs| as real, t);
  }

  /** The mean of a non-empty list lies between its least and its greatest value. */
  lemma MeanBetween(xs: seq<real>)
    requires xs != []
    ensures MinOf(xs) <= Sum(xs) / |xs| as real <= MaxOf(xs)
  {
    MeanAtLeast(xs, MinOf(xs));
    MeanAtMost(xs, MaxOf(xs));
  }

  function MaxOf(xs: seq<real>): (m: real)
    requires xs != []
    ensures forall i :: 0 <= i < |xs| ==> xs[i] <= m
    ensures exists i :: 0 <= i < |xs| && m == xs[i]
  {
    if |xs| == 1 then xs[0]
    else
      var m0 := MaxOf(xs[..|xs| - 1]);
      assert forall i :: 0 <= i < |xs| - 1 ==> xs[..|xs| - 1][i] == xs[i];
      if xs[|xs| - 1] > m0 then xs[|xs| - 1] else m0
  }

  lemma DivideBounds(s: real, n: real, t: real)
    requires n > 0.0
    ensures s >= n * t ==> s / n >= t
    ensures s <= n * t ==> s / n <= t
  {
    assert s == (s / n) * n;
  }

  // ---------------------------------------------------------------------------------------------
  // Per-endpoint evaluation

  /** Every series sorted by failure probability, as `entries.sort(key=lambda pair: pair[0])`
      leaves them. */
  function SortAll(sel: map<string, seq<Score>>): (r: map<string, seq<Score>>)
    ensures r.Keys == sel.Keys
    ensures NonEmptySeries(sel) ==> NonEmptySeries(r)
  {
    map e | e in sel :: SortByPfail(sel[e])
  }

  predicate Covers(names: seq<string>, scores: map<string, seq<Score>>)
  {
    forall i :: 0 <= i < |names| ==> names[i] in scores && scores[names[i]] != []
  }

  /** The sorted names of a selection cover it. */
  lemma SortedCovers(sel: map<string, seq<Score>>)
    requires NonEmptySeries(sel)
    ensures Covers(SortedNames(sel.Keys), SortAll(sel))
    ensures forall e :: e in sel ==> e in SortedNames(sel.Keys)
    ensures sel != map[] ==> SortedNames(sel.Keys) != []
  {
    var names := SortedNames(sel.Keys);
    if sel != map[] {
      var e :| e in sel;
      assert e in names;
    }
    forall i | 0 <= i < |names| ensures names[i] in sel {
      assert names[i] in names;
    }
  }

  lemma CoversPrefix(names: seq<string>, scores: map<string, seq<Score>>, i: nat)
    requires Covers(names, scores) && i <= |names|
    ensures Covers(names[..i], scores)
  {
  }

  /** The minimum reliability of each named endpoint, in the order of the names. */
  function Minima(names: seq<string>, scores: map<string, seq<Score>>): (r: seq<real>)
    requires Covers(names, scores)
    ensures |r| == |names|
    ensures forall i :: 0 <= i < |names| ==> r[i] == MinReliability(scores[names[i]])
  {
    if names == [] then []
    else Minima(names[..|names| - 1], scores) + [MinReliability(scores[names[|names| - 1]])]
  }

  /** `min(entries, key=lambda pair: pair[1])`. */
  function Worst(s: seq<Score>): Score
    requires s != []
  {
    s[FirstMinimum(s)]
  }

  /** The named endpoints whose minimum is under the threshold, each with its worst entry. */
  function ViolationsOf(names: seq<string>, scores: map<string, seq<Score>>, threshold: real): (r: seq<Violation>)
    requires Covers(names, scores)
    ensures forall i :: 0 <= i < |r| ==> r[i].endpoint in names
    ensures forall i :: 0 <= i < |r| ==>
              MinReliability(scores[r[i].endpoint]) < threshold && r[i].worst == Worst(scores[r[i].endpoint])
  {
    if names == [] then []
    else
      var e := names[|names| - 1];
      ViolationsOf(names[..|names| - 1], scores, threshold) +
        (if MinReliability(scores[e]) < threshold then [Violation(e, Worst(scores[e]))] else [])
  }

  /** Every named endpoint under the threshold is listed. */
  lemma {:induction false} ViolationsComplete(names: seq<string>, scores: map<string, seq<Score>>, threshold: real, e: string)
    requires Covers(names, scores)
    requires e in names && MinReliability(scores[e]) < threshold
    ensures exists i :: 0 <= i < |ViolationsOf(names, scores, threshold)| && ViolationsOf(names, scores, threshold)[i].endpoint == e
  {
    var init := names[..|names| - 1];
    var r := ViolationsOf(names, scores, threshold);
    if e == names[|names| - 1] {
      assert r[|r| - 1].endpoint == e;
    } else {
      assert e in init;
      ViolationsComplete(init, scores, threshold, e);
      var i :| 0 <= i < |ViolationsOf(init, scores, threshold)| && ViolationsOf(init, scores, threshold)[i].endpoint == e;
      assert r[i] == ViolationsOf(init, scores, threshold)[i];
    }
  }

  /** Visiting the names in sorted order lists the violations sorted by endpoint, as
      `sorted(violations.items())` does. */
  lemma {:induction false} ViolationsSorted(names: seq<string>, scores: map<string, seq<Score>>, threshold: real)
    requires Covers(names, scores) && StrictlySorted(names)
    ensures forall i, j :: 0 <= i < j < |ViolationsOf(names, scores, threshold)| ==>
              Less(ViolationsOf(names, scores, threshold)[i].endpoint, ViolationsOf(names, scores, threshold)[j].endpoint)
  {
    if names != [] {
      var init, e := names[..|names| - 1], names[|names| - 1];
      assert forall i :: 0 <= i < |init| ==> init[i] == names[i];
      ViolationsSorted(init, scores, threshold);
      var r0 := ViolationsOf(init, scores, threshold);
      forall i | 0 <= i < |r0| ensures Less(r0[i].endpoint, e) {
        var k :| 0 <= k < |init| && init[k] == r0[i].endpoint;
      }
    }
  }

  // ---------------------------------------------------------------------------------------------
  // The verdict

  /** The results mode named by a skipped gate: the requested one, unless it is absent or empty. */
  function ShownMode(resultsMode: Option<string>): (r: Option<string>)
    ensures r.Some? <==> resultsMode.Some? && resultsMode.value != ""
    ensures r.Some? ==> r == resultsMode
  {
    if resultsMode.Some? && resultsMode.value != "" then resultsMode else None
  }

  /** The verdict from the per-endpoint minima and the violations: in "mean" mode the mean of the
      minima must reach the threshold, in any other mode there must be no violation. */
  function Conclude(minima: seq<real>, violations: seq<Violation>, scores: map<string, seq<Score>>,
                    threshold: real, mode: string): GateResult
    requires minima != []
  {
    if mode == "mean" then
      var mean := Sum(minima) / |minima| as real;
      GateResult(mean >= threshold, Verdict(violations, Mean(mean), threshold), scores)
    else
      GateResult(violations == [], Verdict(violations, Minimum(MinOf(minima)), threshold), scores)
  }

  /** In "mean" mode the statistic is the mean of the minima: it lies between the least and the
      greatest of them, decides the verdict, and reaches the threshold when every minimum does. */
  lemma ConcludeMean(minima: seq<real>, violations: seq<Violation>, scores: map<string, seq<Score>>, threshold: real)
    requires minima != []
    ensures var g := Conclude(minima, violations, scores, threshold, "mean");
            && g.reason.Verdict? && g.reason.violations == violations && g.scores == scores
            && g.reason.statistic == Mean(Sum(minima) / |minima| as real)
            && (g.passed <==> g.reason.statistic.value >= threshold)
            && MinOf(minima) <= g.reason.statistic.value <= MaxOf(minima)
            && ((forall i :: 0 <= i < |minima| ==> threshold <= minima[i]) ==> g.passed)
  {
    MeanBetween(minima);
    if forall i :: 0 <= i < |minima| ==> threshold <= minima[i] {
      MeanAtLeast(minima, threshold);
    }
  }

  /** The verdict over sorted series, the endpoints visited in the order of `names`. */
  function Decide(names: seq<string>, scores: map<string, seq<Score>>, threshold: real, mode: string): GateResult
    requires names != [] && Covers(names, scores)
  {
    Conclude(Minima(names, scores), ViolationsOf(names, scores, threshold), scores, threshold, mode)
  }

  /** `evaluate_gate` on the selected series. */
  ghost function Evaluate(sel: map<string, seq<Score>>, threshold: real, mode: string, resultsMode: Option<string>): GateResult
    requires NonEmptySeries(sel)
  {
    if sel == map[] then GateResult(true, Skipped(ShownMode(resultsMode)), sel)
    else
      SortedCovers(sel);
      Decide(SortedNames(sel.Keys), SortAll(sel), threshold, mode)
  }

  /** The minimum reliability of each selected endpoint, in name order. */
  ghost function SelectionMinima(sel: map<string, seq<Score>>): (r: seq<real>)
    requires NonEmptySeries(sel)
    ensures |r| == |SortedNames(sel.Keys)|
    ensures forall i :: 0 <= i < |r| ==> r[i] == MinReliability(sel[SortedNames(sel.Keys)[i]])
  {
    SortedCovers(sel);
    var names := SortedNames(sel.Keys);
    if sel == map[] then []
    else
      ListsSorted(sel);
      MinimaOfSorted(names, sel);
      Minima(names, SortAll(sel))
  }

  /** The series after those of the endpoints in `done` have been sorted in place, one after the
      other. */
  function PartlySorted(sel: map<string, seq<Score>>, done: seq<string>): map<string, seq<Score>>
  {
    if done == [] then sel
    else
      var m := PartlySorted(sel, done[..|done| - 1]);
      var e := done[|done| - 1];
      if e in sel then m[e := SortByPfail(sel[e])] else m
  }

  /** A visited endpoint's series is sorted, the others are as selected. */
  lemma {:induction false} PartlySortedEntries(sel: map<string, seq<Score>>, done: seq<string>)
    ensures PartlySorted(sel, done).Keys == sel.Keys
    ensures forall e :: e in sel ==> PartlySorted(sel, done)[e] == if e in done then SortByPfail(sel[e]) else sel[e]
  {
    if done != [] {
      var init := done[..|done| - 1];
      PartlySortedEntries(sel, init);
      assert done == init + [done[|done| - 1]];
    }
  }

  /** Once every endpoint has been visited, every series is sorted. */
  lemma PartlySortedAll(sel: map<string, seq<Score>>, done: seq<string>)
    requires forall e :: e in sel ==> e in done
    ensures PartlySorted(sel, done) == SortAll(sel)
  {
    PartlySortedEntries(sel, done);
    var a, b := PartlySorted(sel, done), SortAll(sel);
    forall x | x in a ensures a[x] == b[x] {
    }
    assert a == b;
  }

  /** `evaluate_gate`: load the result files, select the series and, unless nothing was selected,
      judge them. */
  method EvaluateGate(files: seq<ResultFile>, threshold: real, mode: string, resultsMode: Option<string>, filters: seq<string>)
    returns (g: GateResult)
    ensures g == Evaluate(Select(Loaded(files), filters, resultsMode), threshold, mode, resultsMode)
  {
    var payloads := LoadResults(files);
    var scores := SelectEndpoints(payloads, filters, resultsMode);
    if scores == map[] {
      g := GateResult(true, Skipped(ShownMode(resultsMode)), scores);
      return;
    }
    var names := SortNames(scores.Keys);
    SortedCovers(scores);
    g := Judge(scores, names, threshold, mode);
  }

  /** One round of the loop of `evaluate_gate`: what visiting `names[i]` adds to each part of the
      state. */
  lemma JudgeStep(scores: map<string, seq<Score>>, names: seq<string>, threshold: real, i: nat)
    requires i < |names| && Covers(names, SortAll(scores))
    ensures Covers(names[..i], SortAll(scores)) && Covers(names[..i + 1], SortAll(scores))
    ensures names[i] in scores && scores[names[i]] != []
    ensures var x := names[i];
            var entries := SortByPfail(scores[x]);
            && entries != []
            && PartlySorted(scores, names[..i + 1]) == PartlySorted(scores, names[..i])[x := entries]
            && Minima(names[..i + 1], SortAll(scores)) == Minima(names[..i], SortAll(scores)) + [MinReliability(entries)]
            && ViolationsOf(names[..i + 1], SortAll(scores), threshold) ==
                 ViolationsOf(names[..i], SortAll(scores), threshold) +
                 if MinReliability(entries) < threshold then [Violation(x, Worst(entries))] else []
  {
    var sorted := SortAll(scores);
    assert names[i] in sorted;
    PrefixStep(names, i);
    CoversPrefix(names, sorted, i);
    CoversPrefix(names, sorted, i + 1);
    PartlySortedStep(scores, names, i);
    MinimaStep(names, sorted, i);
    ViolationsStep(names, sorted, threshold, i);
  }

  lemma PartlySortedStep(scores: map<string, seq<Score>>, names: seq<string>, i: nat)
    requires i < |names| && names[i] in scores
    ensures PartlySorted(scores, names[..i + 1]) == PartlySorted(scores, names[..i])[names[i] := SortByPfail(scores[names[i]])]
  {
    PrefixStep(names, i);
  }

  lemma MinimaStep(names: seq<string>, scores: map<string, seq<Score>>, i: nat)
    requires i < |names| && Covers(names, scores)
    ensures Covers(names[..i], scores) && Covers(names[..i + 1], scores)
    ensures Minima(names[..i + 1], scores) == Minima(names[..i], scores) + [MinReliability(scores[names[i]])]
  {
    PrefixStep(names, i);
    CoversPrefix(names, scores, i);
    CoversPrefix(names, scores, i + 1);
  }

  lemma ViolationsStep(names: seq<string>, scores: map<string, seq<Score>>, threshold: real, i: nat)
    requires i < |names| && Covers(names, scores)
    ensures Covers(names[..i], scores) && Covers(names[..i + 1], scores)
    ensures var e := names[i];
            ViolationsOf(names[..i + 1], scores, threshold) ==
              ViolationsOf(names[..i], scores, threshold) +
              if MinReliability(scores[e]) < threshold then [Violation(e, Worst(scores[e]))] else []
  {
    PrefixStep(names, i);
    CoversPrefix(names, scores, i);
    CoversPrefix(names, scores, i + 1);
  }

  /** The loop of `evaluate_gate`: sort each series in place, record its minimum, and note the
      endpoint with its worst entry when that minimum is under the threshold. */
  method VisitAll(scores: map<string, seq<Score>>, names: seq<string>, threshold: real)
    returns (sorted: map<string, seq<Score>>, aggregate: seq<real>, violations: seq<Violation>)
    requires Covers(names, SortAll(scores))
    ensures sorted == PartlySorted(scores, names)
    ensures aggregate == Minima(names, SortAll(scores))
    ensures violations == ViolationsOf(names, SortAll(scores), threshold)
  {
    sorted := scores;
    aggregate := [];
    violations := [];
    for i := 0 to |names|
      invariant Covers(names[..i], SortAll(scores))
      invariant sorted == PartlySorted(scores, names[..i])
      invariant aggregate == Minima(names[..i], SortAll(scores))
      invariant violations == ViolationsOf(names[..i], SortAll(scores), threshold)
    {
      JudgeStep(scores, names, threshold, i);
      var endpoint := names[i];
      var entries := SortByPfail(scores[endpoint]);
      sorted := sorted[endpoint := entries];
      var endpointMin := MinReliability(entries);
      aggregate := aggregate + [endpointMin];
      if endpointMin < threshold {
        violations := violations + [Violation(endpoint, Worst(entries))];
      }
    }
    assert names[..|names|] == names;
  }

  /** `evaluate_gate` after selection: visit every endpoint, then decide by the mode. */
  method Judge(scores: map<string, seq<Score>>, names: seq<string>, threshold: real, mode: string) returns (g: GateResult)
    requires names != [] && Covers(names, SortAll(scores))
    requires forall e :: e in scores ==> e in names
    ensures g == Decide(names, SortAll(scores), threshold, mode)
  {
    var sorted, aggregate, violations := VisitAll(scores, names, threshold);
    PartlySortedAll(scores, names);
    assert Decide(names, SortAll(scores), threshold, mode) == Conclude(aggregate, violations, sorted, threshold, mode);
    if mode == "mean" {
      var mean := Sum(aggregate) / |aggregate| as real;
      g := GateResult(mean >= threshold, Verdict(violations, Mean(mean), threshold), sorted);
    } else {
      g := GateResult(violations == [], Verdict(violations, Minimum(MinOf(aggregate)), threshold), sorted);
    }
  }

  // ---------------------------------------------------------------------------------------------
  // What the verdict means

  /** The gate is skipped, and passes, exactly when nothing was selected. */
  lemma SkippedExactlyWhenEmpty(sel: map<string, seq<Score>>, threshold: real, mode: string, resultsMode: Option<string>)
    requires NonEmptySeries(sel)
    ensures var g := Evaluate(sel, threshold, mode, resultsMode);
            && (g.reason.Skipped? <==> sel == map[])
            && (g.reason.Skipped? ==> g.passed && g.scores == map[] && g.reason.resultsMode == ShownMode(resultsMode))
  {
  }

  /** The reported series are the selected ones, each sorted by failure probability, with the same
      entries, and entries of equal failure probability in their selected order. */
  lemma ReportedSeries(sel: map<string, seq<Score>>, threshold: real, mode: string, resultsMode: Option<string>, e: string)
    requires NonEmptySeries(sel) && e in sel
    ensures var g := Evaluate(sel, threshold, mode, resultsMode);
            && g.scores.Keys == sel.Keys
            && SortedByPfail(g.scores[e])
            && multiset(g.scores[e]) == multiset(sel[e])
            && forall q :: WithPfail(g.scores[e], q) == WithPfail(sel[e], q)
  {
    SortByPfailSorted(sel[e]);
    forall q ensures WithPfail(SortByPfail(sel[e]), q) == WithPfail(sel[e], q) {
      SortByPfailStable(sel[e], q);
    }
  }

  /** Sorting a series does not change its minimum. */
  lemma SortedMinimum(s: seq<Score>)
    requires s != []
    ensures SortByPfail(s) != [] && MinReliability(SortByPfail(s)) == MinReliability(s)
  {
    MinReliabilityOfPermutation(s, SortByPfail(s));
  }

  /** `names` lists the endpoints of `sel`, each once, in name order. */
  predicate Lists(names: seq<string>, sel: map<string, seq<Score>>)
  {
    && names != []
    && StrictlySorted(names)
    && (forall e :: e in sel ==> e in names)
    && (forall i :: 0 <= i < |names| ==> names[i] in sel && sel[names[i]] != [])
  }

  lemma ListsSorted(sel: map<string, seq<Score>>)
    requires NonEmptySeries(sel) && sel != map[]
    ensures Lists(SortedNames(sel.Keys), sel)
  {
    SortedCovers(sel);
  }

  /** The per-endpoint minima of the sorted series are those of the selected ones. */
  lemma {:induction false} MinimaOfSorted(names: seq<string>, sel: map<string, seq<Score>>)
    requires Lists(names, sel)
    ensures var minima := Minima(names, SortAll(sel));
            forall i :: 0 <= i < |minima| ==> minima[i] == MinReliability(sel[names[i]])
  {
    forall i | 0 <= i < |names| ensures MinReliability(SortAll(sel)[names[i]]) == MinReliability(sel[names[i]]) {
      SortedMinimum(sel[names[i]]);
    }
  }

  /** The least and the greatest of the per-endpoint minima are each some selected endpoint's
      minimum reliability. */
  lemma MinimaAttained(names: seq<string>, sel: map<string, seq<Score>>)
    requires Lists(names, sel)
    ensures var minima := Minima(names, SortAll(sel));
            && minima != []
            && (exists e :: e in sel && MinReliability(sel[e]) == MinOf(minima))
            && (exists e :: e in sel && MinReliability(sel[e]) == MaxOf(minima))
  {
    var minima := Minima(names, SortAll(sel));
    MinimaOfSorted(names, sel);
    var i :| 0 <= i < |minima| && MinOf(minima) == minima[i];
    var j :| 0 <= j < |minima| && MaxOf(minima) == minima[j];
    assert names[i] in sel && names[j] in sel;
  }

  /** A violation names a selected endpoint and carries its worst entry. */
  lemma ViolationEntry(names: seq<string>, sel: map<string, seq<Score>>, threshold: real, i: nat)
    requires Lists(names, sel) && i < |ViolationsOf(names, SortAll(sel), threshold)|
    ensures var v := ViolationsOf(names, SortAll(sel), threshold)[i];
            && v.endpoint in sel
            && MinReliability(sel[v.endpoint]) < threshold
            && v.worst == Worst(SortByPfail(sel[v.endpoint]))
            && v.worst.reliability == MinReliability(sel[v.endpoint])
            && v.worst in sel[v.endpoint]
  {
    var scores := SortAll(sel);
    var x := ViolationsOf(names, scores, threshold)[i].endpoint;
    SortedMinimum(sel[x]);
    var k := FirstMinimum(scores[x]);
    assert scores[x][k] in multiset(sel[x]);
  }

  /** An endpoint is listed as a violation exactly when its minimum is under the threshold. */
  lemma ViolationListed(names: seq<string>, sel: map<string, seq<Score>>, threshold: real, e: string)
    requires Lists(names, sel)
    ensures var vs := ViolationsOf(names, SortAll(sel), threshold);
            (exists i :: 0 <= i < |vs| && vs[i].endpoint == e) <==> e in sel && MinReliability(sel[e]) < threshold
  {
    var scores := SortAll(sel);
    var vs := ViolationsOf(names, scores, threshold);
    if e in sel && MinReliability(sel[e]) < threshold {
      SortedMinimum(sel[e]);
      ViolationsComplete(names, scores, threshold, e);
    }
    if exists i :: 0 <= i < |vs| && vs[i].endpoint == e {
      var i :| 0 <= i < |vs| && vs[i].endpoint == e;
      ViolationEntry(names, sel, threshold, i);
    }
  }

  /** `violations` are exactly the endpoints of `sel` whose minimum reliability is under the
      threshold (here: whether `e` is one of them), in name order, each with the first entry of its
      series in `scores` that attains its minimum. */
  predicate ExactViolations(violations: seq<Violation>, scores: map<string, seq<Score>>,
                            sel: map<string, seq<Score>>, threshold: real, e: string)
    requires NonEmptySeries(sel) && NonEmptySeries(scores)
  {
    && ((exists i :: 0 <= i < |violations| && violations[i].endpoint == e) <==> e in sel && MinReliability(sel[e]) < threshold)
    && (forall i, j :: 0 <= i < j < |violations| ==> Less(violations[i].endpoint, violations[j].endpoint))
    && (forall i :: 0 <= i < |violations| ==>
          && violations[i].endpoint in sel && violations[i].endpoint in scores
          && violations[i].worst == Worst(scores[violations[i].endpoint])
          && violations[i].worst.reliability == MinReliability(sel[violations[i].endpoint])
          && violations[i].worst in sel[violations[i].endpoint])
  }

  /** Over any listing of the endpoints in name order, the violations found are exact. */
  lemma ViolationsOfListed(names: seq<string>, sel: map<string, seq<Score>>, threshold: real, e: string)
    requires Lists(names, sel)
    ensures ExactViolations(ViolationsOf(names, SortAll(sel), threshold), SortAll(sel), sel, threshold, e)
  {
    var vs := ViolationsOf(names, SortAll(sel), threshold);
    ViolationsSorted(names, SortAll(sel), threshold);
    ViolationListed(names, sel, threshold, e);
    forall i | 0 <= i < |vs|
      ensures vs[i].endpoint in sel && vs[i].worst.reliability == MinReliability(sel[vs[i].endpoint]) && vs[i].worst in sel[vs[i].endpoint]
    {
      ViolationEntry(names, sel, threshold, i);
    }
  }

  /** The violations the gate reports are exactly the endpoints whose minimum reliability is under
      the threshold, each once, in name order, each with the first entry of its sorted series that
      attains it. */
  lemma ViolationsExactly(sel: map<string, seq<Score>>, threshold: real, mode: string, resultsMode: Option<string>, e: string)
    requires NonEmptySeries(sel) && sel != map[]
    ensures var g := Evaluate(sel, threshold, mode, resultsMode);
            g.reason.Verdict? && ExactViolations(g.reason.violations, g.scores, sel, threshold, e)
  {
    ListsSorted(sel);
    var names := SortedNames(sel.Keys);
    var vs := ViolationsOf(names, SortAll(sel), threshold);
    ViolationsOfListed(names, sel, threshold, e);
    var g := Evaluate(sel, threshold, mode, resultsMode);
    assert g == Decide(names, SortAll(sel), threshold, mode);
    assert g == Conclude(Minima(names, SortAll(sel)), vs, SortAll(sel), threshold, mode);
    assert g.reason.Verdict? && g.reason.violations == vs && g.scores == SortAll(sel);
  }

  /** Outside "mean" mode, over any listing of the endpoints: pass exactly when every minimum
      reaches the threshold; the statistic is the least minimum. */
  lemma {:induction false} DecideAny(names: seq<string>, sel: map<string, seq<Score>>, threshold: real, mode: string)
    requires Lists(names, sel) && mode != "mean"
    ensures var g := Decide(names, SortAll(sel), threshold, mode);
            && g.reason.statistic.Minimum?
            && (g.passed <==> forall e :: e in sel ==> MinReliability(sel[e]) >= threshold)
            && (g.passed <==> g.reason.statistic.value >= threshold)
            && (forall e :: e in sel ==> g.reason.statistic.value <= MinReliability(sel[e]))
            && (exists e :: e in sel && g.reason.statistic.value == MinReliability(sel[e]))
  {
    var minima := Minima(names, SortAll(sel));
    MinimaOfSorted(names, sel);
    var m := MinOf(minima);
    var vs := ViolationsOf(names, SortAll(sel), threshold);
    forall e | e in sel ensures m <= MinReliability(sel[e]) && (vs == [] ==> MinReliability(sel[e]) >= threshold) {
      var i :| 0 <= i < |names| && names[i] == e;
      assert minima[i] == MinReliability(sel[e]);
      ViolationListed(names, sel, threshold, e);
    }
    var k :| 0 <= k < |minima| && m == minima[k];
    assert names[k] in sel;
    if vs != [] {
      ViolationEntry(names, sel, threshold, 0);
    }
  }

  /** Outside "mean" mode the gate passes exactly when every endpoint's minimum reliability reaches
      the threshold, and the statistic it reports is the least of those minima. */
  lemma AnyModeVerdict(sel: map<string, seq<Score>>, threshold: real, mode: string, resultsMode: Option<string>)
    requires NonEmptySeries(sel) && sel != map[] && mode != "mean"
    ensures var g := Evaluate(sel, threshold, mode, resultsMode);
            && g.reason.Verdict? && g.reason.statistic.Minimum?
            && (g.passed <==> forall e :: e in sel ==> MinReliability(sel[e]) >= threshold)
            && (g.passed <==> g.reason.statistic.value >= threshold)
            && (forall e :: e in sel ==> g.reason.statistic.value <= MinReliability(sel[e]))
            && (exists e :: e in sel && g.reason.statistic.value == MinReliability(sel[e]))
  {
    ListsSorted(sel);
    DecideAny(SortedNames(sel.Keys), sel, threshold, mode);
  }

  /** In "mean" mode, over any listing of the endpoints: the mean lies between the least and the
      greatest minimum, and reaches the threshold when every minimum does. */
  lemma {:induction false} DecideMean(names: seq<string>, sel: map<string, seq<Score>>, threshold: real)
    requires Lists(names, sel)
    ensures var g := Decide(names, SortAll(sel), threshold, "mean");
            && g.reason.statistic.Mean?
            && (g.passed <==> g.reason.statistic.value >= threshold)
            && (exists e :: e in sel && MinReliability(sel[e]) <= g.reason.statistic.value)
            && (exists e :: e in sel && g.reason.statistic.value <= MinReliability(sel[e]))
            && ((forall e :: e in sel ==> MinReliability(sel[e]) >= threshold) ==> g.passed)
            && (var minima := Minima(names, SortAll(sel));
                && g.reason.statistic.value == Sum(minima) / |minima| as real
                && forall i :: 0 <= i < |minima| ==> minima[i] == MinReliability(sel[names[i]]))
  {
    MinimaOfSorted(names, sel);
    var scores := SortAll(sel);
    var minima := Minima(names, scores);
    var vs := ViolationsOf(names, scores, threshold);
    assert Decide(names, scores, threshold, "mean") == Conclude(minima, vs, scores, threshold, "mean");
    ConcludeMean(minima, vs, scores, threshold);
    MinimaAttained(names, sel);
    if forall e :: e in sel ==> MinReliability(sel[e]) >= threshold {
      var lo :| lo in sel && MinReliability(sel[lo]) == MinOf(minima);
      MinAtLeast(minima, threshold);
    }
  }

  /** In "mean" mode the statistic is the mean of the per-endpoint minima (one per selected
      endpoint, in name order), the gate passes exactly when it reaches the threshold, and it lies
      between the least and the greatest minimum. */
  lemma MeanModeVerdict(sel: map<string, seq<Score>>, threshold: real, resultsMode: Option<string>)
    requires NonEmptySeries(sel) && sel != map[]
    ensures var g := Evaluate(sel, threshold, "mean", resultsMode);
            && g.reason.Verdict? && g.reason.statistic.Mean?
            && g.reason.statistic.value == Sum(SelectionMinima(sel)) / |SelectionMinima(sel)| as real
            && (g.passed <==> g.reason.statistic.value >= threshold)
            && (exists e :: e in sel && MinReliability(sel[e]) <= g.reason.statistic.value)
            && (exists e :: e in sel && g.reason.statistic.value <= MinReliability(sel[e]))
  {
    ListsSorted(sel);
    var names := SortedNames(sel.Keys);
    DecideMean(names, sel, threshold);
    assert Evaluate(sel, threshold, "mean", resultsMode) == Decide(names, SortAll(sel), threshold, "mean");
    assert SelectionMinima(sel) == Minima(names, SortAll(sel));
  }

  /** "mean" mode tolerates what the default mode tolerates: when every endpoint reaches the
      threshold, so does their mean. */
  lemma MeanToleratesMore(sel: map<string, seq<Score>>, threshold: real, mode: string, resultsMode: Option<string>)
    requires NonEmptySeries(sel) && mode != "mean"
    ensures Evaluate(sel, threshold, mode, resultsMode).passed ==> Evaluate(sel, threshold, "mean", resultsMode).passed
  {
    if sel != map[] {
      ListsSorted(sel);
      DecideAny(SortedNames(sel.Keys), sel, threshold, mode);
      DecideMean(SortedNames(sel.Keys), sel, threshold);
    }
  }

  // ---------------------------------------------------------------------------------------------
  // A worked case: one endpoint under the threshold

  /** Two endpoints, `/A` at 0.9 and `/B` at 0.3, against a threshold of 0.5 (one failure
      probability): the default mode fails and names `/B`; "mean" mode passes on a mean of 0.6. */
  lemma OneViolator(resultsMode: Option<string>)
    ensures var sel := map["/A" := [Score(0.1, 0.9)], "/B" := [Score(0.1, 0.3)]];
            && Evaluate(sel, 0.5, "any", resultsMode) ==
                 GateResult(false, Verdict([Violation("/B", Score(0.1, 0.3))], Minimum(0.3), 0.5), sel)
            && Evaluate(sel, 0.5, "mean", resultsMode) ==
                 GateResult(true, Verdict([Violation("/B", Score(0.1, 0.3))], Mean(0.6), 0.5), sel)
  {
    var sel := map["/A" := [Score(0.1, 0.9)], "/B" := [Score(0.1, 0.3)]];
    var names := ["/A", "/B"];
    assert Less("/A", "/B") by {
      assert "/A"[1..] == "A" && "/B"[1..] == "B";
      assert Less("A", "B");
    }
    assert forall x :: x in names <==> x in sel.Keys;
    SortedUnique(names, SortedNames(sel.Keys));
    ScenarioSeries(sel);
    assert SortAll(sel) == sel;
    ScenarioVerdict(sel, names);
  }

  lemma ScenarioSeries(sel: map<string, seq<Score>>)
    requires sel == map["/A" := [Score(0.1, 0.9)], "/B" := [Score(0.1, 0.3)]]
    ensures SortAll(sel) == sel
  {
    assert [Score(0.1, 0.9)][..0] == [] && [Score(0.1, 0.3)][..0] == [];
    assert SortByPfail([Score(0.1, 0.9)]) == [Score(0.1, 0.9)];
    assert SortByPfail([Score(0.1, 0.3)]) == [Score(0.1, 0.3)];
  }

  lemma ScenarioVerdict(sel: map<string, seq<Score>>, names: seq<string>)
    requires sel == map["/A" := [Score(0.1, 0.9)], "/B" := [Score(0.1, 0.3)]] && names == ["/A", "/B"]
    ensures Covers(names, sel)
    ensures Decide(names, sel, 0.5, "any") == GateResult(false, Verdict([Violation("/B", Score(0.1, 0.3))], Minimum(0.3), 0.5), sel)
    ensures Decide(names, sel, 0.5, "mean") == GateResult(true, Verdict([Violation("/B", Score(0.1, 0.3))], Mean(0.6), 0.5), sel)
  {
    assert names[..1] == ["/A"] && names[..1][..0] == [];
    assert MinReliability(sel["/A"]) == 0.9 && MinReliability(sel["/B"]) == 0.3;
    assert Worst(sel["/B"]) == Score(0.1, 0.3);
    assert Minima(names, sel) == [0.9, 0.3];
    assert ViolationsOf(names[..1], sel, 0.5) == [];
    assert ViolationsOf(names, sel, 0.5) == [Violation("/B", Score(0.1, 0.3))];
    var minima := [0.9, 0.3];
    assert minima[..1] == [0.9] && minima[..1][..0] == [];
    assert Sum(minima) == 1.2;
    assert MinOf(minima) == 0.3;
  }

  /** One endpoint `/A` recorded twice, at 0.9 (failure probability 0.1) and at 0.3 (0.2), against a
      threshold of 0.5: both runs land in `/A`'s one series, so "mean" mode averages the single
      minimum 0.3 and fails, naming `/A` with its worst run. */
  lemma OneEndpointTwoRuns(resultsMode: Option<string>)
    ensures var sel := map["/A" := [Score(0.1, 0.9), Score(0.2, 0.3)]];
            Evaluate(sel, 0.5, "mean", resultsMode) ==
              GateResult(false, Verdict([Violation("/A", Score(0.2, 0.3))], Mean(0.3), 0.5), sel)
  {
    var sel := map["/A" := [Score(0.1, 0.9), Score(0.2, 0.3)]];
    var names := ["/A"];
    assert forall x :: x in names <==> x in sel.Keys;
    SortedUnique(names, SortedNames(sel.Keys));
    TwoRunsSeries(sel);
    assert SortAll(sel) == sel;
    TwoRunsVerdict(sel, names);
  }

  lemma TwoRunsSeries(sel: map<string, seq<Score>>)
    requires sel == map["/A" := [Score(0.1, 0.9), Score(0.2, 0.3)]]
    ensures SortAll(sel) == sel
  {
    OrderedPair(Score(0.1, 0.9), Score(0.2, 0.3));
  }

  /** Two runs already in failure-probability order stay as they are. */
  lemma OrderedPair(x: Score, y: Score)
    requires x.pfail <= y.pfail
    ensures SortByPfail([x, y]) == [x, y]
  {
    assert [x, y][..1] == [x] && [x][..0] == [];
  }

  lemma TwoRunsVerdict(sel: map<string, seq<Score>>, names: seq<string>)
    requires sel == map["/A" := [Score(0.1, 0.9), Score(0.2, 0.3)]] && names == ["/A"]
    ensures Covers(names, sel)
    ensures Decide(names, sel, 0.5, "mean") == GateResult(false, Verdict([Violation("/A", Score(0.2, 0.3))], Mean(0.3), 0.5), sel)
  {
    var s := [Score(0.1, 0.9), Score(0.2, 0.3)];
    SingleEndpoint("/A", s, sel, names, 0.5);
    TwoRunsWorst(s);
  }

  /** A selection of one endpoint: its minimum is the only one, and it is a violation iff under the threshold. */
  lemma SingleEndpoint(e: string, s: seq<Score>, sel: map<string, seq<Score>>, names: seq<string>, threshold: real)
    requires s != [] && sel == map[e := s] && names == [e]
    ensures Covers(names, sel)
    ensures Minima(names, sel) == [MinReliability(s)]
    ensures ViolationsOf(names, sel, threshold) == if MinReliability(s) < threshold then [Violation(e, Worst(s))] else []
    ensures var m := MinReliability(s);
            Decide(names, sel, threshold, "mean") ==
              GateResult(m >= threshold, Verdict(if m < threshold then [Violation(e, Worst(s))] else [], Mean(m), threshold), sel)
  {
    assert names[..0] == [];
    var m := MinReliability(s);
    assert Sum([m]) == m by {
      assert [m][..0] == [];
    }
  }

  lemma TwoRunsWorst(s: seq<Score>)
    requires s == [Score(0.1, 0.9), Score(0.2, 0.3)]
    ensures MinReliability(s) == 0.3 && Worst(s) == Score(0.2, 0.3)
  {
    assert s[..1] == [Score(0.1, 0.9)];
    assert FirstMinimum(s[..1]) == 0;
  }

  // ---------------------------------------------------------------------------------------------
  // The reason text

  /** The violations as `", ".join(f"{endpoint} @ pfail={pfail:g} -> {score:.4f}" ...)`. */
  function ViolationList(vs: seq<Violation>, general: real -> string, fixed4: real -> string): string
  {
    if vs == [] then ""
    else
      var item := vs[0].endpoint + " @ pfail=" + general(vs[0].worst.pfail) + " -> " + fixed4(vs[0].worst.reliability);
      if |vs| == 1 then item else item + ", " + ViolationList(vs[1..], general, fixed4)
  }

  const SkippedHead := "No endpoints matched the filters"
  const ViolationsHead := "Violations: "
  const MeanHead := "mean reliability="
  const MinHead := "min reliability="

  /** The `reason` string; the float formats `{:.4f}`, `{:g}` and `{}` are parameters. */
  function ReasonText(r: Reason, fixed4: real -> string, general: real -> string, shown: real -> string): string
  {
    match r
    case Skipped(None) => SkippedHead + "; gate skipped"
    case Skipped(Some(m)) => SkippedHead + (" for mode '" + m + "'; gate skipped")
    case Verdict(vs, stat, t) =>
      var base := (if stat.Mean? then MeanHead else MinHead) + (fixed4(stat.value) + " (threshold=" + shown(t) + ")");
      if vs == [] then base else ViolationsHead + (ViolationList(vs, general, fixed4) + "; " + base)
  }

  lemma Opening(text: string, head: string, rest: string)
    requires text == head + rest && |head| >= 2
    ensures StartsWith(text, head) && text[0] == head[0] && text[1] == head[1]
  {
    assert text[..|head|] == head;
  }

  /** Which of the four openings `text` has, given its first two characters. */
  predicate OpensWith(text: string, first: char, second: char)
  {
    |text| >= 2 && text[0] == first && text[1] == second
  }

  lemma Openings(text: string, first: char, second: char)
    requires OpensWith(text, first, second)
    ensures StartsWith(text, SkippedHead) ==> first == 'N'
    ensures StartsWith(text, ViolationsHead) ==> first == 'V'
    ensures StartsWith(text, MeanHead) ==> first == 'm' && second == 'e'
    ensures StartsWith(text, MinHead) ==> first == 'm' && second == 'i'
  {
  }

  /** The text tells the outcomes apart by its opening words. */
  lemma ReasonTextOpening(r: Reason, fixed4: real -> string, general: real -> string, shown: real -> string)
    ensures var text := ReasonText(r, fixed4, general, shown);
            && (StartsWith(text, SkippedHead) <==> r.Skipped?)
            && (StartsWith(text, ViolationsHead) <==> r.Verdict? && r.violations != [])
            && (StartsWith(text, MeanHead) <==> r.Verdict? && r.violations == [] && r.statistic.Mean?)
            && (StartsWith(text, MinHead) <==> r.Verdict? && r.violations == [] && r.statistic.Minimum?)
  {
    var text := ReasonText(r, fixed4, general, shown);
    match r
    case Skipped(None) =>
      Opening(text, SkippedHead, "; gate skipped");
      Openings(text, 'N', 'o');
    case Skipped(Some(m)) =>
      Opening(text, SkippedHead, " for mode '" + m + "'; gate skipped");
      Openings(text, 'N', 'o');
    case Verdict(vs, stat, t) =>
      var tail := fixed4(stat.value) + " (threshold=" + shown(t) + ")";
      var base := (if stat.Mean? then MeanHead else MinHead) + tail;
      if vs != [] {
        Opening(text, ViolationsHead, ViolationList(vs, general, fixed4) + "; " + base);
        Openings(text, 'V', 'i');
      } else if stat.Mean? {
        Opening(text, MeanHead, tail);
        Openings(text, 'm', 'e');
      } else {
        Opening(text, MinHead, tail);
        Openings(text, 'm', 'i');
      }
  }

  // ---------------------------------------------------------------------------------------------
  // The result as a dictionary

  /** `{"pfail": pfail, "reliability": reliability}`. */
  function Record(x: Score): Value
  {
    Obj(map["pfail" := Num(x.pfail), "reliability" := Num(x.reliability)])
  }

  function ScoresValue(scores: map<string, seq<Score>>): Value
  {
    Obj(map e | e in scores :: Arr(seq(|scores[e]|, i requires 0 <= i < |scores[e]| => Record(scores[e][i]))))
  }

  /** `GateResult.as_dict`, given the reason's text. */
  function AsDict(g: GateResult, reasonText: string): Value
  {
    Obj(map["passed" := Bool(g.passed), "reason" := Str(reasonText), "scores" := ScoresValue(g.scores)])
  }

  /** Reading a record back. */
  function RecordScore(v: Value): Option<Score>
  {
    if v.Obj? && "pfail" in v.members && "reliability" in v.members &&
       v.members["pfail"].Num? && v.members["reliability"].Num?
    then Some(Score(v.members["pfail"].r, v.members["reliability"].r))
    else None
  }

  function RecordsScores(items: seq<Value>): Option<seq<Score>>
  {
    if items == [] then Some([])
    else
      match (RecordsScores(items[..|items| - 1]), RecordScore(items[|items| - 1]))
      case (Some(init), Some(x)) => Some(init + [x])
      case _ => None
  }

  /** Reading the `scores` member back. */
  function ScoresFromValue(v: Value): Option<map<string, seq<Score>>>
  {
    if v.Obj? && forall e :: e in v.members ==> v.members[e].Arr? && RecordsScores(v.members[e].items).Some?
    then Some(map e | e in v.members :: RecordsScores(v.members[e].items).value)
    else None
  }

  lemma {:induction false} RecordsRoundTrip(s: seq<Score>)
    ensures RecordsScores(seq(|s|, i requires 0 <= i < |s| => Record(s[i]))) == Some(s)
  {
    var items := seq(|s|, i requires 0 <= i < |s| => Record(s[i]));
    if s != [] {
      var init := s[..|s| - 1];
      assert items[..|items| - 1] == seq(|init|, i requires 0 <= i < |init| => Record(init[i]));
      RecordsRoundTrip(init);
      assert s == init + [s[|s| - 1]];
    }
  }

  /** The dictionary form keeps everything: the verdict, the reason text, and every series with its
      pairs in order. */
  lemma AsDictRoundTrip(g: GateResult, reasonText: string)
    ensures var d := AsDict(g, reasonText);
            && d.members["passed"] == Bool(g.passed)
            && d.members["reason"] == Str(reasonText)
            && ScoresFromValue(d.members["scores"]) == Some(g.scores)
  {
    var v := ScoresValue(g.scores);
    forall e | e in g.scores
      ensures RecordsScores(v.members[e].items) == Some(g.scores[e])
    {
      RecordsRoundTrip(g.scores[e]);
    }
    var m := map e | e in v.members :: RecordsScores(v.members[e].items).value;
    assert m == g.scores;
  }

  // ---------------------------------------------------------------------------------------------
  // The command line

  const DefaultMode := "any"
  const DefaultResultsMode := "norepl"
  const DefaultFilters := ""

  /** `[flt for flt in filters.split(",") if flt]`. */
  function SplitFilters(arg: string): (r: seq<string>)
    ensures forall x :: x in r <==> x in Split(arg, ',') && x != ""
    ensures forall x :: x in r ==> x != "" && ',' !in x
  {
    var pieces := Split(arg, ',');
    assert forall x :: x in pieces ==> ',' !in x;
    NonBlank(pieces)
  }

  lemma {:induction false} SplitJoin(fs: seq<string>)
    requires fs != [] && forall i :: 0 <= i < |fs| ==> ',' !in fs[i]
    ensures Split(Join(fs, ','), ',') == fs
  {
    if |fs| == 1 {
      assert FirstIndex(fs[0], ',') == |fs[0]|;
    } else {
      var rest := Join(fs[1..], ',');
      FirstIndexOfJoin(fs[0], ',', rest);
      var s := fs[0] + [','] + rest;
      assert s[..|fs[0]|] == fs[0];
      assert s[|fs[0]| + 1..] == rest;
      SplitJoin(fs[1..]);
      assert fs == [fs[0]] + fs[1..];
    }
  }

  lemma {:induction false} NonBlankOfFilled(fs: seq<string>)
    requires forall i :: 0 <= i < |fs| ==> fs[i] != ""
    ensures NonBlank(fs) == fs
  {
    if fs != [] {
      var init := fs[..|fs| - 1];
      NonBlankOfFilled(init);
      assert fs == init + [fs[|fs| - 1]];
    }
  }

  /** Joining non-empty, comma-free filters with commas gives an argument that splits back into
      them. */
  lemma SplitFiltersJoin(fs: seq<string>)
    requires forall i :: 0 <= i < |fs| ==> fs[i] != "" && ',' !in fs[i]
    ensures SplitFilters(Join(fs, ',')) == fs
  {
    if fs == [] {
      assert FirstIndex("", ',') == 0;
      assert Split("", ',') == [""];
      assert NonBlank([""]) == [];
    } else {
      SplitJoin(fs);
      NonBlankOfFilled(fs);
    }
  }

  /** The filters the selection applies, from the command-line argument: the non-blank pieces
      between commas, stripped. */
  lemma FiltersFromArgument(arg: string, f: string)
    ensures f in NormalizeFilters(SplitFilters(arg)) <==>
            f != "" && exists piece :: piece in Split(arg, ',') && Strip(piece) == f
  {
    var pieces := SplitFilters(arg);
    NormalizeFiltersMembers(pieces, f);
    if f != "" && exists piece :: piece in Split(arg, ',') && Strip(piece) == f {
      var piece :| piece in Split(arg, ',') && Strip(piece) == f;
      assert piece != "";
      var i :| 0 <= i < |pieces| && pieces[i] == piece;
    }
    if f in NormalizeFilters(pieces) {
      var i :| 0 <= i < |pieces| && Strip(pieces[i]) == f;
      assert pieces[i] in pieces;
    }
  }

  /** `(results_mode or "").strip().lower() or None`. */
  function NormalizeResultsMode(arg: string): (r: Option<string>)
    ensures r.None? <==> AllSpace(arg)
    ensures r.Some? ==> r.value != "" && Stripped(r.value) && forall i :: 0 <= i < |r.value| ==> !IsUpper(r.value[i])
  {
    var t := Lower(Strip(arg));
    LowerStripped(Strip(arg));
    if t == "" then None else Some(t)
  }

  /** Lower-casing twice is lower-casing once. */
  lemma LowerTwice(s: string)
    ensures Lower(Lower(s)) == Lower(s)
  {
    var t := Lower(s);
    assert forall i :: 0 <= i < |t| ==> Lower(t)[i] == t[i];
  }

  /** The results mode the command line passes on is already in the form the selection compares
      against: normalising it again changes nothing. */
  lemma ResultsModeNormalisedOnce(arg: string)
    ensures NormalizeMode(NormalizeResultsMode(arg)) == NormalizeResultsMode(arg)
  {
    LowerTwice(Strip(arg));
  }

  /** The summary written by `--summary`. */
  function SummaryPayload(threshold: real, mode: string, resultsMode: Option<string>, filters: seq<string>,
                          g: GateResult, reasonText: string): Value
  {
    Obj(map[
      "threshold" := Num(threshold),
      "mode" := Str(mode),
      "results_mode" := (if resultsMode.Some? then Str(resultsMode.value) else Null),
      "filters" := Arr(seq(|filters|, i requires 0 <= i < |filters| => Str(filters[i]))),
      "passed" := Bool(g.passed),
      "reason" := Str(reasonText),
      "endpoints" := AsDict(g, reasonText).members["scores"]
    ])
  }

  /** `main`: absent options take their defaults; the gate is evaluated on the normalised filters
      and results mode; the summary and the reason text are produced; the exit status is 0 exactly
      when the gate passed, and 1 otherwise. */
  method GateMain(files: seq<ResultFile>, threshold: real, modeArg: Option<string>, resultsModeArg: Option<string>,
                  filtersArg: Option<string>, fixed4: real -> string, general: real -> string, shown: real -> string)
    returns (code: int, summary: Value, message: string)
    ensures var mode := modeArg.GetOr(DefaultMode);
            var resultsMode := NormalizeResultsMode(resultsModeArg.GetOr(DefaultResultsMode));
            var filters := SplitFilters(filtersArg.GetOr(DefaultFilters));
            var g := Evaluate(Select(Loaded(files), filters, resultsMode), threshold, mode, resultsMode);
            && (code == 0 <==> g.passed)
            && (code == 1 <==> !g.passed)
            && message == ReasonText(g.reason, fixed4, general, shown)
            && summary == SummaryPayload(threshold, mode, resultsMode, filters, g, message)
  {
    var mode := modeArg.GetOr(DefaultMode);
    var filters := SplitFilters(filtersArg.GetOr(DefaultFilters));
    var resultsMode := NormalizeResultsMode(resultsModeArg.GetOr(DefaultResultsMode));
    var g := EvaluateGate(files, threshold, mode, resultsMode, filters);
    message := ReasonText(g.reason, fixed4, general, shown);
    summary := SummaryPayload(threshold, mode, resultsMode, filters, g, message);
    code := if g.passed then 0 else 1;
  }
}
