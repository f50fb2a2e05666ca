/** The Law III correlation test of test-5-data: every composite failure of the anchors
    S_n (found by the wide search that ignores lower candidates up to 1) is fixed by the nearest
    neighbouring anchor S_{n-r} or S_{n+r}, r = 1..30, whose distance to the failure's prime is
    1 or prime. Each fixed failure becomes a record with the residues of both anchors; the first
    failure with no fix stops the run. */
module LawThreeCorrelation {
  import opened Search
  import opened Events

  /** `MAX_LAW_III_RADIUS`. */
  const MAX_RADIUS: nat := 30

  /** The radii 1..30 on both sides of anchor `i` lie inside the prime list. */
  predicate InRadius(primes: seq<int>, i: nat)
  {
    MAX_RADIUS <= i && i + MAX_RADIUS + 1 < |primes|
  }

  ghost predicate IndexedInRadius(primes: seq<int>, es: seq<FailureEvent>)
  {
    forall e :: e in es ==> InRadius(primes, e.index)
  }

  /** The fix of a failure: the radius and the fixing anchor. */
  datatype Fix = Fix(r: nat, sFix: int)

  /** The anchor `r` places before anchor `i` fixes prime `q`. */
  predicate PrevClean(primes: seq<int>, oracle: set<int>, i: nat, q: int, r: nat)
    requires r <= i && i + 1 < |primes|
  {
    IsCleanK(Abs(Anchor(primes, i - r) - q), oracle)
  }

  /** The anchor `r` places after anchor `i` fixes prime `q`. */
  predicate NextClean(primes: seq<int>, oracle: set<int>, i: nat, q: int, r: nat)
    requires i + r + 1 < |primes|
  {
    IsCleanK(Abs(Anchor(primes, i + r) - q), oracle)
  }

  /** The Law III search from radius `r` on: the earlier anchor first, then the later one. */
  function FixFrom(primes: seq<int>, oracle: set<int>, i: nat, q: int, r: nat): Option<Fix>
    requires InRadius(primes, i) && 1 <= r
    decreases MAX_RADIUS + 1 - r
  {
    if r > MAX_RADIUS then None
    else if PrevClean(primes, oracle, i, q, r) then Some(Fix(r, Anchor(primes, i - r)))
    else if NextClean(primes, oracle, i, q, r) then Some(Fix(r, Anchor(primes, i + r)))
    else FixFrom(primes, oracle, i, q, r + 1)
  }

  /** The contract of the Law III search: a fix has the least radius at which either
      neighbouring anchor is clean, the earlier anchor winning a tie; no fix means no clean
      anchor at any radius 1..30. */
  ghost predicate IsLeastFix(fix: Option<Fix>, primes: seq<int>, oracle: set<int>, i: nat, q: int)
    requires InRadius(primes, i)
  {
    match fix
    case None =>
      forall t :: 1 <= t <= MAX_RADIUS ==> !PrevClean(primes, oracle, i, q, t) && !NextClean(primes, oracle, i, q, t)
    case Some(f) =>
      && 1 <= f.r <= MAX_RADIUS
      && (forall t :: 1 <= t < f.r ==> !PrevClean(primes, oracle, i, q, t) && !NextClean(primes, oracle, i, q, t))
      && (if PrevClean(primes, oracle, i, q, f.r) then f.sFix == Anchor(primes, i - f.r)
          else NextClean(primes, oracle, i, q, f.r) && f.sFix == Anchor(primes, i + f.r))
  }

  lemma {:induction false} FixFromIsLeast(primes: seq<int>, oracle: set<int>, i: nat, q: int, r: nat)
    requires InRadius(primes, i) && 1 <= r <= MAX_RADIUS + 1
    requires forall t :: 1 <= t < r ==> !PrevClean(primes, oracle, i, q, t) && !NextClean(primes, oracle, i, q, t)
    ensures IsLeastFix(FixFrom(primes, oracle, i, q, r), primes, oracle, i, q)
    decreases MAX_RADIUS + 1 - r
  {
    if r <= MAX_RADIUS && !PrevClean(primes, oracle, i, q, r) && !NextClean(primes, oracle, i, q, r) {
      FixFromIsLeast(primes, oracle, i, q, r + 1);
    }
  }

  /** The `for r in range(1, MAX_LAW_III_RADIUS + 1)` loop with its two `break`s. */
  method FindFix(primes: seq<int>, oracle: set<int>, i: nat, q: int) returns (fix: Option<Fix>)
    requires InRadius(primes, i)
    ensures fix == FixFrom(primes, oracle, i, q, 1)
    ensures IsLeastFix(fix, primes, oracle, i, q)
  {
    fix := None;
    for r := 1 to MAX_RADIUS + 1
      invariant fix.None?
      invariant FixFrom(primes, oracle, i, q, r) == FixFrom(primes, oracle, i, q, 1)
    {
      var sPrev := primes[i - r] + primes[i - r + 1];
      var kPrev := Abs(sPrev - q);
      assert sPrev == Anchor(primes, i - r);
      if IsCleanK(kPrev, oracle) {
        fix := Some(Fix(r, sPrev));
        assert fix == FixFrom(primes, oracle, i, q, r);
        break;
      }
      var sNext := primes[i + r] + primes[i + r + 1];
      var kNext := Abs(sNext - q);
      assert sNext == Anchor(primes, i + r);
      if IsCleanK(kNext, oracle) {
        fix := Some(Fix(r, sNext));
        assert fix == FixFrom(primes, oracle, i, q, r);
        break;
      }
    }
    FixFromIsLeast(primes, oracle, i, q, 1);
  }

  /** One CSV row. */
  datatype CorrelationRecord = CorrelationRecord(
    index: nat, sn: int, q: int, k: nat,
    snMod6: int, snMod30: int, snMod210: int,
    r: nat, sFix: int,
    sFixMod6: int, sFixMod30: int, sFixMod210: int)

  function RecordOf(e: FailureEvent, fix: Fix): CorrelationRecord
  {
    CorrelationRecord(
      e.index, e.s, e.q, e.k,
      Residue(e.s, 6), Residue(e.s, 30), Residue(e.s, 210),
      fix.r, fix.sFix,
      Residue(fix.sFix, 6), Residue(fix.sFix, 30), Residue(fix.sFix, 210))
  }

  /** The counters: failures, largest radius, the index where Law III failed, the records. */
  datatype Law3Run = Law3Run(totalFailures: nat, maxR: nat, law3Failures: seq<nat>, records: seq<CorrelationRecord>)

  datatype Law3Result =
    | PrimeFileTooSmall   // fewer than pairs + start + 32 primes
    | LookupsOutOfRange   // the last anchor's S_{n+30} lookup would leave the list
    | Ran(run: Law3Run)

  /** The failure anchor `i` produces with this script's search. */
  function Law3Failure(primes: seq<int>, oracle: set<int>, i: nat): Option<FailureEvent>
    requires i + 1 < |primes|
  {
    FailureAt(primes, oracle, i, Cap(WIDE_CAP), LowerAboveOne)
  }

  /** The composite failures of anchors `lo .. hi - 1`. */
  function Law3Failures(primes: seq<int>, oracle: set<int>, lo: nat, hi: nat): (es: seq<FailureEvent>)
    requires MAX_RADIUS <= lo <= hi && hi + MAX_RADIUS + 1 < |primes|
    ensures IndexedInRadius(primes, es)
  {
    FailuresMembers(primes, oracle, lo, hi, Cap(WIDE_CAP), LowerAboveOne);
    Failures(primes, oracle, lo, hi, Cap(WIDE_CAP), LowerAboveOne)
  }

  function FixOf(primes: seq<int>, oracle: set<int>, e: FailureEvent): Option<Fix>
    requires InRadius(primes, e.index)
  {
    FixFrom(primes, oracle, e.index, e.q, 1)
  }

  function Max(a: nat, b: nat): nat
  {
    if a >= b then a else b
  }

  /** A failure is counted; a fixed one is recorded and may raise the radius maximum, an
      unfixed one is logged as the Law III failure. */
  function Law3Record(run: Law3Run, primes: seq<int>, oracle: set<int>, f: Option<FailureEvent>): Law3Run
    requires f.Some? ==> InRadius(primes, f.value.index)
  {
    if f.None? then run
    else
      var e := f.value;
      var fix := FixOf(primes, oracle, e);
      if fix.Some? then
        Law3Run(run.totalFailures + 1, Max(run.maxR, fix.value.r), run.law3Failures, run.records + [RecordOf(e, fix.value)])
      else
        Law3Run(run.totalFailures + 1, run.maxR, run.law3Failures + [e.index], run.records)
  }

  /** The counters after anchors `lo .. hi - 1`, or at the anchor where Law III failed. */
  function Law3State(primes: seq<int>, oracle: set<int>, lo: nat, hi: nat): Law3Run
    requires MAX_RADIUS <= lo <= hi && hi + MAX_RADIUS + 1 < |primes|
    decreases hi - lo
  {
    if hi == lo then Law3Run(0, 0, [], [])
    else
      var prev := Law3State(primes, oracle, lo, hi - 1);
      if prev.law3Failures != [] then prev
      else Law3Record(prev, primes, oracle, Law3Failure(primes, oracle, hi - 1))
  }

  /** What the script ends with. */
  function Law3Spec(primes: seq<int>, oracle: set<int>, start: nat, pairs: nat): Law3Result
  {
    if |primes| < pairs + start + MAX_RADIUS + 2 then PrimeFileTooSmall
    else
      var loopStart := start + MAX_RADIUS;
      var loopEnd := pairs + loopStart;
      if loopEnd >= |primes| - MAX_RADIUS - 1 then LookupsOutOfRange
      else Ran(Law3State(primes, oracle, loopStart, loopEnd))
  }

  /** Once Law III failed, later anchors change nothing. */
  lemma {:induction false} Law3Stays(primes: seq<int>, oracle: set<int>, lo: nat, j: nat, hi: nat)
    requires MAX_RADIUS <= lo <= j <= hi && hi + MAX_RADIUS + 1 < |primes|
    requires Law3State(primes, oracle, lo, j).law3Failures != []
    ensures Law3State(primes, oracle, lo, hi) == Law3State(primes, oracle, lo, j)
    decreases hi - j
  {
    if hi > j {
      Law3Stays(primes, oracle, lo, j, hi - 1);
      var prev := Law3State(primes, oracle, lo, hi - 1);
      assert prev.law3Failures != [];
      assert Law3State(primes, oracle, lo, hi) == prev;
    }
  }

  /** One anchor of the main loop: search, classify, look for the fix and record. */
  method ProcessAnchor(run: Law3Run, primes: seq<int>, oracle: set<int>, i: nat) returns (next: Law3Run)
    requires InRadius(primes, i)
    ensures next == Law3Record(run, primes, oracle, Law3Failure(primes, oracle, i))
  {
    var anchorSn := primes[i] + primes[i + 1];
    assert anchorSn == Anchor(primes, i);
    var o := FindNearest(anchorSn, WIDE_CAP, oracle, LowerAboveOne);
    FailureAtMatchesSearch(primes, oracle, i, Cap(WIDE_CAP), LowerAboveOne);
    var minDistanceK := o.KMin();
    if minDistanceK == 0 {
      return run;
    }
    var isKComposite := minDistanceK > 1 && minDistanceK !in oracle;
    if !isKComposite {
      return run;
    }
    var qPrime := o.q;
    var snMod6, snMod30, snMod210 := anchorSn % 6, anchorSn % 30, anchorSn % 210;
    var fix := FindFix(primes, oracle, i, qPrime);
    if fix.Some? {
      var maxR := run.maxR;
      if fix.value.r > maxR {
        maxR := fix.value.r;
      }
      var sFix := fix.value.sFix;
      var eventData := CorrelationRecord(
        i, anchorSn, qPrime, minDistanceK, snMod6, snMod30, snMod210,
        fix.value.r, sFix, sFix % 6, sFix % 30, sFix % 210);
      next := Law3Run(run.totalFailures + 1, maxR, run.law3Failures, run.records + [eventData]);
    } else {
      next := Law3Run(run.totalFailures + 1, run.maxR, run.law3Failures + [i], run.records);
    }
  }

  /** Anchor `hi` extends a run in which Law III has not failed. */
  lemma Law3StateStep(primes: seq<int>, oracle: set<int>, lo: nat, hi: nat)
    requires MAX_RADIUS <= lo <= hi && hi + 1 + MAX_RADIUS + 1 < |primes|
    requires Law3State(primes, oracle, lo, hi).law3Failures == []
    ensures Law3State(primes, oracle, lo, hi + 1)
      == Law3Record(Law3State(primes, oracle, lo, hi), primes, oracle, Law3Failure(primes, oracle, hi))
  {
  }

  /** The `for i in range(loop_start_index, loop_end_index)` loop, stopping at a Law III failure. */
  method RunAnchors(primes: seq<int>, oracle: set<int>, lo: nat, hi: nat) returns (run: Law3Run)
    requires MAX_RADIUS <= lo <= hi && hi + MAX_RADIUS + 1 < |primes|
    ensures run == Law3State(primes, oracle, lo, hi)
  {
    run := Law3Run(0, 0, [], []);
    for i := lo to hi
      invariant run == Law3State(primes, oracle, lo, i)
      invariant run.law3Failures == []
    {
      Law3StateStep(primes, oracle, lo, i);
      run := ProcessAnchor(run, primes, oracle, i);
      if run.law3Failures != [] {
        Law3Stays(primes, oracle, lo, i + 1, hi);
        break;
      }
    }
  }

  /** The whole test-5-data run, with both fatal size checks. */
  method RunLaw3Correlation(primes: seq<int>, oracle: set<int>, start: nat, pairs: nat) returns (result: Law3Result)
    ensures result == Law3Spec(primes, oracle, start, pairs)
  {
    if |primes| < pairs + start + MAX_RADIUS + 2 {
      return PrimeFileTooSmall;
    }
    var loopStartIndex := start + MAX_RADIUS;
    var loopEndIndex := pairs + loopStartIndex;
    if loopEndIndex >= |primes| - MAX_RADIUS - 1 {
      return LookupsOutOfRange;
    }
    var run := RunAnchors(primes, oracle, loopStartIndex, loopEndIndex);
    return Ran(run);
  }

  /** The largest radius among the records, 0 for none. */
  function MaxRadius(records: seq<CorrelationRecord>): nat
  {
    if records == [] then 0 else Max(MaxRadius(records[..|records| - 1]), records[|records| - 1].r)
  }

  /** `max_r_observed` bounds every record's radius and is attained by one unless there are none. */
  lemma {:induction false} MaxRadiusIsMax(records: seq<CorrelationRecord>)
    ensures forall j :: 0 <= j < |records| ==> records[j].r <= MaxRadius(records)
    ensures records == [] ==> MaxRadius(records) == 0
    ensures records != [] ==> exists j :: 0 <= j < |records| && records[j].r == MaxRadius(records)
    decreases |records|
  {
    if records != [] {
      var init := records[..|records| - 1];
      MaxRadiusIsMax(init);
      assert forall j :: 0 <= j < |init| ==> records[j] == init[j];
      if init != [] && MaxRadius(init) >= records[|records| - 1].r {
        var j :| 0 <= j < |init| && init[j].r == MaxRadius(init);
        assert records[j].r == MaxRadius(records);
      }
    }
  }

  /** How the counters relate to the failures of the range: the records are the fixes of a
      prefix of the failures, one at each, and either every failure is fixed or the next one has
      no fix and is the logged Law III failure; the counters count both kinds. */
  ghost predicate Describes(run: Law3Run, primes: seq<int>, oracle: set<int>, es: seq<FailureEvent>)
    requires IndexedInRadius(primes, es)
  {
    && |run.law3Failures| <= 1
    && run.totalFailures == |run.records| + |run.law3Failures|
    && |run.records| + |run.law3Failures| <= |es|
    && (forall j :: 0 <= j < |run.records| ==>
          assert es[j] in es;
          FixOf(primes, oracle, es[j]).Some? && run.records[j] == RecordOf(es[j], FixOf(primes, oracle, es[j]).value))
    && (run.law3Failures == [] ==> |run.records| == |es|)
    && (run.law3Failures != [] ==>
          assert es[|run.records|] in es;
          run.law3Failures[0] == es[|run.records|].index && FixOf(primes, oracle, es[|run.records|]).None?)
    && run.maxR == MaxRadius(run.records)
  }

  lemma DescribesStep(run: Law3Run, primes: seq<int>, oracle: set<int>, es: seq<FailureEvent>, f: Option<FailureEvent>)
    requires IndexedInRadius(primes, es)
    requires f.Some? ==> InRadius(primes, f.value.index)
    requires Describes(run, primes, oracle, es)
    ensures IndexedInRadius(primes, es + Emit(f))
    ensures Describes(if run.law3Failures != [] then run else Law3Record(run, primes, oracle, f), primes, oracle, es + Emit(f))
  {
    var es2 := es + Emit(f);
    assert forall j :: 0 <= j < |es| ==> es2[j] == es[j];
    if run.law3Failures == [] && f.Some? {
      var next := Law3Record(run, primes, oracle, f);
      assert es2[|es|] == f.value;
      if FixOf(primes, oracle, f.value).Some? {
        assert next.records[..|run.records|] == run.records;
      }
    } else {
      assert |es| <= |es2|;
    }
  }

  /** The run over anchors `lo .. hi - 1` is described by the failures of that range. */
  lemma {:induction false} Law3Exact(primes: seq<int>, oracle: set<int>, lo: nat, hi: nat)
    requires MAX_RADIUS <= lo <= hi && hi + MAX_RADIUS + 1 < |primes|
    ensures Describes(Law3State(primes, oracle, lo, hi), primes, oracle, Law3Failures(primes, oracle, lo, hi))
    decreases hi - lo
  {
    if hi > lo {
      Law3Exact(primes, oracle, lo, hi - 1);
      var f := Law3Failure(primes, oracle, hi - 1);
      DescribesStep(Law3State(primes, oracle, lo, hi - 1), primes, oracle, Law3Failures(primes, oracle, lo, hi - 1), f);
    }
  }

  datatype Verdict = LawThreeFalsified | DataCollected | NoData

  /** The final verdict of the report. */
  function Law3Verdict(run: Law3Run): Verdict
  {
    if run.law3Failures != [] then LawThreeFalsified
    else if run.totalFailures > 0 then DataCollected
    else NoData
  }

  /** The verdict in terms of the range's failures: falsified iff some failure has no fix within
      radius 30, no data iff there is no failure, data collected otherwise. */
  lemma Law3VerdictExact(primes: seq<int>, oracle: set<int>, lo: nat, hi: nat)
    requires MAX_RADIUS <= lo <= hi && hi + MAX_RADIUS + 1 < |primes|
    ensures var es := Law3Failures(primes, oracle, lo, hi);
      var v := Law3Verdict(Law3State(primes, oracle, lo, hi));
      && (v == LawThreeFalsified <==> exists e :: e in es && FixOf(primes, oracle, e).None?)
      && (v == NoData <==> es == [])
  {
    var es := Law3Failures(primes, oracle, lo, hi);
    var run := Law3State(primes, oracle, lo, hi);
    Law3Exact(primes, oracle, lo, hi);
    if run.law3Failures == [] {
      forall e | e in es
        ensures FixOf(primes, oracle, e).Some?
      {
        var j :| 0 <= j < |es| && es[j] == e;
      }
    } else {
      assert es[|run.records|] in es;
    }
  }

  /** What one record states: a composite failure at anchor S_n with its prime, fixed at radius
      1..30 by S_{n-r} or S_{n+r}, whose distance to the prime is clean, with the residues of
      both anchors. */
  ghost predicate ValidRecord(rec: CorrelationRecord, primes: seq<int>, oracle: set<int>)
  {
    && rec.index + 1 < |primes|
    && rec.sn == Anchor(primes, rec.index)
    && CompositeFailure(rec.k, oracle)
    && rec.q in oracle && (rec.q == rec.sn - rec.k || rec.q == rec.sn + rec.k)
    && 1 <= rec.r <= MAX_RADIUS && rec.r <= rec.index && rec.index + rec.r + 1 < |primes|
    && (rec.sFix == Anchor(primes, rec.index - rec.r) || rec.sFix == Anchor(primes, rec.index + rec.r))
    && IsCleanK(Abs(rec.sFix - rec.q), oracle)
    && rec.snMod6 == rec.sn % 6 && rec.snMod30 == rec.sn % 30 && rec.snMod210 == rec.sn % 210
    && rec.sFixMod6 == rec.sFix % 6 && rec.sFixMod30 == rec.sFix % 30 && rec.sFixMod210 == rec.sFix % 210
  }

  lemma RecordOfValid(primes: seq<int>, oracle: set<int>, lo: nat, hi: nat, e: FailureEvent)
    requires MAX_RADIUS <= lo <= hi && hi + MAX_RADIUS + 1 < |primes|
    requires e in Law3Failures(primes, oracle, lo, hi)
    requires FixOf(primes, oracle, e).Some?
    ensures lo <= e.index < hi
    ensures ValidRecord(RecordOf(e, FixOf(primes, oracle, e).value), primes, oracle)
  {
    FailuresMembers(primes, oracle, lo, hi, Cap(WIDE_CAP), LowerAboveOne);
    assert FailureAt(primes, oracle, e.index, Cap(WIDE_CAP), LowerAboveOne) == Some(e);
    var fix := FixOf(primes, oracle, e).value;
    FixFromIsLeast(primes, oracle, e.index, e.q, 1);
    assert 1 <= fix.r <= MAX_RADIUS;
    assert IsCleanK(Abs(fix.sFix - e.q), oracle);
  }

  /** Every record of a run is valid and comes from an anchor of the range, and
      `max_r_observed` is the largest radius, at most 30. */
  lemma Law3RecordFacts(primes: seq<int>, oracle: set<int>, lo: nat, hi: nat)
    requires MAX_RADIUS <= lo <= hi && hi + MAX_RADIUS + 1 < |primes|
    ensures var run := Law3State(primes, oracle, lo, hi);
      && run.maxR <= MAX_RADIUS
      && forall rec :: rec in run.records ==>
        lo <= rec.index < hi && rec.r <= run.maxR && ValidRecord(rec, primes, oracle)
  {
    var es := Law3Failures(primes, oracle, lo, hi);
    var run := Law3State(primes, oracle, lo, hi);
    Law3Exact(primes, oracle, lo, hi);
    MaxRadiusIsMax(run.records);
    forall rec | rec in run.records
      ensures lo <= rec.index < hi && ValidRecord(rec, primes, oracle)
    {
      var j :| 0 <= j < |run.records| && run.records[j] == rec;
      assert es[j] in es;
      RecordOfValid(primes, oracle, lo, hi, es[j]);
    }
    if run.records != [] {
      var j :| 0 <= j < |run.records| && run.records[j].r == run.maxR;
      assert run.records[j] in run.records;
    }
  }
}
