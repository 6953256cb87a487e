/**
 Test prioritization from a window of past runs, with a z-score test for durations.  Durations are
 real numbers; rounding is not modelled.
 */
module TestPrioritizer {
  import opened Text

  datatype Record = Record(name: string, passed: bool, duration: real, timestamp: real, changed: seq<string>)

  function Sum(s: seq<real>): real {
    if s == [] then 0.0 else Sum(s[..|s| - 1]) + s[|s| - 1]
  }

  function SumSquares(s: seq<real>): real {
    if s == [] then 0.0 else SumSquares(s[..|s| - 1]) + s[|s| - 1] * s[|s| - 1]
  }

  /** The differences from `m`. */
  function Deviations(s: seq<real>, m: real): seq<real> {
    seq(|s|, i requires 0 <= i < |s| => s[i] - m)
  }

  function Mean(s: seq<real>): real
    requires s != []
  {
    Sum(s) / |s| as real
  }

  function Variance(s: seq<real>): real
    requires s != []
  {
    SumSquares(Deviations(s, Mean(s))) / |s| as real
  }

  function Abs(x: real): real {
    if x < 0.0 then -x else x
  }

  ghost predicate IsSqrt(sqrt: real -> real) {
    forall x :: x > 0.0 ==> sqrt(x) > 0.0 && sqrt(x) * sqrt(x) == x
  }

  /** The latest duration lies more than `threshold` standard deviations from the mean. */
  predicate Flagged(durations: seq<real>, threshold: real, sqrt: real -> real) {
    |durations| >= 5 && Variance(durations) > 0.0 &&
    (var std := sqrt(Variance(durations));
     std > 0.0 && Abs((durations[|durations| - 1] - Mean(durations)) / std) > threshold)
  }

  // ----- how far the latest duration can lie from the mean -----

  lemma SquareStep(sum: real, squares: real, n: real, x: real)
    requires n > 0.0 && sum * sum <= n * squares
    ensures (sum + x) * (sum + x) <= (n + 1.0) * (squares + x * x)
  {
    var d := sum - n * x;
    assert d * d == sum * sum - 2.0 * (n * (sum * x)) + n * (n * (x * x));
    assert d * d >= 0.0;
    var twice := 2.0 * (sum * x);
    assert n * twice <= n * squares + n * (n * (x * x));
    assert n * (squares + n * (x * x) - twice) >= 0.0;
    assert squares + n * (x * x) - twice >= 0.0;
    assert (sum + x) * (sum + x) == sum * sum + twice + x * x;
    assert (n + 1.0) * (squares + x * x) == n * squares + n * (x * x) + squares + x * x;
  }

  /** The square of a sum of `n` numbers is at most `n` times the sum of their squares. */
  lemma {:induction false} CauchySchwarz(s: seq<real>)
    ensures Sum(s) * Sum(s) <= |s| as real * SumSquares(s)
  {
    if |s| > 1 {
      CauchySchwarz(s[..|s| - 1]);
      SquareStep(Sum(s[..|s| - 1]), SumSquares(s[..|s| - 1]), (|s| - 1) as real, s[|s| - 1]);
    } else if |s| == 1 {
      assert Sum(s) == s[0] && SumSquares(s) == s[0] * s[0] by { assert s[..0] == []; }
    }
  }

  lemma {:induction false} SumOfDeviations(s: seq<real>, m: real)
    ensures Sum(Deviations(s, m)) == Sum(s) - |s| as real * m
  {
    if s != [] {
      var front := s[..|s| - 1];
      assert Deviations(s, m)[..|s| - 1] == Deviations(front, m);
      SumOfDeviations(front, m);
      assert |s| as real * m == |front| as real * m + m;
    }
  }

  /** The moments of a history, with the latest value apart. */
  lemma Moments(s: seq<real>)
    requires s != []
    ensures var n, devs := |s| as real, Deviations(s, Mean(s));
      var front, d := devs[..|s| - 1], s[|s| - 1] - Mean(s);
      && Sum(front) + d == 0.0
      && n * Variance(s) == SumSquares(front) + d * d
  {
    var n, m := |s| as real, Mean(s);
    var devs := Deviations(s, m);
    SumOfDeviations(s, m);
    QuotientTimes(Sum(s), n);
    QuotientTimes(SumSquares(devs), n);
  }

  /** Samuelson's inequality for the latest of `n` values. */
  lemma LatestIsNearMean(s: seq<real>)
    requires s != []
    ensures var d := s[|s| - 1] - Mean(s); d * d <= (|s| - 1) as real * Variance(s)
  {
    hide Mean, Variance, Sum, SumSquares;
    var front, d := Deviations(s, Mean(s))[..|s| - 1], s[|s| - 1] - Mean(s);
    Moments(s);
    CauchySchwarz(front);
    assert Sum(front) == -d && (-d) * (-d) == d * d;
    ScaleBound(|s| as real, d * d, SumSquares(front), Variance(s));
  }

  lemma QuotientTimes(a: real, n: real)
    requires n > 0.0
    ensures n * (a / n) == a
  {
  }

  lemma ScaleBound(n: real, dd: real, q: real, v: real)
    requires n > 0.0 && dd <= (n - 1.0) * q && n * v == q + dd
    ensures dd <= (n - 1.0) * v
  {
    assert n * dd == (n - 1.0) * dd + dd;
    assert (n - 1.0) * q + (n - 1.0) * dd == (n - 1.0) * (n * v) == n * ((n - 1.0) * v);
    assert n * ((n - 1.0) * v - dd) >= 0.0;
  }

  /** The z-score test in squares, without the root. */
  lemma ZScoreSquared(d: real, std: real, variance: real, threshold: real)
    requires std > 0.0 && std * std == variance > 0.0 && threshold >= 0.0
    ensures Abs(d / std) > threshold <==> d * d > threshold * threshold * variance
  {
    var y := Abs(d / std);
    assert (d / std) * std == d;
    assert y * y == (d / std) * (d / std);
    assert d * d == (y * y) * variance by {
      var z := d / std;
      assert (z * std) * (z * std) == (z * z) * (std * std);
    }
    SquaresCompare(y, threshold);
    SameSign(y * y - threshold * threshold, variance);
    assert (y * y - threshold * threshold) * variance == d * d - threshold * threshold * variance;
  }

  lemma SameSign(a: real, b: real)
    requires b > 0.0
    ensures a * b > 0.0 <==> a > 0.0
  {
    if a > 0.0 { assert a * b > 0.0; } else { assert (-a) * b >= 0.0; }
  }

  lemma SquaresCompare(a: real, b: real)
    requires a >= 0.0 && b >= 0.0
    ensures a > b <==> a * a > b * b
  {
    assert a * a - b * b == (a - b) * (a + b);
    if a + b > 0.0 { SameSign(a - b, a + b); }
  }

  /** A test can be flagged only if the square of the threshold is below one less than the number of
      runs on record. */
  lemma FlagNeedsHistory(s: seq<real>, threshold: real, sqrt: real -> real)
    requires IsSqrt(sqrt) && threshold >= 0.0 && Flagged(s, threshold, sqrt)
    ensures threshold * threshold < (|s| - 1) as real
  {
    var d, v, n := s[|s| - 1] - Mean(s), Variance(s), (|s| - 1) as real;
    ZScoreSquared(d, sqrt(v), v, threshold);
    LatestIsNearMean(s);
    assert (n - threshold * threshold) * v > 0.0;
    SameSign(n - threshold * threshold, v);
  }

  /** At the default threshold of 2 a history of five can never be flagged. */
  lemma FiveRunsAreNeverFlagged(s: seq<real>, sqrt: real -> real)
    requires IsSqrt(sqrt) && |s| == 5
    ensures !Flagged(s, 2.0, sqrt)
  {
    if Flagged(s, 2.0, sqrt) { FlagNeedsHistory(s, 2.0, sqrt); }
  }

  /** `n - 1` instant runs and one of a second. */
  function Spike(n: nat): seq<real>
    requires n > 0
  {
    seq(n - 1, _ => 0.0) + [1.0]
  }

  lemma {:induction false} SumsOfConstant(n: nat, x: real)
    ensures Sum(seq(n, _ => x)) == n as real * x && SumSquares(seq(n, _ => x)) == n as real * (x * x)
  {
    if n > 0 {
      SumsOfConstant(n - 1, x);
      assert seq(n, _ => x)[..n - 1] == seq(n - 1, _ => x);
      assert n as real * x == (n - 1) as real * x + x && n as real * (x * x) == (n - 1) as real * (x * x) + x * x;
    }
  }

  lemma SpikeMoments(k: nat)
    requires k > 1
    ensures var n := k as real;
      Mean(Spike(k)) == 1.0 / n && n * n * Variance(Spike(k)) == n - 1.0
  {
    var s, n := Spike(k), k as real;
    var zeros := seq(k - 1, _ => 0.0);
    SumsOfConstant(k - 1, 0.0);
    assert s[..k - 1] == zeros;
    var m := Mean(s);
    assert m == 1.0 / n && n * m == 1.0;
    var devs := Deviations(s, m);
    var same := seq(k - 1, _ => -m);
    SumsOfConstant(k - 1, -m);
    assert devs[..k - 1] == same;
    var q := SumSquares(devs);
    assert q == (n - 1.0) * (m * m) + (1.0 - m) * (1.0 - m);
    assert (n * m) * (n * m) == n * n * (m * m) == 1.0;
    assert n * n * q == (n - 1.0) * (n * n * (m * m)) + (n * (1.0 - m)) * (n * (1.0 - m));
    assert n * (1.0 - m) == n - 1.0;
    assert n * n * q == (n - 1.0) + (n - 1.0) * (n - 1.0) == n * (n - 1.0);
    assert n * (n * q) == n * (n - 1.0);
    assert n * q == n - 1.0;
    assert n * Variance(s) == q;
    assert n * n * Variance(s) == n * (n * Variance(s)) == n * q;
  }

  /** The bound is exact: a history of `n` runs that is flagged exists exactly when `n` is at least 5
      and exceeds the square of the threshold by more than one. */
  lemma SomeHistoryIsFlaggedIff(k: nat, threshold: real, sqrt: real -> real)
    requires IsSqrt(sqrt) && threshold >= 0.0
    ensures (exists s: seq<real> :: |s| == k && Flagged(s, threshold, sqrt))
      <==> k >= 5 && threshold * threshold < (k - 1) as real
  {
    if k >= 5 && threshold * threshold < (k - 1) as real {
      SpikeIsFlagged(k, threshold, sqrt);
      assert |Spike(k)| == k;
    }
    forall s: seq<real> | |s| == k && Flagged(s, threshold, sqrt)
      ensures k >= 5 && threshold * threshold < (k - 1) as real
    {
      FlagNeedsHistory(s, threshold, sqrt);
    }
  }

  lemma SpikeIsFlagged(k: nat, threshold: real, sqrt: real -> real)
    requires IsSqrt(sqrt) && threshold >= 0.0 && k >= 5 && threshold * threshold < (k - 1) as real
    ensures Flagged(Spike(k), threshold, sqrt)
  {
    SpikeMoments(k);
    hide Mean, Variance;
    var s := Spike(k);
    assert k as real * (1.0 / k as real) == 1.0;
    SpikeBeats(k as real, Mean(s), Variance(s), threshold * threshold);
    ZScoreSquared(1.0 - Mean(s), sqrt(Variance(s)), Variance(s), threshold);
  }

  lemma SpikeBeats(n: real, m: real, v: real, tt: real)
    requires n > 1.0 && n * m == 1.0 && n * n * v == n - 1.0 && tt < n - 1.0
    ensures v > 0.0 && (1.0 - m) * (1.0 - m) > tt * v
  {
    var d, nn := 1.0 - m, n * n;
    SameSign(n, n);
    SameSign(v, nn);
    assert n * d == n - 1.0;
    assert nn * (d * d) == (n * d) * (n * d) == (n - 1.0) * (n - 1.0);
    assert nn * (tt * v) == tt * (nn * v) == tt * (n - 1.0);
    SameSign(n - 1.0 - tt, n - 1.0);
    assert (n - 1.0 - tt) * (n - 1.0) == (n - 1.0) * (n - 1.0) - tt * (n - 1.0);
    assert nn * (d * d - tt * v) == nn * (d * d) - nn * (tt * v);
    SameSign(d * d - tt * v, nn);
  }

  // ----- the class -----

  /** The runs of one test. */
  function RunsOf(all: seq<Record>, name: string): seq<Record> {
    if all == [] then []
    else
      var last := all[|all| - 1];
      RunsOf(all[..|all| - 1], name) + (if last.name == name then [last] else [])
  }

  /** The last `n` elements. */
  function LastOf<T>(s: seq<T>, n: nat): seq<T> {
    if |s| <= n then s else s[|s| - n..]
  }

  function Durations(rs: seq<Record>): seq<real> {
    seq(|rs|, i requires 0 <= i < |rs| => rs[i].duration)
  }

  function Failures(rs: seq<Record>): (n: nat)
    ensures n <= |rs|
  {
    if rs == [] then 0 else Failures(rs[..|rs| - 1]) + (if rs[|rs| - 1].passed then 0 else 1)
  }

  function FailedAt(rs: seq<Record>): set<int> {
    set i | 0 <= i < |rs| && !rs[i].passed
  }

  lemma FailedAtLast(rs: seq<Record>)
    requires rs != []
    ensures |FailedAt(rs)| == |FailedAt(rs[..|rs| - 1])| + (if rs[|rs| - 1].passed then 0 else 1)
  {
    var last := |rs| - 1;
    assert FailedAt(rs) == FailedAt(rs[..last]) + if rs[last].passed then {} else {last};
  }

  /** It counts the failed runs, so the rate is 0 exactly when all passed and 1 exactly when all failed. */
  lemma {:induction false} FailuresAre(rs: seq<Record>)
    ensures Failures(rs) == |FailedAt(rs)|
    ensures Failures(rs) == 0 <==> forall r :: r in rs ==> r.passed
    ensures Failures(rs) == |rs| <==> forall r :: r in rs ==> !r.passed
  {
    if rs != [] {
      var front, r := rs[..|rs| - 1], rs[|rs| - 1];
      FailuresAre(front);
      FailedAtLast(rs);
      assert rs == front + [r];
    }
  }

  /** When the test last failed, among these runs. */
  function LastFailure(rs: seq<Record>): (t: Option<real>)
    ensures t.None? <==> forall i :: 0 <= i < |rs| ==> rs[i].passed
    ensures t.Some? ==> exists i :: 0 <= i < |rs| && !rs[i].passed && rs[i].timestamp == t.value
    ensures t.Some? ==> forall i :: 0 <= i < |rs| && !rs[i].passed ==> rs[i].timestamp <= t.value
  {
    if rs == [] then None
    else
      var last := rs[|rs| - 1];
      var t := LastFailure(rs[..|rs| - 1]);
      if last.passed || (t.Some? && t.value >= last.timestamp) then t else Some(last.timestamp)
  }

  /** A failure of the last day counts most, one of the last week a little. */
  function Recency(failed: Option<real>, now: real): real {
    if failed.None? then 0.0
    else if now - failed.value < 86400.0 then 3.0
    else if now - failed.value < 604800.0 then 1.0
    else 0.0
  }

  /** The bonus is 3 exactly when some run failed less than a day ago, at least 1 exactly when one did less than a
      week ago, and nothing else is given. */
  lemma RecencyIff(rs: seq<Record>, now: real)
    ensures var bonus := Recency(LastFailure(rs), now);
      && bonus in {0.0, 1.0, 3.0}
      && (bonus == 3.0 <==> exists i :: 0 <= i < |rs| && !rs[i].passed && now - rs[i].timestamp < 86400.0)
      && (bonus >= 1.0 <==> exists i :: 0 <= i < |rs| && !rs[i].passed && now - rs[i].timestamp < 604800.0)
  {
  }

  /** What is kept of the runs is the end of them, as long as the window allows. */
  lemma LastOfIs<T>(s: seq<T>, n: nat, i: nat)
    requires i < |LastOf(s, n)|
    ensures |LastOf(s, n)| == (if |s| < n then |s| else n)
    ensures LastOf(s, n)[|LastOf(s, n)| - 1 - i] == s[|s| - 1 - i]
  {
  }

  /** The test ran with the file changed. */
  ghost predicate Covers(all: seq<Record>, name: string, file: string) {
    exists i :: 0 <= i < |all| && all[i].name == name && file in all[i].changed
  }

  /** How many of the files the test covers. */
  ghost function AtRisk(all: seq<Record>, name: string, files: seq<string>): nat {
    if files == [] then 0
    else AtRisk(all, name, files[..|files| - 1]) + (if Covers(all, name, files[|files| - 1]) then 1 else 0)
  }

  datatype Profile = Profile(failureRate: real, avgDuration: real, filesAtRisk: nat, anomalous: bool, priority: real)

  /** The history of a test is its last `window` runs. */
  ghost predicate HistoryAgrees(all: seq<Record>, history: map<string, seq<Record>>, window: nat) {
    && (forall t :: t in history <==> RunsOf(all, t) != [])
    && (forall t :: t in history ==> history[t] == LastOf(RunsOf(all, t), window))
  }

  function TestsOf(fileTests: map<string, seq<string>>, f: string): seq<string> {
    if f in fileTests then fileTests[f] else []
  }

  /** The file lists, once, each test that ran with it changed, also when that run has left the window,
      and the test `extra` that is being added if the file is among those it is added to. */
  ghost predicate FileAgrees(all: seq<Record>, tests: seq<string>, f: string, extra: string, added: bool) {
    NoRepeats(tests) && forall t :: t in tests <==> Covers(all, t, f) || (added && t == extra)
  }

  ghost predicate FilesAgree(all: seq<Record>, fileTests: map<string, seq<string>>, extra: string, extraFiles: seq<string>) {
    forall f :: FileAgrees(all, TestsOf(fileTests, f), f, extra, f in extraFiles)
  }

  lemma AddTest(all: seq<Record>, tests: seq<string>, f: string, t: string, added: bool)
    requires FileAgrees(all, tests, f, t, added)
    ensures FileAgrees(all, if t in tests then tests else tests + [t], f, t, true)
  {
    hide Covers, NoRepeats;
    if t !in tests { NoRepeatsAppend(tests, t); }
    assert forall u :: u in tests + [t] <==> u in tests || u == t;
  }

  lemma AddFile(all: seq<Record>, fileTests: map<string, seq<string>>, t: string, files: seq<string>, f: string)
    requires FilesAgree(all, fileTests, t, files)
    ensures var tests := TestsOf(fileTests, f);
      FilesAgree(all, if t in tests then fileTests else fileTests[f := tests + [t]], t, files + [f])
  {
    hide FileAgrees;
    var tests := TestsOf(fileTests, f);
    var after := if t in tests then fileTests else fileTests[f := tests + [t]];
    forall g ensures FileAgrees(all, TestsOf(after, g), g, t, g in files + [f]) {
      assert FileAgrees(all, TestsOf(fileTests, g), g, t, g in files);
      if g == f {
        AddTest(all, tests, f, t, f in files);
      } else {
        assert g in files + [f] <==> g in files;
      }
    }
    assert FilesAgree(all, after, t, files + [f]);
  }

  lemma NoRepeatsAppend(s: seq<string>, t: string)
    requires NoRepeats(s) && t !in s
    ensures NoRepeats(s + [t])
  {
  }

  lemma FilesAfter(all: seq<Record>, rec: Record, fileTests: map<string, seq<string>>)
    requires FilesAgree(all, fileTests, rec.name, rec.changed)
    ensures FilesAgree(all + [rec], fileTests, "", [])
  {
    hide Covers, NoRepeats;
    forall f ensures FileAgrees(all + [rec], TestsOf(fileTests, f), f, "", f in []) {
      assert FileAgrees(all, TestsOf(fileTests, f), f, rec.name, f in rec.changed);
      forall t { CoversAppend(all, rec, t, f); }
    }
  }

  lemma CoversAppend(all: seq<Record>, rec: Record, t: string, f: string)
    ensures Covers(all + [rec], t, f) <==> Covers(all, t, f) || (t == rec.name && f in rec.changed)
  {
    var more := all + [rec];
    assert more[|all|] == rec;
    if Covers(all, t, f) {
      var i :| 0 <= i < |all| && all[i].name == t && f in all[i].changed;
      assert more[i] == all[i];
    }
  }

  lemma HistoryAfter(all: seq<Record>, rec: Record, history: map<string, seq<Record>>, window: nat)
    requires window > 0 && HistoryAgrees(all, history, window)
    ensures var records := (if rec.name in history then history[rec.name] else []) + [rec];
      HistoryAgrees(all + [rec], history[rec.name := LastOf(records, window)], window)
  {
    hide RunsOf, LastOf;
    forall t ensures RunsOf(all + [rec], t) == if t == rec.name then RunsOf(all, t) + [rec] else RunsOf(all, t) {
      RunsAppend(all, rec, t);
    }
    LastOfLast(RunsOf(all, rec.name), rec, window);
  }

  lemma RunsAppend(all: seq<Record>, rec: Record, t: string)
    ensures RunsOf(all + [rec], t) == if t == rec.name then RunsOf(all, t) + [rec] else RunsOf(all, t)
  {
    assert (all + [rec])[..|all|] == all;
  }

  lemma LastOfLast(runs: seq<Record>, rec: Record, window: nat)
    requires window > 0
    ensures LastOf(LastOf(runs, window) + [rec], window) == LastOf(runs + [rec], window)
    ensures runs == [] ==> LastOf(runs, window) == []
  {
  }

  class Prioritizer {
    const window: nat
    const threshold: real
    var history: map<string, seq<Record>>
    var fileTests: map<string, seq<string>>
    /** Every run ever recorded. */
    ghost var all: seq<Record>

    ghost predicate Valid()
      reads this
    {
      window > 0 && HistoryAgrees(all, history, window) && FilesAgree(all, fileTests, "", [])
    }

    /** 0 stands for a setting that was not given. */
    constructor (historyWindow: nat, anomalyThreshold: real)
      ensures Valid() && all == []
      ensures window == (if historyWindow == 0 then 50 else historyWindow)
      ensures threshold == (if anomalyThreshold == 0.0 then 2.0 else anomalyThreshold)
    {
      window := if historyWindow == 0 then 50 else historyWindow;
      threshold := if anomalyThreshold == 0.0 then 2.0 else anomalyThreshold;
      history, fileTests, all := map[], map[], [];
    }

    method Add(rec: Record)
      requires Valid()
      modifies this
      ensures Valid() && all == old(all) + [rec]
    {
      hide HistoryAgrees, RunsOf, Covers, NoRepeats;
      var records := (if rec.name in history then history[rec.name] else []) + [rec];
      HistoryAfter(all, rec, history, window);
      if |records| > window {
        records := records[|records| - window..];
      }
      history := history[rec.name := records];
      assert HistoryAgrees(all + [rec], history, window);
      assert FilesAgree(all, fileTests, rec.name, rec.changed[..0]);
      hide FilesAgree;
      for i := 0 to |rec.changed|
        invariant HistoryAgrees(all + [rec], history, window) && all == old(all)
        invariant FilesAgree(all, fileTests, rec.name, rec.changed[..i])
      {
        var f := rec.changed[i];
        assert rec.changed[..i + 1] == rec.changed[..i] + [f];
        AddFile(all, fileTests, rec.name, rec.changed[..i], f);
        var tests := TestsOf(fileTests, f);
        if rec.name !in tests {
          fileTests := fileTests[f := tests + [rec.name]];
        }
      }
      assert rec.changed[..|rec.changed|] == rec.changed;
      FilesAfter(all, rec, fileTests);
      all := all + [rec];
    }

    /** A test without history has the empty profile, whatever files it covers. */
    method ComputeProfile(name: string, changedFiles: seq<string>, now: real, sqrt: real -> real) returns (p: Profile)
      requires Valid() && IsSqrt(sqrt)
      ensures RunsOf(all, name) == [] ==> p == Profile(0.0, 0.0, 0, false, 0.0)
      ensures RunsOf(all, name) != [] ==>
        var runs := LastOf(RunsOf(all, name), window);
        && runs != []
        && p.failureRate == Failures(runs) as real / |runs| as real && 0.0 <= p.failureRate <= 1.0
        && p.avgDuration == Mean(Durations(runs))
        && p.filesAtRisk == AtRisk(all, name, changedFiles)
        && p.anomalous == Flagged(Durations(runs), threshold, sqrt)
        && p.priority == p.failureRate * 5.0 + Recency(LastFailure(runs), now) + p.filesAtRisk as real * 2.0
                         + (if p.anomalous then 1.0 else 0.0)
      ensures p.anomalous && threshold >= 0.0 ==> threshold * threshold < (window - 1) as real
    {
      hide *;
      var runs := RunsFor(name);
      var atRisk := CountAtRisk(name, changedFiles);
      if runs == [] {
        return Profile(0.0, 0.0, 0, false, 0.0);
      }
      var durations := Durations(runs);
      DurationsLength(runs);
      var rate := Failures(runs) as real / |runs| as real;
      RateInUnit(Failures(runs), |runs|);
      var anomalous := Flagged(durations, threshold, sqrt);
      if anomalous && threshold >= 0.0 { FlagNeedsHistory(durations, threshold, sqrt); }
      var priority := rate * 5.0 + Recency(LastFailure(runs), now) + atRisk as real * 2.0
                      + (if anomalous then 1.0 else 0.0);
      p := Profile(rate, Mean(durations), atRisk, anomalous, priority);
    }

    method RunsFor(name: string) returns (runs: seq<Record>)
      requires Valid()
      ensures runs == LastOf(RunsOf(all, name), window) && |runs| <= window
      ensures runs == [] <==> RunsOf(all, name) == []
    {
      runs := if name in history then history[name] else [];
    }

    method CountAtRisk(name: string, changedFiles: seq<string>) returns (n: nat)
      requires Valid()
      ensures n == AtRisk(all, name, changedFiles)
    {
      hide HistoryAgrees, Covers;
      n := 0;
      for i := 0 to |changedFiles|
        invariant n == AtRisk(all, name, changedFiles[..i])
      {
        assert changedFiles[..i + 1][..i] == changedFiles[..i];
        assert FileAgrees(all, TestsOf(fileTests, changedFiles[i]), changedFiles[i], "", false);
        if changedFiles[i] in fileTests && name in fileTests[changedFiles[i]] {
          n := n + 1;
        }
      }
      assert changedFiles[..|changedFiles|] == changedFiles;
    }
  }

  lemma DurationsLength(rs: seq<Record>)
    ensures |Durations(rs)| == |rs|
  {
  }

  lemma RateInUnit(k: nat, n: nat)
    requires 0 < n && k <= n
    ensures 0.0 <= k as real / n as real <= 1.0 && (k as real / n as real == 0.0 <==> k == 0)
  {
    var r := k as real / n as real;
    assert r * n as real == k as real;
    if r > 1.0 { SameSign(r - 1.0, n as real); }
    if r < 0.0 { SameSign(-r, n as real); }
  }
}
