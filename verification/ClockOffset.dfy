/**
 * The four-timestamp clock-offset estimator that corrects the shared lease clock, after the on-wire
 * protocol of section 8 of RFC 5905, and the bound on its error.  All readings are whole
 * microseconds, truncated from clocks that are real-valued.
 */
module ClockOffset {
  import opened Prelude
  import opened Sorting
  import Reals
  import opened Lease
  import opened LeaseExclusion

  /** Client send, server receive, server send, client receive. */
  datatype Exchange = Exchange(t1: int, t2: int, t3: int, t4: int)

  datatype Sample = Sample(rtt: int, off: int)

  /** Python's `//` floors, and so does division by a positive literal here. */
  function Measure(x: Exchange): Sample {
    Sample((x.t4 - x.t1) - (x.t3 - x.t2), ((x.t2 - x.t1) + (x.t3 - x.t4)) / 2)
  }

  function MeasureAll(xs: seq<Exchange>): (r: seq<Sample>)
    ensures |r| == |xs| && forall i | 0 <= i < |xs| :: r[i] == Measure(xs[i])
  {
    seq(|xs|, i requires 0 <= i < |xs| => Measure(xs[i]))
  }

  /** Tuples sort by round-trip time, then by offset. */
  function ByRtt(a: Sample, b: Sample): bool {
    a.rtt < b.rtt || (a.rtt == b.rtt && a.off <= b.off)
  }

  function Sorted(samples: seq<Sample>): seq<Sample> {
    Sort(ByRtt, samples)
  }

  function DecileSize(n: nat): nat {
    Max(1, n / 10)
  }

  function BestDecile(samples: seq<Sample>): seq<Sample> {
    Sorted(samples)[..Min(DecileSize(|samples|), |samples|)]
  }

  /** Client minus server, the sign the tool reports. */
  function ClientMinusServer(samples: seq<Sample>): (r: seq<real>)
    ensures |r| == |samples| && forall i | 0 <= i < |samples| :: r[i] == (-samples[i].off) as real
  {
    seq(|samples|, i requires 0 <= i < |samples| => (-samples[i].off) as real)
  }

  /** `%d` of a float drops the fraction, whatever its sign. */
  function Truncate(x: real): int {
    if x >= 0.0 then x.Floor else -((-x).Floor)
  }

  /** The reported best estimate; `None` where the tool fails for want of samples. */
  function BestOffset(samples: seq<Sample>): Option<int> {
    var m := Reals.Median(ClientMinusServer(BestDecile(samples)));
    if m.None? then None else Some(Truncate(m.value))
  }

  /** The client's loop: one sample per exchange, then sort, keep the best decile, take its median. */
  method Estimate(xs: seq<Exchange>) returns (best: Option<int>)
    ensures best == BestOffset(MeasureAll(xs))
    ensures best.None? <==> xs == []
  {
    var samples: seq<Sample> := [];
    for i := 0 to |xs|
      invariant samples == MeasureAll(xs[..i])
    {
      samples := samples + [Measure(xs[i])];
      assert xs[..i + 1] == xs[..i] + [xs[i]];
    }
    assert xs[..|xs|] == xs;
    best := BestOffset(samples);
  }

  // ---- one exchange ------------------------------------------------------------------------------

  /** True instants of the four events. */
  datatype Instants = Instants(sent: real, heard: real, answered: real, received: real)

  /** The exchange took place at the instants `at`, inside `span`, stamped by the two clocks. */
  predicate TookPlace(x: Exchange, at: Instants, client: Clock, server: Clock, span: Window) {
    && span.opens <= at.sent <= at.heard <= at.answered <= at.received <= span.closes
    && x.t1 == client(at.sent).Floor && x.t4 == client(at.received).Floor
    && x.t2 == server(at.heard).Floor && x.t3 == server(at.answered).Floor
  }

  /** Over `w` the reference runs `theta` ahead of the clock, give or take `drift`. */
  ghost predicate Tracks(clock: Clock, reference: Clock, theta: real, drift: real, w: Window) {
    forall tau: real | w.Holds(tau) :: -drift <= reference(tau) - clock(tau) - theta <= drift
  }

  ghost predicate RunsForward(clock: Clock, w: Window) {
    forall t: real, u: real | w.Holds(t) && w.Holds(u) && t <= u :: clock(t) <= clock(u)
  }

  /** Within half a round trip, up to the microseconds lost to truncating and halving, and the clocks' wander. */
  predicate Accurate(s: Sample, theta: real, wander: real) {
    -(0.5 * s.rtt as real + 1.5 + wander) < s.off as real - theta < 0.5 * s.rtt as real + 1.5 + wander
  }

  /** Halving a floor and truncating four readings costs less than a microsecond and a half. */
  lemma SampleArithmetic(x: Exchange, c1: real, s2: real, s3: real, c4: real, c2: real, c3: real, theta: real,
                         wander: real)
    requires x.t1 == c1.Floor && x.t2 == s2.Floor && x.t3 == s3.Floor && x.t4 == c4.Floor
    requires c1 <= c2 && c3 <= c4
    requires -wander <= s2 - c2 - theta <= wander && -wander <= s3 - c3 - theta <= wander
    ensures Accurate(Measure(x), theta, wander)
  {
    var s := (x.t2 - x.t1) + (x.t3 - x.t4);
    assert s == 2 * (s / 2) + s % 2;
    assert 2.0 * Measure(x).off as real == s as real - (s % 2) as real;
  }

  /** Whatever the two path delays and the two clocks' rates. */
  lemma SampleIsAccurate(x: Exchange, at: Instants, client: Clock, server: Clock, theta: real, wander: real,
                         span: Window)
    requires TookPlace(x, at, client, server, span) && RunsForward(client, span)
    requires Tracks(client, server, theta, wander, span)
    ensures Accurate(Measure(x), theta, wander)
  {
    assert span.Holds(at.sent) && span.Holds(at.heard) && span.Holds(at.answered) && span.Holds(at.received);
    SampleArithmetic(x, client(at.sent), server(at.heard), server(at.answered), client(at.received), client(at.heard),
                     client(at.answered), theta, wander);
  }

  /** The measured round trip is the two path delays alone, and half their difference is the offset's error, rounded. */
  lemma MeasureIsDelay(x: Exchange, theta: int, out: int, back: int)
    requires x.t2 == x.t1 + out + theta && x.t4 == x.t3 + back - theta
    ensures Measure(x).rtt == out + back
    ensures 2 * Measure(x).off <= 2 * theta + out - back < 2 * Measure(x).off + 2
  {
  }

  /** With clocks that tick whole microseconds the error is at most half the round trip, rounded up. */
  lemma WholeMicrosecondSample(x: Exchange, theta: int)
    requires x.t1 <= x.t2 - theta <= x.t3 - theta <= x.t4
    ensures Measure(x).rtt >= 0
    ensures -((Measure(x).rtt + 1) / 2) <= Measure(x).off - theta <= (Measure(x).rtt + 1) / 2
  {
  }

  // ---- the best decile ---------------------------------------------------------------------------

  lemma ByRttIsAnOrder()
    ensures TotalPreorder(ByRtt)
  {
  }

  /** The largest round trip the estimate still uses. */
  function WorstBestRtt(samples: seq<Sample>): int
    requires samples != []
  {
    BestDecile(samples)[|BestDecile(samples)| - 1].rtt
  }

  /** In a list ordered by round trip, an element bounds the ones before it and is bounded by the ones after. */
  lemma OrderedRtt(sorted: seq<Sample>, i: nat, j: nat)
    requires SortedBy(ByRtt, sorted) && i <= j < |sorted|
    ensures sorted[i].rtt <= sorted[j].rtt
  {
    if i < j {
      assert ByRtt(sorted[i], sorted[j]);
    }
  }

  /** A prefix of an ordered list holds the fastest of it. */
  lemma PrefixIsFastest(sorted: seq<Sample>, k: nat)
    requires SortedBy(ByRtt, sorted) && 0 < k <= |sorted|
    ensures forall s | s in sorted[..k] :: s.rtt <= sorted[k - 1].rtt
    ensures forall s | s in sorted[k..] :: s.rtt >= sorted[k - 1].rtt
  {
    forall s | s in sorted[..k]
      ensures s.rtt <= sorted[k - 1].rtt
    {
      var i :| 0 <= i < k && sorted[i] == s;
      OrderedRtt(sorted, i, k - 1);
    }
    forall s | s in sorted[k..]
      ensures s.rtt >= sorted[k - 1].rtt
    {
      var i :| k <= i < |sorted| && sorted[i] == s;
      OrderedRtt(sorted, k - 1, i);
    }
  }

  lemma SplitMultiset<T>(s: seq<T>, k: nat)
    requires k <= |s|
    ensures multiset(s) == multiset(s[..k]) + multiset(s[k..])
  {
    assert s == s[..k] + s[k..];
  }

  /** The best decile is drawn from the samples, and no sample left out is faster than its slowest. */
  lemma {:induction false} BestDecileIsFastest(samples: seq<Sample>)
    requires samples != []
    ensures |BestDecile(samples)| == DecileSize(|samples|)
    ensures multiset(samples) == multiset(BestDecile(samples)) + multiset(Sorted(samples)[DecileSize(|samples|)..])
    ensures forall s | s in BestDecile(samples) :: s.rtt <= WorstBestRtt(samples)
    ensures forall s | s in Sorted(samples)[DecileSize(|samples|)..] :: s.rtt >= WorstBestRtt(samples)
  {
    var sorted, k := Sorted(samples), DecileSize(|samples|);
    SplitMultiset(sorted, k);
    assert SortedBy(ByRtt, sorted) by {
      ByRttIsAnOrder();
      SortSorted(ByRtt, samples);
    }
    PrefixIsFastest(sorted, k);
  }

  /** Its size is a tenth of the samples, rounded down, and one when that is nothing; a sample left out is slower, or
      as slow with an offset no smaller. */
  lemma {:induction false} DecileIsTenth(samples: seq<Sample>)
    requires samples != []
    ensures var k := |BestDecile(samples)|;
            && k <= |samples|
            && (if |samples| < 10 then k == 1 else 10 * k <= |samples| < 10 * (k + 1))
            && forall i, j | 0 <= i < k <= j < |samples| ::
                 var used, left := BestDecile(samples)[i], Sorted(samples)[j];
                 used.rtt < left.rtt || (used.rtt == left.rtt && used.off <= left.off)
  {
    var sorted := Sorted(samples);
    ByRttIsAnOrder();
    SortSorted(ByRtt, samples);
    forall i, j | 0 <= i < |BestDecile(samples)| <= j < |samples|
      ensures ByRtt(BestDecile(samples)[i], sorted[j])
    {
      assert BestDecile(samples)[i] == sorted[i];
    }
  }

  lemma TruncateDropsFraction(x: real)
    ensures var t := Truncate(x) as real;
            (x >= 0.0 ==> t <= x < t + 1.0) && (x <= 0.0 ==> t - 1.0 < x <= t)
  {
  }

  /** The printed estimate is the mean of the two middle offsets of the best decile, one for an odd number, with the
      fraction dropped. */
  lemma EstimateIsMiddleOfBest(samples: seq<Sample>) returns (a: real, b: real)
    requires samples != []
    ensures var offs := ClientMinusServer(BestDecile(samples));
            && Reals.IsKthSmallest(a, offs, (|offs| + 1) / 2) && Reals.IsKthSmallest(b, offs, |offs| / 2 + 1)
    ensures BestOffset(samples).Some?
    ensures var x, t := (a + b) / 2.0, BestOffset(samples).value as real;
            (x >= 0.0 ==> t <= x < t + 1.0) && (x <= 0.0 ==> t - 1.0 < x <= t)
  {
    a, b := Reals.MedianIsMiddleOfList(ClientMinusServer(BestDecile(samples)));
    TruncateDropsFraction((a + b) / 2.0);
  }

  lemma TruncateWithin(x: real, lo: real, hi: real)
    requires lo < x < hi
    ensures lo - 1.0 < Truncate(x) as real < hi + 1.0
  {
  }

  /** What one node measured against the reference node, which plays the server, over `span`. */
  datatype Calibration = Calibration(xs: seq<Exchange>, ats: seq<Instants>, theta: real, wander: real, span: Window)

  ghost predicate Measured(c: Calibration, clock: Clock, reference: Clock) {
    && c.xs != [] && |c.ats| == |c.xs|
    && RunsForward(clock, c.span) && Tracks(clock, reference, c.theta, c.wander, c.span)
    && forall i | 0 <= i < |c.xs| :: TookPlace(c.xs[i], c.ats[i], clock, reference, c.span)
  }

  /** Every sample the estimate draws on lies within the slowest of them. */
  lemma BestSamplesAreAccurate(c: Calibration, clock: Clock, reference: Clock, i: nat)
    requires Measured(c, clock, reference)
    requires i < |BestDecile(MeasureAll(c.xs))|
    ensures var r := 0.5 * WorstBestRtt(MeasureAll(c.xs)) as real + 1.5 + c.wander;
            c.theta - r < BestDecile(MeasureAll(c.xs))[i].off as real < c.theta + r
  {
    var samples := MeasureAll(c.xs);
    var best := BestDecile(samples);
    BestDecileIsFastest(samples);
    assert best[i] in best && best[i] in multiset(samples);
    var j :| 0 <= j < |samples| && samples[j] == best[i];
    SampleIsAccurate(c.xs[j], c.ats[j], clock, reference, c.theta, c.wander, c.span);
  }

  /**
   * The reported offset is within half the slowest round trip it used, the wander of the clocks
   * while measuring, and the microseconds the roundings cost, of the true client-minus-server offset.
   */
  lemma {:induction false} EstimateIsAccurate(c: Calibration, clock: Clock, reference: Clock)
    requires Measured(c, clock, reference)
    ensures var samples := MeasureAll(c.xs);
            && BestOffset(samples).Some?
            && AbsReal(BestOffset(samples).value as real + c.theta)
               < 0.5 * WorstBestRtt(samples) as real + 2.5 + c.wander
  {
    var samples := MeasureAll(c.xs);
    var best := BestDecile(samples);
    var r := 0.5 * WorstBestRtt(samples) as real + 1.5 + c.wander;
    var offs := ClientMinusServer(best);
    forall i | 0 <= i < |offs|
      ensures -c.theta - r < offs[i] < -c.theta + r
    {
      BestSamplesAreAccurate(c, clock, reference, i);
    }
    var lo, hi := Extremes(offs);
    Reals.MedianWithin(offs, offs[lo], offs[hi]);
    TruncateWithin(Reals.Median(offs).value, -c.theta - r, -c.theta + r);
  }

  /** A median of whole microseconds is truncated towards zero, which never leaves a whole interval. */
  lemma TruncateInside(x: real, lo: int, hi: int)
    requires lo as real <= x <= hi as real
    ensures lo <= Truncate(x) <= hi
  {
  }

  /** Exchanges between clocks that tick whole microseconds, `theta` apart. */
  predicate WholeMicroseconds(xs: seq<Exchange>, theta: int) {
    forall i | 0 <= i < |xs| :: xs[i].t1 <= xs[i].t2 - theta <= xs[i].t3 - theta <= xs[i].t4
  }

  lemma WholeBestSample(xs: seq<Exchange>, theta: int, i: nat)
    requires WholeMicroseconds(xs, theta) && i < |BestDecile(MeasureAll(xs))|
    ensures var c := (WorstBestRtt(MeasureAll(xs)) + 1) / 2;
            -theta - c <= -BestDecile(MeasureAll(xs))[i].off <= -theta + c
  {
    var samples := MeasureAll(xs);
    var best := BestDecile(samples);
    BestDecileIsFastest(samples);
    assert best[i] in best && best[i] in multiset(samples);
    var j :| 0 <= j < |samples| && samples[j] == best[i];
    WholeMicrosecondSample(xs[j], theta);
  }

  /** On whole-microsecond clocks the estimate too is within half the slowest round trip it used, rounded up. */
  lemma {:induction false} WholeMicrosecondEstimate(xs: seq<Exchange>, theta: int)
    requires xs != [] && WholeMicroseconds(xs, theta)
    ensures var samples := MeasureAll(xs);
            var c := (WorstBestRtt(samples) + 1) / 2;
            BestOffset(samples).Some? && -c <= BestOffset(samples).value + theta <= c
  {
    var samples := MeasureAll(xs);
    var c := (WorstBestRtt(samples) + 1) / 2;
    var offs := ClientMinusServer(BestDecile(samples));
    var lo, hi := -theta - c, -theta + c;
    forall i | 0 <= i < |offs|
      ensures lo as real <= offs[i] <= hi as real
    {
      WholeBestSample(xs, theta, i);
    }
    Reals.MedianWithin(offs, lo as real, hi as real);
    TruncateInside(Reals.Median(offs).value, lo, hi);
  }

  lemma {:induction false} Extremes(xs: seq<real>) returns (lo: nat, hi: nat)
    requires xs != []
    ensures lo < |xs| && hi < |xs|
    ensures forall i | 0 <= i < |xs| :: xs[lo] <= xs[i] <= xs[hi]
  {
    if |xs| == 1 {
      lo, hi := 0, 0;
    } else {
      var l, h := Extremes(xs[1..]);
      lo := if xs[0] <= xs[l + 1] then 0 else l + 1;
      hi := if xs[0] >= xs[h + 1] then 0 else h + 1;
      forall i | 0 <= i < |xs|
        ensures xs[lo] <= xs[i] <= xs[hi]
      {
        if i > 0 {
          assert xs[1..][l] <= xs[1..][i - 1] <= xs[1..][h];
        }
      }
    }
  }

  // ---- from the estimate to the lease ------------------------------------------------------------

  /** The node's clock with the offset it measured from the reference taken off. */
  function Corrected(clock: Clock, c: Calibration): Clock {
    var best := BestOffset(MeasureAll(c.xs));
    var off := if best.Some? then best.value as real else 0.0;
    (tau: real) => clock(tau) - off
  }

  lemma CorrectedTracksReference(c: Calibration, clock: Clock, reference: Clock, drift: real, rtt: int, w: Window,
                                 tau: real)
    requires Measured(c, clock, reference) && Tracks(clock, reference, c.theta, drift, w) && w.Holds(tau)
    requires WorstBestRtt(MeasureAll(c.xs)) <= rtt
    ensures AbsReal(Corrected(clock, c)(tau) - reference(tau)) < 0.5 * rtt as real + 2.5 + c.wander + drift
  {
    EstimateIsAccurate(c, clock, reference);
  }

  /** Taking an offset off a clock changes nothing about how it keeps time. */
  lemma CorrectedKeepsTime(clock: Clock, c: Calibration, k: real, span: real, w: Window)
    requires KeepsTime(clock, k, span, w)
    ensures KeepsTime(Corrected(clock, c), k, span, w)
  {
    var d := Corrected(clock, c);
    forall t: real, u: real | w.Holds(t) && w.Holds(u) && t <= u <= t + span
      ensures d(t) <= d(u) <= d(t) + (u - t) + k
    {
      assert clock(t) <= clock(u) <= clock(t) + (u - t) + k;
    }
  }

  /** What the theorem below asks of one node: a measurement, its quality, and the clock from then on. */
  ghost predicate Node(c: Calibration, clock: Clock, reference: Clock, rtt: int, wander: real, drift: real, k: real,
                       span: real, w: Window)
  {
    && Measured(c, clock, reference) && c.wander <= wander && WorstBestRtt(MeasureAll(c.xs)) <= rtt
    && Tracks(clock, reference, c.theta, drift, w) && KeepsTime(clock, k, span, w)
  }

  lemma CorrectedPairAgrees(a: Calibration, b: Calibration, x: Clock, y: Clock, reference: Clock, rtt: int,
                            wander: real, drift: real, k: real, span: real, w: Window, tau: real)
    requires Node(a, x, reference, rtt, wander, drift, k, span, w)
    requires Node(b, y, reference, rtt, wander, drift, k, span, w)
    requires w.Holds(tau)
    ensures AbsReal(Corrected(x, a)(tau) - Corrected(y, b)(tau)) <= rtt as real + 5.0 + 2.0 * (wander + drift)
  {
    CorrectedTracksReference(a, x, reference, drift, rtt, w, tau);
    CorrectedTracksReference(b, y, reference, drift, rtt, w, tau);
  }

  /**
   * From measurement to exclusion: nodes that correct their clocks by their own best-decile
   * estimates, none slower than `rtt`, keep out of each other's way over any window of true time,
   * when `rtt + 5`, twice the wander while measuring and the drift since, the gain over one slot and
   * the placement lateness fit in the guard.
   */
  lemma {:induction false} CorrectedNodesExcludeEachOther(
    g: LeaseGrid, cals: seq<Calibration>, clocks: seq<Clock>, corrected: seq<Clock>, reference: Clock,
    rtt: int, wander: real, drift: real, late: real, k: real, w: Window, txs: seq<Transmission>)
    requires g.Valid() && |cals| == |clocks| == |corrected|
    requires forall i | 0 <= i < |cals| ::
               Node(cals[i], clocks[i], reference, rtt, wander, drift, k, g.slotUs as real, w)
    requires forall i | 0 <= i < |cals| :: corrected[i] == Corrected(clocks[i], cals[i])
    requires rtt as real + 5.0 + 2.0 * (wander + drift) + k + late <= g.guardUs as real
    requires forall i | 0 <= i < |txs| :: Permitted(g, corrected, late, txs[i]) && During(w, txs[i])
    ensures Exclusive(g, txs)
  {
    var d, span := rtt as real + 5.0 + 2.0 * (wander + drift), g.slotUs as real;
    forall i, j, tau: real | 0 <= i < |corrected| && 0 <= j < |corrected| && w.Holds(tau)
      ensures AbsReal(corrected[i](tau) - corrected[j](tau)) <= d
    {
      CorrectedPairAgrees(cals[i], cals[j], clocks[i], clocks[j], reference, rtt, wander, drift, k, span, w, tau);
    }
    forall i | 0 <= i < |corrected|
      ensures KeepsTime(corrected[i], k, span, w)
    {
      CorrectedKeepsTime(clocks[i], cals[i], k, span, w);
    }
    NoTwoOwnersOnAir(g, corrected, d, late, k, w, txs);
  }

  lemma OffsetDrift(x0: real, y0: real, x: real, y: real, t: real, gain: real)
    requires x0 + t - gain <= x <= x0 + t + gain && y0 + t - gain <= y <= y0 + t + gain
    ensures -(2.0 * gain) <= y - x - (y0 - x0) <= 2.0 * gain
  {
  }

  lemma SkewedOffsetHolds(c: (real, real), e: (real, real), r: real, t0: real, since: real, tau: real)
    requires -r <= c.1 <= r <= 1.0 && -r <= e.1 <= r && t0 <= tau <= t0 + since
    ensures var clock, reference := Skewed(c.0, c.1), Skewed(e.0, e.1);
            -(2.0 * (r * since)) <= reference(tau) - clock(tau) - (reference(t0) - clock(t0)) <= 2.0 * (r * since)
  {
    var clock, reference := Skewed(c.0, c.1), Skewed(e.0, e.1);
    SkewedOver(c.0, c.1, r, since, t0, tau);
    SkewedOver(e.0, e.1, r, since, t0, tau);
    OffsetDrift(clock(t0), reference(t0), clock(tau), reference(tau), tau - t0, r * since);
  }

  lemma SkewedRunsForward(offset: real, rate: real, w: Window)
    requires -1.0 <= rate <= 1.0
    ensures RunsForward(Skewed(offset, rate), w)
  {
    forall t: real, u: real | w.Holds(t) && w.Holds(u) && t <= u
      ensures Skewed(offset, rate)(t) <= Skewed(offset, rate)(u)
    {
      SkewedOver(offset, rate, 1.0, w.closes - w.opens, t, u);
    }
  }

  /**
   * Free-running clocks meet all of this: with rates off by at most `r` the offset found at `t0`
   * holds until `w` closes, give or take twice `r` times the time since.
   */
  lemma SkewedClocksTrack(c: (real, real), e: (real, real), r: real, t0: real, w: Window, theta: real, drift: real)
    requires -r <= c.1 <= r <= 1.0 && -r <= e.1 <= r && t0 <= w.opens
    requires theta == Skewed(e.0, e.1)(t0) - Skewed(c.0, c.1)(t0) && drift == 2.0 * (r * (w.closes - t0))
    ensures Tracks(Skewed(c.0, c.1), Skewed(e.0, e.1), theta, drift, w) && RunsForward(Skewed(c.0, c.1), w)
  {
    forall tau: real | w.Holds(tau)
      ensures -drift <= Skewed(e.0, e.1)(tau) - Skewed(c.0, c.1)(tau) - theta <= drift
    {
      SkewedOffsetHolds(c, e, r, t0, w.closes - t0, tau);
    }
    SkewedRunsForward(c.0, c.1, w);
  }
}
