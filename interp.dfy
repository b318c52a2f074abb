/**
  Frequency interpolator (`frequencyInterpolation`): the parameter table
  gives, at a few control times, the electron cyclotron frequency
  `fce`, the lower-hybrid frequency `flh` and the plasma frequency `fpe`;
  each is evaluated by piecewise-linear interpolation with endpoint clamping
  (the semantics of `np.interp`) at the query points `baseline + k`,
  `k = 0 .. length - 1`, where `baseline` is the first control time.
 */
module Interpolation {

  /** One row of the parameter table: a time and the three frequencies there. */
  datatype ParamRow = ParamRow(time: real, fce: real, flh: real, fpe: real)

  /** The three interpolated frequency envelopes, one entry per sample column. */
  datatype Envelopes = Envelopes(fce: seq<real>, flh: seq<real>, fpe: seq<real>)

  /** Control times in increasing order, as `np.interp` expects of `xp`. */
  predicate Sorted(ts: seq<real>)
  {
    forall i, j :: 0 <= i < j < |ts| ==> ts[i] <= ts[j]
  }

  predicate StrictlySorted(ts: seq<real>)
  {
    forall i, j :: 0 <= i < j < |ts| ==> ts[i] < ts[j]
  }

  function Times(params: seq<ParamRow>): (ts: seq<real>)
    ensures |ts| == |params|
    ensures forall i :: 0 <= i < |params| ==> ts[i] == params[i].time
  {
    seq(|params|, i requires 0 <= i < |params| => params[i].time)
  }

  function Fces(params: seq<ParamRow>): (vs: seq<real>)
    ensures |vs| == |params|
    ensures forall i :: 0 <= i < |params| ==> vs[i] == params[i].fce
  {
    seq(|params|, i requires 0 <= i < |params| => params[i].fce)
  }

  function Flhs(params: seq<ParamRow>): (vs: seq<real>)
    ensures |vs| == |params|
    ensures forall i :: 0 <= i < |params| ==> vs[i] == params[i].flh
  {
    seq(|params|, i requires 0 <= i < |params| => params[i].flh)
  }

  function Fpes(params: seq<ParamRow>): (vs: seq<real>)
    ensures |vs| == |params|
    ensures forall i :: 0 <= i < |params| ==> vs[i] == params[i].fpe
  {
    seq(|params|, i requires 0 <= i < |params| => params[i].fpe)
  }

  /** The straight line through `(t0, v0)` and `(t1, v1)` evaluated at `x`,
      written as `np.interp` computes it: slope times offset plus left value. */
  function Lerp(x: real, t0: real, t1: real, v0: real, v1: real): real
    requires t0 < t1
  {
    (v1 - v0) / (t1 - t0) * (x - t0) + v0
  }

  /** Interpolation inside the control range, searching for the segment
      `ts[k] <= x < ts[k + 1]` from segment `k` onwards. */
  function Segment(x: real, ts: seq<real>, vs: seq<real>, k: nat): (r: real)
    requires |vs| == |ts| && Sorted(ts)
    requires k + 1 < |ts| && ts[k] <= x < ts[|ts| - 1]
    ensures MinValue(vs) <= r <= MaxValue(vs)
    decreases |ts| - k
  {
    if x < ts[k + 1] then
      assert vs[k] in vs && vs[k + 1] in vs;
      LerpBetween(x, ts[k], ts[k + 1], vs[k], vs[k + 1]);
      Lerp(x, ts[k], ts[k + 1], vs[k], vs[k + 1])
    else Segment(x, ts, vs, k + 1)
  }

  /** `np.interp(x, ts, vs)`: the first value left of the first time, the
      last value from the last time on, the segment's line in between. */
  function Interp(x: real, ts: seq<real>, vs: seq<real>): (r: real)
    requires |ts| > 0 && |vs| == |ts| && Sorted(ts)
    ensures MinValue(vs) <= r <= MaxValue(vs)
  {
    assert vs[0] in vs && vs[|vs| - 1] in vs;
    if x < ts[0] then vs[0]
    else if x >= ts[|ts| - 1] then vs[|ts| - 1]
    else Segment(x, ts, vs, 0)
  }

  /** The query points `np.linspace(baseline, baseline + length - 1, length)`,
      taken as the exact values `baseline + k`. */
  function QueryPoints(baseline: real, length: nat): (qs: seq<real>)
    ensures |qs| == length
    ensures forall k :: 0 <= k < length ==> qs[k] == baseline + k as real
  {
    seq(length, k requires 0 <= k < length => baseline + k as real)
  }

  /** One interpolated envelope: `vs` evaluated at every query point. */
  function Envelope(qs: seq<real>, ts: seq<real>, vs: seq<real>): (e: seq<real>)
    requires |ts| > 0 && |vs| == |ts| && Sorted(ts)
    ensures |e| == |qs|
  {
    seq(|qs|, k requires 0 <= k < |qs| => Interp(qs[k], ts, vs))
  }

  /** The three envelopes over `length` sample columns, starting at the first
      control time. */
  function FrequencyInterpolation(params: seq<ParamRow>, length: nat): (e: Envelopes)
    requires |params| > 0 && Sorted(Times(params))
    ensures |e.fce| == length && |e.flh| == length && |e.fpe| == length
  {
    var qs := QueryPoints(params[0].time, length);
    Envelopes(Envelope(qs, Times(params), Fces(params)),
              Envelope(qs, Times(params), Flhs(params)),
              Envelope(qs, Times(params), Fpes(params)))
  }

  /** Entry `k` of each envelope is the interpolant at `baseline + k`. */
  lemma EnvelopeEntries(params: seq<ParamRow>, length: nat, k: nat)
    requires |params| > 0 && Sorted(Times(params)) && k < length
    ensures FrequencyInterpolation(params, length).fce[k] == Interp(params[0].time + k as real, Times(params), Fces(params))
    ensures FrequencyInterpolation(params, length).flh[k] == Interp(params[0].time + k as real, Times(params), Flhs(params))
    ensures FrequencyInterpolation(params, length).fpe[k] == Interp(params[0].time + k as real, Times(params), Fpes(params))
  {
    var qs := QueryPoints(params[0].time, length);
    var ts := Times(params);
    assert FrequencyInterpolation(params, length) ==
           Envelopes(Envelope(qs, ts, Fces(params)), Envelope(qs, ts, Flhs(params)), Envelope(qs, ts, Fpes(params)));
    assert qs[k] == params[0].time + k as real;
  }

  /** No extrapolation: before the first time the first value is returned,
      from the last time on the last value. */
  lemma InterpClamps(x: real, ts: seq<real>, vs: seq<real>)
    requires |ts| > 0 && |vs| == |ts| && Sorted(ts)
    ensures x < ts[0] ==> Interp(x, ts, vs) == vs[0]
    ensures x >= ts[|ts| - 1] ==> Interp(x, ts, vs) == vs[|ts| - 1]
  {
  }

  lemma {:induction false} SegmentAtKnot(ts: seq<real>, vs: seq<real>, m: nat, k: nat)
    requires |vs| == |ts| && StrictlySorted(ts)
    requires m <= k && k + 1 < |ts|
    ensures Segment(ts[k], ts, vs, m) == vs[k]
    decreases k - m
  {
    if ts[k] >= ts[m + 1] {
      SegmentAtKnot(ts, vs, m + 1, k);
    }
  }

  /** A query at a control time returns that time's control value. */
  lemma InterpAtKnot(ts: seq<real>, vs: seq<real>, k: nat)
    requires |vs| == |ts| && StrictlySorted(ts) && k < |ts|
    ensures Interp(ts[k], ts, vs) == vs[k]
  {
    if k + 1 < |ts| {
      SegmentAtKnot(ts, vs, 0, k);
    }
  }

  /** The segment search started at any segment `m` at or left of `x` finds
      the segment `ts[k] <= x < ts[k + 1]` and returns that segment's line. */
  lemma {:induction false} SegmentOn(x: real, ts: seq<real>, vs: seq<real>, m: nat, k: nat)
    requires |vs| == |ts| && Sorted(ts)
    requires m <= k && k + 1 < |ts| && ts[m] <= x && ts[k] <= x < ts[k + 1]
    ensures Segment(x, ts, vs, m) == Lerp(x, ts[k], ts[k + 1], vs[k], vs[k + 1])
    decreases k - m
  {
    if m < k {
      assert ts[m + 1] <= ts[k];
      SegmentOn(x, ts, vs, m + 1, k);
    }
  }

  /** Between two control times the interpolant is the straight line through
      the two neighbouring control points. */
  lemma InterpOnSegment(x: real, ts: seq<real>, vs: seq<real>, k: nat)
    requires |vs| == |ts| && Sorted(ts)
    requires k + 1 < |ts| && ts[k] <= x < ts[k + 1]
    ensures Interp(x, ts, vs) == Lerp(x, ts[k], ts[k + 1], vs[k], vs[k + 1])
  {
    assert ts[k + 1] <= ts[|ts| - 1];
    SegmentOn(x, ts, vs, 0, k);
  }

  /** Entry `k` of an envelope over the query points from `baseline`, when
      its query point `x = baseline + k` falls between control times `s` and
      `s + 1`, is the line through that segment's control points. */
  lemma EnvelopeOnSegment(baseline: real, length: nat, ts: seq<real>, vs: seq<real>, k: nat, s: nat, x: real)
    requires |ts| > 0 && |vs| == |ts| && Sorted(ts) && k < length && x == baseline + k as real
    requires s + 1 < |ts| && ts[s] <= x < ts[s + 1]
    ensures Envelope(QueryPoints(baseline, length), ts, vs)[k] == Lerp(x, ts[s], ts[s + 1], vs[s], vs[s + 1])
  {
    InterpOnSegment(x, ts, vs, s);
  }

  /** Entry `k` of each of the three envelopes, when its query point
      `x = baseline + k` falls between control times `s` and `s + 1`, is the
      line through that segment's control points. */
  lemma EnvelopeEntryOnSegment(params: seq<ParamRow>, length: nat, k: nat, s: nat, x: real)
    requires |params| > 0 && Sorted(Times(params)) && k < length && x == params[0].time + k as real
    requires s + 1 < |params| && params[s].time <= x < params[s + 1].time
    ensures FrequencyInterpolation(params, length).fce[k] ==
            Lerp(x, params[s].time, params[s + 1].time, params[s].fce, params[s + 1].fce)
    ensures FrequencyInterpolation(params, length).flh[k] ==
            Lerp(x, params[s].time, params[s + 1].time, params[s].flh, params[s + 1].flh)
    ensures FrequencyInterpolation(params, length).fpe[k] ==
            Lerp(x, params[s].time, params[s + 1].time, params[s].fpe, params[s + 1].fpe)
  {
    var baseline, ts := params[0].time, Times(params);
    EnvelopeOnSegment(baseline, length, ts, Fces(params), k, s, x);
    EnvelopeOnSegment(baseline, length, ts, Flhs(params), k, s, x);
    EnvelopeOnSegment(baseline, length, ts, Fpes(params), k, s, x);
  }

  /** Smallest and largest control value. */
  function MinValue(vs: seq<real>): (m: real)
    requires |vs| > 0
    ensures m in vs
    ensures forall v :: v in vs ==> m <= v
  {
    if |vs| == 1 then vs[0]
    else
      var rest := MinValue(vs[1..]);
      assert forall v :: v in vs ==> v == vs[0] || v in vs[1..];
      if vs[0] <= rest then vs[0] else rest
  }

  function MaxValue(vs: seq<real>): (m: real)
    requires |vs| > 0
    ensures m in vs
    ensures forall v :: v in vs ==> v <= m
  {
    if |vs| == 1 then vs[0]
    else
      var rest := MaxValue(vs[1..]);
      assert forall v :: v in vs ==> v == vs[0] || v in vs[1..];
      if vs[0] >= rest then vs[0] else rest
  }

  /** On `[t0, t1]` the line stays between its two end values. */
  lemma LerpBetween(x: real, t0: real, t1: real, v0: real, v1: real)
    requires t0 <= x <= t1 && t0 < t1
    ensures v0 <= v1 ==> v0 <= Lerp(x, t0, t1, v0, v1) <= v1
    ensures v1 <= v0 ==> v1 <= Lerp(x, t0, t1, v0, v1) <= v0
  {
    var d, e := t1 - t0, x - t0;
    var r := e / d;
    assert 0.0 <= r <= 1.0;
    assert (v1 - v0) / d * e == (v1 - v0) * r;
    if v0 <= v1 {
      assert 0.0 <= (v1 - v0) * r <= v1 - v0 by { ScaleBelow(v1 - v0, r); }
    } else {
      assert 0.0 <= (v0 - v1) * r <= v0 - v1 by { ScaleBelow(v0 - v1, r); }
    }
  }

  lemma ScaleBelow(a: real, r: real)
    requires a >= 0.0 && 0.0 <= r <= 1.0
    ensures 0.0 <= a * r <= a
  {
    assert a - a * r == a * (1.0 - r);
  }

  /** Every entry of an envelope lies within the range of its control values. */
  lemma EnvelopeBounded(qs: seq<real>, ts: seq<real>, vs: seq<real>, k: nat)
    requires |ts| > 0 && |vs| == |ts| && Sorted(ts) && k < |qs|
    ensures MinValue(vs) <= Envelope(qs, ts, vs)[k] <= MaxValue(vs)
  {
  }

  /** Every entry of the three envelopes lies within the range of its control
      column. */
  lemma EnvelopesBounded(params: seq<ParamRow>, length: nat, k: nat)
    requires |params| > 0 && Sorted(Times(params)) && k < length
    ensures MinValue(Fces(params)) <= FrequencyInterpolation(params, length).fce[k] <= MaxValue(Fces(params))
    ensures MinValue(Flhs(params)) <= FrequencyInterpolation(params, length).flh[k] <= MaxValue(Flhs(params))
    ensures MinValue(Fpes(params)) <= FrequencyInterpolation(params, length).fpe[k] <= MaxValue(Fpes(params))
  {
    var qs := QueryPoints(params[0].time, length);
    EnvelopeBounded(qs, Times(params), Fces(params), k);
    EnvelopeBounded(qs, Times(params), Flhs(params), k);
    EnvelopeBounded(qs, Times(params), Fpes(params), k);
  }

  /** A control column that never changes gives a constant envelope. */
  lemma ConstantControlValues(x: real, ts: seq<real>, vs: seq<real>, c: real)
    requires |ts| > 0 && |vs| == |ts| && Sorted(ts)
    requires forall i :: 0 <= i < |vs| ==> vs[i] == c
    ensures Interp(x, ts, vs) == c
  {
  }

  /** Two control points, times 0 and 10, values 0 and 100: the query at 5
      is the midpoint value 50, queries outside are clamped. */
  lemma TwoPointExample()
    ensures Interp(5.0, [0.0, 10.0], [0.0, 100.0]) == 50.0
    ensures Interp(-3.0, [0.0, 10.0], [0.0, 100.0]) == 0.0
    ensures Interp(12.0, [0.0, 10.0], [0.0, 100.0]) == 100.0
  {
  }
}
