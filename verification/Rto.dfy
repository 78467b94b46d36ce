/**
  The round-trip filter that sets the retransmission time-out, in 500 ms ticks, with the
  16-bit fields of the protocol control block.
 */
module Rto {

  const INITIAL: int := 6      // 3000 / TCP_SLOW_INTERVAL

  /** Left shift applied at retransmission number `nrtx`, and the factor it stands for. */
  const BACKOFF: seq<nat> := [1, 2, 3, 4, 5, 6, 7, 7, 7, 7, 7, 7, 7]
  const FACTOR: seq<nat> := [1, 2, 4, 8, 16, 32, 64, 128]

  /** Storing into a signed 16-bit field. */
  function S16(x: int): int {
    if -0x8000 <= x <= 0x7fff then x else (x + 0x8000) % 0x1_0000 - 0x8000
  }

  /** Scaled average (8 times) and scaled deviation (4 times) of the round-trip time. */
  datatype Filter = Filter(sa: int, sv: int)

  const START := Filter(0, INITIAL)

  /** The filter after a measurement of `m` ticks; the divisions are arithmetic shifts. */
  ghost function Sampled(f: Filter, m: int): Filter {
    var err := m - f.sa / 8;
    Filter(f.sa + err, f.sv + (if err < 0 then -err else err) - f.sv / 4)
  }

  ghost function Timeout(f: Filter): int {
    f.sa / 8 + f.sv
  }

  ghost function Run(f: Filter, samples: seq<int>): Filter
    decreases |samples|
  {
    if samples == [] then f else Run(Sampled(f, samples[0]), samples[1..])
  }

  /** Both parts are non-negative, the deviation at least three ticks, and bounded by the
      longest measurement `r`. */
  ghost predicate Within(f: Filter, r: int) {
    0 <= f.sa <= 8 * r + 7 && 3 <= f.sv <= 4 * r + 3
  }

  lemma SampledWithin(f: Filter, m: int, r: int)
    requires Within(f, r) && 0 <= m <= r
    ensures Within(Sampled(f, m), r)
  {
  }

  lemma {:induction false} RunWithin(f: Filter, samples: seq<int>, r: int)
    requires Within(f, r)
    requires forall i :: 0 <= i < |samples| ==> 0 <= samples[i] <= r
    ensures Within(Run(f, samples), r)
    decreases |samples|
  {
    if samples != [] {
      SampledWithin(f, samples[0], r);
      RunWithin(Sampled(f, samples[0]), samples[1..], r);
    }
  }

  /** Over every run of measurements of at most `r` ticks the time-out stays in [3, 5r + 3]. */
  lemma TimeoutBounds(samples: seq<int>, r: int)
    requires 1 <= r && forall i :: 0 <= i < |samples| ==> 0 <= samples[i] <= r
    ensures Within(Run(START, samples), r)
    ensures 3 <= Timeout(Run(START, samples)) <= 5 * r + 3
  {
    RunWithin(START, samples, r);
  }

  /** The weights of section 2 of RFC 6298, one eighth and one quarter, up to rounding. */
  lemma FilterWeights(f: Filter, m: int)
    ensures 8 * Sampled(f, m).sa == 7 * f.sa + 8 * m + f.sa % 8
    ensures var err := m - f.sa / 8;
            4 * Sampled(f, m).sv == 3 * f.sv + 4 * (if err < 0 then -err else err) + f.sv % 4
    ensures Timeout(f) == f.sa / 8 + f.sv
  {
  }

  /** The same measurement over and over. */
  ghost function Repeated(f: Filter, m: int, n: nat): Filter
    decreases n
  {
    if n == 0 then f else Repeated(Sampled(f, m), m, n - 1)
  }

  /** Steady measurements settle the filter: the average is the measurement, the deviation three
      ticks, the time-out three ticks above the measurement, and there it stays. */
  lemma {:induction false} Settles(f: Filter, m: int) returns (n: nat)
    requires 0 <= f.sa && 3 <= f.sv && 0 <= m
    ensures var g := Repeated(f, m, n);
            g.sa / 8 == m && g.sv == 3 && Timeout(g) == m + 3 && Sampled(g, m) == g
    decreases if f.sa < 8 * m then 8 * m - f.sa else if f.sa >= 8 * m + 8 then f.sa - 8 * m else 0, f.sv
  {
    if f.sa / 8 == m && f.sv == 3 {
      n := 0;
    } else {
      var n' := Settles(Sampled(f, m), m);
      n := n' + 1;
    }
  }

  /** 2 to the power of k. */
  function Pow2(k: nat): nat {
    if k == 0 then 1 else 2 * Pow2(k - 1)
  }

  /** Each retransmission doubles the time-out again, up to 128 times. */
  lemma BackoffDoubles(n: nat)
    requires n < |BACKOFF|
    ensures FACTOR[BACKOFF[n]] == Pow2(if n < 6 then n + 1 else 7)
  {
    assert Pow2(0) == 1 && Pow2(1) == 2 && Pow2(2) == 4 && Pow2(3) == 8;
    assert Pow2(4) == 16 && Pow2(5) == 32 && Pow2(6) == 64 && Pow2(7) == 128;
  }

  /** Every back-off of a time-out fits in 16 bits exactly when the time-out is at most 255
      ticks. */
  lemma BackoffFits(rto: int)
    requires 0 <= rto
    ensures (forall n :: 0 <= n < |BACKOFF| ==> S16(rto * FACTOR[BACKOFF[n]]) == rto * FACTOR[BACKOFF[n]])
            <==> rto <= 255
  {
    if rto > 255 {
      assert FACTOR[BACKOFF[6]] == 128;
      assert S16(rto * FACTOR[BACKOFF[6]]) <= 0x7fff;
    }
  }

  /** With measurements of at most 50 ticks no back-off overflows, over any run. */
  lemma BackoffNeverOverflows(samples: seq<int>, n: nat)
    requires n < |BACKOFF| && forall i :: 0 <= i < |samples| ==> 0 <= samples[i] <= 50
    ensures var rto := Timeout(Run(START, samples)) * FACTOR[BACKOFF[n]]; S16(rto) == rto
  {
    TimeoutBounds(samples, 50);
    BackoffFits(Timeout(Run(START, samples)));
  }

  /** Measurements below 4096 ticks never cut anything. */
  lemma FilterFits(f: Filter, m: int, r: int)
    requires Within(f, r) && 0 <= m <= r <= 4095
    ensures Within(Sampled(f, m), r) && Sampled(f, m).sa <= 0x7fff && Sampled(f, m).sv <= 0x7fff
    ensures S16(Timeout(Sampled(f, m))) == Timeout(Sampled(f, m))
  {
    SampledWithin(f, m, r);
  }

  class Estimator {
    var sa: int
    var sv: int
    var rto: int

    constructor ()
      ensures Filter(sa, sv) == START && rto == INITIAL
    {
      sa, sv, rto := 0, INITIAL, INITIAL;
    }

    /** The update of tcp_receive, in 16-bit fields: each is the exact value cut to 16 bits,
        and the filter is exact if and only if its two parts fit. */
    method Measure(ticks: int)
      requires 0 <= sa <= 0x7fff && 0 <= sv <= 0x7fff && 0 <= ticks <= 0x7fff
      modifies this
      ensures var f := Sampled(Filter(old(sa), old(sv)), ticks);
              && sa == S16(f.sa) && sv == S16(f.sv) && rto == S16(Timeout(Filter(sa, sv)))
              && (Filter(sa, sv) == f <==> f.sa <= 0x7fff && f.sv <= 0x7fff)
    {
      var m := S16(ticks);
      m := S16(m - sa / 8);
      sa := S16(sa + m);
      if m < 0 {
        m := S16(-m);
      }
      m := S16(m - sv / 4);
      sv := S16(sv + m);
      rto := S16(sa / 8 + sv);
    }

    /** The back-off of tcp_slowtmr at retransmission `nrtx`: exact up to a time-out of 255 ticks. */
    method Backoff(nrtx: nat)
      requires 0 <= Timeout(Filter(sa, sv)) && nrtx < |BACKOFF|
      modifies this`rto
      ensures var exact := (sa / 8 + sv) * Pow2(if nrtx < 6 then nrtx + 1 else 7);
              rto == S16(exact) && (sa / 8 + sv <= 255 ==> rto == exact)
    {
      BackoffDoubles(nrtx);
      BackoffFits(sa / 8 + sv);
      rto := S16((sa / 8 + sv) * FACTOR[BACKOFF[nrtx]]);
    }
  }
}
