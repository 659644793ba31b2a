/** The health score of a peer: an exponential moving average, with smoothing factor one
    half, of the 0/1 outcomes of its reachability probes. */
module Health {
  import opened Models

  /** One update of the average: `(health + (1.0 if active else 0.0)) / 2.0`. */
  function Ema(h: real, active: bool): (r: real)
    ensures active ==> 1.0 - r == (1.0 - h) / 2.0  // a success halves the distance to full health
    ensures !active ==> r == h / 2.0               // a failure halves the health
    ensures ValidHealth(h) ==> ValidHealth(r)
    ensures ValidHealth(h) && active ==> h <= r
    ensures ValidHealth(h) && !active ==> r <= h
  {
    (h + (if active then 1.0 else 0.0)) / 2.0
  }

  /** The health after a sequence of probe outcomes, oldest first. */
  function HealthAfter(h: real, outcomes: seq<bool>): (r: real)
    ensures ValidHealth(h) ==> ValidHealth(r)
    decreases |outcomes|
  {
    if outcomes == [] then h else HealthAfter(Ema(h, outcomes[0]), outcomes[1..])
  }

  /** `n` equal probe outcomes in a row. */
  function Repeat(outcome: bool, n: nat): (s: seq<bool>)
    ensures |s| == n && forall i :: 0 <= i < n ==> s[i] == outcome
  {
    if n == 0 then [] else [outcome] + Repeat(outcome, n - 1)
  }

  /** The weight 1/2^n that the `n`-th oldest outcome's history keeps. */
  function Half(n: nat): (r: real)
    ensures 0.0 < r <= 1.0
  {
    if n == 0 then 1.0 else Half(n - 1) / 2.0
  }

  /** Processing outcomes in two batches is processing them in one. */
  lemma {:induction false} HealthAfterConcat(h: real, xs: seq<bool>, ys: seq<bool>)
    ensures HealthAfter(h, xs + ys) == HealthAfter(HealthAfter(h, xs), ys)
    decreases |xs|
  {
    if xs != [] {
      assert (xs + ys)[0] == xs[0];
      assert (xs + ys)[1..] == xs[1..] + ys;
      HealthAfterConcat(Ema(h, xs[0]), xs[1..], ys);
    } else {
      assert xs + ys == ys;
    }
  }

  /** After `n` successes the distance to full health has been halved `n` times. */
  lemma {:induction false} SuccessesClosedForm(h: real, n: nat)
    ensures HealthAfter(h, Repeat(true, n)) == 1.0 - (1.0 - h) * Half(n)
    decreases n
  {
    if n > 0 {
      var s := Repeat(true, n);
      assert s[0] == true && s[1..] == Repeat(true, n - 1);
      var h' := Ema(h, true);
      SuccessesClosedForm(h', n - 1);
      var q := Half(n - 1);
      assert (1.0 - h') * q == (1.0 - h) * (q / 2.0);
    }
  }

  /** After `n` failures the health has been halved `n` times. */
  lemma {:induction false} FailuresClosedForm(h: real, n: nat)
    ensures HealthAfter(h, Repeat(false, n)) == h * Half(n)
    decreases n
  {
    if n > 0 {
      var s := Repeat(false, n);
      assert s[0] == false && s[1..] == Repeat(false, n - 1);
      var h' := Ema(h, false);
      FailuresClosedForm(h', n - 1);
      var q := Half(n - 1);
      assert h' * q == h * (q / 2.0);
    }
  }

  /** Under sustained reachability health converges to 1.0: after `n` successes from any
      valid health it is within 1/2^n of full health, and it never goes above it. */
  lemma SustainedSuccessConverges(h: real, n: nat)
    requires ValidHealth(h)
    ensures 1.0 - Half(n) <= HealthAfter(h, Repeat(true, n)) <= 1.0
  {
    SuccessesClosedForm(h, n);
    var q := Half(n);
    assert 0.0 <= (1.0 - h) * q <= 1.0 * q;
  }

  /** Under sustained failure health converges to 0.0: after `n` failures it is at most
      1/2^n, and never negative. */
  lemma SustainedFailureConverges(h: real, n: nat)
    requires ValidHealth(h)
    ensures 0.0 <= HealthAfter(h, Repeat(false, n)) <= Half(n)
  {
    FailuresClosedForm(h, n);
    BoundByScale(HealthAfter(h, Repeat(false, n)), h, Half(n));
  }

  lemma BoundByScale(r: real, x: real, q: real)
    requires r == x * q && 0.0 <= x <= 1.0 && 0.0 < q
    ensures 0.0 <= r <= q
  {
  }

  /** A fresh record starts at 0.0: one successful probe gives 0.5, two give 0.75. */
  lemma FreshPeerTwoSuccesses()
    ensures HealthAfter(0.0, [true]) == 0.5
    ensures HealthAfter(0.0, [true, true]) == 0.75
  {
  }
}
