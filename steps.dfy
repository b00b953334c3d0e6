/** Arithmetic of the daily rule: stepping a day number forward by a fixed
    interval until it reaches a bound, and the Euclidean-division facts the
    proofs about it use. */
module Steps {

  lemma MulAtLeast(x: int, step: int)
    requires x >= 1 && step >= 1
    ensures x * step >= step
  {
  }

  lemma DistribStep(q: int, step: int)
    ensures (q + 1) * step == q * step + step
  {
  }

  /** Euclidean division has one quotient and remainder. */
  lemma ModUnique(a: int, step: int, q: int, r: int)
    requires step >= 1 && 0 <= r < step && a == q * step + r
    ensures a % step == r
  {
    var q2, r2 := a / step, a % step;
    assert a == q2 * step + r2;
    if q > q2 {
      assert (q - q2) * step == q * step - q2 * step;
      MulAtLeast(q - q2, step);
    } else if q < q2 {
      assert (q2 - q) * step == q2 * step - q * step;
      MulAtLeast(q2 - q, step);
    }
  }

  lemma ModStep(a: int, step: int)
    requires step >= 1
    ensures (a + step) % step == a % step
  {
    var q, r := a / step, a % step;
    assert a == q * step + r;
    DistribStep(q, step);
    ModUnique(a + step, step, q + 1, r);
  }

  /** The first of t, t + step, t + 2 * step, ... that is not before `now`. */
  function Advance(t: int, step: int, now: int): (r: int)
    requires step >= 1
    ensures r >= t && r >= now
    ensures r == t || r - step < now
    decreases now - t
  {
    if t < now then Advance(t + step, step, now) else t
  }

  /** Stepping ends a whole number of steps after where it started. */
  lemma {:induction false} AdvanceMultiple(t: int, step: int, now: int)
    requires step >= 1
    ensures (Advance(t, step, now) - t) % step == 0
    decreases now - t
  {
    var r := Advance(t, step, now);
    if t < now {
      AdvanceMultiple(t + step, step, now);
      ModStep(r - (t + step), step);
      assert (r - (t + step)) + step == r - t;
    } else {
      ModUnique(0, step, 0, 0);
    }
  }

  /** A step taken before `now` does not change where stepping ends. */
  lemma AdvanceStep(t: int, step: int, now: int)
    requires step >= 1 && t < now
    ensures Advance(t + step, step, now) == Advance(t, step, now)
  {
  }

  /** No later multiple of the step is passed over. */
  lemma {:induction false} AdvanceLeast(t: int, step: int, now: int, k: nat)
    requires step >= 1 && t + k * step >= now
    ensures Advance(t, step, now) <= t + k * step
    decreases k
  {
    if t < now {
      assert k >= 1;
      assert (t + step) + (k - 1) * step == t + k * step;
      AdvanceLeast(t + step, step, now, k - 1);
    }
  }
}
