/**
 Bounded random numbers by Lemire's rejection method. The 32-bit generator is a
 sequence of upcoming outputs; what is proved is how draws map to results.
 */
module Lemire {
  import opened Bytes

  /** Number of possible 32-bit draws. */
  const DRAWS: nat := 0x1_0000_0000

  /** The candidate result and the fraction below it, from the 64-bit product. */
  function High(x: nat, r: nat): (k: nat) {
    x * r / DRAWS
  }

  function Low(x: nat, r: nat): (l: nat) {
    x * r % DRAWS
  }

  /** The threshold as the source computes it, `(!r + 1) % r` in 32 bits. */
  function Threshold(r: u32): (t: nat)
    requires r > 0
    ensures t < r
  {
    (DRAWS - 1 - r + 1) % r
  }

  /** A draw is kept when its low word is not under the threshold. */
  predicate Accepted(x: nat, r: u32)
    requires r > 0
  {
    Low(x, r) >= Threshold(r)
  }

  /** The source's first test, with the cheap `l < r` pre-check in front. */
  predicate AcceptedWithPreCheck(x: nat, r: u32)
    requires r > 0
  {
    !(Low(x, r) < r && Low(x, r) < Threshold(r))
  }

  /** The pre-check changes nothing. */
  lemma PreCheckIsExact(x: nat, r: u32)
    requires r > 0
    ensures AcceptedWithPreCheck(x, r) <==> Low(x, r) >= DRAWS % r
    ensures AcceptedWithPreCheck(x, r) <==> Accepted(x, r)
  {
    ThresholdValue(r);
  }

  lemma ThresholdValue(r: u32)
    requires r > 0
    ensures Threshold(r) == DRAWS % r
  {
    var q := DRAWS / r;
    assert DRAWS == q * r + DRAWS % r;
    Distribute(q - 1, 1, r);
    assert q > 0;
    DivUnique(DRAWS - r, r, q - 1);
  }

  /** Every draw gives a value under the bound. */
  lemma HighInRange(x: nat, r: nat)
    requires x < DRAWS && r > 0
    ensures High(x, r) < r
  {
    var k := High(x, r);
    assert x * r == k * DRAWS + Low(x, r);
    MulLess(x, DRAWS, r);
    LessFromProduct(k, r, DRAWS);
  }

  lemma Distribute(a: int, b: int, c: int)
    ensures (a + b) * c == a * c + b * c
  {
  }

  lemma Positive(a: int, b: int)
    requires a >= 0 && b >= 0
    ensures a * b >= 0
    ensures a > 0 && b > 0 ==> a * b > 0
  {
  }

  lemma MulLess(a: int, b: int, c: int)
    requires a < b && c > 0
    ensures a * c < b * c
  {
    Distribute(a, b - a, c);
    Positive(b - a, c);
  }

  lemma MulLe(a: int, b: int, c: int)
    requires a <= b && c >= 0
    ensures a * c <= b * c
  {
    Distribute(a, b - a, c);
    Positive(b - a, c);
  }

  lemma LessFromProduct(a: int, b: int, c: int)
    requires a * c < b * c && c > 0
    ensures a < b
  {
    if b <= a {
      MulLe(b, a, c);
    }
  }

  /** The first draw kept for result `k`. */
  function FirstDraw(k: nat, r: u32): (a: nat)
    requires r > 0
  {
    DivCeil(k * DRAWS + Threshold(r), r)
  }

  /** The draws kept for result `k` are one unbroken block of `2^32 / r` of them. */
  lemma {:induction false} KeptDraws(x: nat, k: nat, r: u32)
    requires r > 0 && k < r
    ensures x < DRAWS && Accepted(x, r) && High(x, r) == k
       <==> FirstDraw(k, r) <= x < FirstDraw(k, r) + DRAWS / r
  {
    var t, q, base := Threshold(r), DRAWS / r, k * DRAWS;
    var a := FirstDraw(k, r);
    var target := base + t;
    ThresholdValue(r);
    assert DRAWS == q * r + t;
    DivCeilCovers(target, r);
    AtLeastIff(x, a, r, target);
    AtLeastIff(x - q, a, r, target);
    Distribute(x - q, q, r);
    ProductWindow(x, k, r, t);
    if x * r < base + DRAWS {
      WindowInRange(x, k, r);
    }
  }

  /** `x * r` reaches `target` exactly from `a = ceil(target / r)` on. */
  lemma AtLeastIff(x: int, a: nat, r: nat, target: nat)
    requires r > 0 && a * r >= target && (target > 0 ==> a > 0 && (a - 1) * r < target) && (target == 0 ==> a == 0)
    ensures x >= a <==> x * r >= target
  {
    if x >= a {
      MulLe(a, x, r);
    } else if target > 0 {
      MulLe(x, a - 1, r);
    } else {
      MulLess(x, 0, r);
    }
  }

  /** Quotient `k` and remainder at least `t`, read as a window on the product. */
  lemma ProductWindow(x: nat, k: nat, r: nat, t: nat)
    requires t < DRAWS
    ensures High(x, r) == k && Low(x, r) >= t <==> k * DRAWS + t <= x * r < k * DRAWS + DRAWS
  {
    var p := x * r;
    assert p == High(x, r) * DRAWS + Low(x, r);
    if k * DRAWS <= p < k * DRAWS + DRAWS {
      DivUnique(p, DRAWS, k);
    }
  }

  lemma WindowInRange(x: nat, k: nat, r: nat)
    requires k < r && x * r < k * DRAWS + DRAWS
    ensures x < DRAWS
  {
    Distribute(k, 1, DRAWS);
    MulLe(k + 1, r, DRAWS);
    LessFromProduct(x, DRAWS, r);
  }

  ghost function Interval(a: nat, n: nat): (s: set<nat>)
    decreases n
  {
    if n == 0 then {} else Interval(a, n - 1) + {a + n - 1}
  }

  lemma {:induction false} InInterval(a: nat, n: nat, x: nat)
    ensures x in Interval(a, n) <==> a <= x < a + n
    decreases n
  {
    if n > 0 {
      InInterval(a, n - 1, x);
    }
  }

  lemma {:induction false} IntervalSize(a: nat, n: nat)
    ensures |Interval(a, n)| == n
    decreases n
  {
    if n > 0 {
      IntervalSize(a, n - 1);
      InInterval(a, n - 1, a + n - 1);
    }
  }

  /** The draws that end in result `k`. */
  ghost function DrawsFor(k: nat, r: u32): (s: set<nat>)
    requires r > 0
  {
    set x: nat | 0 <= x < DRAWS && Accepted(x, r) && High(x, r) == k
  }

  /** No modulo bias: every result below the bound is hit by exactly floor(2^32 / r) draws. */
  lemma {:induction false} Uniform(k: nat, r: u32)
    requires r > 0 && k < r
    ensures |DrawsFor(k, r)| == DRAWS / r
  {
    forall x: nat
      ensures x in DrawsFor(k, r) <==> x in Interval(FirstDraw(k, r), DRAWS / r)
    {
      KeptDraws(x, k, r);
      InInterval(FirstDraw(k, r), DRAWS / r, x);
    }
    assert DrawsFor(k, r) == Interval(FirstDraw(k, r), DRAWS / r);
    IntervalSize(FirstDraw(k, r), DRAWS / r);
  }

  /** The draws kept for a result under `k`. */
  ghost function KeptBelow(k: nat, r: u32): (s: set<nat>)
    requires r > 0
  {
    set x: nat | 0 <= x < DRAWS && Accepted(x, r) && High(x, r) < k
  }

  lemma {:induction false} KeptBelowSize(k: nat, r: u32)
    requires r > 0 && k <= r
    ensures |KeptBelow(k, r)| == k * (DRAWS / r)
    decreases k
  {
    hide Accepted, High;
    if k == 0 {
      assert KeptBelow(k, r) == {};
    } else {
      KeptBelowSize(k - 1, r);
      Uniform(k - 1, r);
      assert KeptBelow(k, r) == KeptBelow(k - 1, r) + DrawsFor(k - 1, r);
      assert KeptBelow(k - 1, r) !! DrawsFor(k - 1, r);
      Distribute(k - 1, 1, DRAWS / r);
    }
  }

  /** The draws that are thrown away. */
  ghost function Rejected(r: u32): (s: set<nat>)
    requires r > 0
  {
    set x: nat | 0 <= x < DRAWS && !Accepted(x, r)
  }

  /** Exactly 2^32 mod r of the draws are thrown away, fewer than the bound. */
  lemma {:induction false} RejectedDraws(r: u32)
    requires r > 0
    ensures |Rejected(r)| == DRAWS % r < r
  {
    hide Interval, KeptBelow, Rejected;
    KeptBelowSize(r, r);
    IntervalSize(0, DRAWS);
    KeptOrRejected(r);
    Quotient(r);
  }

  lemma KeptOrRejected(r: u32)
    requires r > 0
    ensures Interval(0, DRAWS) == KeptBelow(r, r) + Rejected(r)
    ensures |Interval(0, DRAWS)| == |KeptBelow(r, r)| + |Rejected(r)|
  {
    hide Accepted, High, Interval;
    var kept, all := KeptBelow(r, r), Interval(0, DRAWS);
    forall x: nat
      ensures x in all <==> x in kept || x in Rejected(r)
    {
      InInterval(0, DRAWS, x);
      if x < DRAWS {
        HighInRange(x, r);
      }
    }
    assert all == kept + Rejected(r);
    assert kept !! Rejected(r);
  }

  lemma Quotient(r: nat)
    requires r > 0
    ensures DRAWS == r * (DRAWS / r) + DRAWS % r
  {
  }

  /**
   The bounded draw over the generator's upcoming outputs. The value comes from the
   first draw that is kept; None means the loop is still redrawing when the given
   outputs run out.
   */
  method Below(bound: u32, draws: seq<u32>) returns (r: Option<u32>, used: nat)
    ensures bound == 0 ==> r == Some(0) && used == 0
    ensures bound > 0 && r.Some? ==> r.value < bound && 0 < used <= |draws|
    ensures bound > 0 && r.Some? ==> Accepted(draws[used - 1], bound) && r.value == High(draws[used - 1], bound)
    ensures bound > 0 && r.Some? ==> forall j :: 0 <= j < used - 1 ==> !Accepted(draws[j], bound)
    ensures r.None? ==> bound > 0 && forall j :: 0 <= j < |draws| ==> !Accepted(draws[j], bound)
  {
    used := 0;
    if bound == 0 {
      return Some(0), 0;
    }
    if |draws| == 0 {
      return None, 0;
    }
    var x := draws[0];
    used := 1;
    var m := x * bound;
    var l := m % DRAWS;
    PreCheckIsExact(x, bound);
    if l < bound {
      var t := (DRAWS - 1 - bound + 1) % bound;
      while l < t
        invariant 1 <= used <= |draws| && x == draws[used - 1]
        invariant m == x * bound && l == Low(x, bound) && t == Threshold(bound)
        invariant forall j :: 0 <= j < used - 1 ==> !Accepted(draws[j], bound)
        decreases |draws| - used
      {
        if used == |draws| {
          return None, used;
        }
        x := draws[used];
        used := used + 1;
        m := x * bound;
        l := m % DRAWS;
      }
    }
    HighInRange(x, bound);
    r := Some(m / DRAWS);
  }
}
