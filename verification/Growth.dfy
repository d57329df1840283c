/**
  Repeated percent extends, and the size a thin disk converges to.

  All sizes are integers and every extend rounds down; `FreePercent` is compared
  with the threshold exactly, by cross multiplication.
 */
module Growth {
  import opened Records

  function Pow(b: nat, k: nat): nat {
    if k == 0 then 1 else b * Pow(b, k - 1)
  }

  // ----- k percent extends

  /** A percent extend without wrap-around. */
  function Grow(size: nat, p: nat): nat {
    size + size * p / 100
  }

  function GrowTimes(size: nat, p: nat, k: nat): nat {
    if k == 0 then size else Grow(GrowTimes(size, p, k - 1), p)
  }

  /** The step bounds `config.Validate` enforces keep one extend from wrapping, up to `MAX_EXACT`. */
  lemma NoWrap(size: nat, p: nat)
    requires size <= MAX_EXACT && 0 < p <= 1000
    ensures PercentExtended(size, p) == Grow(size, p) == size + size * p / 100 < U64
  {
    assert size * p <= MAX_EXACT * 1000 by {
      Monotone(size, MAX_EXACT, p);
      Monotone(p, 1000, MAX_EXACT);
    }
    assert size * p / 100 <= MAX_EXACT * 10;
  }

  lemma Monotone(a: int, b: int, c: nat)
    requires a <= b
    ensures a * c <= b * c
  {
  }

  /** What rounding down costs one extend. */
  function FloorLoss(size: nat, p: nat): nat {
    size * p % 100
  }

  lemma GrowExact(size: nat, p: nat)
    ensures 100 * Grow(size, p) + FloorLoss(size, p) == size * (100 + p)
  {
  }

  /** One extend, on the scale of all k: `a` is 100^(k-1), `b` is (100+p)^(k-1). */
  lemma ScaledStep(a: nat, s: nat, g: nat, loss: nat, q: nat)
    requires 100 * g + loss == s * q
    ensures (100 * a) * g == (a * s) * q - a * loss
  {
    calc {
      (100 * a) * g;
      a * (100 * g);
      a * (s * q - loss);
      a * (s * q) - a * loss;
      (a * s) * q - a * loss;
    }
  }

  lemma Assoc(a: int, b: int, c: int)
    ensures a * (b * c) == (a * b) * c && a * (b * c) == b * (a * c)
  {
  }

  /** After k extends by p percent the size is at most what exact arithmetic gives ... */
  lemma {:induction false} GrowthUpperBound(size: nat, p: nat, k: nat)
    ensures Pow(100, k) * GrowTimes(size, p, k) <= size * Pow(100 + p, k)
  {
    if k > 0 {
      GrowthUpperBound(size, p, k - 1);
      var a, b, s, q := Pow(100, k - 1), Pow(100 + p, k - 1), GrowTimes(size, p, k - 1), 100 + p;
      GrowExact(s, p);
      ScaledStep(a, s, Grow(s, p), FloorLoss(s, p), q);
      Monotone(a * s, size * b, q);
      Assoc(size, q, b);
      assert (size * b) * q == size * (q * b);
      assert a * FloorLoss(s, p) >= 0;
    }
  }

  lemma ShortfallStep(a: nat, b: nat, s: nat, g: nat, loss: nat, p: nat, size: nat)
    requires 100 * g + loss == s * (100 + p) && loss <= 99
    requires p * (size * b - a * s) <= 99 * (b - a)
    ensures p * (size * ((100 + p) * b) - (100 * a) * g) <= 99 * ((100 + p) * b - 100 * a)
  {
    var q := 100 + p;
    var d := size * b - a * s;
    ShortfallDifference(a, b, s, g, loss, q, size);
    Distribute(p, q, d, a * loss);
    MulLe(a, loss, 99);
    MulLe(p, a * loss, 99 * a);
    Assoc(p, 99, a);
    ShortfallSum(a, b, p, p * d, p * (a * loss));
  }

  lemma ShortfallDifference(a: nat, b: nat, s: nat, g: nat, loss: nat, q: nat, size: nat)
    requires 100 * g + loss == s * q
    ensures size * (q * b) - (100 * a) * g == q * (size * b - a * s) + a * loss
  {
    ScaledStep(a, s, g, loss, q);
    Assoc(size, q, b);
    Difference(q, size * b, a * s);
  }

  lemma ShortfallSum(a: nat, b: nat, p: nat, x: int, y: int)
    requires x <= 99 * (b - a) && y <= 99 * (p * a)
    ensures (100 + p) * x + y <= 99 * ((100 + p) * b - 100 * a)
  {
    MulLe(100 + p, x, 99 * (b - a));
    Assoc(100 + p, 99, b - a);
    Difference(100 + p, b, a);
  }

  lemma Difference(c: int, x: int, y: int)
    ensures c * (x - y) == c * x - c * y
  {
  }

  lemma Distribute(p: int, q: int, d: int, e: int)
    ensures p * (q * d + e) == q * (p * d) + p * e
  {
  }

  lemma MulLe(c: nat, a: int, b: int)
    requires a <= b
    ensures c * a <= c * b
  {
  }

  /** ... and it falls short of that by less than one byte per extend, carried forward. */
  lemma {:induction false} GrowthShortfall(size: nat, p: nat, k: nat)
    ensures p * (size * Pow(100 + p, k) - Pow(100, k) * GrowTimes(size, p, k))
         <= 99 * (Pow(100 + p, k) - Pow(100, k))
  {
    if k > 0 {
      GrowthShortfall(size, p, k - 1);
      var s := GrowTimes(size, p, k - 1);
      GrowExact(s, p);
      ShortfallStep(Pow(100, k - 1), Pow(100 + p, k - 1), s, Grow(s, p), FloorLoss(s, p), p, size);
    }
  }

  // ----- the feedback loop of one thin disk

  /** `FreePercent() < threshold`, exactly: 100 * (1 - used/physical) < threshold. */
  predicate BelowThreshold(physical: nat, allocation: nat, threshold: nat) {
    && physical != 0
    && var used := if allocation > physical then physical else allocation;
       100 * (physical - used) < threshold * physical
  }

  /** Exactly when too little is free: never on a device without a physical size. */
  lemma BelowThresholdIff(physical: nat, allocation: nat, threshold: nat)
    requires 0 < threshold < 100
    ensures BelowThreshold(physical, allocation, threshold) <==>
            physical > 0 && (100 - threshold) * physical < 100 * allocation
  {
    if allocation > physical > 0 {
      Monotone(physical + 1, allocation, 100);
      Monotone(1, threshold, physical);
      Monotone(100 - threshold, 99, physical);
    }
  }

  /** One tick of a disk whose physical size is the size its record states. */
  function TickSize(size: nat, allocation: nat, threshold: nat, step: nat): nat {
    if BelowThreshold(size, allocation, threshold) then PercentExtended(size, step) else size
  }

  function SizeAfter(size: nat, allocation: nat, threshold: nat, step: nat, ticks: nat): nat {
    if ticks == 0 then size
    else TickSize(SizeAfter(size, allocation, threshold, step, ticks - 1), allocation, threshold, step)
  }

  /** The bounds `thin.New` and `config.Validate` enforce, and an allocation small
      enough that no size below its target can wrap. */
  predicate Parameters(allocation: nat, threshold: nat, step: nat) {
    0 < threshold < 100 && 0 < step <= 1000 && 100 * allocation <= MAX_EXACT * (100 - threshold)
  }

  /** The smallest size with enough free space: allocation * 100 / (100 - threshold), rounded up. */
  function Target(allocation: nat, threshold: nat): nat
    requires threshold < 100
  {
    (100 * allocation + (99 - threshold)) / (100 - threshold)
  }

  lemma TargetIsThreshold(size: nat, allocation: nat, threshold: nat)
    requires 0 < threshold < 100 && size > 0
    ensures BelowThreshold(size, allocation, threshold) <==> size < Target(allocation, threshold)
    ensures size < Target(allocation, threshold) <==> size * (100 - threshold) < 100 * allocation
  {
    var c := 100 - threshold;
    var t := Target(allocation, threshold);
    assert t * c <= 100 * allocation + c - 1 < t * c + c;
    if size < t {
      Monotone(size + 1, t, c);
    } else {
      Monotone(t, size, c);
    }
  }

  lemma TickGrows(size: nat, allocation: nat, threshold: nat, step: nat)
    requires Parameters(allocation, threshold, step) && size > 0
    requires BelowThreshold(size, allocation, threshold)
    ensures TickSize(size, allocation, threshold, step) == Grow(size, step)
  {
    TargetIsThreshold(size, allocation, threshold);
    var c := 100 - threshold;
    if size > MAX_EXACT {
      Monotone(MAX_EXACT, size, c);
      assert false;
    }
    NoWrap(size, step);
  }

  /** The ticks that suffice: the missing bytes over the bytes the first extend adds, rounded up. */
  function TicksNeeded(size: nat, allocation: nat, threshold: nat, step: nat): nat
    requires threshold < 100 && size * step >= 100
  {
    var target := Target(allocation, threshold);
    var first := size * step / 100;
    if size >= target then 0 else (target - size + first - 1) / first
  }

  /** The least number of first extends that reach the target. */
  lemma TicksNeededIs(size: nat, a: nat, t: nat, step: nat)
    requires 0 < t < 100 && size * step >= 100
    ensures var k, first := TicksNeeded(size, a, t, step), size * step / 100;
            && !BelowThreshold(size + k * first, a, t)
            && (k > 0 ==> BelowThreshold(size + (k - 1) * first, a, t))
  {
    var target, first, k := Target(a, t), size * step / 100, TicksNeeded(size, a, t, step);
    assert k * first >= 0;
    if size < target {
      CeilIs(target - size, first);
      MulSucc(k, first);
    }
    TargetIsThreshold(size + k * first, a, t);
    if k > 0 {
      assert (k - 1) * first >= 0;
      TargetIsThreshold(size + (k - 1) * first, a, t);
    }
  }

  lemma CeilIs(n: nat, d: nat)
    requires d > 0 && n > 0
    ensures var k := (n + d - 1) / d; k > 0 && k * d >= n && (k - 1) * d < n
  {
    var k := (n + d - 1) / d;
    assert k * d <= n + d - 1 < k * d + d;
  }

  lemma DivGrows(a: nat, b: nat, p: nat)
    requires a <= b
    ensures a * p / 100 <= b * p / 100
  {
    Monotone(a, b, p);
  }

  lemma MulSucc(k: nat, d: nat)
    requires k > 0
    ensures (k - 1) * d + d == k * d
  {
  }

  /** Sizes never shrink, and until it settles every tick adds what the first one would. */
  lemma {:induction false} LinearProgress(size: nat, a: nat, t: nat, step: nat, k: nat)
    requires Parameters(a, t, step) && size * step >= 100
    ensures SizeAfter(size, a, t, step, k) >= size
    ensures BelowThreshold(SizeAfter(size, a, t, step, k), a, t) ==>
              SizeAfter(size, a, t, step, k) >= size + k * (size * step / 100)
  {
    if k > 0 {
      LinearProgress(size, a, t, step, k - 1);
      var s := SizeAfter(size, a, t, step, k - 1);
      if BelowThreshold(s, a, t) {
        TickGrows(s, a, t, step);
        DivGrows(size, s, step);
        MulSucc(k, size * step / 100);
      }
    }
  }

  lemma {:induction false} SettledStays(size: nat, a: nat, t: nat, step: nat, k: nat, more: nat)
    requires !BelowThreshold(SizeAfter(size, a, t, step, k), a, t)
    ensures SizeAfter(size, a, t, step, k + more) == SizeAfter(size, a, t, step, k)
  {
    if more > 0 {
      SettledStays(size, a, t, step, k, more - 1);
    }
  }

  lemma CeilDiv(n: nat, d: nat)
    requires d > 0
    ensures (n + d - 1) / d * d >= n
  {
  }

  /**
    Convergence: with the allocation fixed, all calls succeeding and a first extend
    of at least a byte, after the stated number of ticks the disk has at least the
    threshold free, and no later tick changes it.
   */
  lemma Converges(size: nat, a: nat, t: nat, step: nat, k: nat)
    requires Parameters(a, t, step) && size * step >= 100
    requires k >= TicksNeeded(size, a, t, step)
    ensures !BelowThreshold(SizeAfter(size, a, t, step, k), a, t)
    ensures SizeAfter(size, a, t, step, k) == SizeAfter(size, a, t, step, TicksNeeded(size, a, t, step))
  {
    var n := TicksNeeded(size, a, t, step);
    var d := size * step / 100;
    var s := SizeAfter(size, a, t, step, n);
    LinearProgress(size, a, t, step, n);
    if BelowThreshold(s, a, t) {
      TargetIsThreshold(s, a, t);
      CeilDiv(Target(a, t) - size, d);
      assert false;
    }
    SettledStays(size, a, t, step, n, k - n);
  }

  /** A disk too small for the step never grows at all. */
  lemma {:induction false} TooSmallIsStuck(size: nat, a: nat, t: nat, step: nat, k: nat)
    requires Parameters(a, t, step) && size * step < 100
    ensures SizeAfter(size, a, t, step, k) == size
  {
    if k > 0 {
      TooSmallIsStuck(size, a, t, step, k - 1);
      if BelowThreshold(size, a, t) { TickGrows(size, a, t, step); }
    }
  }

  /** Exactly which disks the loop ever brings to their threshold: those that are
      there already, and those whose first extend is worth at least a byte. */
  lemma ConvergesIff(size: nat, a: nat, t: nat, step: nat)
    requires Parameters(a, t, step)
    ensures (exists k: nat :: !BelowThreshold(SizeAfter(size, a, t, step, k), a, t))
       <==> !BelowThreshold(size, a, t) || size * step >= 100
  {
    if size * step >= 100 {
      Converges(size, a, t, step, TicksNeeded(size, a, t, step));
    } else {
      forall k: nat ensures SizeAfter(size, a, t, step, k) == size { TooSmallIsStuck(size, a, t, step, k); }
      assert SizeAfter(size, a, t, step, 0) == size;
    }
  }

  /** Overshoot: whatever the ticks add ends below (100 + step) percent of what was needed. */
  lemma {:induction false} Overshoot(size: nat, a: nat, t: nat, step: nat, k: nat)
    requires Parameters(a, t, step) && size * step >= 100
    requires SizeAfter(size, a, t, step, k) != size
    ensures SizeAfter(size, a, t, step, k) * (100 - t) < a * (100 + step)
  {
    var s := SizeAfter(size, a, t, step, k - 1);
    LinearProgress(size, a, t, step, k - 1);
    if BelowThreshold(s, a, t) {
      TickGrows(s, a, t, step);
      TargetIsThreshold(s, a, t);
      OvershootStep(s, a, 100 - t, step);
    } else {
      Overshoot(size, a, t, step, k - 1);
    }
  }

  lemma OvershootStep(s: nat, a: nat, c: nat, step: nat)
    requires s * c < 100 * a
    ensures Grow(s, step) * c < a * (100 + step)
  {
    var g, q := Grow(s, step), 100 + step;
    GrowExact(s, step);
    Monotone(100 * g, s * q, c);
    Assoc(s, q, c);
    Monotone(s * c + 1, 100 * a, q);
    assert 100 * g * c == 100 * (g * c);
    assert (s * q) * c == (s * c) * q;
    assert (100 * a) * q == 100 * (a * q);
    assert (s * c + 1) * q == (s * c) * q + q;
  }

  lemma BelowMonotone(s: nat, s': nat, a: nat, a': nat, t: nat)
    requires 0 < t < 100 && 0 < s <= s' && a' <= a
    ensures BelowThreshold(s', a', t) ==> BelowThreshold(s, a, t)
  {
    TargetIsThreshold(s, a, t);
    TargetIsThreshold(s', a', t);
    Monotone(s, s', 100 - t);
  }

  /**
    A disk attached to two VMs, with allocations `a <= b`: the order in which the
    VMs are visited matters exactly when the first extend satisfies `a` and not `b`.
   */
  lemma SharedDiskOrderIff(size: nat, a: nat, b: nat, t: nat, step: nat)
    requires Parameters(a, t, step) && Parameters(b, t, step) && a <= b && size * step >= 100
    ensures var grown := TickSize(size, b, t, step);
            TickSize(TickSize(size, a, t, step), b, t, step) == TickSize(TickSize(size, b, t, step), a, t, step)
            <==> !(BelowThreshold(size, a, t) && !BelowThreshold(grown, a, t) && BelowThreshold(grown, b, t))
  {
    BelowMonotone(size, size, b, a, t);
    if BelowThreshold(size, b, t) {
      TickGrows(size, b, t, step);
      var grown := Grow(size, step);
      BelowMonotone(size, grown, a, a, t);
      BelowMonotone(grown, grown, b, a, t);
      Monotone(size, grown, step);
      if BelowThreshold(size, a, t) { TickGrows(size, a, t, step); }
      if BelowThreshold(grown, a, t) { TickGrows(grown, a, t, step); }
      if BelowThreshold(grown, b, t) { TickGrows(grown, b, t, step); }
    }
  }

  /** A percent extend of at least a byte adds at least half of the exact percentage. */
  lemma HalfGrowth(s: nat, step: nat)
    requires s * step >= 100
    ensures 200 * Grow(s, step) >= s * (200 + step)
  {
  }

  lemma {:induction false} GeometricProgress(size: nat, a: nat, t: nat, step: nat, k: nat)
    requires Parameters(a, t, step) && size * step >= 100
    requires BelowThreshold(SizeAfter(size, a, t, step, k), a, t)
    ensures Pow(200, k) * SizeAfter(size, a, t, step, k) >= size * Pow(200 + step, k)
  {
    if k > 0 {
      var s := SizeAfter(size, a, t, step, k - 1);
      GeometricProgress(size, a, t, step, k - 1);
      LinearProgress(size, a, t, step, k - 1);
      Monotone(size, s, step);
      TickGrows(s, a, t, step);
      HalfGrowth(s, step);
      GeometricStep(Pow(200, k - 1), Pow(200 + step, k - 1), s, Grow(s, step), 200 + step, size);
    }
  }

  lemma GeometricStep(a: nat, b: nat, s: nat, g: nat, q: nat, size: nat)
    requires 200 * g >= s * q && a * s >= size * b
    ensures (200 * a) * g >= size * (q * b)
  {
    MulLe(a, s * q, 200 * g);
    Monotone(size * b, a * s, q);
    Assoc(a, s, q);
    Assoc(size, q, b);
    assert (200 * a) * g == a * (200 * g);
    assert (size * b) * q == size * (q * b);
  }

  lemma {:induction false} PowPositive(b: nat, k: nat)
    requires b > 0
    ensures Pow(b, k) > 0
  {
    if k > 0 {
      PowPositive(b, k - 1);
      assert b * Pow(b, k - 1) > 0;
    }
  }

  /** The number of ticks is logarithmic in the missing factor: k ticks suffice as
      soon as (1 + step/200)^k reaches target/size. */
  lemma ConvergesGeometrically(size: nat, a: nat, t: nat, step: nat, k: nat)
    requires Parameters(a, t, step) && size * step >= 100
    requires size * Pow(200 + step, k) >= Pow(200, k) * Target(a, t)
    ensures !BelowThreshold(SizeAfter(size, a, t, step, k), a, t)
  {
    var s := SizeAfter(size, a, t, step, k);
    if BelowThreshold(s, a, t) {
      GeometricProgress(size, a, t, step, k);
      LinearProgress(size, a, t, step, k);
      TargetIsThreshold(s, a, t);
      PowPositive(200, k);
      StrictMul(Pow(200, k), s, Target(a, t));
      assert false;
    }
  }

  lemma StrictMul(c: nat, a: nat, b: nat)
    requires c > 0 && a < b
    ensures c * a < c * b
  {
  }
}
