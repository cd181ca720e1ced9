/** The sample pool that fits the scan interval (IntervalFitting.h), over reals. `data_pool` is the
    list of intervals in order of arrival, `order_pool` the map from an interval to its sample, held
    in ascending order as std::map holds it. */
module IntervalFitting {
  import opened IdleStream

  datatype Sample = Sample(x: real, y: nat)

  const FAIL_DEFAULT := 0.01

  predicate Ascending(order: seq<Sample>) {
    forall i, j :: 0 <= i < j < |order| ==> order[i].x < order[j].x
  }

  predicate NoDuplicates(pool: seq<real>) {
    forall i, j :: 0 <= i < j < |pool| ==> pool[i] != pool[j]
  }

  predicate HasKey(order: seq<Sample>, x: real) {
    exists t :: t in order && t.x == x
  }

  /** The list has no duplicates, and its elements are exactly the map's keys. */
  predicate PoolValid(max: nat, pool: seq<real>, order: seq<Sample>) {
    && |pool| <= max && NoDuplicates(pool) && Ascending(order)
    && (forall t :: t in order ==> t.x in pool)
    && (forall x :: x in pool ==> HasKey(order, x))
  }

  /** std::map's insertion or assignment, and its removal by key. */
  function Put(order: seq<Sample>, s: Sample): seq<Sample> {
    if order == [] || s.x < order[0].x then [s] + order
    else if s.x == order[0].x then [s] + order[1..]
    else [order[0]] + Put(order[1..], s)
  }

  function Erase(order: seq<Sample>, x: real): seq<Sample> {
    if order == [] then [] else if order[0].x == x then order[1..] else [order[0]] + Erase(order[1..], x)
  }

  /** std::find and list::erase: the first x is taken out. */
  function Without(pool: seq<real>, x: real): seq<real> {
    if pool == [] then [] else if pool[0] == x then pool[1..] else [pool[0]] + Without(pool[1..], x)
  }

  lemma {:induction false} PutContents(order: seq<Sample>, s: Sample, t: Sample)
    requires Ascending(order)
    ensures t in Put(order, s) <==> t == s || (t in order && t.x != s.x)
  {
    if order == [] || s.x < order[0].x {
    } else if s.x == order[0].x {
      assert t in order <==> t == order[0] || t in order[1..];
    } else {
      PutContents(order[1..], s, t);
      assert t in order <==> t == order[0] || t in order[1..];
    }
  }

  lemma {:induction false} PutAscending(order: seq<Sample>, s: Sample)
    requires Ascending(order)
    ensures Ascending(Put(order, s))
  {
    if order != [] && s.x > order[0].x {
      PutAscending(order[1..], s);
      forall t | t in Put(order[1..], s) ensures order[0].x < t.x {
        PutContents(order[1..], s, t);
      }
    }
  }

  lemma {:induction false} EraseContents(order: seq<Sample>, x: real, t: Sample)
    requires Ascending(order)
    ensures t in Erase(order, x) <==> t in order && t.x != x
  {
    if order != [] {
      assert t in order <==> t == order[0] || t in order[1..];
      if order[0].x != x {
        EraseContents(order[1..], x, t);
      }
    }
  }

  lemma {:induction false} EraseAscending(order: seq<Sample>, x: real)
    requires Ascending(order)
    ensures Ascending(Erase(order, x))
  {
    if order != [] && order[0].x != x {
      EraseAscending(order[1..], x);
      forall t | t in Erase(order[1..], x) ensures order[0].x < t.x {
        EraseContents(order[1..], x, t);
      }
    }
  }

  lemma {:induction false} WithoutContents(pool: seq<real>, x: real, z: real)
    requires NoDuplicates(pool)
    ensures z in Without(pool, x) <==> z in pool && z != x
  {
    if pool != [] {
      assert z in pool <==> z == pool[0] || z in pool[1..];
      if pool[0] != x {
        WithoutContents(pool[1..], x, z);
      }
    }
  }

  lemma {:induction false} WithoutUnique(pool: seq<real>, x: real)
    requires NoDuplicates(pool)
    ensures NoDuplicates(Without(pool, x)) && |Without(pool, x)| <= |pool|
    ensures x !in pool ==> Without(pool, x) == pool
  {
    if pool != [] && pool[0] != x {
      WithoutUnique(pool[1..], x);
      WithoutContents(pool[1..], x, pool[0]);
    }
  }

  /** What add_pair keeps of the pool: not the oldest sample when the pool is full, and not an older
      sample of the same interval. */
  function Kept(max: nat, pool: seq<real>, x: real): seq<real> {
    Without(if |pool| >= max && pool != [] then pool[1..] else pool, x)
  }

  lemma {:induction false} WithoutAt(pool: seq<real>, x: real, i: nat)
    requires NoDuplicates(pool) && i < |pool| && pool[i] == x
    ensures Without(pool, x) == pool[..i] + pool[i + 1..]
  {
    if i > 0 {
      assert pool[0] != x;
      WithoutAt(pool[1..], x, i - 1);
      assert pool[..i] == [pool[0]] + pool[1..][..i - 1] && pool[1..][i..] == pool[i + 1..];
    }
  }

  /** A new interval pushes out the oldest one if the pool is full; one that is there already leaves its
      place, and if that was not the first of a full pool the oldest one goes too. */
  lemma KeptExactly(max: nat, pool: seq<real>, x: real, i: nat)
    requires NoDuplicates(pool) && pool != []
    ensures x !in pool ==> Kept(max, pool, x) == if |pool| >= max then pool[1..] else pool
    ensures i < |pool| < max && pool[i] == x ==> Kept(max, pool, x) == pool[..i] + pool[i + 1..]
    ensures i < |pool| && |pool| >= max && pool[i] == x ==> Kept(max, pool, x) == if i == 0 then pool[1..] else pool[1..i] + pool[i + 1..]
  {
    var rest := if |pool| >= max then pool[1..] else pool;
    WithoutUnique(rest, x);
    if i < |pool| && pool[i] == x {
      if |pool| < max {
        WithoutAt(pool, x, i);
      } else if i > 0 {
        WithoutAt(rest, x, i - 1);
        assert rest[..i - 1] == pool[1..i] && rest[i..] == pool[i + 1..];
      }
    }
  }

  /** The map has one sample an interval. */
  lemma KeyUnique(order: seq<Sample>, s: Sample, t: Sample)
    requires Ascending(order) && s in order && t in order && s.x == t.x
    ensures s == t
  {
    var i :| 0 <= i < |order| && order[i] == s;
    var j :| 0 <= j < |order| && order[j] == t;
  }

  lemma EraseKeeps(max: nat, pool: seq<real>, order: seq<Sample>)
    requires PoolValid(max, pool, order) && pool != []
    ensures PoolValid(max, pool[1..], Erase(order, pool[0]))
  {
    EraseAscending(order, pool[0]);
    forall t | t in Erase(order, pool[0]) ensures t.x in pool[1..] {
      EraseContents(order, pool[0], t);
    }
    forall x | x in pool[1..] ensures HasKey(Erase(order, pool[0]), x) {
      assert HasKey(order, x);
      var t :| t in order && t.x == x;
      EraseContents(order, pool[0], t);
    }
  }

  lemma PutKeeps(max: nat, pool: seq<real>, order: seq<Sample>, s: Sample)
    requires PoolValid(max, pool, order) && |Without(pool, s.x)| < max
    ensures PoolValid(max, Without(pool, s.x) + [s.x], Put(order, s))
  {
    var pool', order' := Without(pool, s.x) + [s.x], Put(order, s);
    PutAscending(order, s);
    WithoutUnique(pool, s.x);
    WithoutContents(pool, s.x, s.x);
    forall t | t in order' ensures t.x in pool' {
      PutContents(order, s, t);
      WithoutContents(pool, s.x, t.x);
    }
    forall x | x in pool' ensures HasKey(order', x) {
      WithoutContents(pool, s.x, x);
      PutContents(order, s, s);
      if x != s.x {
        assert HasKey(order, x);
        var t :| t in order && t.x == x;
        PutContents(order, s, t);
      }
    }
  }

  lemma {:induction false} WithoutShorter(pool: seq<real>, x: real)
    requires x in pool
    ensures |Without(pool, x)| == |pool| - 1
  {
    if pool[0] != x {
      WithoutShorter(pool[1..], x);
    }
  }

  lemma AddedContents(max: nat, pool: seq<real>, order: seq<Sample>, s: Sample, t: Sample)
    requires PoolValid(max, pool, order) && max > 0
    ensures var dropped := |pool| >= max;
            var order' := if dropped then Erase(order, pool[0]) else order;
            Ascending(order') && (t in Put(order', s) <==> t == s || (t in order && t.x in Kept(max, pool, s.x)))
  {
    var pool', order' := if |pool| >= max then pool[1..] else pool, if |pool| >= max then Erase(order, pool[0]) else order;
    if |pool| >= max {
      EraseAscending(order, pool[0]);
      EraseContents(order, pool[0], t);
      assert t.x in pool <==> t.x == pool[0] || t.x in pool[1..];
    }
    PutContents(order', s, t);
    WithoutContents(pool', s.x, t.x);
  }

  // ----- Interpolation -----

  /** The samples nearest the target from each side, the later one where two are equally near. */
  predicate NearestAbove(order: seq<Sample>, target: nat, s: Sample) {
    && s in order && s.y >= target
    && forall t :: t in order && t.y >= target ==> s.y < t.y || (s.y == t.y && t.x <= s.x)
  }

  predicate NearestBelow(order: seq<Sample>, target: nat, s: Sample) {
    && s in order && s.y < target
    && forall t :: t in order && t.y < target ==> t.y < s.y || (s.y == t.y && t.x <= s.x)
  }

  predicate NoneAbove(order: seq<Sample>, target: nat) {
    forall t :: t in order ==> t.y < target
  }

  predicate NoneBelow(order: seq<Sample>, target: nat) {
    forall t :: t in order ==> t.y >= target
  }

  /** The closest samples so far: the loop of estimate_x after the samples in `seen`. */
  predicate Nearest(seen: seq<Sample>, target: nat, above: Option<Sample>, below: Option<Sample>) {
    && (if above.Some? then NearestAbove(seen, target, above.value) else NoneAbove(seen, target))
    && (if below.Some? then NearestBelow(seen, target, below.value) else NoneBelow(seen, target))
  }

  /** r is where the line through the two samples meets the target. */
  predicate OnLine(a: Sample, b: Sample, target: nat, r: real) {
    (r - a.x) * (b.y as real - a.y as real) == (target as real - a.y as real) * (b.x - a.x)
  }

  predicate Between(a: real, b: real, r: real) {
    a <= r < b || b < r <= a
  }

  lemma Quotient(n: real, d: real)
    requires d != 0.0
    ensures (n / d) * d == n
  {
  }

  lemma MulPos(a: real, b: real)
    requires a > 0.0 && b > 0.0
    ensures a * b > 0.0
  {
  }

  /** With slope fa and intercept fb the line y = fa * x + fb goes through (x0, y0). */
  lemma LineThrough(x0: real, y0: real, x1: real, y1: real, fa: real, fb: real)
    requires x0 != x1
    requires fa == (y1 - y0) / (x1 - x0) && fb == (x0 * y1 - x1 * y0) / (x0 - x1)
    ensures fa * x0 + fb == y0 && fa * (x1 - x0) == y1 - y0
  {
    var d := x1 - x0;
    Quotient(y1 - y0, d);
    Quotient(x0 * y1 - x1 * y0, x0 - x1);
    assert (fa * x0 + fb) * d == (y1 - y0) * x0 - (x0 * y1 - x1 * y0) by {
      assert (fa * x0) * d == (fa * d) * x0;
      assert fb * d == -(fb * (x0 - x1));
    }
    assert (y1 - y0) * x0 - (x0 * y1 - x1 * y0) == y0 * d;
    SameFactor(fa * x0 + fb, y0, d);
  }

  lemma SameFactor(a: real, b: real, d: real)
    requires d != 0.0 && a * d == b * d
    ensures a == b
  {
    assert (a * d) / d == a && (b * d) / d == b;
  }

  /** The estimate over the two nearest samples lies on their line and between their intervals: it
      is never the interval of the sample below the target. */
  lemma EstimateOnLine(a: Sample, b: Sample, target: nat, fa: real, fb: real, r: real)
    requires a.y >= target > b.y && a.x != b.x
    requires fa == (b.y as real - a.y as real) / (b.x - a.x)
    requires fb == (a.x * b.y as real - b.x * a.y as real) / (a.x - b.x)
    requires fa != 0.0 && r == (target as real - fb) / fa
    ensures OnLine(a, b, target, r) && Between(a.x, b.x, r)
  {
    var dx, dy, dt := b.x - a.x, b.y as real - a.y as real, target as real - a.y as real;
    LineThrough(a.x, a.y as real, b.x, b.y as real, fa, fb);
    Quotient(target as real - fb, fa);
    assert r * fa - a.x * fa == dt;
    assert (r - a.x) * dy == dt * dx by {
      assert (r - a.x) * (fa * dx) == ((r - a.x) * fa) * dx;
    }
    InBetween(r - a.x, dx, dt, dy);
  }

  lemma InBetween(e: real, dx: real, dt: real, dy: real)
    requires dx != 0.0 && dy < dt <= 0.0 && e * dy == dt * dx
    ensures 0.0 <= e < dx || dx < e <= 0.0
  {
    assert (dx - e) * dy == (dy - dt) * dx;
    if dx > 0.0 {
      if e < 0.0 {
        MulPos(-e, -dy);
        NotPos(dt, dx);
        assert false;
      }
      if e >= dx {
        MulPos(dt - dy, dx);
        NotPos(dx - e, -dy);
        assert false;
      }
    } else {
      if e > 0.0 {
        MulPos(e, -dy);
        NotPos(dt, -dx);
        assert false;
      }
      if e <= dx {
        MulPos(dt - dy, -dx);
        NotPos(e - dx, -dy);
        assert false;
      }
    }
  }

  lemma NotPos(a: real, b: real)
    requires a <= 0.0 && b >= 0.0
    ensures a * b <= 0.0
  {
  }

  /** A sample replaces the closest one on its side unless it is farther away. */
  lemma NearestStep(order: seq<Sample>, i: nat, target: nat, above: Option<Sample>, below: Option<Sample>)
    requires i < |order| && Ascending(order) && Nearest(order[..i], target, above, below)
    ensures var s := order[i];
            Nearest(order[..i + 1], target,
                    if s.y >= target && (above.None? || s.y <= above.value.y) then Some(s) else above,
                    if s.y < target && (below.None? || s.y >= below.value.y) then Some(s) else below)
  {
    assert order[..i + 1] == order[..i] + [order[i]];
    assert forall t :: t in order[..i] ==> t.x < order[i].x;
  }

  /** What is returned for the closest samples on each side. */
  predicate Estimates(above: Option<Sample>, below: Option<Sample>, target: nat, r: real) {
    if above.Some? && below.Some? then
      OnLine(above.value, below.value, target, r) && Between(above.value.x, below.value.x, r)
    else if above.Some? then r == PureLinerX(target, above.value.x, above.value.y)
    else if below.Some? then r == PureLinerX(target, below.value.x, below.value.y)
    else r == FAIL_DEFAULT
  }

  class IntervalFitting {
    /** TMaxSample. */
    const maxSample: nat
    var dataPool: seq<real>
    var orderPool: seq<Sample>
    var targetY: nat

    ghost predicate Valid()
      reads this
    {
      maxSample > 0 && PoolValid(maxSample, dataPool, orderPool)
    }

    constructor (maxSample: nat)
      requires maxSample > 0
      ensures Valid() && this.maxSample == maxSample && dataPool == []
    {
      this.maxSample := maxSample;
      dataPool, orderPool, targetY := [], [], 0;
    }

    method AddPair(x: real, y: nat)
      requires Valid()
      modifies this`dataPool, this`orderPool
      ensures Valid()
      ensures dataPool == Kept(maxSample, old(dataPool), x) + [x]
      ensures forall t :: t in orderPool <==>
                t == Sample(x, y) || (t in old(orderPool) && t.x in Kept(maxSample, old(dataPool), x))
    {
      if |dataPool| >= maxSample {
        EraseKeeps(maxSample, dataPool, orderPool);
        orderPool := Erase(orderPool, dataPool[0]);
        dataPool := dataPool[1..];
      }
      ghost var pool, order := dataPool, orderPool;
      forall t ensures t in Put(order, Sample(x, y)) <==>
                         t == Sample(x, y) || (t in old(orderPool) && t.x in Kept(maxSample, old(dataPool), x)) {
        AddedContents(maxSample, old(dataPool), old(orderPool), Sample(x, y), t);
      }
      WithoutUnique(pool, x);
      if HasKey(orderPool, x) {
        WithoutShorter(pool, x);
        dataPool := Without(dataPool, x);
      }
      PutKeeps(maxSample, pool, order, Sample(x, y));
      dataPool := dataPool + [x];
      orderPool := Put(orderPool, Sample(x, y));
    }

    /** The interval at which the target is expected: where the samples bracket it, a point of the
        line through the nearest one on each side, between their two intervals; otherwise the
        proportional estimate from the nearest sample there is. */
    method EstimateX() returns (r: real)
      requires Valid()
      ensures exists above, below :: Nearest(orderPool, targetY, above, below) && Estimates(above, below, targetY, r)
    {
      var above, below, last := FindNearest();
      if above.Some? && below.Some? {
        r := Interpolate(orderPool, targetY, above.value, below.value);
      } else if last.Some? {
        r := PureLinerX(targetY, last.value.x, last.value.y);
      } else {
        r := FAIL_DEFAULT;
      }
      assert Estimates(above, below, targetY, r);
    }

    /** The loop of estimate_x. */
    method FindNearest() returns (above: Option<Sample>, below: Option<Sample>, last: Option<Sample>)
      requires Valid()
      ensures Nearest(orderPool, targetY, above, below)
      ensures last == None ==> above == None && below == None
      ensures last == above || last == below
    {
      above, below, last := None, None, None;
      for i := 0 to |orderPool|
        invariant Nearest(orderPool[..i], targetY, above, below)
        invariant last == None ==> above == None && below == None
        invariant last == above || last == below
      {
        var s := orderPool[i];
        NearestStep(orderPool, i, targetY, above, below);
        if s.y >= targetY {
          if above.None? || s.y <= above.value.y {
            above, last := Some(s), Some(s);
          }
        } else if below.None? || s.y >= below.value.y {
          below, last := Some(s), Some(s);
        }
      }
      assert orderPool[..|orderPool|] == orderPool;
    }
  }

  method Interpolate(order: seq<Sample>, target: nat, a: Sample, b: Sample) returns (r: real)
    requires Ascending(order) && a in order && b in order && a.y >= target > b.y
    ensures OnLine(a, b, target, r) && Between(a.x, b.x, r)
  {
    if a.x == b.x {
      KeyUnique(order, a, b);
    }
    var factorA := (b.y as real - a.y as real) / (b.x - a.x);
    var factorB := (a.x * b.y as real - b.x * a.y as real) / (a.x - b.x);
    SlopeNotZero(a, b, factorA);
    r := (target as real - factorB) / factorA;
    EstimateOnLine(a, b, target, factorA, factorB, r);
  }

  lemma SlopeNotZero(a: Sample, b: Sample, fa: real)
    requires a.y > b.y && a.x != b.x && fa == (b.y as real - a.y as real) / (b.x - a.x)
    ensures fa != 0.0
  {
    Quotient(b.y as real - a.y as real, b.x - a.x);
  }

  /** The samples the estimate uses are determined by the pool. */
  lemma NearestUnique(order: seq<Sample>, target: nat, above: Option<Sample>, below: Option<Sample>,
                      above': Option<Sample>, below': Option<Sample>)
    requires Ascending(order)
    requires Nearest(order, target, above, below) && Nearest(order, target, above', below')
    ensures above == above' && below == below'
  {
    if above.Some? && above'.Some? {
      KeyUnique(order, above.value, above'.value);
    }
    if below.Some? && below'.Some? {
      KeyUnique(order, below.value, below'.value);
    }
  }

  /** The factor of the fallback: in proportion to the target, but at least a fifth and at most ten. */
  function Ratio(target: nat, y: nat): (q: real)
    ensures 0.2 <= q <= 10.0
  {
    var q := target as real / (y as real + 1.0);
    if q > 10.0 then 10.0 else if q < 0.2 then 0.2 else q
  }

  function Clamped(x: real): (r: real)
    ensures 0.000001 <= r <= 100.0
  {
    if x < 0.000001 then 0.000001 else if x > 100.0 then 100.0 else x
  }

  function PureLinerX(target: nat, oldX: real, newY: nat): (r: real)
    ensures 0.000001 <= r <= 100.0
  {
    Clamped(oldX * Ratio(target, newY))
  }

  /** Between its limits the factor is the target over the last value plus one. */
  lemma RatioExactly(target: nat, y: nat)
    ensures var t, n, q := target as real, y as real + 1.0, Ratio(target, y);
            && (t > 10.0 * n ==> q == 10.0)
            && (5.0 * t < n ==> q == 0.2)
            && (n <= 5.0 * t <= 50.0 * n ==> q * n == t)
  {
    var q, n := target as real / (y as real + 1.0), y as real + 1.0;
    Quotient(target as real, n);
    RatioOrder(target as real, n, q);
  }

  lemma RatioOrder(t: real, n: real, q: real)
    requires n > 0.0 && q * n == t
    ensures (q > 10.0 <==> t > 10.0 * n) && (q < 0.2 <==> 5.0 * t < n)
  {
    assert (q - 10.0) * n == t - 10.0 * n && (0.2 - q) * n == 0.2 * n - t;
    if q > 10.0 { MulPos(q - 10.0, n); } else { NotPos(q - 10.0, n); }
    if q < 0.2 { MulPos(0.2 - q, n); } else { NotPos(0.2 - q, n); }
  }

  /** Inside all limits the fallback scales the interval so that interval and value keep their
      proportion: the new interval is to the old one as the target to the last value plus one. */
  lemma PureLinerExactly(target: nat, oldX: real, newY: nat)
    requires newY as real + 1.0 <= 5.0 * target as real <= 50.0 * (newY as real + 1.0)
    requires 0.000001 * (newY as real + 1.0) <= oldX * target as real <= 100.0 * (newY as real + 1.0)
    ensures PureLinerX(target, oldX, newY) * (newY as real + 1.0) == oldX * target as real
  {
    RatioExactly(target, newY);
    Scaled(oldX, Ratio(target, newY), newY as real + 1.0, target as real, PureLinerX(target, oldX, newY));
  }

  lemma Scaled(x: real, q: real, n: real, t: real, r: real)
    requires n > 0.0 && q * n == t && 0.000001 * n <= x * t <= 100.0 * n && r == Clamped(x * q)
    ensures r * n == x * t
  {
    var y := x * q;
    Regroup(x, q, n, y, t);
    InLimits(y, n);
  }

  lemma Regroup(x: real, q: real, n: real, y: real, t: real)
    requires y == x * q && q * n == t
    ensures y * n == x * t
  {
    assert (x * q) * n == x * (q * n);
  }

  lemma InLimits(x: real, n: real)
    requires n > 0.0 && 0.000001 * n <= x * n <= 100.0 * n
    ensures 0.000001 <= x <= 100.0
  {
    var low, high := 0.000001 - x, x - 100.0;
    assert low * n == 0.000001 * n - x * n && high * n == x * n - 100.0 * n;
    if low > 0.0 { MulPos(low, n); }
    if high > 0.0 { MulPos(high, n); }
  }

  /** The fallback changes an interval by at most these factors, inside its limits. */
  lemma FallbackBounds(target: nat, oldX: real, newY: nat)
    requires oldX > 0.0
    ensures Clamped(oldX * 0.2) <= PureLinerX(target, oldX, newY) <= Clamped(oldX * 10.0)
  {
    var q := Ratio(target, newY);
    NotPos(0.2 - q, oldX);
    NotPos(q - 10.0, oldX);
    assert (0.2 - q) * oldX == oldX * 0.2 - oldX * q;
    assert (q - 10.0) * oldX == oldX * q - oldX * 10.0;
  }
}
