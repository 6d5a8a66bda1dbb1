/**
  The arithmetic of a hierarchical timing wheel.

  Wheel `i` has B buckets and shifts once every B^i ticks.  An entry whose delay does not fit in
  wheel 0 is wrapped once per wheel it is lifted over; a wrapper knows the bucket of the next lower
  wheel its content must be dropped into when the wrapper is destroyed.  `Fire` reads off the tick at
  which a nest of wrappers finally releases its entry, and `Alarms` turns a whole set of wheels into
  the plain set of (entry, tick) pairs it stands for.
*/
module TimingWheel {

  datatype Node<P> = Entry(id: nat, payload: P) | Wrap(level: nat, slot: nat, inner: Node<P>)

  datatype Alarm<P> = Alarm(id: nat, payload: P, due: nat)

  type Bucket<!P(==)> = set<Node<P>>
  type Wheel<!P(==)> = seq<Bucket<P>>

  function Pow(b: nat, n: nat): (p: nat)
    ensures b > 0 ==> p > 0
  {
    if n == 0 then 1 else b * Pow(b, n - 1)
  }

  function Core<P>(n: Node<P>): (e: Node<P>)
    ensures e.Entry?
  {
    match n
    case Entry(_, _) => n
    case Wrap(_, _, inner) => Core(inner)
  }

  // A node stored in wheel i is wrapped exactly i times, each wrapper aiming at the next lower wheel.
  predicate Fits<P>(n: Node<P>, i: nat, b: nat) {
    match n
    case Entry(_, _) => i == 0
    case Wrap(level, slot, inner) => i > 0 && level == i - 1 && slot < b && Fits(inner, i - 1, b)
  }

  // The tick at which the entry inside n is released, when n leaves wheel i at that wheel's c-th shift.
  ghost function Fire<P>(n: Node<P>, i: nat, c: nat, b: nat): nat
    requires Fits(n, i, b)
  {
    match n
    case Entry(_, _) => c
    case Wrap(_, slot, inner) => Fire(inner, i - 1, c * b + slot + 1, b)
  }

  lemma MulMono(x: int, y: int, k: nat)
    requires x <= y
    ensures x * k <= y * k
  {
    assert (y - x) * k >= 0;
    assert (y - x) * k == y * k - x * k;
  }

  lemma Regroup(u: int, v: int, r: int, b: int, p: int)
    ensures (u * b + v) * p + r == u * (b * p) + (v * p + r)
  {
    assert (u * b + v) * p == (u * b) * p + v * p;
    assert (u * b) * p == u * (b * p);
  }

  lemma {:induction false} FireShift<P>(n: Node<P>, i: nat, c: nat, k: nat, b: nat)
    requires Fits(n, i, b)
    ensures Fire(n, i, c + k, b) == Fire(n, i, c, b) + k * Pow(b, i)
  {
    match n
    case Entry(_, _) =>
    case Wrap(_, slot, inner) =>
      assert (c + k) * b == c * b + k * b;
      FireShift(inner, i - 1, c * b + slot + 1, k * b, b);
      Regroup(k, 0, 0, b, Pow(b, i - 1));
  }

  // Nothing is released before its wheel shifts, and a wrapped entry strictly later.
  lemma {:induction false} FireLowerBound<P>(n: Node<P>, i: nat, c: nat, b: nat)
    requires Fits(n, i, b)
    ensures Fire(n, i, c, b) >= c * Pow(b, i)
    ensures i > 0 && b > 0 ==> Fire(n, i, c, b) > c * Pow(b, i)
  {
    match n
    case Entry(_, _) =>
    case Wrap(_, slot, inner) =>
      var p := Pow(b, i - 1);
      FireLowerBound(inner, i - 1, c * b + slot + 1, b);
      Regroup(c, slot + 1, 0, b, p);
      MulMono(1, slot + 1, p);
  }

  // q and r are the quotient and the remainder of t by d.
  lemma DivUnique(t: nat, d: nat, q: nat, r: nat)
    requires d > 0 && t == q * d + r && r < d
    ensures t / d == q && t % d == r
  {
    var q' := t / d;
    if q + 1 <= q' { MulMono(q + 1, q', d); }
    if q' + 1 <= q { MulMono(q' + 1, q, d); }
  }

  // x / b < m  iff  x < m * b
  lemma DivBelow(x: nat, m: nat, b: nat)
    requires b > 0
    ensures x / b < m <==> x < m * b
  {
    var q := x / b;
    if q < m { MulMono(q + 1, m, b); } else { MulMono(m, q, b); }
  }

  lemma NestedDiv(t: nat, p: nat, b: nat)
    requires p > 0 && b > 0
    ensures b * p > 0
    ensures t / p / b == t / (b * p)
  {
    var q, r := t / p, t % p;
    var u, v := q / b, q % b;
    NestedDivFrom(t, p, b, q, r, u, v);
  }

  lemma NestedDivFrom(t: nat, p: nat, b: nat, q: nat, r: nat, u: nat, v: nat)
    requires p > 0 && b > 0
    requires t == q * p + r && r < p && q == u * b + v && v < b
    ensures b * p > 0
    ensures u == t / (b * p)
  {
    Regroup(u, v, r, b, p);
    MulMono(v + 1, b, p);
    MulMono(1, b, p);
    assert (v + 1) * p == v * p + p;
    DivUnique(t, b * p, u, v * p + r);
  }

  // A wheel's shift count moves on exactly at the ticks its period divides.
  lemma CountStep(t: nat, p: nat)
    requires p > 0 && t > 0
    ensures t / p == (t - 1) / p + (if t % p == 0 then 1 else 0)
  {
    var q, r := (t - 1) / p, (t - 1) % p;
    assert t - 1 == q * p + r;
    if r == p - 1 {
      assert (q + 1) * p == q * p + p;
      DivUnique(t, p, q + 1, 0);
    } else {
      DivUnique(t, p, q, r + 1);
    }
  }

  lemma CountBelow(t: nat, p: nat, b: nat)
    requires p > 0 && b > 0 && b * p > 0 && t % (b * p) == 0
    ensures t / p == t / (b * p) * b
  {
    var c := t / (b * p);
    assert t == c * (b * p);
    Regroup(c, 0, 0, b, p);
    DivUnique(t, p, c * b, 0);
  }

  // insertEntry's arithmetic: with d shifts of a wheel to wait in phase t, the bucket of that wheel to
  // drop the content into later, the shifts of the next wheel to wait, and the next wheel's phase.
  function NextSlot(d: nat, t: nat, b: nat): nat
    requires b > 0 && d > 0
  {
    (d + t % b - 1) % b
  }

  function NextDelay(d: nat, t: nat, b: nat): nat
    requires b > 0 && d > 0
  {
    (d + t % b - 1) / b
  }

  function NextPhase(t: nat, b: nat): nat
    requires b > 0
  {
    t / b
  }

  // One lifting step of insertEntry: the wrapper leaves wheel i+1 exactly when the content was due.
  lemma LiftKeepsFire<P>(n: Node<P>, i: nat, d: nat, t: nat, b: nat)
    requires b > 0 && d > b && Fits(n, i, b)
    ensures NextDelay(d, t, b) >= 1
    ensures var w := Wrap(i, NextSlot(d, t, b), n);
            && Fits(w, i + 1, b)
            && Fire(w, i + 1, NextPhase(t, b) + NextDelay(d, t, b), b) == Fire(n, i, t + d, b)
  {
    NextDelayPositive(d, t, b);
    NextDelaySplits(d, t, b);
  }

  lemma NextDelayPositive(d: nat, t: nat, b: nat)
    requires b > 0 && d > b
    ensures NextDelay(d, t, b) >= 1
  {
    DivBelow(d + t % b - 1, 1, b);
  }

  lemma NextDelaySplits(d: nat, t: nat, b: nat)
    requires b > 0 && d > 0
    ensures (NextPhase(t, b) + NextDelay(d, t, b)) * b + NextSlot(d, t, b) + 1 == t + d
  {
    var x := d + t % b - 1;
    assert x == x / b * b + x % b;
    assert t == t / b * b + t % b;
    assert (t / b + x / b) * b == t / b * b + x / b * b;
  }

  // The delay left to the next wheel is at most r in every phase iff d <= r * b + 1, and in the last
  // phase before a shift the bound is sharp.
  lemma NextDelayWithin(d: nat, t: nat, b: nat, r: nat)
    requires b > 0 && 0 < d <= r * b + 1
    ensures NextDelay(d, t, b) <= r
  {
    assert (r + 1) * b == r * b + b;
    DivBelow(d + t % b - 1, r + 1, b);
  }

  lemma NextDelayBeyond(d: nat, t: nat, b: nat, r: nat)
    requires b > 0 && d > r * b + 1 && t % b == b - 1
    ensures NextDelay(d, t, b) > r
  {
    assert (r + 1) * b == r * b + b;
    DivBelow(d + t % b - 1, r + 1, b);
  }

  lemma NextDelayTimes(d: nat, t: nat, b: nat)
    requires b > 0 && d > 0
    ensures NextDelay(d, t, b) * b <= d + b - 2
  {
    DivBelow(d + t % b - 1, NextDelay(d, t, b), b);
  }

  // How far the delay overshoots the top wheel; 0 when it fits (k wheels are left to try).
  function Excess(d: nat, t: nat, k: nat, b: nat): nat
    requires b > 0 && d > 0
    decreases k
  {
    if d <= b || k == 0 then 0
    else if k == 1 then d - b
    else
      NextDelayPositive(d, t, b);
      Excess(NextDelay(d, t, b), NextPhase(t, b), k - 1, b)
  }

  lemma ScaleStrict(e: nat, p: nat, y: int, b: nat)
    requires e * p < y
    ensures e * (b * p) <= y * b - b
  {
    assert e * (b * p) == (e * p) * b;
    MulMono(e * p, y - 1, b);
    assert (y - 1) * b == y * b - b;
  }

  // Even a delay that overshoots by any amount is never released at or before the current tick.
  lemma {:induction false} ExcessBelowDelay(d: nat, t: nat, k: nat, b: nat)
    requires b > 0 && d > 0 && k > 0
    ensures Excess(d, t, k, b) * Pow(b, k - 1) < d
    decreases k
  {
    if d > b && k > 1 {
      NextDelayPositive(d, t, b);
      var y, t' := NextDelay(d, t, b), NextPhase(t, b);
      ExcessBelowDelay(y, t', k - 1, b);
      NextDelayTimes(d, t, b);
      ScaleStrict(Excess(y, t', k - 1, b), Pow(b, k - 2), y, b);
    }
  }

  // The tick at which an entry inserted at tick t with internal delay d is released by w wheels.
  function FireTick(t: nat, d: nat, w: nat, b: nat): (due: nat)
    requires w > 0 && b > 0 && d > 0
    ensures t < due <= t + d
  {
    ExcessBelowDelay(d, t, w, b);
    t + d - Excess(d, t, w, b) * Pow(b, w - 1)
  }

  // The largest delay that k wheels can represent in every phase: b^k + b^(k-2) + ... + b + 1.
  function Reach(k: nat, b: nat): nat
    requires k > 0
  {
    if k == 1 then b else Reach(k - 1, b) * b + 1
  }

  // The phase in which every lower wheel stands just before a shift.
  function WorstPhase(k: nat, b: nat): nat
    requires b > 0
  {
    if k == 0 then 0 else WorstPhase(k - 1, b) * b + (b - 1)
  }

  lemma {:induction false} NoExcessWithinReach(d: nat, t: nat, k: nat, b: nat)
    requires b > 0 && d > 0 && k > 0
    requires d <= Reach(k, b)
    ensures Excess(d, t, k, b) == 0
    decreases k
  {
    if d > b && k > 1 {
      NextDelayPositive(d, t, b);
      NextDelayWithin(d, t, b, Reach(k - 1, b));
      NoExcessWithinReach(NextDelay(d, t, b), NextPhase(t, b), k - 1, b);
    }
  }

  lemma {:induction false} ExcessBeyondReach(d: nat, k: nat, b: nat)
    requires b > 0 && k > 0
    requires d > Reach(k, b)
    ensures Excess(d, WorstPhase(k, b), k, b) > 0
    decreases k
  {
    if k > 1 {
      var t, r := WorstPhase(k, b), Reach(k - 1, b);
      DivUnique(t, b, WorstPhase(k - 1, b), b - 1);
      ReachAtLeastB(k - 1, b);
      MulMono(1, r, b);
      NextDelayPositive(d, t, b);
      NextDelayBeyond(d, t, b, r);
      assert NextPhase(t, b) == WorstPhase(k - 1, b);
      ExcessBeyondReach(NextDelay(d, t, b), k - 1, b);
    }
  }

  lemma {:induction false} ReachAtLeastB(k: nat, b: nat)
    requires b > 0 && k > 0
    ensures Reach(k, b) >= b
    decreases k
  {
    if k > 1 {
      ReachAtLeastB(k - 1, b);
      MulMono(1, Reach(k - 1, b), b);
    }
  }

  lemma {:induction false} PowWithinReach(k: nat, b: nat)
    requires b > 0 && k > 0
    ensures Pow(b, k) <= Reach(k, b)
    decreases k
  {
    if k == 1 {
      assert Pow(b, 1) == b * Pow(b, 0) == b;
    } else {
      PowWithinReach(k - 1, b);
      MulMono(Pow(b, k - 1), Reach(k - 1, b), b);
    }
  }

  // An entry fires on the requested tick in every phase of the wheels exactly when its delay is
  // within Reach; the documented range B^W always is.
  lemma ExactInEveryPhaseIff(d: nat, w: nat, b: nat)
    requires w > 0 && b > 0 && d > 0
    ensures (forall t: nat :: FireTick(t, d, w, b) == t + d) <==> d <= Reach(w, b)
    ensures Pow(b, w) <= Reach(w, b)
  {
    PowWithinReach(w, b);
    if d <= Reach(w, b) {
      forall t: nat ensures FireTick(t, d, w, b) == t + d { NoExcessWithinReach(d, t, w, b); }
    } else {
      var t := WorstPhase(w, b);
      ExcessBeyondReach(d, w, b);
      MulMono(1, Excess(d, t, w, b), Pow(b, w - 1));
      assert FireTick(t, d, w, b) != t + d;
    }
  }
}
