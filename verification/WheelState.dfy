/**
  A set of timing wheels as the plain set of alarms it stands for.

  `counts[i]` is how often wheel i has shifted so far, which is the tick counter divided by B^i once a
  tick is complete.  A node in bucket p of wheel i leaves that wheel at its shift counts[i] + p + 1.
*/
module WheelState {
  import opened TimingWheel

  ghost function AlarmOf<P>(n: Node<P>, i: nat, c: nat, b: nat): Alarm<P>
    requires Fits(n, i, b)
  {
    Alarm(Core(n).id, Core(n).payload, Fire(n, i, c, b))
  }

  // How often each wheel has shifted once tick `now` is complete.
  ghost function CountsAt(now: nat, w: nat, b: nat): (counts: seq<nat>)
    requires b > 0
    ensures |counts| == w
  {
    seq(w, i requires 0 <= i < w => now / Pow(b, i))
  }

  // The state of insertEntry's loop: `node` is the entry lifted over i wheels, with d shifts of wheel
  // i left to wait, t of them having happened already.
  ghost predicate Lifted<P>(now: nat, delay: nat, entry: Node<P>, w: nat, b: nat, i: nat, d: nat, t: nat,
                            node: Node<P>) {
    && b > 0 && d > 0 && i < w && delay > 0 && entry.Entry?
    && t == now / Pow(b, i)
    && Fits(node, i, b) && Core(node) == entry
    && Fire(node, i, t + d, b) == now + delay
    && Excess(d, t, w - i, b) == Excess(delay, now, w, b)
  }

  ghost function Goal<P>(now: nat, delay: nat, entry: Node<P>, w: nat, b: nat): Alarm<P>
    requires b > 0 && w > 0 && delay > 0 && entry.Entry?
  {
    Alarm(entry.id, entry.payload, FireTick(now, delay, w, b))
  }

  lemma LiftedStep<P>(now: nat, delay: nat, entry: Node<P>, w: nat, b: nat, i: nat, d: nat, t: nat, node: Node<P>)
    requires Lifted(now, delay, entry, w, b, i, d, t, node) && d > b && i < w - 1
    ensures Lifted(now, delay, entry, w, b, i + 1, NextDelay(d, t, b), NextPhase(t, b),
      Wrap(i, NextSlot(d, t, b), node))
  {
    LiftKeepsFire(node, i, d, t, b);
    NestedDiv(now, Pow(b, i), b);
  }

  // The bucket insertEntry picks, in wheel i or as a last resort at the end of the top wheel, makes
  // the entry leave the wheels at FireTick.
  lemma LiftedGoal<P>(now: nat, delay: nat, entry: Node<P>, w: nat, b: nat, i: nat, d: nat, t: nat, node: Node<P>)
    requires Lifted(now, delay, entry, w, b, i, d, t, node) && (d <= b || i == w - 1)
    ensures AlarmOf(node, i, t + (if d <= b then d else b), b) == Goal(now, delay, entry, w, b)
  {
    if d > b { FireShift(node, i, t + b, d - b, b); }
  }

  // Every node sits in a wheel it was wrapped for.
  ghost predicate Fitting<P(!new)>(ws: seq<Wheel<P>>, b: nat) {
    forall i: nat, p: nat, n :: i < |ws| && p < |ws[i]| && n in ws[i][p] ==> Fits(n, i, b)
  }

  ghost predicate BucketFits<P(!new)>(tmp: Bucket<P>, i: nat, b: nat) {
    forall n :: n in tmp ==> Fits(n, i, b)
  }

  // All the alarms that the wheels hold.
  ghost function Pending<P(!new)>(ws: seq<Wheel<P>>, counts: seq<nat>, b: nat): set<Alarm<P>>
    requires |counts| == |ws| && Fitting(ws, b)
  {
    set i: nat, p: nat, n | i < |ws| && p < |ws[i]| && n in ws[i][p] :: AlarmOf(n, i, counts[i] + p + 1, b)
  }

  // The alarms of a bucket that is leaving wheel i at its c-th shift.
  ghost function Leaving<P(!new)>(tmp: Bucket<P>, i: nat, c: nat, b: nat): set<Alarm<P>>
    requires BucketFits(tmp, i, b)
  {
    set n | n in tmp :: AlarmOf(n, i, c, b)
  }

  function Put<P>(ws: seq<Wheel<P>>, i: nat, p: nat, n: Node<P>): seq<Wheel<P>>
    requires i < |ws| && p < |ws[i]|
  {
    ws[i := ws[i][p := ws[i][p] + {n}]]
  }

  function Pop<P>(ws: seq<Wheel<P>>, i: nat): seq<Wheel<P>>
    requires i < |ws| && |ws[i]| > 0
  {
    ws[i := ws[i][1..]]
  }

  function PushEmpty<P>(ws: seq<Wheel<P>>, i: nat): seq<Wheel<P>>
    requires i < |ws|
  {
    ws[i := ws[i] + [{}]]
  }

  // The entries behind a set of alarms, and behind a bucket: who still holds a reference to what.
  ghost function Held<P>(alarms: set<Alarm<P>>): set<Node<P>> {
    set a | a in alarms :: Entry(a.id, a.payload)
  }

  ghost function Cores<P>(tmp: Bucket<P>): set<Node<P>> {
    set n | n in tmp :: Core(n)
  }

  // Is some copy of entry `id` left in the wheels?  (A weak reference to it can be locked then.)
  predicate Referenced<P>(ws: seq<Wheel<P>>, id: nat) {
    exists i: nat | i < |ws| :: exists p: nat | p < |ws[i]| :: exists n | n in ws[i][p] :: Core(n).id == id
  }

  ghost predicate Holds<P(!new)>(held: set<Node<P>>, id: nat) {
    exists e :: e in held && e.Entry? && e.id == id
  }

  lemma ReferencedIffHeld<P(!new)>(ws: seq<Wheel<P>>, counts: seq<nat>, b: nat, id: nat)
    requires |counts| == |ws| && Fitting(ws, b)
    ensures Referenced(ws, id) <==> Holds(Held(Pending(ws, counts, b)), id)
  {
    var alarms := Pending(ws, counts, b);
    if Referenced(ws, id) {
      var i: nat :| i < |ws| && exists p: nat | p < |ws[i]| :: exists n | n in ws[i][p] :: Core(n).id == id;
      var p: nat :| p < |ws[i]| && exists n | n in ws[i][p] :: Core(n).id == id;
      var n :| n in ws[i][p] && Core(n).id == id;
      var a := AlarmOf(n, i, counts[i] + p + 1, b);
      assert a in alarms;
      assert Entry(a.id, a.payload) in Held(alarms);
    }
    if Holds(Held(alarms), id) {
      var e :| e in Held(alarms) && e.Entry? && e.id == id;
      var a :| a in alarms && e == Entry(a.id, a.payload);
      var i: nat, p: nat, n :| i < |ws| && p < |ws[i]| && n in ws[i][p] && a == AlarmOf(n, i, counts[i] + p + 1, b);
      assert Core(n).id == id;
    }
  }

  lemma PutFits<P(!new)>(ws: seq<Wheel<P>>, i: nat, p: nat, n: Node<P>, b: nat)
    requires i < |ws| && p < |ws[i]| && Fitting(ws, b) && Fits(n, i, b)
    ensures Fitting(Put(ws, i, p, n), b)
  {
  }

  lemma PutKeeps<P(!new)>(ws: seq<Wheel<P>>, counts: seq<nat>, i: nat, p: nat, n: Node<P>, b: nat)
    requires |counts| == |ws| && Fitting(ws, b)
    requires i < |ws| && p < |ws[i]| && Fits(n, i, b) && Fitting(Put(ws, i, p, n), b)
    ensures Pending(ws, counts, b) + {AlarmOf(n, i, counts[i] + p + 1, b)} <= Pending(Put(ws, i, p, n), counts, b)
  {
    hide Fire;
    hide Fits;
    hide Core;
    var ws' := Put(ws, i, p, n);
    forall a | a in Pending(ws, counts, b) ensures a in Pending(ws', counts, b) {
      var j: nat, q: nat, m :| j < |ws| && q < |ws[j]| && m in ws[j][q] && a == AlarmOf(m, j, counts[j] + q + 1, b);
      assert m in ws'[j][q];
    }
    assert n in ws'[i][p];
  }

  lemma PutAddsOnly<P(!new)>(ws: seq<Wheel<P>>, counts: seq<nat>, i: nat, p: nat, n: Node<P>, b: nat)
    requires |counts| == |ws| && Fitting(ws, b)
    requires i < |ws| && p < |ws[i]| && Fits(n, i, b) && Fitting(Put(ws, i, p, n), b)
    ensures Pending(Put(ws, i, p, n), counts, b) <= Pending(ws, counts, b) + {AlarmOf(n, i, counts[i] + p + 1, b)}
  {
    hide Fire;
    hide Fits;
    hide Core;
    var ws' := Put(ws, i, p, n);
    forall a | a in Pending(ws', counts, b)
      ensures a in Pending(ws, counts, b) || a == AlarmOf(n, i, counts[i] + p + 1, b)
    {
      var j: nat, q: nat, m :| j < |ws'| && q < |ws'[j]| && m in ws'[j][q] && a == AlarmOf(m, j, counts[j] + q + 1, b);
      assert m in ws[j][q] || (j == i && q == p && m == n);
    }
  }

  lemma PutAddsAlarm<P(!new)>(ws: seq<Wheel<P>>, counts: seq<nat>, i: nat, p: nat, n: Node<P>, b: nat)
    requires |counts| == |ws| && Fitting(ws, b)
    requires i < |ws| && p < |ws[i]| && Fits(n, i, b)
    ensures Fitting(Put(ws, i, p, n), b)
    ensures Pending(Put(ws, i, p, n), counts, b) == Pending(ws, counts, b) + {AlarmOf(n, i, counts[i] + p + 1, b)}
  {
    hide Fire;
    hide Pending;
    PutFits(ws, i, p, n, b);
    PutKeeps(ws, counts, i, p, n, b);
    PutAddsOnly(ws, counts, i, p, n, b);
  }

  // Popping the front bucket of a wheel moves the alarms of that bucket out and no other alarm.
  lemma PopKeepsAlarms<P(!new)>(ws: seq<Wheel<P>>, counts: seq<nat>, i: nat, b: nat)
    requires |counts| == |ws| && Fitting(ws, b)
    requires i < |ws| && |ws[i]| > 0
    ensures Fitting(Pop(ws, i), b) && BucketFits(ws[i][0], i, b)
    ensures Pending(ws, counts, b)
         == Pending(Pop(ws, i), counts[i := counts[i] + 1], b) + Leaving(ws[i][0], i, counts[i] + 1, b)
  {
    var ws' := Pop(ws, i);
    forall j: nat, q: nat, m | j < |ws'| && q < |ws'[j]| && m in ws'[j][q] ensures Fits(m, j, b) {
      if j == i { assert m in ws[i][q + 1]; } else { assert m in ws[j][q]; }
    }
    var counts' := counts[i := counts[i] + 1];
    forall a | a in Pending(ws, counts, b)
      ensures a in Pending(ws', counts', b) + Leaving(ws[i][0], i, counts[i] + 1, b)
    {
      var j: nat, q: nat, m :| j < |ws| && q < |ws[j]| && m in ws[j][q] && a == AlarmOf(m, j, counts[j] + q + 1, b);
      if j != i {
        assert m in ws'[j][q];
      } else if q > 0 {
        assert m in ws'[j][q - 1] && counts'[j] + (q - 1) + 1 == counts[j] + q + 1;
      }
    }
    forall a | a in Pending(ws', counts', b) ensures a in Pending(ws, counts, b) {
      var j: nat, q: nat, m :| j < |ws'| && q < |ws'[j]| && m in ws'[j][q] && a == AlarmOf(m, j, counts'[j] + q + 1, b);
      if j != i { assert m in ws[j][q]; } else { assert m in ws[j][q + 1]; }
    }
  }

  lemma PushKeepsAlarms<P(!new)>(ws: seq<Wheel<P>>, counts: seq<nat>, i: nat, b: nat)
    requires |counts| == |ws| && Fitting(ws, b) && i < |ws|
    ensures Fitting(PushEmpty(ws, i), b)
    ensures Pending(PushEmpty(ws, i), counts, b) == Pending(ws, counts, b)
  {
    var ws' := PushEmpty(ws, i);
    forall j: nat, q: nat, m | j < |ws'| && q < |ws'[j]| && m in ws'[j][q] ensures q < |ws[j]| && m in ws[j][q] {}
    forall a | a in Pending(ws, counts, b) ensures a in Pending(ws', counts, b) {
      var j: nat, q: nat, m :| j < |ws| && q < |ws[j]| && m in ws[j][q] && a == AlarmOf(m, j, counts[j] + q + 1, b);
      assert m in ws'[j][q];
    }
    forall a | a in Pending(ws', counts, b) ensures a in Pending(ws, counts, b) {
      var j: nat, q: nat, m :| j < |ws'| && q < |ws'[j]| && m in ws'[j][q] && a == AlarmOf(m, j, counts[j] + q + 1, b);
      assert m in ws[j][q];
    }
  }

  ghost predicate SameShape<P(!new)>(ws: seq<Wheel<P>>, ws': seq<Wheel<P>>, i: nat) {
    && |ws| == |ws'|
    && (forall j: nat :: j < |ws| ==> |ws[j]| == |ws'[j]|)
    && (forall j: nat :: j < |ws| && j != i ==> ws[j] == ws'[j])
  }

  // Destroying a wrapper that left wheel i drops its content into wheel i - 1; when the lower wheel has
  // kept pace, the content stays due exactly when the wrapper was.
  lemma DropOne<P(!new)>(ws: seq<Wheel<P>>, counts: seq<nat>, i: nat, n: Node<P>, c: nat, b: nat)
    requires 0 < i < |ws| == |counts| && Fitting(ws, b) && Fits(n, i, b) && |ws[i - 1]| == b
    ensures n.Wrap? && n.slot < b
    ensures var ws' := Put(ws, i - 1, n.slot, n.inner);
      && SameShape(ws', ws, i - 1) && Fitting(ws', b)
      && Held(Pending(ws', counts, b)) == Held(Pending(ws, counts, b)) + {Core(n)}
      && (counts[i - 1] == c * b ==> Pending(ws', counts, b) == Pending(ws, counts, b) + {AlarmOf(n, i, c, b)})
  {
    hide Pending;
    hide Fitting;
    hide Fire;
    PutAddsAlarm(ws, counts, i - 1, n.slot, n.inner, b);
    CoreIsEntry(n);
    HeldAdd(Pending(ws, counts, b), AlarmOf(n.inner, i - 1, counts[i - 1] + n.slot + 1, b));
    if counts[i - 1] == c * b { WrapperIsDueWithContent(n, i, c, counts[i - 1], b); }
  }

  lemma WrapperIsDueWithContent<P>(n: Node<P>, i: nat, c: nat, below: nat, b: nat)
    requires Fits(n, i, b) && n.Wrap? && below == c * b
    ensures AlarmOf(n.inner, i - 1, below + n.slot + 1, b) == AlarmOf(n, i, c, b)
  {
  }

  lemma CoreIsEntry<P>(n: Node<P>)
    ensures Entry(Core(n).id, Core(n).payload) == Core(n)
  {
  }

  lemma HeldAdd<P>(alarms: set<Alarm<P>>, a0: Alarm<P>)
    ensures Held(alarms + {a0}) == Held(alarms) + {Entry(a0.id, a0.payload)}
  {
    assert a0 in alarms + {a0};
  }

  lemma DoneGrows<P(!new)>(tmp: Bucket<P>, rest: Bucket<P>, n: Node<P>, i: nat, c: nat, b: nat)
    requires BucketFits(tmp, i, b) && rest <= tmp && n in rest
    ensures Cores(tmp - (rest - {n})) == Cores(tmp - rest) + {Core(n)}
    ensures Leaving(tmp - (rest - {n}), i, c, b) == Leaving(tmp - rest, i, c, b) + {AlarmOf(n, i, c, b)}
  {
    assert tmp - (rest - {n}) == tmp - rest + {n};
  }

  // Nothing held by the wheels is due at or before `now`, when wheel i has shifted at least
  // now / B^i times (a wheel above 0 may lag one shift behind during a tick).
  lemma PendingIsLater<P(!new)>(ws: seq<Wheel<P>>, counts: seq<nat>, now: nat, b: nat)
    requires b > 0 && |counts| == |ws| && Fitting(ws, b)
    requires forall i: nat :: i < |ws| ==> (counts[i] + 1) * Pow(b, i) >= now
    requires |ws| > 0 && counts[0] >= now
    ensures forall a :: a in Pending(ws, counts, b) ==> a.due > now
  {
    forall a | a in Pending(ws, counts, b) ensures a.due > now {
      var i: nat, p: nat, n :| i < |ws| && p < |ws[i]| && n in ws[i][p] && a == AlarmOf(n, i, counts[i] + p + 1, b);
      FireLowerBound(n, i, counts[i] + p + 1, b);
      MulMono(counts[i] + 1, counts[i] + p + 1, Pow(b, i));
      if i == 0 { assert Fire(n, 0, counts[0] + p + 1, b) == counts[0] + p + 1; }
    }
  }

  ghost predicate WheelsFit<P(!new)>(ws: seq<Wheel<P>>, w: nat, b: nat) {
    && w > 0 && b > 0 && |ws| == w
    && (forall i: nat :: i < w ==> |ws[i]| == b)
    && Fitting(ws, b)
  }

  lemma LiftedPut<P(!new)>(ws: seq<Wheel<P>>, now: nat, delay: nat, entry: Node<P>, w: nat, b: nat, i: nat, d: nat,
                           t: nat, node: Node<P>)
    requires WheelsFit(ws, w, b)
    requires Lifted(now, delay, entry, w, b, i, d, t, node) && (d <= b || i == w - 1)
    ensures var ws' := Put(ws, i, (if d <= b then d else b) - 1, node);
            && WheelsFit(ws', w, b)
            && Pending(ws', CountsAt(now, w, b), b)
                == Pending(ws, CountsAt(now, w, b), b) + {Goal(now, delay, entry, w, b)}
  {
    LiftedGoal(now, delay, entry, w, b, i, d, t, node);
    PutAddsAlarm(ws, CountsAt(now, w, b), i, (if d <= b then d else b) - 1, node, b);
  }

  // Shift counts in the middle of tick t, once the first i wheels have been looked at.
  ghost function CountsDuring(t: nat, w: nat, b: nat, i: nat): (counts: seq<nat>)
    requires b > 0 && t > 0
    ensures |counts| == w
  {
    seq(w, j requires 0 <= j < w => if j < i then t / Pow(b, j) else (t - 1) / Pow(b, j))
  }

  lemma CountsDuringStep(t: nat, w: nat, b: nat, i: nat)
    requires b > 0 && t > 0 && i < w
    ensures var counts := CountsDuring(t, w, b, i);
      CountsDuring(t, w, b, i + 1) == if t % Pow(b, i) == 0 then counts[i := counts[i] + 1] else counts
    ensures i > 0 && t % Pow(b, i) == 0 ==>
      CountsDuring(t, w, b, i)[i - 1] == (CountsDuring(t, w, b, i)[i] + 1) * b
  {
    var counts := CountsDuring(t, w, b, i);
    CountStep(t, Pow(b, i));
    assert counts[i] == (t - 1) / Pow(b, i);
    if i > 0 && t % Pow(b, i) == 0 {
      CountBelow(t, Pow(b, i - 1), b);
      assert counts[i - 1] == t / Pow(b, i - 1);
    }
    var next := CountsDuring(t, w, b, i + 1);
    var want := if t % Pow(b, i) == 0 then counts[i := counts[i] + 1] else counts;
    forall j | 0 <= j < w ensures next[j] == want[j] {}
  }

  lemma CountsDuringEnds(t: nat, w: nat, b: nat)
    requires b > 0 && t > 0
    ensures CountsDuring(t, w, b, 0) == CountsAt(t - 1, w, b)
    ensures CountsDuring(t, w, b, w) == CountsAt(t, w, b)
  {
  }

  // After wheel 0 has shifted at tick t, what is still pending is due later, and what left is due now.
  lemma BottomSplitsByDue<P(!new)>(ws: seq<Wheel<P>>, tmp: Bucket<P>, t: nat, w: nat, b: nat, before: set<Alarm<P>>)
    requires WheelsFit(ws, w, b) && BucketFits(tmp, 0, b) && t > 0
    requires before == Pending(ws, CountsDuring(t, w, b, 1), b) + Leaving(tmp, 0, t, b)
    ensures forall a :: a in Pending(ws, CountsDuring(t, w, b, 1), b) <==> a in before && a.due > t
    ensures forall a :: a in before ==> a.due >= t
    ensures Held(before) == Held(Pending(ws, CountsDuring(t, w, b, 1), b)) + tmp
  {
    var counts := CountsDuring(t, w, b, 1);
    forall i: nat | i < w ensures (counts[i] + 1) * Pow(b, i) >= t {
      var p := Pow(b, i);
      DivBelow(t - 1, counts[i] + 1, p);
      if i == 0 { assert counts[0] == t / Pow(b, 0); } else { assert counts[i] == (t - 1) / p; }
    }
    PendingIsLater(ws, counts, t, b);
    forall n | n in tmp
      ensures AlarmOf(n, 0, t, b).due == t && Entry(AlarmOf(n, 0, t, b).id, AlarmOf(n, 0, t, b).payload) == n
    {
    }
    forall e | e in tmp ensures e in Held(before) {
      assert AlarmOf(e, 0, t, b) in before;
    }
  }

  // Who holds what does not depend on when the wheels shift.
  lemma HeldAnyCounts<P(!new)>(ws: seq<Wheel<P>>, counts: seq<nat>, counts': seq<nat>, b: nat)
    requires |counts| == |ws| == |counts'| && Fitting(ws, b)
    ensures Held(Pending(ws, counts, b)) <= Held(Pending(ws, counts', b))
  {
    forall e | e in Held(Pending(ws, counts, b)) ensures e in Held(Pending(ws, counts', b)) {
      var a :| a in Pending(ws, counts, b) && e == Entry(a.id, a.payload);
      var i: nat, p: nat, n :| i < |ws| && p < |ws[i]| && n in ws[i][p] && a == AlarmOf(n, i, counts[i] + p + 1, b);
      assert AlarmOf(n, i, counts'[i] + p + 1, b) in Pending(ws, counts', b);
    }
  }

  lemma HeldUnion<P(!new)>(alarms: set<Alarm<P>>, tmp: Bucket<P>, i: nat, c: nat, b: nat)
    requires BucketFits(tmp, i, b)
    ensures Held(alarms + Leaving(tmp, i, c, b)) == Held(alarms) + Cores(tmp)
  {
    forall n | n in tmp ensures Core(n) in Held(alarms + Leaving(tmp, i, c, b)) {
      CoreIsEntry(n);
      assert AlarmOf(n, i, c, b) in alarms + Leaving(tmp, i, c, b);
    }
    forall e | e in Held(alarms + Leaving(tmp, i, c, b)) ensures e in Held(alarms) + Cores(tmp) {
      var a :| a in alarms + Leaving(tmp, i, c, b) && e == Entry(a.id, a.payload);
      if a !in alarms {
        var n :| n in tmp && a == AlarmOf(n, i, c, b);
        CoreIsEntry(n);
      }
    }
  }

  lemma PopHeld<P(!new)>(ws: seq<Wheel<P>>, counts: seq<nat>, i: nat, b: nat)
    requires |counts| == |ws| && Fitting(ws, b) && i < |ws| && |ws[i]| > 0
    ensures Fitting(Pop(ws, i), b) && BucketFits(ws[i][0], i, b)
    ensures Held(Pending(ws, counts, b)) == Held(Pending(Pop(ws, i), counts, b)) + Cores(ws[i][0])
  {
    PopKeepsAlarms(ws, counts, i, b);
    HeldUnion(Pending(Pop(ws, i), counts[i := counts[i] + 1], b), ws[i][0], i, counts[i] + 1, b);
    HeldAnyCounts(Pop(ws, i), counts, counts[i := counts[i] + 1], b);
    HeldAnyCounts(Pop(ws, i), counts[i := counts[i] + 1], counts, b);
  }

  lemma BottomCores<P(!new)>(tmp: Bucket<P>, b: nat)
    requires BucketFits(tmp, 0, b)
    ensures Cores(tmp) == tmp
  {
    forall n | n in tmp ensures Core(n) == n && n in Cores(tmp) { assert Core(n) == n; }
  }

  lemma NothingHeld<P(!new)>(ws: seq<Wheel<P>>, counts: seq<nat>, b: nat)
    requires |counts| == |ws| && Fitting(ws, b)
    requires forall i: nat :: i < |ws| ==> ws[i] == []
    ensures Held(Pending(ws, counts, b)) == {}
  {
  }
}
