/**
  `change_state`: the disease-state machine 0 healthy, 1 infected,
  2 confirmed, 3 isolated, driven by the dwell time `dt = round - timer`
  (computed once, before any update) and gated by the hospital capacity.
*/
module Disease {
  import opened Masks

  const HEALTHY := 0
  const INFECTED := 1
  const CONFIRMED := 2
  const ISOLATED := 3

  /** The per-agent status and state-entry round, as two parallel arrays. */
  datatype Cohort = Cohort(status: seq<int>, timer: seq<int>)
  {
    predicate Wf()
    {
      |status| == |timer|
    }

    /** Every status is one of the four states. */
    predicate States()
    {
      Wf() && forall i :: 0 <= i < |status| ==> HEALTHY <= status[i] <= ISOLATED
    }

    /** Every status is one of the four states and no timer lies after `round`. */
    predicate InRange(round: int)
    {
      States() && forall i :: 0 <= i < |timer| ==> 0 <= timer[i] <= round
    }
  }

  /** `dt = self._round - self._timer`. */
  function DwellTimes(timer: seq<int>, round: int): (dt: seq<int>)
    ensures |dt| == |timer|
    ensures forall i :: 0 <= i < |timer| ==> dt[i] == round - timer[i]
  {
    seq(|timer|, i requires 0 <= i < |timer| => round - timer[i])
  }

  /** The mask of lines 100-101: infected, and the dwell time hits the draw `d` or overruns `lp`. */
  predicate Confirms(status: int, dt: int, d: int, lp: int)
  {
    status == INFECTED && (dt == d || dt > lp)
  }

  /** Lines 100-101: confirmed agents get the current round as timer and move up one state. */
  function Confirm(c: Cohort, dt: seq<int>, round: int, d: int, lp: int): (c1: Cohort)
    requires c.Wf() && |dt| == |c.status|
    ensures c1.Wf() && |c1.status| == |c.status|
    ensures forall i :: 0 <= i < |c.status| ==>
              if Confirms(c.status[i], dt[i], d, lp) then c1.status[i] == CONFIRMED && c1.timer[i] == round
              else c1.status[i] == c.status[i] && c1.timer[i] == c.timer[i]
  {
    var n := |c.status|;
    Cohort(seq(n, i requires 0 <= i < n => if Confirms(c.status[i], dt[i], d, lp) then c.status[i] + 1 else c.status[i]),
           seq(n, i requires 0 <= i < n => if Confirms(c.status[i], dt[i], d, lp) then round else c.timer[i]))
  }

  /** `(self._status == 2) & (dt >= hrt)`: the agents eligible for a bed. */
  function EligibleMask(status: seq<int>, dt: seq<int>, hrt: int): (m: seq<bool>)
    requires |dt| == |status|
    ensures |m| == |status|
    ensures forall i :: 0 <= i < |status| ==> (m[i] <==> status[i] == CONFIRMED && dt[i] >= hrt)
  {
    seq(|status|, i requires 0 <= i < |status| => status[i] == CONFIRMED && dt[i] >= hrt)
  }

  /** The mask line 105 actually counts: `&` binds tighter than `>=`, so it is
      `((status == 2) & dt) >= hrt`, and `True & dt` is the lowest bit of `dt`. */
  function QuirkMask(status: seq<int>, dt: seq<int>, hrt: int): (m: seq<bool>)
    requires |dt| == |status|
    ensures |m| == |status|
    ensures hrt <= 0 ==> forall i :: 0 <= i < |status| ==> m[i]
    ensures hrt == 1 ==> forall i :: 0 <= i < |status| ==> (m[i] <==> status[i] == CONFIRMED && dt[i] % 2 == 1)
    ensures hrt > 1 ==> forall i :: 0 <= i < |status| ==> !m[i]
  {
    seq(|status|, i requires 0 <= i < |status| => (if status[i] == CONFIRMED then dt[i] % 2 else 0) >= hrt)
  }

  /** Lines 103-110 as written: the agents admitted to hospital. */
  function AdmittedAsWritten(status: seq<int>, dt: seq<int>, hrt: int, capacity: int): (r: seq<nat>)
    requires |dt| == |status|
    ensures forall j :: 0 <= j < |r| ==> r[j] < |status| && status[r[j]] == CONFIRMED && dt[r[j]] >= hrt
    ensures forall j, l :: 0 <= j < l < |r| ==> r[j] < r[l]
  {
    var isolated := Count(status, ISOLATED);
    if capacity > isolated then
      var empty := capacity - isolated;
      var eligible := Where(EligibleMask(status, dt, hrt));
      if empty > CountTrue(QuirkMask(status, dt, hrt)) then eligible
      else eligible[..Min(empty, |eligible|)]
    else []
  }

  /** Lines 103-110 with the test of line 105 parenthesised as lines 106-110
      are: the first `empty` eligible agents in index order, or all of them. */
  function Admitted(status: seq<int>, dt: seq<int>, hrt: int, capacity: int): (r: seq<nat>)
    requires |dt| == |status|
    ensures forall j :: 0 <= j < |r| ==> r[j] < |status| && status[r[j]] == CONFIRMED && dt[r[j]] >= hrt
    ensures forall j, l :: 0 <= j < l < |r| ==> r[j] < r[l]
    ensures r == [] || Count(status, ISOLATED) + |r| <= capacity
  {
    var isolated := Count(status, ISOLATED);
    if capacity > isolated then
      var eligible := Where(EligibleMask(status, dt, hrt));
      eligible[..Min(capacity - isolated, |eligible|)]
    else []
  }

  /** Fancy-index assignment: the listed agents get the current round and move up one state. */
  function Admit(c: Cohort, admitted: seq<nat>, round: int): (c2: Cohort)
    requires c.Wf()
    ensures c2.Wf() && |c2.status| == |c.status|
    ensures forall i :: 0 <= i < |c.status| ==>
              (c2.status[i] != c.status[i] <==> i in admitted) &&
              (i in admitted ==> c2.status[i] == c.status[i] + 1 && c2.timer[i] == round) &&
              (i !in admitted ==> c2.timer[i] == c.timer[i])
  {
    var n := |c.status|;
    Cohort(seq(n, i requires 0 <= i < n => if i in admitted then c.status[i] + 1 else c.status[i]),
           seq(n, i requires 0 <= i < n => if i in admitted then round else c.timer[i]))
  }

  /** `change_state(lp, hrt)` with the latency draw `d`, for a hospital of `capacity` beds. */
  function ChangeStep(c: Cohort, round: int, d: int, lp: int, hrt: int, capacity: int): (c2: Cohort)
    requires c.Wf()
    ensures c2.Wf() && |c2.status| == |c.status|
    ensures forall i :: 0 <= i < |c.status| ==>
              c2.status[i] >= c.status[i] &&
              (c.status[i] == HEALTHY || c.status[i] == ISOLATED ==> c2.status[i] == c.status[i]) &&
              (c2.status[i] == c.status[i] ==> c2.timer[i] == c.timer[i]) &&
              (c2.status[i] != c.status[i] ==> c2.timer[i] == round)
  {
    var dt := DwellTimes(c.timer, round);
    var c1 := Confirm(c, dt, round, d, lp);
    Admit(c1, Admitted(c1.status, dt, hrt, capacity), round)
  }

  /** With `hrt <= 0` (the only call passes 0) every entry of the quirky mask
      holds, so the as-written test and the corrected one admit the same agents. */
  lemma AsWrittenAgrees(status: seq<int>, dt: seq<int>, hrt: int, capacity: int)
    requires |dt| == |status| && hrt <= 0
    ensures AdmittedAsWritten(status, dt, hrt, capacity) == Admitted(status, dt, hrt, capacity)
  {
    CountTrueAll(QuirkMask(status, dt, hrt));
    WhereLength(EligibleMask(status, dt, hrt));
  }

  /** With `hrt = 1`, one free bed and two confirmed agents of even dwell time,
      the as-written test counts no one, so both agents are admitted. */
  lemma OverAdmissionAsWritten()
    ensures Count([CONFIRMED, CONFIRMED], ISOLATED) == 0
    ensures |AdmittedAsWritten([CONFIRMED, CONFIRMED], [2, 2], 1, 1)| == 2
  {
    var s, dt := [CONFIRMED, CONFIRMED], [2, 2];
    assert Count(s, ISOLATED) == 0 by {
      assert s[..1] == [CONFIRMED];
      assert [CONFIRMED][..0] == [];
    }
    var q := QuirkMask(s, dt, 1);
    assert q == [false, false];
    assert CountTrue(q) == 0 by {
      assert q[..1] == [false];
      assert [false][..0] == [];
    }
    var e := EligibleMask(s, dt, 1);
    assert e == [true, true];
    assert 0 in Where(e) && 1 in Where(e);
    assert |Where(e)| == 2 by {
      WhereLength(e);
      assert e[..1] == [true];
      assert [true][..0] == [];
    }
  }

  /** Confirmed-to-isolated admission takes agents lowest index first: agent `i`
      is admitted exactly when beds are free, it is confirmed with `dt >= hrt`,
      and fewer eligible agents than there are free beds come before it. */
  lemma {:induction false} AdmittedLowestFirst(status: seq<int>, dt: seq<int>, hrt: int, capacity: int, i: int)
    requires |dt| == |status|
    ensures var e := EligibleMask(status, dt, hrt);
            i in Admitted(status, dt, hrt, capacity) <==>
              Count(status, ISOLATED) < capacity && 0 <= i < |status| && e[i] &&
              CountTrue(e[..i]) < capacity - Count(status, ISOLATED)
  {
    var e := EligibleMask(status, dt, hrt);
    var isolated := Count(status, ISOLATED);
    if isolated < capacity {
      var w := Where(e);
      var k := Min(capacity - isolated, |w|);
      WherePrefix(e, k, i);
      if 0 <= i < |status| && e[i] {
        var j :| 0 <= j < |w| && w[j] == i;
        WhereRank(e, j);
      }
    }
  }

  /** Admission takes `min(empty, #eligible)` agents when beds are free and none otherwise. */
  lemma AdmittedCount(status: seq<int>, dt: seq<int>, hrt: int, capacity: int)
    requires |dt| == |status|
    ensures var isolated := Count(status, ISOLATED);
            |Admitted(status, dt, hrt, capacity)| ==
              if isolated < capacity then Min(capacity - isolated, CountTrue(EligibleMask(status, dt, hrt))) else 0
  {
    WhereLength(EligibleMask(status, dt, hrt));
  }

  /** What `change_state` does to one agent. Healthy and isolated agents are not
      touched; an infected agent leaves state 1, with the current round as timer,
      exactly when its old dwell time equals `d` or exceeds `lp` (and may be
      admitted in the same call); a confirmed agent stays or is isolated; a timer
      changes only when the status does. */
  lemma ChangeStepAgent(c: Cohort, round: int, d: int, lp: int, hrt: int, capacity: int, i: nat)
    requires c.Wf() && i < |c.status|
    ensures var c2 := ChangeStep(c, round, d, lp, hrt, capacity);
            var dt := round - c.timer[i];
            (c.status[i] == HEALTHY || c.status[i] == ISOLATED ==> c2.status[i] == c.status[i] && c2.timer[i] == c.timer[i]) &&
            (c.status[i] == INFECTED ==>
               if dt == d || dt > lp
               then (c2.status[i] == CONFIRMED || c2.status[i] == ISOLATED) && c2.timer[i] == round
               else c2.status[i] == INFECTED && c2.timer[i] == c.timer[i]) &&
            (c.status[i] == CONFIRMED ==> c2.status[i] == CONFIRMED || c2.status[i] == ISOLATED) &&
            (c2.timer[i] != c.timer[i] ==> c2.status[i] != c.status[i]) &&
            (c2.status[i] != c.status[i] ==> c2.timer[i] == round && c2.status[i] > c.status[i])
  {
    var dts := DwellTimes(c.timer, round);
    var c1 := Confirm(c, dts, round, d, lp);
    var a := Admitted(c1.status, dts, hrt, capacity);
    assert dts[i] == round - c.timer[i];
    if i in a {
      var j :| 0 <= j < |a| && a[j] == i;
      assert c1.status[i] == CONFIRMED;
    }
  }

  /** `change_state` keeps every status among the four states and every timer at most the round. */
  lemma ChangeStepInRange(c: Cohort, round: int, d: int, lp: int, hrt: int, capacity: int)
    requires c.InRange(round)
    ensures ChangeStep(c, round, d, lp, hrt, capacity).InRange(round)
  {
    var c2 := ChangeStep(c, round, d, lp, hrt, capacity);
    forall i | 0 <= i < |c.status|
      ensures HEALTHY <= c2.status[i] <= ISOLATED && 0 <= c2.timer[i] <= round
    {
      ChangeStepAgent(c, round, d, lp, hrt, capacity, i);
    }
  }

  /** Admitting listed confirmed agents raises the isolated count by the number listed. */
  lemma AdmitIsolates(c: Cohort, admitted: seq<nat>, round: int)
    requires c.Wf()
    requires forall j :: 0 <= j < |admitted| ==> admitted[j] < |c.status| && c.status[admitted[j]] == CONFIRMED
    ensures var n := |c.status|;
            Count(Admit(c, admitted, round).status, ISOLATED) ==
              Count(c.status, ISOLATED) + CountTrue(seq(n, i requires 0 <= i < n => i in admitted))
  {
    var n := |c.status|;
    var on := seq(n, i requires 0 <= i < n => i in admitted);
    CountShift(c.status, Admit(c, admitted, round).status, on, ISOLATED);
  }

  /** The isolated count grows by exactly the number admitted, so it never passes
      the capacity when it started below it, and does not move when it did not. */
  lemma IsolatedWithinCapacity(c: Cohort, round: int, d: int, lp: int, hrt: int, capacity: int)
    requires c.Wf()
    ensures var before := Count(c.status, ISOLATED);
            var after := Count(ChangeStep(c, round, d, lp, hrt, capacity).status, ISOLATED);
            (before < capacity ==> after <= capacity) && (before >= capacity ==> after == before)
  {
    var n := |c.status|;
    var dt := DwellTimes(c.timer, round);
    var c1 := Confirm(c, dt, round, d, lp);
    var a := Admitted(c1.status, dt, hrt, capacity);
    CountSame(c.status, c1.status, ISOLATED);
    var isolated := Count(c1.status, ISOLATED);
    var e := EligibleMask(c1.status, dt, hrt);
    var on := seq(n, i requires 0 <= i < n => i in a);
    AdmitIsolates(c1, a, round);
    if isolated < capacity {
      assert on == FirstK(e, capacity - isolated) by {
        forall i | 0 <= i < n ensures on[i] == FirstK(e, capacity - isolated)[i] {
          AdmittedLowestFirst(c1.status, dt, hrt, capacity, i);
        }
      }
      FirstKCount(e, capacity - isolated);
    } else {
      assert a == [];
      assert CountTrue(on) == 0 by {
        assert forall i :: 0 <= i < n ==> !on[i];
        CountShift(c1.status, c1.status, on, ISOLATED);
      }
    }
  }
}
