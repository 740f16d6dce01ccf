/**
  Proximity transmission: `infect_possible` and `infect_nearest`. Each source
  agent scans the population in increasing distance order and stops at the
  first neighbour at `safe` distance or more. The distances and their sorted
  order are given; the standard-normal draws come from an oracle read in
  order, `normal(k)` being the `k`-th draw.
*/
module Transmission {
  import opened Masks
  import opened Disease

  /** A source's view of the population: `argsort` of the distances, and the distances. */
  datatype Scan = Scan(order: seq<nat>, dist: seq<real>)
  {
    predicate Fits(n: nat)
    {
      |dist| == n && forall j :: 0 <= j < |order| ==> order[j] < n
    }
  }

  /** One scan per agent, each over the whole population. */
  predicate ScansFit(scans: seq<Scan>, n: nat)
  {
    |scans| == n && forall a :: 0 <= a < n ==> scans[a].Fits(n)
  }

  /** Every agent whose status is above 0 keeps its status and timer: the scans
      skip such neighbours (lines 127-128, 145-146 and 160-161). */
  predicate Kept(c: Cohort, c2: Cohort)
  {
    c.Wf() && c2.Wf() && |c2.status| == |c.status| &&
    forall i {:trigger c2.status[i]} :: 0 <= i < |c.status| && c.status[i] > 0 ==> c2.status[i] == c.status[i] && c2.timer[i] == c.timer[i]
  }

  lemma KeptTrans(c: Cohort, c1: Cohort, c2: Cohort)
    requires Kept(c, c1) && Kept(c1, c2)
    ensures Kept(c, c2)
  {
    forall i | 0 <= i < |c.status| && c.status[i] > 0
      ensures c2.status[i] == c.status[i] && c2.timer[i] == c.timer[i]
    {
      assert c1.status[i] == c.status[i];
    }
  }

  /** The cohort and the number of draws taken so far. */
  datatype Scanned = Scanned(cohort: Cohort, draws: nat)

  /** Lines 149-151 and 129-131: agent `i` becomes infected at `round`. */
  function Infect(c: Cohort, i: nat, round: int): (c2: Cohort)
    requires c.Wf() && i < |c.status|
    ensures c2.Wf() && |c2.status| == |c.status|
  {
    Cohort(c.status[i := INFECTED], c.timer[i := round])
  }

  /** One source's inner loop of `infect_possible` (lines 142-151 and 157-168),
      from position `j` of its neighbour order, infecting when the draw is at most `threshold`. */
  function PossibleFrom(st: Scanned, sc: Scan, j: nat, round: int, safe: real, threshold: real, normal: nat -> real): (r: Scanned)
    requires st.cohort.Wf() && sc.Fits(|st.cohort.status|) && j <= |sc.order|
    ensures r.cohort.Wf() && |r.cohort.status| == |st.cohort.status|
    ensures Kept(st.cohort, r.cohort) && r.draws >= st.draws
    decreases |sc.order| - j
  {
    if j == |sc.order| then st
    else
      var i := sc.order[j];
      if sc.dist[i] >= safe then st
      else if st.cohort.status[i] > 0 then PossibleFrom(st, sc, j + 1, round, safe, threshold, normal)
      else if normal(st.draws) > threshold then PossibleFrom(Scanned(st.cohort, st.draws + 1), sc, j + 1, round, safe, threshold, normal)
      else PossibleFrom(Scanned(Infect(st.cohort, i, round), st.draws + 1), sc, j + 1, round, safe, threshold, normal)
  }

  /** The outer loop: every source in `sources` in turn. */
  function PossibleAll(st: Scanned, sources: seq<nat>, scans: seq<Scan>, round: int, safe: real, threshold: real, normal: nat -> real): (r: Scanned)
    requires st.cohort.Wf() && ScansFit(scans, |st.cohort.status|)
    requires forall q :: 0 <= q < |sources| ==> sources[q] < |scans|
    ensures r.cohort.Wf() && |r.cohort.status| == |st.cohort.status|
    ensures Kept(st.cohort, r.cohort) && r.draws >= st.draws
  {
    if sources == [] then st
    else
      var before := PossibleAll(st, sources[..|sources| - 1], scans, round, safe, threshold, normal);
      var r := PossibleFrom(before, scans[sources[|sources| - 1]], 0, round, safe, threshold, normal);
      KeptTrans(st.cohort, before.cohort, r.cohort);
      r
  }

  /** `infect_possible(x, safe_distance)`: infected sources with threshold `x`,
      then confirmed sources with `x + 0.3`; each source list is taken when its loop starts. */
  function InfectPossible(st: Scanned, round: int, x: real, safe: real, scans: seq<Scan>, normal: nat -> real): (r: Scanned)
    requires st.cohort.Wf() && ScansFit(scans, |st.cohort.status|)
    ensures Kept(st.cohort, r.cohort) && r.draws >= st.draws
  {
    var infected := Where(EqMask(st.cohort.status, INFECTED));
    var mid := PossibleAll(st, infected, scans, round, safe, x, normal);
    var confirmed := Where(EqMask(mid.cohort.status, CONFIRMED));
    var r := PossibleAll(mid, confirmed, scans, round, safe, x + 0.3, normal);
    KeptTrans(st.cohort, mid.cohort, r.cohort);
    r
  }

  /** One source's inner loop of `infect_nearest` (lines 124-132): infect the
      first healthy neighbour closer than `safe`, then stop. */
  function NearestFrom(c: Cohort, sc: Scan, j: nat, round: int, safe: real): (r: Cohort)
    requires c.Wf() && sc.Fits(|c.status|) && j <= |sc.order|
    ensures r.Wf() && |r.status| == |c.status|
    ensures Kept(c, r)
    decreases |sc.order| - j
  {
    if j == |sc.order| then c
    else
      var i := sc.order[j];
      if sc.dist[i] >= safe then c
      else if c.status[i] > 0 then NearestFrom(c, sc, j + 1, round, safe)
      else Infect(c, i, round)
  }

  function NearestAll(c: Cohort, sources: seq<nat>, scans: seq<Scan>, round: int, safe: real): (c2: Cohort)
    requires c.Wf() && ScansFit(scans, |c.status|)
    requires forall q :: 0 <= q < |sources| ==> sources[q] < |scans|
    ensures c2.Wf() && |c2.status| == |c.status|
    ensures Kept(c, c2)
  {
    if sources == [] then c
    else
      var before := NearestAll(c, sources[..|sources| - 1], scans, round, safe);
      var r := NearestFrom(before, scans[sources[|sources| - 1]], 0, round, safe);
      KeptTrans(c, before, r);
      r
  }

  /** `infect_nearest(safe_distance)`: each infected source (taken at loop entry) in turn. */
  function InfectNearest(c: Cohort, round: int, safe: real, scans: seq<Scan>): (r: Cohort)
    requires c.Wf() && ScansFit(scans, |c.status|)
    ensures Kept(c, r)
  {
    NearestAll(c, Where(EqMask(c.status, INFECTED)), scans, round, safe)
  }

  /** Every agent of `c2` either is as in `c`, or was healthy in `c` and is infected at `round`. */
  ghost predicate Evolves(c: Cohort, c2: Cohort, round: int)
  {
    c.Wf() && c2.Wf() && |c2.status| == |c.status| &&
    forall i :: 0 <= i < |c.status| ==>
      (c2.status[i] == c.status[i] && c2.timer[i] == c.timer[i]) ||
      (c.status[i] == HEALTHY && c2.status[i] == INFECTED && c2.timer[i] == round)
  }

  lemma EvolvesTrans(c: Cohort, c1: Cohort, c2: Cohort, round: int)
    requires Evolves(c, c1, round) && Evolves(c1, c2, round)
    ensures Evolves(c, c2, round)
  {
  }

  /** One source's scan only infects healthy agents, and does not move the draw counter back. */
  lemma {:induction false} PossibleFromEvolves(st: Scanned, sc: Scan, j: nat, round: int, safe: real, threshold: real, normal: nat -> real)
    requires st.cohort.States() && sc.Fits(|st.cohort.status|) && j <= |sc.order|
    ensures var r := PossibleFrom(st, sc, j, round, safe, threshold, normal);
            Evolves(st.cohort, r.cohort, round) && r.draws >= st.draws
    decreases |sc.order| - j
  {
    if j < |sc.order| {
      var i := sc.order[j];
      if sc.dist[i] < safe {
        if st.cohort.status[i] > 0 {
          PossibleFromEvolves(st, sc, j + 1, round, safe, threshold, normal);
        } else if normal(st.draws) > threshold {
          PossibleFromEvolves(Scanned(st.cohort, st.draws + 1), sc, j + 1, round, safe, threshold, normal);
        } else {
          var next := Scanned(Infect(st.cohort, i, round), st.draws + 1);
          PossibleFromEvolves(next, sc, j + 1, round, safe, threshold, normal);
          EvolvesTrans(st.cohort, next.cohort, PossibleFrom(next, sc, j + 1, round, safe, threshold, normal).cohort, round);
        }
      }
    }
  }

  lemma {:induction false} PossibleAllEvolves(st: Scanned, sources: seq<nat>, scans: seq<Scan>, round: int, safe: real, threshold: real, normal: nat -> real)
    requires st.cohort.States() && ScansFit(scans, |st.cohort.status|)
    requires forall q :: 0 <= q < |sources| ==> sources[q] < |scans|
    ensures Evolves(st.cohort, PossibleAll(st, sources, scans, round, safe, threshold, normal).cohort, round)
  {
    if sources != [] {
      var init := sources[..|sources| - 1];
      var before := PossibleAll(st, init, scans, round, safe, threshold, normal);
      PossibleAllEvolves(st, init, scans, round, safe, threshold, normal);
      var sc := scans[sources[|sources| - 1]];
      PossibleFromEvolves(before, sc, 0, round, safe, threshold, normal);
      EvolvesTrans(st.cohort, before.cohort, PossibleFrom(before, sc, 0, round, safe, threshold, normal).cohort, round);
    }
  }

  /** `infect_possible` changes only healthy agents, and only to infected with the
      current round as timer: no status is ever lowered, and the timer of every
      other agent is untouched. */
  lemma InfectPossibleEvolves(st: Scanned, round: int, x: real, safe: real, scans: seq<Scan>, normal: nat -> real)
    requires st.cohort.States() && ScansFit(scans, |st.cohort.status|)
    ensures var r := InfectPossible(st, round, x, safe, scans, normal).cohort;
            |r.status| == |st.cohort.status| &&
            forall i :: 0 <= i < |r.status| ==>
              r.status[i] >= st.cohort.status[i] &&
              (r.status[i] != st.cohort.status[i] || r.timer[i] != st.cohort.timer[i] ==>
                 st.cohort.status[i] == HEALTHY && r.status[i] == INFECTED && r.timer[i] == round)
  {
    var infected := Where(EqMask(st.cohort.status, INFECTED));
    var mid := PossibleAll(st, infected, scans, round, safe, x, normal);
    PossibleAllEvolves(st, infected, scans, round, safe, x, normal);
    var confirmed := Where(EqMask(mid.cohort.status, CONFIRMED));
    PossibleAllEvolves(mid, confirmed, scans, round, safe, x + 0.3, normal);
    EvolvesTrans(st.cohort, mid.cohort, InfectPossible(st, round, x, safe, scans, normal).cohort, round);
  }

  /** The healthy count never rises during `infect_possible`. */
  lemma HealthyNonIncreasing(st: Scanned, round: int, x: real, safe: real, scans: seq<Scan>, normal: nat -> real)
    requires st.cohort.States() && ScansFit(scans, |st.cohort.status|)
    ensures Count(InfectPossible(st, round, x, safe, scans, normal).cohort.status, HEALTHY) <= Count(st.cohort.status, HEALTHY)
  {
    InfectPossibleEvolves(st, round, x, safe, scans, normal);
    CountMono(st.cohort.status, InfectPossible(st, round, x, safe, scans, normal).cohort.status, HEALTHY);
  }

  /** The infected pass creates no confirmed agent, so the confirmed sources read
      at line 153 are exactly the confirmed agents at entry. */
  lemma ConfirmedSourcesAtEntry(st: Scanned, round: int, x: real, scans: seq<Scan>, safe: real, normal: nat -> real)
    requires st.cohort.States() && ScansFit(scans, |st.cohort.status|)
    ensures var mid := PossibleAll(st, Where(EqMask(st.cohort.status, INFECTED)), scans, round, safe, x, normal);
            Where(EqMask(mid.cohort.status, CONFIRMED)) == Where(EqMask(st.cohort.status, CONFIRMED))
  {
    var mid := PossibleAll(st, Where(EqMask(st.cohort.status, INFECTED)), scans, round, safe, x, normal);
    PossibleAllEvolves(st, Where(EqMask(st.cohort.status, INFECTED)), scans, round, safe, x, normal);
    assert EqMask(mid.cohort.status, CONFIRMED) == EqMask(st.cohort.status, CONFIRMED);
  }

  /** A scan touches only agents it reaches before the first neighbour at distance `safe` or more. */
  lemma {:induction false} PossibleStopsAtFar(st: Scanned, sc: Scan, j: nat, round: int, safe: real, threshold: real, normal: nat -> real, i: nat)
    requires st.cohort.Wf() && sc.Fits(|st.cohort.status|) && j <= |sc.order| && i < |st.cohort.status|
    requires PossibleFrom(st, sc, j, round, safe, threshold, normal).cohort.status[i] != st.cohort.status[i]
    ensures exists m :: j <= m < |sc.order| && sc.order[m] == i && forall l :: j <= l <= m ==> sc.dist[sc.order[l]] < safe
    decreases |sc.order| - j
  {
    var i0 := sc.order[j];
    if st.cohort.status[i0] > 0 {
      PossibleStopsAtFar(st, sc, j + 1, round, safe, threshold, normal, i);
    } else if normal(st.draws) > threshold {
      PossibleStopsAtFar(Scanned(st.cohort, st.draws + 1), sc, j + 1, round, safe, threshold, normal, i);
    } else if i != i0 {
      var next := Scanned(Infect(st.cohort, i0, round), st.draws + 1);
      PossibleStopsAtFar(next, sc, j + 1, round, safe, threshold, normal, i);
    } else {
      assert j <= j < |sc.order| && sc.order[j] == i;
    }
  }

  /** Without infected or confirmed agents `infect_possible` infects no one. */
  lemma NoSourceNoInfection(st: Scanned, round: int, x: real, safe: real, scans: seq<Scan>, normal: nat -> real)
    requires st.cohort.Wf() && ScansFit(scans, |st.cohort.status|)
    requires forall i :: 0 <= i < |st.cohort.status| ==> st.cohort.status[i] != INFECTED && st.cohort.status[i] != CONFIRMED
    ensures InfectPossible(st, round, x, safe, scans, normal).cohort == st.cohort
  {
  }

  /** One source of `infect_nearest` changes at most one agent: either nobody,
      because every neighbour before the first far one is already sick, or the
      first healthy neighbour in distance order, all of whose predecessors are
      near and sick. */
  lemma {:induction false} NearestChangesOne(c: Cohort, sc: Scan, j: nat, round: int, safe: real)
    requires c.States() && sc.Fits(|c.status|) && j <= |sc.order|
    ensures var r := NearestFrom(c, sc, j, round, safe);
            (r == c && forall l :: j <= l < |sc.order| && c.status[sc.order[l]] == HEALTHY ==>
               exists m :: j <= m <= l && sc.dist[sc.order[m]] >= safe) ||
            (exists m :: j <= m < |sc.order| && r == Infect(c, sc.order[m], round) &&
               c.status[sc.order[m]] == HEALTHY &&
               (forall l :: j <= l <= m ==> sc.dist[sc.order[l]] < safe) &&
               (forall l :: j <= l < m ==> c.status[sc.order[l]] > 0))
    decreases |sc.order| - j
  {
    if j < |sc.order| {
      var i := sc.order[j];
      if sc.dist[i] >= safe {
        forall l | j <= l < |sc.order| && c.status[sc.order[l]] == HEALTHY
          ensures exists m :: j <= m <= l && sc.dist[sc.order[m]] >= safe
        {
          assert j <= j <= l;
        }
      } else if c.status[i] > 0 {
        NearestChangesOne(c, sc, j + 1, round, safe);
      } else {
        assert j <= j < |sc.order| && NearestFrom(c, sc, j, round, safe) == Infect(c, sc.order[j], round);
      }
    }
  }

  /** `infect_nearest` infects at most one agent per infected source. */
  lemma {:induction false} NearestAllAtMostOnePerSource(c: Cohort, sources: seq<nat>, scans: seq<Scan>, round: int, safe: real)
    requires c.States() && ScansFit(scans, |c.status|)
    requires forall q :: 0 <= q < |sources| ==> sources[q] < |scans|
    ensures NearestAll(c, sources, scans, round, safe).States()
    ensures Count(c.status, HEALTHY) - |sources| <= Count(NearestAll(c, sources, scans, round, safe).status, HEALTHY) <= Count(c.status, HEALTHY)
  {
    if sources != [] {
      var init := sources[..|sources| - 1];
      var before := NearestAll(c, init, scans, round, safe);
      NearestAllAtMostOnePerSource(c, init, scans, round, safe);
      var sc := scans[sources[|sources| - 1]];
      NearestChangesOne(before, sc, 0, round, safe);
      var r := NearestFrom(before, sc, 0, round, safe);
      if r != before {
        var m :| 0 <= m < |sc.order| && r == Infect(before, sc.order[m], round) && before.status[sc.order[m]] == HEALTHY;
        CountUpdate(before.status, sc.order[m], INFECTED, HEALTHY);
      }
    }
  }
}
