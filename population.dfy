/**
  The `People` class: positions, statuses and state-entry rounds of `count`
  agents, the round counter, and the hospital whose bed count caps isolation.
  Status and timer are fixed-size arrays updated in place; positions are a
  sequence that `move` replaces. Every random draw is a parameter.
*/
module Population {
  import opened Masks
  import opened Hospitals
  import opened Disease
  import opened Transmission
  import opened Movement

  /** `self._people[self._status == v]`: the positions of the agents in state `v`, in index order. */
  function Select(people: seq<Point>, status: seq<int>, v: int): (r: seq<Point>)
    requires |people| == |status|
    ensures |r| == Count(status, v)
    ensures var w := Where(EqMask(status, v));
            |r| == |w| && forall j :: 0 <= j < |r| ==> r[j] == people[w[j]]
  {
    if status == [] then []
    else
      var n := |status|;
      assert EqMask(status, v)[..n - 1] == EqMask(status[..n - 1], v);
      Select(people[..n - 1], status[..n - 1], v) + (if status[n - 1] == v then [people[n - 1]] else [])
  }

  /** A position occurs in the state-`v` view exactly when some agent in state `v` is there. */
  lemma SelectExactly(people: seq<Point>, status: seq<int>, v: int, p: Point)
    requires |people| == |status|
    ensures p in Select(people, status, v) <==> exists i :: 0 <= i < |status| && status[i] == v && people[i] == p
  {
    var r := Select(people, status, v);
    var m := EqMask(status, v);
    var w := Where(m);
    if p in r {
      var j :| 0 <= j < |r| && r[j] == p;
      assert status[w[j]] == v && people[w[j]] == p;
    }
    if exists i :: 0 <= i < |status| && status[i] == v && people[i] == p {
      var i :| 0 <= i < |status| && status[i] == v && people[i] == p;
      assert m[i];
      var j :| 0 <= j < |w| && w[j] == i;
      assert r[j] == p;
    }
  }

  /** `s` with every listed position set to `v`, one position after another. */
  ghost function Marked(s: seq<int>, picked: seq<nat>, v: int): (r: seq<int>)
    ensures |r| == |s|
  {
    if picked == [] then s
    else
      var before := Marked(s, picked[..|picked| - 1], v);
      var i := picked[|picked| - 1];
      if i < |before| then before[i := v] else before
  }

  /** A marked position holds `v`; any other holds what it held. */
  lemma {:induction false} MarkedAt(s: seq<int>, picked: seq<nat>, v: int, i: nat)
    requires forall p :: 0 <= p < |picked| ==> picked[p] < |s|
    requires i < |s|
    ensures Marked(s, picked, v)[i] == if i in picked then v else s[i]
  {
    if picked != [] {
      var init := picked[..|picked| - 1];
      MarkedAt(s, init, v, i);
      assert picked == init + [picked[|picked| - 1]];
    }
  }

  /** Every agent listed in `ks` is in state `v` in `s`. */
  ghost predicate AllAt(s: seq<int>, ks: seq<int>, v: int)
  {
    forall u :: 0 <= u < |ks| ==> 0 <= ks[u] < |s| && s[ks[u]] == v
  }

  /** `MarkedAt` for every position at once. */
  lemma MarkedMeaning(s: seq<int>, picked: seq<nat>, v: int)
    requires forall p :: 0 <= p < |picked| ==> picked[p] < |s|
    ensures forall i :: 0 <= i < |s| ==> Marked(s, picked, v)[i] == if i in picked then v else s[i]
  {
    forall i | 0 <= i < |s|
      ensures Marked(s, picked, v)[i] == if i in picked then v else s[i]
    {
      MarkedAt(s, picked, v, i);
    }
  }

  /** The bookkeeping of the draw loop of `random_people_state` after reading
      the draws `seen`: `picked` lists distinct drawn agents that were not in
      state `v` at the start, the statuses `s` and timers `t` are the starting
      ones `s0` and `t0` with exactly those agents set to `v` and `round`, and
      every agent drawn so far is now in state `v`, so `s` holds `|picked|`
      more `v` entries than `s0`. */
  ghost predicate Picks(s0: seq<int>, t0: seq<int>, s: seq<int>, t: seq<int>, picked: seq<nat>, seen: seq<int>, v: int, round: int)
  {
    |s0| == |t0| &&
    (forall p :: 0 <= p < |picked| ==> picked[p] < |s0| && s0[picked[p]] != v && picked[p] in seen) &&
    (forall p, q :: 0 <= p < q < |picked| ==> picked[p] != picked[q]) &&
    s == Marked(s0, picked, v) && t == Marked(t0, picked, round) &&
    AllAt(s, seen, v) && Count(s, v) == Count(s0, v) + |picked|
  }

  /** A draw `i` of an agent already in `v` keeps the bookkeeping unchanged. */
  lemma PicksSkip(s0: seq<int>, t0: seq<int>, s: seq<int>, t: seq<int>, picked: seq<nat>, seen: seq<int>, v: int, round: int, i: nat)
    requires Picks(s0, t0, s, t, picked, seen, v, round) && i < |s| && s[i] == v
    ensures Picks(s0, t0, s, t, picked, seen + [i], v, round)
  {
    var seen' := seen + [i];
    forall p | 0 <= p < |picked|
      ensures picked[p] in seen'
    {
      var u :| 0 <= u < |seen| && seen[u] == picked[p];
      assert seen'[u] == seen[u];
    }
    forall u | 0 <= u < |seen'|
      ensures 0 <= seen'[u] < |s| && s[seen'[u]] == v
    {
      if u < |seen| {
        assert seen'[u] == seen[u];
      }
    }
  }

  /** Marking one more position is one more update. */
  lemma MarkedAppend(s: seq<int>, picked: seq<nat>, v: int, i: nat)
    requires i < |s|
    ensures Marked(s, picked + [i], v) == Marked(s, picked, v)[i := v]
  {
    assert (picked + [i])[..|picked|] == picked;
  }

  /** Setting agent `i` to `v` keeps every listed agent in `v` and adds `i`. */
  lemma AllAtSet(s: seq<int>, seen: seq<int>, v: int, i: nat)
    requires AllAt(s, seen, v) && i < |s|
    ensures AllAt(s[i := v], seen + [i], v)
  {
    var seen' := seen + [i];
    forall u | 0 <= u < |seen'|
      ensures 0 <= seen'[u] < |s| && s[i := v][seen'[u]] == v
    {
      if u < |seen| {
        assert seen'[u] == seen[u];
      }
    }
  }

  /** A draw `i` of an agent not in `v` sets it and appends it to `picked`. */
  lemma PicksSet(s0: seq<int>, t0: seq<int>, s: seq<int>, t: seq<int>, picked: seq<nat>, seen: seq<int>, v: int, round: int, i: nat)
    requires Picks(s0, t0, s, t, picked, seen, v, round) && i < |s0| && s[i] != v
    ensures Picks(s0, t0, s[i := v], t[i := round], picked + [i], seen + [i], v, round)
  {
    MarkedAt(s0, picked, v, i);
    CountUpdate(s, i, v, v);
    MarkedAppend(s0, picked, v, i);
    MarkedAppend(t0, picked, round, i);
    AllAtSet(s, seen, v, i);
    var seen', next := seen + [i], picked + [i];
    forall p | 0 <= p < |next|
      ensures next[p] < |s0| && s0[next[p]] != v && next[p] in seen'
    {
      if p < |picked| {
        var u :| 0 <= u < |seen| && seen[u] == picked[p];
        assert seen'[u] == seen[u];
      } else {
        assert seen'[|seen|] == i;
      }
    }
    forall p, q | 0 <= p < q < |next|
      ensures next[p] != next[q]
    {
      assert next[p] == picked[p];
    }
  }

  /** What the loop's bookkeeping means once the first `used` draws are read:
      each agent ends in `v` with timer `round` if picked and is untouched
      otherwise, and each draw read was either picked or already in `v`. */
  lemma PicksMeaning(s0: seq<int>, t0: seq<int>, s: seq<int>, t: seq<int>, picked: seq<nat>, draws: seq<int>, used: nat, v: int, round: int)
    requires used <= |draws|
    requires Picks(s0, t0, s, t, picked, draws[..used], v, round)
    ensures forall i :: 0 <= i < |s0| ==>
              s[i] == (if i in picked then v else s0[i]) && t[i] == (if i in picked then round else t0[i])
    ensures forall u :: 0 <= u < used ==> draws[u] in picked || s0[draws[u]] == v
  {
    MarkedMeaning(s0, picked, v);
    MarkedMeaning(t0, picked, round);
    forall u | 0 <= u < used
      ensures draws[u] in picked || s0[draws[u]] == v
    {
      assert draws[..used][u] == draws[u];
    }
  }

  class People {
    const count: nat
    const firstInfectedCount: nat
    const hospital: Hospital
    var people: seq<Point>
    var status: array<int>
    var timer: array<int>
    var round: nat

    /** One status and one timer per agent, every status one of the four
        states, and no agent's state entered after the current round. */
    ghost predicate Valid()
      reads this, status, timer
    {
      status.Length == count && timer.Length == count && status != timer && |people| == count &&
      State().InRange(round)
    }

    ghost function State(): Cohort
      reads this, status, timer
    {
      Cohort(status[..], timer[..])
    }

    /** `People(count, first_infected_count, hospital)`: `init` with the given
        starting positions, then `reset` with the given index draws. */
    constructor (count: nat, firstInfectedCount: nat, hospital: Hospital, positions: seq<Point>, draws: seq<int>)
      requires |positions| == count && firstInfectedCount < count
      requires forall j :: 0 <= j < |draws| ==> 0 <= draws[j] < count
      ensures Valid() && round == 0 && people == positions
      ensures this.count == count && this.firstInfectedCount == firstInfectedCount && this.hospital == hospital
      ensures forall i :: 0 <= i < count ==> (status[i] == HEALTHY || status[i] == INFECTED) && timer[i] == 0
      ensures Count(status[..], INFECTED) <= firstInfectedCount
      ensures forall i :: 0 <= i < count && status[i] == INFECTED ==> i in draws
      ensures Count(status[..], INFECTED) == firstInfectedCount || forall j :: 0 <= j < |draws| ==> status[draws[j]] == INFECTED
    {
      this.count := count;
      this.firstInfectedCount := firstInfectedCount;
      this.hospital := hospital;
      people := positions;
      status := new int[count](_ => HEALTHY);
      timer := new int[count](_ => 0);
      round := 0;
      new;
      var picked, used := Reset(draws);
    }

    /** `reset`: round 0, everyone healthy with timer 0, then `first_infected_count`
        distinct agents infected. It reports the agents picked and the draws used. */
    method Reset(draws: seq<int>) returns (picked: seq<nat>, used: nat)
      requires |people| == count && firstInfectedCount < count
      requires forall j :: 0 <= j < |draws| ==> 0 <= draws[j] < count
      modifies this
      ensures Valid() && fresh(status) && fresh(timer)
      ensures round == 0 && people == old(people)
      ensures used <= |draws| && |picked| <= firstInfectedCount
      ensures |picked| < firstInfectedCount ==> used == |draws|
      ensures forall i :: 0 <= i < count ==> status[i] == (if i in picked then INFECTED else HEALTHY) && timer[i] == 0
      ensures Count(status[..], INFECTED) == |picked|
      ensures forall p :: 0 <= p < |picked| ==> picked[p] in draws[..used]
      ensures forall u :: 0 <= u < used ==> draws[u] in picked
      ensures firstInfectedCount == 0 ==> used == 0
      ensures 0 < firstInfectedCount == |picked| ==>
                0 < used && draws[used - 1] == picked[|picked| - 1] && draws[used - 1] !in draws[..used - 1]
    {
      Clear();
      picked, used := RandomPeopleState(firstInfectedCount, INFECTED, draws);
    }

    /** Lines 27-29 of `reset`: round 0 and fresh all-healthy arrays with timer 0. */
    method Clear()
      requires |people| == count
      modifies this
      ensures Valid() && fresh(status) && fresh(timer)
      ensures round == 0 && people == old(people)
      ensures forall i :: 0 <= i < count ==> status[i] == HEALTHY && timer[i] == 0
      ensures Count(status[..], INFECTED) == 0
    {
      round := 0;
      status := new int[count](_ => HEALTHY);
      timer := new int[count](_ => 0);
      CountZero(status[..], INFECTED);
    }

    /** `random_people_state(num, state)`: draw agent indices until `num` agents
        not already in `state` have been set to it. The source's index stream is
        endless and the loop may never finish; here the stream is `draws`, and
        the loop also stops when it is used up. */
    method RandomPeopleState(num: nat, state: int, draws: seq<int>) returns (picked: seq<nat>, used: nat)
      requires Valid() && num < count && HEALTHY <= state <= ISOLATED
      requires forall j :: 0 <= j < |draws| ==> 0 <= draws[j] < count
      modifies status, timer
      ensures Valid()
      ensures used <= |draws| && |picked| <= num
      ensures |picked| < num ==> used == |draws|
      ensures forall p :: 0 <= p < |picked| ==> picked[p] < count && old(status[picked[p]]) != state
      ensures forall p, q :: 0 <= p < q < |picked| ==> picked[p] != picked[q]
      ensures forall p :: 0 <= p < |picked| ==> picked[p] in draws[..used]
      ensures forall u :: 0 <= u < used ==> draws[u] in picked || old(status[draws[u]]) == state
      ensures forall i :: 0 <= i < count ==>
                status[i] == (if i in picked then state else old(status[i])) &&
                timer[i] == (if i in picked then round else old(timer[i]))
      ensures Count(status[..], state) == Count(old(status[..]), state) + |picked|
      ensures num == 0 ==> used == 0
      ensures 0 < num == |picked| ==>
                0 < used && draws[used - 1] == picked[num - 1] && draws[used - 1] !in draws[..used - 1]
    {
      ghost var s0, t0 := status[..], timer[..];
      picked, used := DrawUntil(num, state, draws);
      PicksMeaning(s0, t0, status[..], timer[..], picked, draws, used, state, round);
    }

    /** The loop of lines 38-44: passes of `Draw` until `num` agents are set
        or the draws run out, keeping the bookkeeping `Picks`. */
    method DrawUntil(num: nat, state: int, draws: seq<int>) returns (picked: seq<nat>, used: nat)
      requires Valid() && HEALTHY <= state <= ISOLATED
      requires forall j :: 0 <= j < |draws| ==> 0 <= draws[j] < count
      modifies status, timer
      ensures Valid()
      ensures used <= |draws| && |picked| <= num
      ensures |picked| < num ==> used == |draws|
      ensures Picks(old(status[..]), old(timer[..]), status[..], timer[..], picked, draws[..used], state, round)
      ensures num == 0 ==> used == 0
      ensures 0 < num == |picked| ==>
                0 < used && draws[used - 1] == picked[num - 1] && draws[used - 1] !in draws[..used - 1]
    {
      picked, used := [], 0;
      ghost var s0, t0 := status[..], timer[..];
      while |picked| < num && used < |draws|
        invariant Drawing(num, state, draws, picked, used, s0, t0)
        decreases |draws| - used
      {
        picked := Draw(draws, used, num, state, picked, s0, t0);
        used := used + 1;
      }
    }

    /** The state of the loop of lines 38-44 after `used` draws: `Picks` holds
        of the arrays, and once `num` agents are picked the last draw read is
        the last agent picked; a draw is read only when `num > 0`. */
    ghost predicate Drawing(num: nat, state: int, draws: seq<int>, picked: seq<nat>, used: nat, s0: seq<int>, t0: seq<int>)
      reads this, status, timer
    {
      Valid() && |s0| == count && used <= |draws| && |picked| <= num &&
      Picks(s0, t0, status[..], timer[..], picked, draws[..used], state, round) &&
      (0 < used ==> 0 < num) &&
      (0 < num == |picked| ==> 0 < used && draws[used - 1] == picked[num - 1] && draws[used - 1] !in draws[..used - 1])
    }

    /** One pass of the loop of lines 38-44 on the draw `draws[used]`: an agent
        already in `state` is skipped, any other is set to `state` and counted.
        `s0` and `t0` are the arrays before the first pass, `picked` the agents
        set so far. */
    method Draw(draws: seq<int>, used: nat, num: nat, state: int, picked: seq<nat>, ghost s0: seq<int>, ghost t0: seq<int>) returns (next: seq<nat>)
      requires Drawing(num, state, draws, picked, used, s0, t0)
      requires used < |draws| && 0 <= draws[used] < count && HEALTHY <= state <= ISOLATED && |picked| < num
      modifies status, timer
      ensures Drawing(num, state, draws, next, used + 1, s0, t0)
      ensures next == if old(status[draws[used]]) == state then picked else picked + [draws[used]]
    {
      var i := draws[used];
      assert draws[..used + 1] == draws[..used] + [i];
      if status[i] == state {
        PicksSkip(s0, t0, status[..], timer[..], picked, draws[..used], state, round, i);
        return picked;
      }
      PicksSet(s0, t0, status[..], timer[..], picked, draws[..used], state, round, i);
      SetState(i, state);
      next := picked + [i];
    }

    /** `set_state(i, state)`: the status and the timer of agent `i` are written together. */
    method SetState(i: nat, state: int)
      requires Valid() && i < count && HEALTHY <= state <= ISOLATED
      modifies status, timer
      ensures Valid()
      ensures status[..] == old(status[..])[i := state]
      ensures timer[..] == old(timer[..])[i := round]
    {
      status[i] := state;
      timer[i] := round;
    }

    /** `change_state(lp, hrt)` with the latency draw `d` of line 99, one value shared by all agents. */
    method ChangeState(lp: int, hrt: int, d: int)
      requires Valid() && 7 <= d < lp
      modifies status, timer
      ensures Valid()
      ensures State() == ChangeStep(old(State()), round, d, lp, hrt, hospital.Count())
    {
      var dt := DwellTimes(timer[..], round);
      ConfirmInfected(dt, d, lp);
      Hospitalize(dt, hrt);
    }

    /** Lines 100-101: infected agents whose dwell time equals `d` or exceeds `lp` are confirmed. */
    method ConfirmInfected(dt: seq<int>, d: int, lp: int)
      requires Valid() && |dt| == count
      modifies status, timer
      ensures Valid()
      ensures State() == Confirm(old(State()), dt, round, d, lp)
    {
      ghost var c0 := State();
      ghost var c1 := Confirm(c0, dt, round, d, lp);
      var i := 0;
      while i < count
        invariant 0 <= i <= count
        invariant forall k :: 0 <= k < i ==> status[k] == c1.status[k] && timer[k] == c1.timer[k]
        invariant forall k :: i <= k < count ==> status[k] == c0.status[k] && timer[k] == c0.timer[k]
      {
        if Confirms(status[i], dt[i], d, lp) {
          timer[i] := round;
          status[i] := status[i] + 1;
        }
        i := i + 1;
      }
      assert State() == c1;
    }

    /** The masked updates of lines 106-107 and 109-110: each listed confirmed
        agent gets `timer = round` and moves up to isolated; nobody else changes. */
    method Isolate(admitted: seq<nat>)
      requires Valid()
      requires forall j :: 0 <= j < |admitted| ==> admitted[j] < count && status[admitted[j]] == CONFIRMED
      requires forall j, l :: 0 <= j < l < |admitted| ==> admitted[j] < admitted[l]
      modifies status, timer
      ensures Valid()
      ensures State() == Admit(old(State()), admitted, round)
    {
      ghost var c1 := State();
      for j := 0 to |admitted|
        invariant forall k :: 0 <= k < count ==>
                    status[k] == (if k in admitted[..j] then c1.status[k] + 1 else c1.status[k]) &&
                    timer[k] == (if k in admitted[..j] then round else c1.timer[k])
      {
        var a := admitted[j];
        assert a !in admitted[..j];
        timer[a] := round;
        status[a] := status[a] + 1;
        assert admitted[..j + 1] == admitted[..j] + [a];
      }
      assert admitted[..|admitted|] == admitted;
      assert State() == Admit(c1, admitted, round);
    }

    /** Lines 103-110: while beds are free, confirmed agents with `dt >= hrt` are
        isolated, all of them if they fit and otherwise the first `empty` by index. */
    method Hospitalize(dt: seq<int>, hrt: int)
      requires Valid() && |dt| == count
      modifies status, timer
      ensures Valid()
      ensures State() == Admit(old(State()), Admitted(old(status[..]), dt, hrt, hospital.Count()), round)
      ensures hrt <= 0 ==> State() == Admit(old(State()), AdmittedAsWritten(old(status[..]), dt, hrt, hospital.Count()), round)
    {
      if hrt <= 0 {
        AsWrittenAgrees(status[..], dt, hrt, hospital.Count());
      }
      var admitted := [];
      var isolated := Count(status[..], ISOLATED);
      if hospital.Count() > isolated {
        var empty := hospital.Count() - isolated;
        var eligible := Where(EligibleMask(status[..], dt, hrt));
        if empty > |eligible| {
          admitted := eligible;
        } else {
          admitted := eligible[..empty];
        }
      }
      assert admitted == Admitted(status[..], dt, hrt, hospital.Count());
      Isolate(admitted);
    }

    /** The inner loop of `infect_possible` for one source: walk its neighbours
        nearest first until one is `safe` away, and infect each healthy one
        whose draw is at most `threshold`. */
    method Expose(sc: Scan, threshold: real, safe: real, normal: nat -> real, draws0: nat) returns (draws: nat)
      requires Valid() && sc.Fits(count)
      modifies status, timer
      ensures Valid()
      ensures Scanned(State(), draws) == PossibleFrom(Scanned(old(State()), draws0), sc, 0, round, safe, threshold, normal)
    {
      draws := draws0;
      ghost var goal := PossibleFrom(Scanned(State(), draws), sc, 0, round, safe, threshold, normal);
      var j := 0;
      while j < |sc.order|
        invariant 0 <= j <= |sc.order|
        invariant Valid()
        invariant PossibleFrom(Scanned(State(), draws), sc, j, round, safe, threshold, normal) == goal
      {
        var i := sc.order[j];
        if sc.dist[i] >= safe {
          break;
        }
        if status[i] > 0 {
          j := j + 1;
          continue;
        }
        ghost var st := Scanned(State(), draws);
        if normal(draws) > threshold {
          draws := draws + 1;
          j := j + 1;
          continue;
        }
        assert PossibleFrom(st, sc, j, round, safe, threshold, normal) ==
               PossibleFrom(Scanned(Infect(st.cohort, i, round), draws + 1), sc, j + 1, round, safe, threshold, normal);
        draws := draws + 1;
        status[i] := INFECTED;
        timer[i] := round;
        assert State() == Infect(st.cohort, i, round);
        j := j + 1;
      }
    }

    /** The outer loop of `infect_possible` over one list of sources, taken before the loop. */
    method Spread(sources: seq<nat>, threshold: real, safe: real, scans: seq<Scan>, normal: nat -> real, draws0: nat) returns (draws: nat)
      requires Valid() && ScansFit(scans, count)
      requires forall q :: 0 <= q < |sources| ==> sources[q] < count
      modifies status, timer
      ensures Valid()
      ensures Scanned(State(), draws) == PossibleAll(Scanned(old(State()), draws0), sources, scans, round, safe, threshold, normal)
    {
      draws := draws0;
      ghost var start := Scanned(State(), draws0);
      var q := 0;
      while q < |sources|
        invariant 0 <= q <= |sources|
        invariant Valid()
        invariant Scanned(State(), draws) == PossibleAll(start, sources[..q], scans, round, safe, threshold, normal)
      {
        ghost var done := sources[..q + 1];
        assert done[..q] == sources[..q] && done[q] == sources[q];
        draws := Expose(scans[sources[q]], threshold, safe, normal, draws);
        assert Scanned(State(), draws) == PossibleAll(start, done, scans, round, safe, threshold, normal);
        q := q + 1;
      }
      assert sources[..|sources|] == sources;
    }

    /** `infect_possible(x, safe_distance)`. The infected sources are listed when
        the first loop starts and the confirmed sources when the second starts;
        the draws used come after `draws0` and the method returns how far it read. */
    method InfectPossible(x: real, safe: real, scans: seq<Scan>, normal: nat -> real, draws0: nat) returns (draws: nat)
      requires Valid() && ScansFit(scans, count)
      modifies status, timer
      ensures Valid()
      ensures Scanned(State(), draws) == Transmission.InfectPossible(Scanned(old(State()), draws0), round, x, safe, scans, normal)
      ensures Count(status[..], HEALTHY) <= Count(old(status[..]), HEALTHY)
      ensures Count(status[..], ISOLATED) == Count(old(status[..]), ISOLATED)
    {
      ghost var c0 := State();
      var infected := Where(EqMask(status[..], INFECTED));
      draws := Spread(infected, x, safe, scans, normal, draws0);
      var confirmed := Where(EqMask(status[..], CONFIRMED));
      draws := Spread(confirmed, x + 0.3, safe, scans, normal, draws);
      InfectPossibleEvolves(Scanned(c0, draws0), round, x, safe, scans, normal);
      HealthyNonIncreasing(Scanned(c0, draws0), round, x, safe, scans, normal);
      CountSame(c0.status, status[..], ISOLATED);
    }

    /** The inner loop of `infect_nearest` for one source: walk its neighbours
        nearest first and infect the first healthy one closer than `safe`. */
    method Nearest(sc: Scan, safe: real)
      requires Valid() && sc.Fits(count)
      modifies status, timer
      ensures Valid()
      ensures State() == NearestFrom(old(State()), sc, 0, round, safe)
    {
      ghost var goal := NearestFrom(State(), sc, 0, round, safe);
      var j := 0;
      while j < |sc.order|
        invariant 0 <= j <= |sc.order|
        invariant Valid()
        invariant NearestFrom(State(), sc, j, round, safe) == goal
      {
        var i := sc.order[j];
        if sc.dist[i] >= safe {
          break;
        }
        if status[i] > 0 {
          j := j + 1;
          continue;
        }
        ghost var c := State();
        assert goal == Infect(c, i, round);
        status[i] := INFECTED;
        timer[i] := round;
        assert State() == Infect(c, i, round);
        return;
      }
    }

    /** `infect_nearest(safe_distance)`: each infected source, listed when the
        loop starts, infects its nearest healthy neighbour closer than `safe`. */
    method InfectNearest(safe: real, scans: seq<Scan>)
      requires Valid() && ScansFit(scans, count)
      modifies status, timer
      ensures Valid()
      ensures State() == Transmission.InfectNearest(old(State()), round, safe, scans)
    {
      ghost var start := State();
      var sources := Where(EqMask(status[..], INFECTED));
      var q := 0;
      while q < |sources|
        invariant 0 <= q <= |sources|
        invariant Valid()
        invariant State() == NearestAll(start, sources[..q], scans, round, safe)
      {
        ghost var done := sources[..q + 1];
        assert done[..q] == sources[..q] && done[q] == sources[q];
        Nearest(scans[sources[q]], safe);
        assert State() == NearestAll(start, done, scans, round, safe);
        q := q + 1;
      }
      assert sources[..|sources|] == sources;
    }

    /** `move(width, x)` as written, with the displacement draws (of spread
        `width`) and the switch draws given: an agent keeps its position exactly
        when it is not isolated and its switch is off. */
    method Move(movement: seq<Point>, normals: seq<real>, x: real)
      requires Valid() && |movement| == count && |normals| == count
      modifies this`people
      ensures Valid()
      ensures |people| == count
      ensures forall i :: 0 <= i < count ==>
                people[i] == if status[i] != ISOLATED && !(normals[i] < x) then old(people[i]) else Add(old(people[i]), movement[i])
    {
      people := Displace(people, movement, MoveMask(status[..], normals, x));
    }

    /** `move` with the mask its comment describes: isolated agents and
        agents whose switch is off keep their positions, all others move. */
    method MoveConfined(movement: seq<Point>, normals: seq<real>, x: real)
      requires Valid() && |movement| == count && |normals| == count
      modifies this`people
      ensures Valid()
      ensures |people| == count
      ensures forall i :: 0 <= i < count ==>
                people[i] == if status[i] == ISOLATED || !(normals[i] < x) then old(people[i]) else Add(old(people[i]), movement[i])
    {
      people := Displace(people, movement, ConfinedMask(status[..], normals, x));
    }

    /** `update`: `change_state(14, 0)`, `affect(5)` (that is `infect_possible`
        with `x = 5` and safe distance 2), `move(5, 2)`, then the round advances.
        An isolated count within the hospital's capacity stays within it. */
    method Update(d: int, scans: seq<Scan>, normal: nat -> real, draws0: nat, movement: seq<Point>, normals: seq<real>) returns (draws: nat)
      requires Valid() && 7 <= d < 14 && ScansFit(scans, count)
      requires |movement| == count && |normals| == count
      modifies this, status, timer
      ensures Valid() && round == old(round) + 1
      ensures status == old(status) && timer == old(timer)
      ensures Scanned(State(), draws) ==
                Transmission.InfectPossible(Scanned(ChangeStep(old(State()), old(round), d, 14, 0, hospital.Count()), draws0),
                                            old(round), 5.0, 2.0, scans, normal)
      ensures people == Displace(old(people), movement, MoveMask(status[..], normals, 2.0))
      ensures Count(old(status[..]), ISOLATED) <= hospital.Count() ==> Count(status[..], ISOLATED) <= hospital.Count()
    {
      ghost var c0 := State();
      ghost var p0 := people;
      ChangeState(14, 0, d);
      ghost var c1 := State();
      assert c1 == ChangeStep(c0, round, d, 14, 0, hospital.Count());
      IsolatedWithinCapacity(c0, round, d, 14, 0, hospital.Count());
      draws := InfectPossible(5.0, 2.0, scans, normal, draws0);
      assert Scanned(State(), draws) == Transmission.InfectPossible(Scanned(c1, draws0), round, 5.0, 2.0, scans, normal);
      assert Count(status[..], ISOLATED) == Count(c1.status, ISOLATED);
      ghost var c2 := State();
      Move(movement, normals, 2.0);
      assert State() == c2;
      assert people == Displace(p0, movement, MoveMask(status[..], normals, 2.0));
      round := round + 1;
    }

    /** The `healthy` property. */
    function Healthy(): (r: seq<Point>)
      reads this, status, timer
      requires Valid()
      ensures |r| == Count(status[..], HEALTHY)
      ensures var w := Where(EqMask(status[..], HEALTHY));
              |r| == |w| && forall j :: 0 <= j < |r| ==> r[j] == people[w[j]]
    {
      Select(people, status[..], HEALTHY)
    }

    /** The `infected` property. */
    function Infected(): (r: seq<Point>)
      reads this, status, timer
      requires Valid()
      ensures |r| == Count(status[..], INFECTED)
      ensures var w := Where(EqMask(status[..], INFECTED));
              |r| == |w| && forall j :: 0 <= j < |r| ==> r[j] == people[w[j]]
    {
      Select(people, status[..], INFECTED)
    }

    /** The `confirmed` property. */
    function Confirmed(): (r: seq<Point>)
      reads this, status, timer
      requires Valid()
      ensures |r| == Count(status[..], CONFIRMED)
      ensures var w := Where(EqMask(status[..], CONFIRMED));
              |r| == |w| && forall j :: 0 <= j < |r| ==> r[j] == people[w[j]]
    {
      Select(people, status[..], CONFIRMED)
    }

    /** The `isolated` property. */
    function Isolated(): (r: seq<Point>)
      reads this, status, timer
      requires Valid()
      ensures |r| == Count(status[..], ISOLATED)
      ensures var w := Where(EqMask(status[..], ISOLATED));
              |r| == |w| && forall j :: 0 <= j < |r| ==> r[j] == people[w[j]]
    {
      Select(people, status[..], ISOLATED)
    }

    /** `over`: the run is over when no healthy agent is left. */
    function Over(): (r: bool)
      reads this, status, timer
      requires Valid()
      ensures r <==> forall i :: 0 <= i < count ==> status[i] != HEALTHY
    {
      CountZero(status[..], HEALTHY);
      |Healthy()| == 0
    }

    /** The four filtered views together hold every agent once. */
    lemma FiltersPartition()
      requires Valid()
      ensures |Healthy()| + |Infected()| + |Confirmed()| + |Isolated()| == count
    {
      Partition(status[..]);
    }
  }
}
