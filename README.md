# COVID-19 agent simulation: state bookkeeping and hospital beds

A Dafny model of the core of `COVID-19-Simulation.py`: the `Hospital` bed
grid and the disease-state bookkeeping of the `People` class. Every agent has
a status (0 healthy, 1 infected, 2 confirmed, 3 isolated) and a timer that
records the round in which it entered that status. Each round `update` runs
three steps and then advances the round counter:

- `change_state` confirms infected agents by dwell time and isolates
  confirmed agents while hospital beds are free;
- `infect_possible` lets infected and confirmed agents infect healthy
  neighbours that are closer than a safe distance;
- `move` displaces the agents its mask lets through.

Modules follow the program's structure:

- `Masks` (`masks.dfy`): the numpy idioms the code is written in. These are
  the mask `status == v` (`EqMask`), its count `len(...)` (`Count`, as in
  lines 103-104 and 171), the index list `np.where(...)[0]` (`Where`), and
  "the first `k` selected entries" (`FirstK`).
- `Hospitals` (`hospital.dfy`): `Hospital.__init__`. `np.arange`, `np.tile`
  and `np.repeat` are written out, and the bed formula is proved from them.
- `Disease` (`disease.dfy`): `change_state` as functions on a `Cohort`, the
  status and timer arrays taken as sequences. Its building blocks are
  `DwellTimes` (the `dt` of line 96) and `EligibleMask` (the mask
  `(status == 2) & (dt >= hrt)` of lines 106-110).
- `Transmission` (`transmission.dfy`): `infect_possible` and
  `infect_nearest` as functions over each source's distance-sorted
  neighbour list. `Infect` is the write of status 1 and timer = round at
  lines 129-131 and 149-151.
- `Movement` (`movement.dfy`): the switch draw and the displacement mask of
  `move`. `ZeroedAsWritten` is one agent's entry of the line-91 mask,
  grouped as Python groups it.
- `Population` (`population.dfy`): the class `People`. `_status` and
  `_timer` are arrays written in place. `_people` is a sequence that `move`
  replaces. Each method is proved against the functions above.

Randomness is passed in:

- `randint(7, lp)` of `change_state` is the parameter `d`.
- The standard-normal draws of `infect_possible` come from an oracle
  `normal: nat -> real`, read in call order. The methods take the index of
  the first unread draw and return the index of the first draw still unread
  after them.
- The index stream of `random_people_state` is a finite sequence `draws`.
- The displacements and the switch draws of `move` are sequences, one entry
  per agent.
- The distances and their `argsort` are supplied per source agent as a `Scan`.

Where the source and its description disagree, the model follows the code:

- One latency draw `d` is shared by all agents in a round (line 99), not one
  draw per agent.
- An infected agent that is confirmed in a round can be isolated in the same
  round. Line 106 tests the old `dt`, which was computed at line 96 before the
  timer was reset.
- Line 91 does not keep isolated agents in place (see Findings).
- Line 105 compares `empty` with a mask that groups as
  `((status == 2) & dt) >= hrt` (see Findings). `Disease.AdmittedAsWritten`
  keeps that grouping. `Disease.Admitted`, and with it `Disease.ChangeStep`,
  `Population.People.ChangeState` and `Population.People.Hospitalize`, use
  the test parenthesised as lines 106-110 are. The two agree for `hrt <= 0`
  (`Disease.AsWrittenAgrees`), and line 195 passes `hrt = 0`. With that
  value, the first `min(empty, #eligible)` eligible agents are admitted.

## Model

| member | source | states |
|---|---|---|
| `Hospitals.Hospital.Beds` | COVID-19-Simulation.py:9-12 | there are `width*height` beds, one per unit of capacity |
| `Hospitals.Tile` | COVID-19-Simulation.py:11 | `np.tile(s, reps)` has the length of `s` times `reps` entries; what each entry holds is the lemma `Hospitals.TileAt` |
| `Hospitals.Repeat` | COVID-19-Simulation.py:12 | `np.repeat(s, reps)` has the length of `s` times `reps` entries; what each entry holds is the lemma `Hospitals.RepeatAt` |
| `Hospitals.TileAt` | COVID-19-Simulation.py:11 | row `r` of `np.tile(s, reps)` is a copy of `s` |
| `Hospitals.RepeatAt` | COVID-19-Simulation.py:12 | block `r` of `np.repeat(s, reps)` holds `reps` copies of `s[r]` |
| `Hospitals.BedInGrid` | COVID-19-Simulation.py:10-12 | the bed in row `r`, column `c` is bed `r*width + c`, at (400 + c, -200 + r); the columns are built with `Arange` (`np.arange`, entry `k` is `lo + k`), `Tile` and `Repeat` as in the source |
| `Hospitals.BedAt` | COVID-19-Simulation.py:9-12 | every bed `k < width*height` is at (400 + k mod width, -200 + k div width) |
| `Masks.Where` | COVID-19-Simulation.py:109-110 | `np.where(m)[0]` lists exactly the selected indices, in strictly ascending order |
| `Masks.WhereLength` | COVID-19-Simulation.py:105-110 | the count by boolean indexing of line 105 (`len(a[mask])`) equals the number of indices `np.where(mask)[0]` of lines 109-110 lists |
| `Masks.WhereRank` | COVID-19-Simulation.py:109-110 | the `j`-th listed index has exactly `j` selected entries before it |
| `Masks.WherePrefix` | COVID-19-Simulation.py:109-110 | the slice `np.where(m)[0][0:k]` holds an index iff it is selected and fewer than `k` selected entries precede it |
| `Masks.FirstKCount` | COVID-19-Simulation.py:109-110 | keeping the first `k` selected entries keeps `min(k, #selected)` of them |
| `Masks.CountZero` | COVID-19-Simulation.py:170-171 | a state has count 0 iff no agent is in it |
| `Masks.CountUpdate` | COVID-19-Simulation.py:46-49 | overwriting one status changes each state's count by the value removed and the value written |
| `Masks.CountMono` | COVID-19-Simulation.py:145-151 | if every agent in state `v` afterwards was in `v` before, the count of `v` does not rise |
| `Masks.CountSame` | COVID-19-Simulation.py:138-168 | agents holding `v` in the same places give the same count of `v` |
| `Masks.CountShift` | COVID-19-Simulation.py:107 | moving the selected agents into `v` raises the count of `v` by the number selected |
| `Masks.Partition` | COVID-19-Simulation.py:71-85 | with statuses in 0..3, the four state counts add up to the population |
| `Masks.CountTrueAll` | COVID-19-Simulation.py:105 | a mask selecting every entry selects as many entries as it has |
| `Disease.AdmittedAsWritten` | COVID-19-Simulation.py:103-110 | as written, admission lists only confirmed agents with `dt >= hrt`, in ascending index order; it has no capacity bound |
| `Disease.Admitted` | COVID-19-Simulation.py:103-110 | corrected admission lists eligible agents in ascending order, and never more than the free beds |
| `Disease.AsWrittenAgrees` | COVID-19-Simulation.py:103-110 | for `hrt <= 0`, the as-written admission equals the corrected one |
| `Disease.QuirkMask` | COVID-19-Simulation.py:105 | the mask line 105 counts: every agent for `hrt <= 0`; for `hrt = 1`, the confirmed agents with an odd `dt`; nobody for `hrt > 1` |
| `Disease.Confirm` | COVID-19-Simulation.py:100-101 | an infected agent with `dt == d` or `dt > lp` becomes confirmed with timer = round; every other agent keeps its status and timer |
| `Disease.Admit` | COVID-19-Simulation.py:106-110 | an agent changes exactly when it is listed; a listed agent moves up one state with timer = round, and every other agent keeps its timer |
| `Disease.ChangeStep` | COVID-19-Simulation.py:95-110 | no status falls; healthy and isolated agents are untouched; an agent whose status stays keeps its timer, and one whose status changes gets timer = round |
| `Disease.OverAdmissionAsWritten` | COVID-19-Simulation.py:105-107 | as written, `hrt = 1` with one free bed and two confirmed agents of dwell time 2 admits both |
| `Disease.AdmittedLowestFirst` | COVID-19-Simulation.py:103-110 | agent `i` is admitted iff beds are free, `i` is eligible, and fewer eligible agents than free beds have a lower index |
| `Disease.AdmittedCount` | COVID-19-Simulation.py:103-110 | admission takes exactly `min(empty, #eligible)` agents when `isolated < capacity`, and none otherwise |
| `Disease.ChangeStepAgent` | COVID-19-Simulation.py:95-110 | healthy and isolated agents are untouched. An infected agent leaves state 1 with timer = round exactly when `dt == d` or `dt > lp` (old `dt`), and otherwise is unchanged. A confirmed agent stays confirmed or is isolated. A timer changes only with its status, and a changed status rises and carries timer = round |
| `Disease.ChangeStepInRange` | COVID-19-Simulation.py:95-110 | `change_state` keeps statuses in 0..3 and timers at most the round |
| `Disease.AdmitIsolates` | COVID-19-Simulation.py:106-110 | admitting a list of confirmed agents raises the isolated count by exactly the number of agents listed |
| `Disease.IsolatedWithinCapacity` | COVID-19-Simulation.py:103-110 | an isolated count below capacity ends at most at capacity; a count at or above capacity does not change |
| `Transmission.PossibleFrom` | COVID-19-Simulation.py:142-168 | one source's scan leaves every agent with status above 0 as it was, and the draw counter never goes back |
| `Transmission.PossibleAll` | COVID-19-Simulation.py:138-168 | the same over a list of sources scanned in turn |
| `Transmission.InfectPossible` | COVID-19-Simulation.py:134-168 | the same for both passes of `infect_possible` |
| `Transmission.PossibleFromEvolves` | COVID-19-Simulation.py:142-151 | one source's scan only turns healthy agents into infected ones with timer = round; the draw counter only advances |
| `Transmission.PossibleAllEvolves` | COVID-19-Simulation.py:138-168 | the same holds for a whole list of sources |
| `Transmission.InfectPossibleEvolves` | COVID-19-Simulation.py:134-168 | `infect_possible` never lowers a status. It changes a status or a timer only by turning a healthy agent into an infected one with timer = round |
| `Transmission.HealthyNonIncreasing` | COVID-19-Simulation.py:134-168 | the healthy count does not rise during `infect_possible` |
| `Transmission.ConfirmedSourcesAtEntry` | COVID-19-Simulation.py:138-153 | the confirmed list read when the second loop starts equals the confirmed agents at entry |
| `Transmission.PossibleStopsAtFar` | COVID-19-Simulation.py:142-144 | a source's scan changes only neighbours it reaches before the first neighbour at distance `>= safe_distance` |
| `Transmission.NoSourceNoInfection` | COVID-19-Simulation.py:134-168 | no infected or confirmed agent means `infect_possible` infects no one |
| `Transmission.NearestFrom` | COVID-19-Simulation.py:124-132 | one source's nearest-infection scan leaves every agent with status above 0 as it was |
| `Transmission.NearestAll` | COVID-19-Simulation.py:120-132 | the same over a list of sources scanned in turn |
| `Transmission.InfectNearest` | COVID-19-Simulation.py:118-132 | the same for `infect_nearest` over the infected agents at entry |
| `Transmission.NearestChangesOne` | COVID-19-Simulation.py:124-132 | one source of `infect_nearest` either changes nobody, or infects only the first healthy neighbour in distance order whose distance is `< safe_distance` |
| `Transmission.NearestAllAtMostOnePerSource` | COVID-19-Simulation.py:118-132 | `infect_nearest` lowers the healthy count by at most the number of infected sources |
| `Movement.BitOr` | COVID-19-Simulation.py:91 | the bitwise or of two 0/1 values is 0 exactly when both are 0 |
| `Movement.ZeroedAsWrittenMeaning` | COVID-19-Simulation.py:91 | the mask as Python parses it zeroes a displacement iff the agent is not isolated and its switch is off |
| `Movement.IsolatedAgentMovesAsWritten` | COVID-19-Simulation.py:87-93 | as written, an isolated agent whose switch is on is displaced |
| `Movement.IsolatedAgentStaysIntended` | COVID-19-Simulation.py:89-92 | with the intended mask an isolated agent keeps its position |
| `Movement.MoveMask` | COVID-19-Simulation.py:67-91 | entry `i` of the line-91 mask is set iff agent `i` is not isolated and its switch draw is not below `x` (`Switch` is `np.where(normal < x, 1, 0)` of line 68) |
| `Movement.ConfinedMask` | COVID-19-Simulation.py:89-92 | entry `i` of the intended mask is set iff agent `i` is isolated or its switch is off |
| `Movement.Displace` | COVID-19-Simulation.py:91-93 | each agent's new position is its old one plus its displacement, with the displacement set to (0, 0) where the mask is set |
| `Population.Select` | COVID-19-Simulation.py:71-85 | a state filter holds as many positions as agents in that state, and entry `j` is the position of the `j`-th such agent in index order |
| `Population.SelectExactly` | COVID-19-Simulation.py:71-85 | a position is in a state filter iff some agent in that state is there, in both directions |
| `Population.People.constructor` | COVID-19-Simulation.py:16-30 | a new population has the given positions and round 0. Statuses are 0 or 1 and timers 0; at most `first_infected_count` agents are infected, each of them named in `draws`, and fewer only when every agent named in `draws` is infected |
| `Population.People.Reset` | COVID-19-Simulation.py:26-30 | all agents are healthy with timer 0 except those picked; these are infected at round 0 and fill the requested count unless the draws ran out. Every pick is a draw read and every draw read is picked; with `first_infected_count = 0` no draw is read, and once the count is filled the last draw read is the last pick and occurs nowhere earlier in the draws read |
| `Population.People.Clear` | COVID-19-Simulation.py:27-29 | round 0 and fresh arrays, every agent healthy with timer 0, so no agent is infected |
| `Population.People.RandomPeopleState` | COVID-19-Simulation.py:32-44 | the picked agents are distinct, were not in `state` before and come from the draws read; every draw read is either picked or was already in `state`. Each picked agent is now in `state` with timer = round, no other agent changes, and the count of `state` rises by exactly the number picked (`num` unless the draws ran out). With `num = 0` no draw is read; once `num` agents are picked, the last draw read is the last pick and occurs nowhere earlier in the draws read, so `used` is the first draw that completes the count |
| `Population.People.DrawUntil` | COVID-19-Simulation.py:37-44 | the loop ends with `num` agents picked or every draw read; the picks are distinct drawn agents not in `state` at the start, the arrays are the starting ones with exactly the picks set to `state` and the round, every agent drawn so far is in `state`, and the count of `state` rose by the number picked; a draw is read only when `num > 0`, and once `num` agents are picked the last draw read is the last pick and occurs nowhere earlier in the draws read |
| `Population.People.Draw` | COVID-19-Simulation.py:39-44 | one pass: a draw already in `state` is skipped and nothing changes; any other draw is set to `state` with timer = round and appended to the picks, keeping the same bookkeeping with one more draw read |
| `Population.PicksMeaning` | COVID-19-Simulation.py:38-44 | once the loop stops, each agent is in `state` with timer = round if picked and untouched otherwise, and every draw read was picked or already in `state` |
| `Population.People.SetState` | COVID-19-Simulation.py:46-49 | `status[i] = state` and `timer[i] = round`; every other agent and the round are unchanged |
| `Population.People.ChangeState` | COVID-19-Simulation.py:95-110 | the new status and timer arrays are those `change_state` specifies for the old arrays, with `d` shared by all agents |
| `Population.People.ConfirmInfected` | COVID-19-Simulation.py:96-101 | the in-place masked update results in the confirm step computed from the old arrays and the once-computed `dt` |
| `Population.People.Hospitalize` | COVID-19-Simulation.py:103-110 | the in-place update isolates exactly the agents of the corrected admission, with timer = round; for `hrt <= 0` these are the agents lines 103-110 admit as written |
| `Population.People.Isolate` | COVID-19-Simulation.py:106-110 | for a list of distinct confirmed agents, the agents listed become isolated with timer = round and every other agent is unchanged; the population stays within the four states |
| `Population.People.Expose` | COVID-19-Simulation.py:142-151 | the loop with `break`/`continue` over one source's neighbours leaves the arrays and the draw counter as the one-source scan specifies |
| `Population.People.Spread` | COVID-19-Simulation.py:138-151 | the loop over the sources listed before it starts results in the one-source scan of each of them in turn, the draws read in order |
| `Population.People.InfectPossible` | COVID-19-Simulation.py:134-168 | the arrays after the call are those `infect_possible` specifies. Source lists are snapshots taken at loop entry. The healthy count does not rise and the isolated count does not change |
| `Population.People.Nearest` | COVID-19-Simulation.py:124-132 | the scan of one source's neighbours leaves the arrays as the one-source nearest-infection step specifies: at most the first healthy neighbour within range is infected |
| `Population.People.InfectNearest` | COVID-19-Simulation.py:118-132 | the arrays after the call are those `infect_nearest` specifies, over the infected sources at entry |
| `Population.People.Move` | COVID-19-Simulation.py:87-93 | as written: an agent keeps its position exactly when it is not isolated and its switch is off. Otherwise it moves by its displacement |
| `Population.People.MoveConfined` | COVID-19-Simulation.py:87-93 | corrected: isolated agents and agents whose switch is off keep their positions; all others move |
| `Population.People.Update` | COVID-19-Simulation.py:193-198 | one round keeps the invariant and advances the round by one. Status, timer and the draw counter are `change_state(14, 0)` followed by `infect_possible(5, 2)` on the old state; the positions are the old ones moved under the line-91 mask. An isolated count within capacity stays within it |
| `Population.People.Healthy` | COVID-19-Simulation.py:71-73 | the healthy view holds the positions of the healthy agents in index order, one per agent |
| `Population.People.Infected` | COVID-19-Simulation.py:75-77 | the infected view holds the positions of the infected agents in index order, one per agent |
| `Population.People.Confirmed` | COVID-19-Simulation.py:79-81 | the confirmed view holds the positions of the confirmed agents in index order, one per agent |
| `Population.People.Isolated` | COVID-19-Simulation.py:83-85 | the isolated view holds the positions of the isolated agents in index order, one per agent |
| `Population.People.Over` | COVID-19-Simulation.py:170-171 | the run is over iff no agent is healthy |
| `Population.People.FiltersPartition` | COVID-19-Simulation.py:71-85 | the four views together hold exactly `count` positions |

## Left out

- `report` (lines 173-191) and the `__main__` driver with its pacing (lines 202-211) are rendering and I/O. `update` is modelled without its final `report()` call.
- The random distributions are not modelled (`np.random.normal` and `np.random.randint`, lines 23, 39, 57, 67, 99, 147 and 164). Their values are parameters, and `random_movement` and `random_switch` reduce to those.
- The Euclidean distances and `argsort` (lines 121-123, 139-141, 154-156) are given as each source's `Scan`. Nothing ties a scan to the positions, and its sortedness is not assumed.
- Positions are exact real pairs, not floating point. The initial Gaussian positions of `init` (line 23) are a constructor parameter.
- Integers are unbounded. The source's 64-bit numpy integers would only matter after about 2^63 rounds.
- `affect` (lines 114-116) only forwards to `infect_possible`; `Update` calls `InfectPossible` directly.
- Population.People.RandomPeopleState: the source's index stream never ends, so its loop can run forever (the TODO at line 36). The model reads a finite stream and reports the agents it picked when the stream runs out. The `assert self.count > num` of line 35 is a precondition, and `state` must be one of the four states.
- Population.People.constructor: it does not report the agents `reset` picked or the draws it read; `Reset` states those.
- Population.People.Hospitalize: for `hrt > 0` it admits by the corrected test, not by line 105's grouping. Its contract states the as-written admission only for `hrt <= 0`, where the two agree.
- Population.People.ChangeState: it ends in `Disease.ChangeStep`, which uses the corrected admission test. For `hrt > 0` this is not what line 105 does; the only call passes `hrt = 0`.
- Disease.ChangeStep: it admits by `Disease.Admitted`, the corrected test. It matches the source only for `hrt <= 0` (`Disease.AsWrittenAgrees`).
- Population.People.ChangeState: `requires 7 <= d < lp` leaves out the `ValueError` that `randint(7, lp)` raises when `lp <= 7`. The only call passes `lp = 14`.
- Population.People.Update: it follows the source and uses the as-written `Move`, so isolated agents can move during a round. `MoveConfined` is the corrected step.

## Findings

| source | as written | input that shows it | evidently intended | confidence | as-written member | corrected member |
|---|---|---|---|---|---|---|
| COVID-19-Simulation.py:105 | `(status == 2) & dt >= hrt` groups as `((status == 2) & dt) >= hrt`, which counts agents by the lowest bit of `dt`. The all-eligible branch can then admit more agents than there are free beds | `hrt = 1`, one free bed, two confirmed agents with `dt = 2`: both are admitted | compare `empty` with the number of agents with `status == 2` and `dt >= hrt`, as lines 106-110 do | not executed; harmless for the `hrt = 0` of line 195 | `Disease.OverAdmissionAsWritten` | `Disease.Admitted` |
| COVID-19-Simulation.py:91 | the mask `(status == 3) OR switch == 0`, with Python's bitwise or, groups as `((status == 3) OR switch) == 0`, which zeroes only non-isolated agents whose switch is off | one isolated agent whose switch draw 0 is below `x = 2`, with displacement (1, 0): it moves to (1, 0) | `(status == 3) OR (switch == 0)`: isolated agents stay put, as the comment at line 89 says | not executed | `Movement.IsolatedAgentMovesAsWritten` | `Population.People.MoveConfined` |
