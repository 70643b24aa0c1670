# State-based conflict detection and the experiment-area plugin

This project models two cooperating parts of an air-traffic simulator's airborne-separation
logic and proves properties of the model.

**Per-tick conflict detection (`StateBasedCD.detect`).** For every ordered pair of aircraft,
detection builds two conflict windows:
- a horizontal window, centred on the closest point of approach (CPA);
- a vertical window, bounded by the times the altitude difference crosses +dh and -dh.

Where the two windows overlap within the lookahead, the pair is in conflict. Each conflicting
pair is then registered under a canonical key: the two callsigns, sorted and joined by a space.
The key goes into:
- the persistent, duplicate-free key lists: `conflist_all`, `conflist_reallyall`,
  `conflist_exp`, `LOSlist_all` and `LOSlist_exp`;
- the per-tick lists `conflist_now` and `LOSlist_now`.

Registration also updates:
- two lifetime counters, `confcount` and `LOScount`;
- the running maximum severities of each loss of separation (LOS).

**Resume navigation (`ResumeNav`).** It then decides, for each key of a snapshot of
`conflist_all`, one of three outcomes:
- ignore the pair, using the zone rules of `checkZone` and `diffZones`;
- keep the resolution active;
- release the pair: send both aircraft back to their active waypoint and drop the key.

**The experiment-area plugin (`plugins/area.py`).** The `Area` object:
- deletes the aircraft that leave the experiment area;
- first takes their pairs out of the ASAS `_now` lists, so that the end of each conflict is
  logged;
- on every update compares the ASAS lists with the snapshots it took last time, and emits
  creation (CRE) and deletion (DEL) events;
- answers the `AREA` command.

## How the model is built

**Modules and shape.**
- `Geometry` holds the vectorised window arithmetic, pair by pair, as pure functions.
- `Zones` models `checkZone`, which loops over an array: it is a method over an `array<int>`,
  proved equal to a zone function.
- The registration loop of `detect` is a pure step (`Registry.RegStep`), folded over the pairs
  of a tick (`Registry.RegFold`).
- The class `StateBasedCD.Asas` runs the same loop on its fields. Each method is proved equal
  to the fold.
- `ResumeNav` is modelled the same way: `ResumeNavigation.NavStep` and `NavFold` are the
  functions, and `Asas.ResumeNav`, `ResumeKeys` and `ResumePair` are the methods.
- `AreaPlugin.Area` is a class with the plugin's fields, with one method per plugin method.
- Module-level methods hold the two loops that touch no object field: the event comprehensions
  and the inner key-removal loops.

**Asas fields.** Of the ASAS attributes that `detect` writes, the model keeps sixteen in
`Asas.reg`:
- `iconf`, `ilos`, `confpairs` and `altowncpa`;
- the seven key lists;
- the two counters;
- the three severity maps.

They are one record field, which the methods reassign. `swasas`, `nconf` and `active` are
fields of their own. `latowncpa`, `lonowncpa` and the stored matrices are not kept; see
"Left out".

**Inputs.** The geometry library's results are inputs, one `PairGeo` per ordered pair: the
distance, the relative position and the relative velocity. The square root is a parameter.

## Model

| member | source | states |
|---|---|---|
| Lists.AppendNew | bluesky/traffic/asas/StateBasedCD.py:174-185 | `if x not in s: s.append(x)` adds exactly x to the elements, keeps a duplicate-free list duplicate-free, and grows it by one exactly when x was absent |
| Lists.AppendAllNewGrowth | bluesky/traffic/asas/StateBasedCD.py:177-179 | appending keys one by one to a duplicate-free list grows it by exactly the number of keys it did not hold |
| Lists.Minus | plugins/area.py:232-234 | the comprehension `[x for x in a if x not in b]` holds exactly the elements of a outside b, without duplicates when a has none |
| Lists.RemoveFirst | bluesky/traffic/asas/StateBasedCD.py:368 | `list.remove(x)` of a present x shortens the list by one and adds nothing; an absent x leaves the list unchanged |
| Lists.RemoveFirstOrder | bluesky/traffic/asas/StateBasedCD.py:368 | `list.remove(x)` of a present x removes exactly its first occurrence and keeps the order of the rest |
| Lists.RemoveFirstIsFilter | plugins/area.py:214-216 | in a duplicate-free list, removing the first occurrence of a key removes the key entirely |
| Lists.IndexOf | bluesky/traffic/asas/StateBasedCD.py:208-211 | `list.index` under `try/except`: -1 exactly when the key is absent, otherwise the first position holding it |
| Lists.Delete | plugins/area.py:128-130 | deleting aircraft j from a per-aircraft array removes position j and shifts the rest down by one |
| PairKeys.Sorted | bluesky/traffic/asas/StateBasedCD.py:168 | `sorted([a, b])` returns the two ids, ordered by Python's string order |
| PairKeys.Key | bluesky/traffic/asas/StateBasedCD.py:168-169 | the canonical key `srt[0] + " " + srt[1]`; no contract of its own, its symmetry is KeySymmetric and its split KeySplitRoundTrip |
| PairKeys.SplitKey | bluesky/traffic/asas/StateBasedCD.py:292 | `ac1, ac2 = key.split(" ")`, defined exactly when the key holds one space; no contract of its own, its round trip with Key is KeySplitRoundTrip |
| PairKeys.KeySymmetric | bluesky/traffic/asas/StateBasedCD.py:168-169 | the key of (A, B) equals the key of (B, A) |
| PairKeys.KeySplitRoundTrip | bluesky/traffic/asas/StateBasedCD.py:292 | `split(" ")` of a key built from two space-free callsigns gives back the two sorted callsigns |
| Geometry.FloorDv2 | bluesky/traffic/asas/StateBasedCD.py:65-66 | after flooring, the squared relative speed is at least 1e-6, and a value already that large is unchanged |
| Geometry.FloorDvs | bluesky/traffic/asas/StateBasedCD.py:111 | after flooring, the vertical-speed difference is never zero (at least 1e-6 in size); a tiny difference becomes +1e-6 |
| Geometry.PairWindow | bluesky/traffic/asas/StateBasedCD.py:65-121 | the vertical window is ordered; a pair in horizontal conflict has an ordered horizontal window; any other pair has the sentinels 1e8/-1e8; a non-empty combined window implies a horizontal conflict |
| Geometry.Conflict | bluesky/traffic/asas/StateBasedCD.py:123-125 | a flagged pair is not a self-pair, has a non-empty combined window, has not ended (tout > 0) and starts within the lookahead |
| Geometry.SentinelsSuffice | bluesky/traffic/asas/StateBasedCD.py:87-125 | the horizontal-conflict factor of the flag is redundant given the sentinel bounds |
| Geometry.FlaggedRow | bluesky/traffic/asas/StateBasedCD.py:135-137 | row i of `np.where(swconfl)` lists exactly the flagged pairs of row i |
| Geometry.FlaggedRows | bluesky/traffic/asas/StateBasedCD.py:135-137 | the first m rows of `np.where(swconfl)`, in row-major order, list exactly the flagged pairs of those rows |
| Geometry.FlaggedPairs | bluesky/traffic/asas/StateBasedCD.py:135-146 | every listed pair indexes two distinct aircraft (so the `i == j` skip never fires) |
| Geometry.FlaggedPairsExact | bluesky/traffic/asas/StateBasedCD.py:135-137 | a pair is listed exactly when its conflict flag holds |
| Zones.LargestZone | bluesky/traffic/asas/StateBasedCD.py:241-249 | the number left after the passes for zones 1..k; no contract of its own, stated by LargestZoneSpec |
| Zones.ZoneOf | bluesky/traffic/asas/StateBasedCD.py:238-258 | the zone number checkZone gives one aircraft; no contract of its own, stated by ZoneOfSpec and implemented by CheckZone |
| Zones.LargestZoneSpec | bluesky/traffic/asas/StateBasedCD.py:241-249 | after the passes for zones 1..k the number is the largest configured zone among them that contains the aircraft, 0 when none does |
| Zones.ZoneOfSpec | bluesky/traffic/asas/StateBasedCD.py:238-258 | the zone is 11 exactly inside a configured inner circle; otherwise it is the largest configured ZONEk containing the aircraft, and 0 exactly when there is none; unconfigured names never match |
| Zones.CheckZone | bluesky/traffic/asas/StateBasedCD.py:228-258 | the array holds the zone number of each requested aircraft index |
| Zones.DiffZones | bluesky/traffic/asas/StateBasedCD.py:261-281 | `diffZones` of two zone numbers; no contract of its own, stated by DiffZonesSpec |
| Zones.DiffZonesSpec | bluesky/traffic/asas/StateBasedCD.py:261-281 | the difference is symmetric and non-negative; zone 1 and maxno (10 with ZONE10, else 6) count as adjacent; otherwise it is the absolute difference |
| Registry.Eval | bluesky/traffic/asas/StateBasedCD.py:143-206 | the per-pair values of the loop body belong to the pair (i, j): its ids and the canonical key of its callsigns |
| Registry.LosIsInstantaneous | bluesky/traffic/asas/StateBasedCD.py:159-163 | LOS holds exactly when the current distance is below R and the altitude difference below dh, whatever the predicted windows |
| Registry.Severity | bluesky/traffic/asas/StateBasedCD.py:204-206 | `min(Ih, Iv)`; no contract of its own, used by SevStep and RegStepSeverity |
| Registry.Evals | bluesky/traffic/asas/StateBasedCD.py:142-144 | the per-pair values of the flagged pairs, one per pair and in order |
| Registry.Reset | bluesky/traffic/asas/StateBasedCD.py:15-26 | the reset at the start of detect; no contract of its own, stated by ResetValid, TickIndicesOk and TickNowLists |
| Registry.ConfStep | bluesky/traffic/asas/StateBasedCD.py:148-185 | the conflict half of the loop body; its contract keeps one index list per aircraft; what it does is stated by ConfStepValid, RegStepLists and ConfStepAgain |
| Registry.LosStep | bluesky/traffic/asas/StateBasedCD.py:187-201 | the LOS half; its contract keeps one index list per aircraft; what it does is stated by LosStepValid, RegStepNewLos and LosStepAgain |
| Registry.SevStep | bluesky/traffic/asas/StateBasedCD.py:203-217 | the strict-greater severity update; no contract of its own, stated by SevStepValid and SevStepAgain |
| Registry.RegStep | bluesky/traffic/asas/StateBasedCD.py:148-217 | the loop body; its contract keeps one index list per aircraft; what it does is stated by RegStepValid, RegStepLists, RegStepIndices and RegStepIdempotent |
| Registry.RegFold | bluesky/traffic/asas/StateBasedCD.py:142-217 | the registration loop; its contract keeps one index list per aircraft; what it does is stated by RegFoldValid, RegFoldLists, CountersCountNewKeys and RegFoldIndices |
| Registry.ConfStepValid | bluesky/traffic/asas/StateBasedCD.py:174-185 | the conflict half of the loop body keeps the bookkeeping invariant and puts the key in `conflist_reallyall` |
| Registry.LosStepValid | bluesky/traffic/asas/StateBasedCD.py:187-201 | the LOS half keeps the invariant and gives the key its maxima |
| Registry.SevStepValid | bluesky/traffic/asas/StateBasedCD.py:213-217 | the severity update keeps the invariant, never lowers a stored maximum, and leaves the key's maximum at least the pair's severity |
| Registry.RegStepValid | bluesky/traffic/asas/StateBasedCD.py:148-217 | the whole loop body keeps the invariant: duplicate-free lists, counters equal to the histories, and three maxima per LOS key with the maximum being the minimum of the other two |
| Registry.RegFoldValid | bluesky/traffic/asas/StateBasedCD.py:142-217 | the registration loop keeps the invariant |
| Registry.RegStepLists | bluesky/traffic/asas/StateBasedCD.py:174-201 | one step adds the key to each conflict list if absent, to the `_exp` lists only within experiment time, and to the LOS lists only for an LOS pair; each counter grows by the growth of its history |
| Registry.RegStepIndices | bluesky/traffic/asas/StateBasedCD.py:148-149 | one step appends the pair to `confpairs`, its index to `iconf[i]`, and, for an LOS pair, to `ilos[i]` |
| Registry.RegStepSeverity | bluesky/traffic/asas/StateBasedCD.py:203-217 | a step never lowers a stored maximum, and after an LOS pair its key's maximum is at least the pair's severity |
| Registry.RegStepNewLos | bluesky/traffic/asas/StateBasedCD.py:190-217 | an LOS key new to `LOSlist_all` starts its three maxima at 0; they are replaced together, exactly when the severity is positive |
| Registry.RegStepPlaces | bluesky/traffic/asas/StateBasedCD.py:174-217 | after a step the key is in every list that step appends to, and its maximum covers the pair's severity |
| Registry.ConfStepAgain | bluesky/traffic/asas/StateBasedCD.py:174-185 | the conflict half changes no list or counter for a key already listed |
| Registry.LosStepAgain | bluesky/traffic/asas/StateBasedCD.py:190-201 | the LOS half changes no list, counter or maximum for a key already listed |
| Registry.SevStepAgain | bluesky/traffic/asas/StateBasedCD.py:213-217 | a severity not above the stored maximum changes nothing |
| Registry.RegStepIdempotent | bluesky/traffic/asas/StateBasedCD.py:174-217 | registering the same evaluated pair twice changes no list, counter or maximum the second time, e.g. for the (A, B) and (B, A) records of a symmetric conflict |
| Registry.RegFoldLists | bluesky/traffic/asas/StateBasedCD.py:142-201 | after the loop each list is the old one with the tick's keys appended, first occurrences in `np.where` order, and the `_exp` lists are unchanged outside experiment time |
| Registry.RegFoldNow | bluesky/traffic/asas/StateBasedCD.py:184-201 | the `_now` lists are the old ones extended by the tick's keys and LOS keys |
| Registry.CountersCountNewKeys | bluesky/traffic/asas/StateBasedCD.py:177-192 | `confcount` and `LOScount` grow by exactly the number of distinct keys new to `conflist_reallyall` and `LOSlist_all` |
| Registry.LosKeysAreKeys | bluesky/traffic/asas/StateBasedCD.py:187 | every LOS key of a tick is one of its conflict keys |
| Registry.LosNowInConfNow | bluesky/traffic/asas/StateBasedCD.py:184-201 | starting from empty `_now` lists, every key in `LOSlist_now` is in `conflist_now` |
| Registry.RegFoldSeverity | bluesky/traffic/asas/StateBasedCD.py:203-217 | the loop never lowers a stored maximum, and leaves each LOS pair's key with a maximum at least its severity |
| Registry.IdsOf | bluesky/traffic/asas/StateBasedCD.py:149 | the id pairs of the evaluated pairs, in order |
| Registry.OwnedBySpec | bluesky/traffic/asas/StateBasedCD.py:148 | the indices owned by aircraft a are exactly those of the pairs with own aircraft a (LOS pairs only, for `ilos`) |
| Registry.RegFoldIndices | bluesky/traffic/asas/StateBasedCD.py:148-189 | after the loop from a reset, `confpairs` lists the ids of every pair and `iconf[a]`/`ilos[a]` the indices of aircraft a's pairs/LOS pairs |
| Registry.KeysOfSpec | bluesky/traffic/asas/StateBasedCD.py:168-169 | the tick's keys are exactly the keys of its pairs (and the LOS keys those of its LOS pairs) |
| Registry.TickKeys | bluesky/traffic/asas/StateBasedCD.py:123-169 | a key is registered in a tick exactly when it is the key of a flagged pair (of a flagged LOS pair, for the LOS lists) |
| Registry.ConflictKeyListed | bluesky/traffic/asas/StateBasedCD.py:135-169 | the key of a flagged pair is among the tick's registered values |
| Registry.PairListed | bluesky/traffic/asas/StateBasedCD.py:135-144 | every flagged pair is evaluated at some position of the loop |
| Registry.ListedConflictKey | bluesky/traffic/asas/StateBasedCD.py:135-169 | every registered key is the key of a flagged pair |
| Registry.TickRegistry | bluesky/traffic/asas/StateBasedCD.py:15-217 | reset then the loop over the flagged pairs; no contract of its own, stated by TickRegistryValid, TickKeys, TickIndicesOk and TickNowLists |
| Registry.TickRegistryValid | bluesky/traffic/asas/StateBasedCD.py:15-217 | a tick keeps the invariant, touches the `_exp` lists only within 2100 < simt < 5700, grows the counters by the number of new keys, and never lowers a maximum |
| Registry.ResetValid | bluesky/traffic/asas/StateBasedCD.py:15-26 | the reset at the start of detect keeps the invariant |
| Registry.ResetFoldValid | bluesky/traffic/asas/StateBasedCD.py:15-217 | reset then loop: the invariant, the `_exp` rule, the counters and the maxima as in TickRegistryValid |
| Registry.TickIndicesOk | bluesky/traffic/asas/StateBasedCD.py:16-149 | after a tick `iconf` and `ilos` have one list per aircraft and every entry indexes `confpairs` |
| Registry.FoldIndicesFit | bluesky/traffic/asas/StateBasedCD.py:148-189 | entries appended to `iconf`/`ilos` by the loop index `confpairs` |
| Registry.TickNowLists | bluesky/traffic/asas/StateBasedCD.py:25-201 | after a tick `conflist_now` holds exactly this tick's conflict keys, `LOSlist_now` exactly its LOS keys, and the second lies within the first |
| Registry.NowListsFromReset | bluesky/traffic/asas/StateBasedCD.py:25-201 | from empty `_now` lists the loop leaves exactly the keys and LOS keys of its pairs |
| ResumeNavigation.Id2Idx | bluesky/traffic/asas/StateBasedCD.py:293 | `id2idx` yields -1 exactly when no aircraft has the callsign, otherwise an index holding it |
| ResumeNavigation.Wrap | bluesky/traffic/asas/StateBasedCD.py:301-307 | index -1 reaches the last aircraft, as Python indexing does |
| ResumeNavigation.View | bluesky/traffic/asas/StateBasedCD.py:292-302 | the callsigns of a key are its split, and their indices are -1 or valid |
| ResumeNavigation.Suppressed | bluesky/traffic/asas/StateBasedCD.py:305-318 | the two zone rules; no contract of its own, used by Decide and stated by MissingReleased |
| ResumeNavigation.PastCpa | bluesky/traffic/asas/StateBasedCD.py:323-331 | `dot(d, v2 - v1) > 0`; no contract of its own, used by ReleaseRule |
| ResumeNavigation.HLos | bluesky/traffic/asas/StateBasedCD.py:337-338 | distance below Rm; no contract of its own, used by ReleaseRule |
| ResumeNavigation.Bouncing | bluesky/traffic/asas/StateBasedCD.py:344 | tracks within 30 degrees while in horizontal LOS; no contract of its own, ReleaseRule proves it adds nothing |
| ResumeNavigation.Decide | bluesky/traffic/asas/StateBasedCD.py:305-392 | a kept pair has both aircraft present |
| ResumeNavigation.NavStep | bluesky/traffic/asas/StateBasedCD.py:292-392 | the loop body keeps one flag per aircraft |
| ResumeNavigation.Resume | bluesky/traffic/asas/StateBasedCD.py:357-362 | the directive of one aircraft; no contract of its own, stated by ResumeSpec |
| ResumeNavigation.NavFold | bluesky/traffic/asas/StateBasedCD.py:291-392 | the loop keeps one flag per aircraft |
| ResumeNavigation.ResumeNavOf | bluesky/traffic/asas/StateBasedCD.py:288-392 | all flags cleared, then the loop over a snapshot; no contract of its own, stated by ResumeNavList, ResumeNavActive and implemented by Asas.ResumeNav |
| ResumeNavigation.NavFoldList | bluesky/traffic/asas/StateBasedCD.py:291-392 | iterating over a snapshot, the list ends as the original without exactly the released keys, order kept; only the visited key can leave |
| ResumeNavigation.ResumeNavList | bluesky/traffic/asas/StateBasedCD.py:288-392 | after ResumeNav a key stays in `conflist_all` exactly when it was there and not released; suppressed and kept pairs stay; no duplicates |
| ResumeNavigation.NavStepActive | bluesky/traffic/asas/StateBasedCD.py:305-351 | a step sets a flag true for an aircraft of a kept pair, false for one of a suppressed pair, and leaves other flags alone |
| ResumeNavigation.NavFoldActive | bluesky/traffic/asas/StateBasedCD.py:291-351 | after the loop a flag is true only if it was or a kept pair holds the aircraft, and it is true if so and no suppressed pair clears it |
| ResumeNavigation.ResumeNavActive | bluesky/traffic/asas/StateBasedCD.py:288-351 | with all flags first cleared, an aircraft is active only if a kept pair holds it, and is active when one does and no suppressed pair clears it |
| ResumeNavigation.NavStepDirs | bluesky/traffic/asas/StateBasedCD.py:354-387 | a step sends directives only for a released key: those of its two aircraft |
| ResumeNavigation.NavFoldDirsSound | bluesky/traffic/asas/StateBasedCD.py:357-387 | every directive sent goes to a present aircraft of a released pair, to its active waypoint (`findact` not -1) |
| ResumeNavigation.NavFoldDirsComplete | bluesky/traffic/asas/StateBasedCD.py:357-387 | every present aircraft of a released pair with an active waypoint is sent to it |
| ResumeNavigation.ResumeSpec | bluesky/traffic/asas/StateBasedCD.py:357-362 | the directive for one aircraft exists exactly for a present aircraft with `findact` not -1, and targets that waypoint |
| ResumeNavigation.ReleaseRule | bluesky/traffic/asas/StateBasedCD.py:321-368 | with both aircraft present and no zone suppression, a pair is released exactly when past CPA and not in horizontal LOS against Rm; bouncing adds nothing |
| ResumeNavigation.MissingReleased | bluesky/traffic/asas/StateBasedCD.py:305-392 | a pair with a missing aircraft is released unless the zone rules suppress it; a pair is suppressed exactly when the zone rules say so |
| ResumeNavigation.GoneAircraftSuppressed | bluesky/traffic/asas/StateBasedCD.py:301-307 | as written: when the last aircraft is in the inner circle, a pair with a gone aircraft is suppressed, its key stays and the last aircraft's flag is cleared |
| ResumeNavigation.GoneExampleKept | bluesky/traffic/asas/StateBasedCD.py:288-392 | as written: with one aircraft AC1 in the inner circle and parities as `int(ac[2:]) % 2` gives them, ResumeNav keeps the key "AC1 AC2" of the gone AC2, sends nothing and clears AC1's flag |
| ResumeNavigation.DecideIntended | bluesky/traffic/asas/StateBasedCD.py:371-392 | the decision with the presence test first; no contract of its own, stated by IntendedDecision |
| ResumeNavigation.NavStepIntended | bluesky/traffic/asas/StateBasedCD.py:292-392 | the loop body with the intended decision; its contract keeps one flag per aircraft; stated by NavStepIntendedFrame |
| ResumeNavigation.NavFoldIntended | bluesky/traffic/asas/StateBasedCD.py:291-392 | the loop with the intended decision; its contract keeps one flag per aircraft; stated by NavFoldIntendedList |
| ResumeNavigation.ResumeNavIntendedOf | bluesky/traffic/asas/StateBasedCD.py:288-392 | ResumeNav with the intended decision; no contract of its own, stated by ResumeNavIntendedList |
| ResumeNavigation.IntendedDecision | bluesky/traffic/asas/StateBasedCD.py:371-392 | a pair with a gone aircraft is released, only pairs of present aircraft are suppressed, and pairs of present aircraft are decided as the code decides them |
| ResumeNavigation.NavStepIntendedFrame | bluesky/traffic/asas/StateBasedCD.py:292-392 | an intended step writes no flag outside its own pair |
| ResumeNavigation.NavStepIntendedList | bluesky/traffic/asas/StateBasedCD.py:292-392 | an intended step removes the key exactly when the intended decision releases it |
| ResumeNavigation.NavFoldIntendedList | bluesky/traffic/asas/StateBasedCD.py:291-392 | with the intended decision the list ends as the original without the released keys, order kept |
| ResumeNavigation.ResumeNavIntendedList | bluesky/traffic/asas/StateBasedCD.py:371-392 | with the intended decision no key with a gone aircraft survives ResumeNav; a key stays exactly when listed and not released |
| StateBasedCD.Asas.Detect | bluesky/traffic/asas/StateBasedCD.py:11-225 | with the switch off nothing changes; otherwise the bookkeeping is the tick's registration, `nconf` the number of flagged records, and (with traffic) `conflist_all`, flags and directives are those of ResumeNav on it; the invariant is kept |
| StateBasedCD.Asas.RegisterConflicts | bluesky/traffic/asas/StateBasedCD.py:15-144 | the reset and the registration loop compute the tick registration of the specification, and `nconf` counts the flagged records |
| StateBasedCD.Asas.RegisterPairs | bluesky/traffic/asas/StateBasedCD.py:142-217 | the loop over the evaluated pairs leaves the fold of the loop body over them |
| StateBasedCD.Asas.RegisterPair | bluesky/traffic/asas/StateBasedCD.py:148-217 | one body execution is the loop-body step |
| StateBasedCD.Asas.RegisterConflict | bluesky/traffic/asas/StateBasedCD.py:148-185 | the field updates are the conflict half of the step |
| StateBasedCD.Asas.RegisterLos | bluesky/traffic/asas/StateBasedCD.py:187-201 | the field updates are the LOS half, and the key then has a maximum |
| StateBasedCD.Asas.UpdateSeverity | bluesky/traffic/asas/StateBasedCD.py:203-217 | the maxima are updated as the severity step says |
| StateBasedCD.Asas.ResumeNav | bluesky/traffic/asas/StateBasedCD.py:284-392 | `conflist_all`, the flags and the directives are those of ResumeNav on the old list; the rest of the bookkeeping is unchanged |
| StateBasedCD.Asas.ResumeKeys | bluesky/traffic/asas/StateBasedCD.py:291-392 | the loop over the snapshot is the fold of the loop body |
| StateBasedCD.Asas.ResumePair | bluesky/traffic/asas/StateBasedCD.py:292-392 | one body execution is the loop-body step on list, flags and directives |
| StateBasedCD.Classify | bluesky/traffic/asas/StateBasedCD.py:292-349 | the branch taken is the decision of the specification, with the indices of the split callsigns |
| StateBasedCD.SendResume | bluesky/traffic/asas/StateBasedCD.py:357-362 | the directives of a released pair: the first aircraft's, then the second's |
| StateBasedCD.TickValid | bluesky/traffic/asas/StateBasedCD.py:168-175 | a tick keeps the invariant, and every key of `conflist_all` still splits into two callsigns |
| StateBasedCD.TickKeySplits | bluesky/traffic/asas/StateBasedCD.py:168-169 | a key registered from space-free callsigns splits back |
| StateBasedCD.NavKeepsValid | bluesky/traffic/asas/StateBasedCD.py:368 | ResumeNav only drops keys, so the invariant and the split property are kept |
| AreaPlugin.LogEvents | plugins/area.py:232-244 | the created and deleted event lists; no contract of its own, stated by LogEventsSpec and LogEventsQuiet and computed by TransitionEvents |
| AreaPlugin.LogEventsSpec | plugins/area.py:232-244 | created = (now − log) ∪ (history − old history); deleted = (log − now) ∪ the new history keys not already created; created has no duplicates, nor has deleted when the snapshots agree; a key that came and went in between is in both; the comprehensions come first |
| AreaPlugin.LogEventsQuiet | plugins/area.py:232-241 | with nothing changed since the last snapshots, no event is sent |
| AreaPlugin.TransitionEvents | plugins/area.py:232-241 | the comprehensions and the loop over the new history keys compute the event lists of the specification |
| AreaPlugin.OwnerKeys | plugins/area.py:208-212 | the keys of the pairs indexed by one aircraft's list are exactly the sorted, joined callsigns of those pairs |
| AreaPlugin.OwnersKeys | plugins/area.py:206-227 | the keys of all pairs indexed by the lists of the deleted aircraft |
| AreaPlugin.AsasListsAfter | plugins/area.py:200-227 | the `_now` lists without the deleted aircraft's pair keys; no contract of its own, stated by AsasListsAfterSpec and implemented by Area.UpdateAsasLists |
| AreaPlugin.AsasListsAfterSpec | plugins/area.py:205-227 | updateAsasLists keeps a key in `conflist_now`/`LOSlist_now` exactly when it was there and is not a key of a deleted aircraft's pair; it never adds, keeps the invariant, and changes nothing without deletions |
| AreaPlugin.AsasListsAfterNone | plugins/area.py:116-117 | without deletions the lists are untouched |
| AreaPlugin.AsasListsAfterStep | plugins/area.py:206-227 | each further deleted aircraft removes the keys of its own pairs from what is left |
| AreaPlugin.RemoveKeys | plugins/area.py:208-227 | the inner loops remove exactly the keys of the listed pairs |
| AreaPlugin.Where | plugins/area.py:112 | `np.where` of a mask: exactly the true positions, strictly increasing |
| AreaPlugin.Left | plugins/area.py:112 | an aircraft left when it was inside and is outside now |
| AreaPlugin.DelIdx | plugins/area.py:112 | `np.intersect1d` of the two `where` results; no contract of its own, stated by DelIdxSpec |
| AreaPlugin.DelIdxSpec | plugins/area.py:112 | delidx is exactly the aircraft inside before and outside now, sorted; one never inside is never deleted |
| AreaPlugin.Kept | plugins/area.py:128-130 | the survivors are the aircraft that did not leave |
| AreaPlugin.WhereKept | plugins/area.py:128-130 | the positions outside delidx are the survivors |
| AreaPlugin.SurvivorsSpec | plugins/area.py:128-130 | with unique callsigns, a callsign remains exactly when its aircraft did not leave |
| AreaPlugin.DeletedAircraftEventsEnd | plugins/area.py:115-121 | every logged conflict or intrusion of a deleted aircraft gets a DEL event in the same update |
| AreaPlugin.Area.constructor | plugins/area.py:67-92 | a fresh plugin is off, has no area, no aircraft and empty snapshots |
| AreaPlugin.Area.Create | plugins/area.py:94-96 | n aircraft are appended (not inside); the last n creation times become simt, and with n = 0 every creation time does |
| AreaPlugin.Area.SetArea | plugins/area.py:132-175 | no arguments: the status reply, no change; a known shape (checked before OFF): on with that name and "Area is set to <name>"; OFF/OF: off, no name, old shape deleted, "Area is switched OFF"; an unknown name: the shape-unknown refusal without change; 4–6 numbers: on as DELAREA with its reply; anything else: the incorrect-arguments refusal without change |
| AreaPlugin.Area.SetShape | plugins/area.py:142-163 | the single-name case: a known shape, then OFF/OF, then an unknown name refused without change, each with its reply |
| AreaPlugin.Area.Update | plugins/area.py:98-130 | inactive: nothing changes, whatever the ASAS lists; active, with the ASAS index lists read by position even when older than the traffic: the ASAS `_now` lists lose the deleted aircraft's keys, the events and snapshots are those of the logging functions, and the callsigns, `inside` and creation times keep exactly the aircraft that did not leave |
| AreaPlugin.Area.Sweep | plugins/area.py:111-130 | the active part of update: the ASAS `_now` lists lose the deleted aircraft's keys, the events and snapshots are those of the logging functions, and the callsigns, `inside` and creation times keep exactly the aircraft that did not leave |
| AreaPlugin.Area.PruneAsasLists | plugins/area.py:116-117 | the ASAS lists are those updateAsasLists leaves, with any number of deletions and index lists possibly older than the traffic, and the ASAS invariant holds |
| AreaPlugin.Area.DeleteAircraft | plugins/area.py:127-130 | deleting by the callsigns captured first removes exactly the aircraft that left from the callsigns, `inside` and creation times, despite the index shifts |
| AreaPlugin.Area.UpdateAsasLists | plugins/area.py:200-227 | the loop over delidx leaves the lists of AsasListsAfter, and the ASAS invariant holds |
| AreaPlugin.Area.UpdateLogs | plugins/area.py:120-121 | the conflict then the intrusion logging, with duplicate-free snapshots |
| AreaPlugin.Area.UpdateConfLog | plugins/area.py:229-244 | the conflict events of the specification; afterwards the snapshots are `conflist_now` and `conflist_reallyall` |
| AreaPlugin.Area.UpdateIntrLog | plugins/area.py:303-318 | the intrusion events over `LOSlist_now`/`LOSlist_all`; afterwards the snapshots are those lists |

## Assumptions and inputs

**Geometry and randomness.**
- Trigonometry, `qdrdist_matrix`, the transmission noise and the ADS-B perception are inputs.
  Per ordered pair they are the noisy distance, the relative position and the relative
  velocity. Per aircraft they are the perceived altitude and vertical speed.
- `np.sqrt` is a parameter. The model knows only that it is non-negative on non-negative
  arguments and positive on positive ones (`SqrtSigns`, part of `SceneOk`).

**Areas and routes.**
- The area filter is a set of configured names plus an inside test (`Zones.AreaFilter`).
- In the plugin, the inside test becomes the `insideNow` argument of `Update`, and the names
  become the `areas` set of `SetArea`.
- The route calls are inputs: `findact` is one number per aircraft, −1 when the aircraft has
  no active waypoint. `direct` becomes an appended `Directive`.
- The arrival parity `int(ac[2:]) % 2` is a function from callsign to number (see the
  preconditions for the callsigns it is defined on).

**Index quirks reproduced as written.**
- Zones are computed before the index check. So an aircraft that is gone (−1) gets the zone of
  the last aircraft, and a suppressed pair with a gone aircraft clears the last aircraft's
  flag and stays listed (see "Findings").
- `create(0)` sets every creation time, because `[-0:]` is the whole array.

**Preconditions.**
- Callsigns contain no space (`CallsignsOk`), so `split(" ")` always unpacks. With a space, the
  Python code raises.
- Every callsign's text from position 2 is a decimal integer, so `int(ac[2:])` in ResumeNav
  succeeds and the parity function gives its remainder modulo 2. Otherwise (a callsign such
  as "A1", "KLM12" or a hexadecimal ICAO address) the source raises ValueError and detect
  stops; the model has no such failure.
- The plugin's callsigns are distinct (`NoDup(ids)`), as the simulator's are.
- `Area.Update`, while the plugin is on, needs every entry of `iconf` and `ilos` to index
  `confpairs` (`IndicesOk`). A tick establishes this (`Registry.TickIndicesOk`), and nothing
  between ticks changes these three: detect resets them together, and the plugin only reads
  them.
- It also needs every deleted position to have a list in `iconf` and in `ilos`
  (`OwnersFitIndex`). This is exactly the condition under which the loops over `iconf[idx]`
  and `ilos[idx]` raise no IndexError. The lists need not match the current traffic: ASAS may
  be switched off, or the traffic may have changed since the last detection. The model then
  reads the old lists by position, as the source does, and purges the keys of whichever
  aircraft held that position at the last detection.

## Left out

- Geometry: the trigonometric, great-circle and square-root computations are not modelled, and
  neither is IEEE floating-point behaviour. Reals are exact, and the invalid values a
  negative-argument square root would produce are not modelled.
- Transmission noise: the random draws are inputs, not modelled.
- CPA positions: `latowncpa`/`lonowncpa` come from `qdrpos`, a foreign geodesic call, and are
  left out. `altowncpa` is kept.
- `detect` fields: `qdr`, `dist`, `dx`, `dy`, `u`, `v`, `tcpa`, `tinconf`, `toutconf` and
  `dalt`. These are the matrices `detect` stores. They are recomputed per pair as functions,
  not stored.
- Loggers: what the CONF, INTR and FLST loggers write is not modelled. This covers
  `logConflict`, `logIntrusion`, `updateFLSTlog` and the logger start/reset calls. Only the
  CRE/DEL event lists these loggers are given are modelled.
- `updateEfficiency`, `set_taxi`/`swtaxi`: floating-point accumulation from a performance
  model outside this core, and a switch with no effect.
- Other per-aircraft arrays: `traf.delete` and `create` resize every per-aircraft array of the
  simulator. Only the plugin's own `inside` and `create_time` are modelled, with the
  delete-one-position and append-defaults behaviour of the traffic-array base class. The other
  plugin arrays (distance, work, fuel, mass) belong to `updateEfficiency`.
- Area-filter operations: `areafilter.defineArea`, `deleteArea`, `hasArea` and `checkInside`
  are modelled only through the set of area names and the inside input. The box geometry of
  `AREA lat,lon,lat,lon` is not modelled.
- `id2idx`, the callsign lookup of the traffic object, is modelled as an exact match. The
  traffic module is not part of this model.
- `bluesky/tools/logHeaders.py` holds constant header strings, and the `data/adsb` scripts are
  scraping and database I/O. Neither is in the core.
- Geometry.FloorDvs: the floor is not sign-preserving. A vertical-speed difference below 1e-6
  in size becomes +1e-6, so the vertical windows of (i, j) and (j, i) can differ. This is
  modelled as written, and no symmetry of the windows is claimed.
- AreaPlugin.Area.Update: when a deleted position has no list in an outdated `iconf` or
  `ilos` (the traffic grew after the last detection), the source raises IndexError in
  `updateAsasLists`. The model requires that this does not happen, and the exception is not
  modelled.

## Findings

| source | as written | input that shows it | evidently intended | confidence | as-written member | corrected member |
|---|---|---|---|---|---|---|
| bluesky/traffic/asas/StateBasedCD.py:301-318 | the zone rules run before the presence test, on index −1, which reaches the last aircraft; `continue` then skips the removal at lines 371-392 | one aircraft AC1 inside INNERCIRCLE and the key "AC1 AC2" with AC2 gone (parities 1 and 0, as `int(ac[2:]) % 2` gives): the pair is suppressed, stays in `conflist_all` on every tick, and clears AC1's flag | a pair with a gone aircraft is released and its key removed, as the comments at lines 371-392 say, and only the pair's own flags are written | medium, not executed | ResumeNavigation.GoneAircraftSuppressed, ResumeNavigation.GoneExampleKept | ResumeNavigation.DecideIntended, ResumeNavigation.IntendedDecision, ResumeNavigation.ResumeNavIntendedList |

The class `StateBasedCD.Asas` keeps the order as written, so that its contracts describe the
simulator as it runs. The intended decision is the as-written one with the presence test
moved first. `IntendedDecision` proves it differs from the code only for pairs with a gone
aircraft. `ResumeNavIntendedList` proves that no key of such a pair survives it.
- ResumeNavigation.Suppressed: the parity is a total function of the callsign. The source
  raises ValueError at `int(ac[2:])` when a callsign's text from position 2 is not a decimal
  integer, before any zone rule; this exception is not modelled, and `Decide`, `ResumeNavOf`
  and `Asas.ResumeNav` assume it does not occur.
- StateBasedCD.Classify: reads the same total parity, so the ValueError case above is not
  modelled here either.
