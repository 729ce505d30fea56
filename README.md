# Chain-of-command hierarchy, modelled in Dafny

This project models the two generations of a game-server plugin that ranks
players in a chain of command and shows the result as on-screen labels.

* **The newer engine** (`CustomHierarchy` module). `ComparePlayer` reduces two
  players to a `CompareResult`: `GiveOrders`, `FollowOrders`, `SameRank`,
  `DoNotCompare` or `NoAction`. It first runs the registered custom comparators
  in descending priority order. A comparator answering `NoAction` abstains.
  A `DoNotCompare` answer is remembered. The first `GiveOrders`, `FollowOrders`
  or `SameRank` answer decides. If no comparator decides, a built-in rule
  applies:
  * a different side gives `DoNotCompare`;
  * a ClassD first player gives `DoNotCompare`;
  * otherwise the two players' seniority values are compared.

  A seniority value is a role tier (0 to 400) plus a unit value. The unit value
  is 0 for Chaos Insurgency. Otherwise it is `99 - index` of the unit name in
  the host's unit list, cast to a byte. `UpdatePlayer` compares one living
  player with every other living roster member and writes two mirrored
  "hierarchy" labels for each pair.
* **The older engine** (`CustomHierarchii` module). A per-player cache holds
  each player's level: tier plus `99 - index`, or -1 for an unranked role.
  `GetDiff` turns two cached levels into a label text, or none.
  `UpdatePlayer` writes or clears "hierarchii" and "unit" labels between one
  player and everyone else on the roster.
* `Common` holds the player record and the label sink. It also holds the
  host's list lookup (`FindIndex`) and the C# casts to `byte` and `short`.
* `Generations` relates the two engines on the roles both of them rank.

Modelling choices:

* Players are records. Two player values are the same player iff their `id`s
  are equal; this is how the source's reference equality is modelled.
* The host's role→side and role→team maps are not modelled. `side`, `team`
  and `isCHI` are fields of the record.
* The comparator dictionary is an input sequence of `(key, priority,
  compare)` entries, in the dictionary's enumeration order.
  `ProcessingOrder` is the stable descending-priority sort: higher priority
  first, and equal priorities in enumeration order.
* The roster and the unit-name list are input sequences.
* The label sink is a map. Its key holds the first player argument, the
  channel and the last player argument of each label write. The value `None`
  means the label was cleared. The model does not fix which of the two
  players sees the label.
* The newer engine's three texts are the default values of its configurable
  translation.
* Both engines keep the code's handling of a unit missing from the list. Its
  index is -1, so the newer engine gives unit value 100 and the older engine
  gives tier + 100. Both outrank the first hundred listed units. In the newer
  engine the byte cast wraps from index 100 on, so units at indices 100 to 254
  get values 255 down to 101 and outrank a missing unit (`UnitValueWraps`).

Behaviour of the code worth noting, which the model keeps:

* The newer engine has no "unrankable" sentinel. A role outside the tier
  table adds 0. ClassD is only excluded when it is the *first* player.
* The unit value is `99 - index`, not "list length − 1 − index". From index
  100 onward the byte cast wraps (`UnitValueWraps`).
* The newer `UpdatePlayer` writes only the "hierarchy" channel. It writes no
  unit label.
* `ComparePlayer` is not mirror-symmetric in general. Custom comparators and
  the one-sided ClassD check can break symmetry (`ClassDAsymmetry`). The
  mirror property holds when every comparator abstains, the players are on
  the same side and neither is ClassD (`CompareMirror`).

## Model

| member | source | states |
|---|---|---|
| `Common.FindIndex` | CustomHierarchy/HierarchyHandler.cs:121 | the result is -1 exactly when the name is absent; otherwise it is the first index holding the name |
| `Common.ToByte` | CustomHierarchy/HierarchyHandler.cs:123 | an unchecked byte cast: the result lies in 0..255 and is congruent to the input mod 256 |
| `Common.ToShort` | CustomHierarchii/HierarchyHandler.cs:125 | an unchecked short cast: the result lies in -32768..32767, is congruent mod 65536, and is the identity on that range |
| `Common.LabelSink.SetTarget` | CustomHierarchy/HierarchyHandler.cs:146-162 | a label write changes exactly the entry (first, channel, last) of the label map |
| `CustomHierarchy.Flip` | CustomHierarchy/HierarchyHandler.cs:145-163 | the mirror of an outcome swaps GiveOrders and FollowOrders and keeps SameRank and DoNotCompare |
| `CustomHierarchy.ProcessingOrder` | CustomHierarchy/HierarchyHandler.cs:39 | the order lists every comparator index exactly once, strictly by descending priority, with equal priorities in enumeration order |
| `CustomHierarchy.Tier` | CustomHierarchy/HierarchyHandler.cs:78-104 | the role tier added to the unit value: Scientist 0, FacilityGuard 100, ChaosConscript/ChaosRifleman/NtfPrivate 200, ChaosRepressor/NtfSpecialist/NtfSergeant 300, ChaosMarauder/NtfCaptain 400; every other role (ClassD included) adds 0; only FacilityGuard gets 100 and only ChaosMarauder and NtfCaptain get 400 |
| `CustomHierarchy.GetUnitValue` | CustomHierarchy/HierarchyHandler.cs:117-124 | the value is 0 for Chaos players; otherwise it is the byte congruent to 99 minus the unit's index, in 0..255 |
| `CustomHierarchy.GetPlayerValue` | CustomHierarchy/HierarchyHandler.cs:74-108 | the value is the role tier plus the unit value, with no 16-bit wrap; it lies in 0..655 and equals the tier for Chaos players |
| `CustomHierarchy.ValueOutcome` | CustomHierarchy/HierarchyHandler.cs:60-65 | the outcome is GiveOrders, FollowOrders or SameRank exactly when the first value is greater than, less than or equal to the second |
| `CustomHierarchy.Fallback` | CustomHierarchy/HierarchyHandler.cs:51-65 | the built-in rule gives DoNotCompare for different sides or a ClassD first player; otherwise its outcome is decisive |
| `CustomHierarchy.Compare` | CustomHierarchy/HierarchyHandler.cs:32-66 | a comparison never yields NoAction; a player compared with itself gives DoNotCompare whatever comparators are registered |
| `CustomHierarchy.ComparePlayer` | CustomHierarchy/HierarchyHandler.cs:32-66 | the loop over the comparators, with its remembered DoNotCompare flag and early return, computes `Compare`; the result is never NoAction |
| `CustomHierarchy.ChainFrom` | CustomHierarchy/HierarchyHandler.cs:39-49 | the recursive form of the comparator loop from a given position; once a DoNotCompare answer has been seen the chain never ends in NoAction (`ChainFirstDecisive` and `ChainNoDecisive` characterise it fully) |
| `CustomHierarchy.ChainFirstDecisive` | CustomHierarchy/HierarchyHandler.cs:39-46 | the chain returns the first decisive outcome in processing order, even after earlier DoNotCompare answers |
| `CustomHierarchy.ChainNoDecisive` | CustomHierarchy/HierarchyHandler.cs:39-49 | with no decisive comparator, the chain yields DoNotCompare iff some comparator said so, and NoAction otherwise |
| `CustomHierarchy.ResolutionFirstDecisive` | CustomHierarchy/HierarchyHandler.cs:39-46 | when some comparator is decisive, the result is the outcome of the decisive comparator that precedes every other decisive one by priority, then enumeration order |
| `CustomHierarchy.ResolutionDoNotCompare` | CustomHierarchy/HierarchyHandler.cs:42-49 | when no comparator is decisive and one said DoNotCompare, the result is DoNotCompare |
| `CustomHierarchy.ResolutionFallback` | CustomHierarchy/HierarchyHandler.cs:48-65 | when every comparator abstains, the result is the built-in rule's |
| `CustomHierarchy.ResolutionCases` | CustomHierarchy/HierarchyHandler.cs:39-65 | the three ways the chain can end: a decisive comparator gives a decisive result; DoNotCompare with no decisive comparator gives DoNotCompare; all abstaining gives the built-in rule |
| `CustomHierarchy.DoNotCompareCharacterised` | CustomHierarchy/HierarchyHandler.cs:37-55 | two different players give DoNotCompare iff no comparator is decisive and either one said DoNotCompare or the built-in rule gives DoNotCompare |
| `CustomHierarchy.HighestPriorityDecides` | CustomHierarchy/HierarchyHandler.cs:39-45 | a decisive comparator with strictly the highest priority overrides everything else |
| `CustomHierarchy.EarlierOfEqualPriorityDecides` | CustomHierarchy/HierarchyHandler.cs:39-45 | of two decisive comparators sharing the top priority, the one enumerated first decides |
| `CustomHierarchy.DifferentSidesNotCompared` | CustomHierarchy/HierarchyHandler.cs:51-52 | with every comparator abstaining, players of different sides give DoNotCompare |
| `CustomHierarchy.ValueComparison` | CustomHierarchy/HierarchyHandler.cs:57-65 | on the value path, the result is GiveOrders, FollowOrders or SameRank iff the first value is greater than, less than or equal to the second |
| `CustomHierarchy.FallbackMirror` | CustomHierarchy/HierarchyHandler.cs:51-65 | between two same-side non-ClassD players the built-in rule is antisymmetric |
| `CustomHierarchy.CompareMirror` | CustomHierarchy/HierarchyHandler.cs:32-66 | with all comparators abstaining both ways, same side and neither player ClassD, the two comparisons are mirror images |
| `CustomHierarchy.ClassDAsymmetry` | CustomHierarchy/HierarchyHandler.cs:54-55 | a ClassD first player gives DoNotCompare, while the reverse comparison with a non-ClassD colleague is decisive |
| `CustomHierarchy.UnknownUnitValue` | CustomHierarchy/HierarchyHandler.cs:121-123 | a unit missing from the list gives unit value 100 |
| `CustomHierarchy.UnitSeniority` | CustomHierarchy/HierarchyHandler.cs:110-124 | among indices up to 99, an earlier unit gives a strictly larger unit value |
| `CustomHierarchy.UnitValueWraps` | CustomHierarchy/HierarchyHandler.cs:123 | the unit at index 100 gets value 255 because the byte cast wraps |
| `CustomHierarchy.PlayerValueMonotonicInTier` | CustomHierarchy/HierarchyHandler.cs:76-104 | in the same unit, a higher role tier gives a strictly higher value |
| `CustomHierarchy.PlayerValueMonotonicInUnit` | CustomHierarchy/HierarchyHandler.cs:76-104 | in the same role, a more senior unit among the first hundred gives a strictly higher value |
| `CustomHierarchy.Label` | CustomHierarchy/HierarchyHandler.cs:143-163 | the label text is absent exactly for DoNotCompare |
| `CustomHierarchy.MirroredLabels` | CustomHierarchy/HierarchyHandler.cs:145-163 | the two labels of a pair are follow/give, give/follow, same/same, or both cleared |
| `CustomHierarchy.UpdatePlayer` | CustomHierarchy/HierarchyHandler.cs:131-169 | the roster loop leaves the labels equal to `Broadcast` of the old labels; a dead player changes nothing; the NoAction exception branch is unreachable |
| `CustomHierarchy.SweepFrame` | CustomHierarchy/HierarchyHandler.cs:135-168 | a label that is not a hierarchy label between the player and an eligible roster member keeps its presence and value |
| `CustomHierarchy.SweepAt` | CustomHierarchy/HierarchyHandler.cs:135-168 | with distinct roster members, a pair's two labels are exactly what that pair's own comparison wrote |
| `CustomHierarchy.UpdatePlayerWritesPair` | CustomHierarchy/HierarchyHandler.cs:133-163 | for a living player and every other living roster member, the update writes the comparison's label one way and its mirror the other way |
| `CustomHierarchy.UpdatePlayerFrame` | CustomHierarchy/HierarchyHandler.cs:131-169 | no label other than the hierarchy labels of compared pairs changes |
| `CustomHierarchii.RoleLevel` | CustomHierarchii/HierarchyHandler.cs:105-119 | a ranked role's tier is 100, 200, 300 or 400 |
| `CustomHierarchii.GetHierarchiiLevel` | CustomHierarchii/HierarchyHandler.cs:102-127 | the level is -1 for every role except guard and the four NTF roles; otherwise it is tier + 99 − the unit's index, with no wrap for unit lists up to 32868 names |
| `CustomHierarchii.AbsentUnitLevel` | CustomHierarchii/HierarchyHandler.cs:124-126 | a unit missing from the list gives level tier + 100 |
| `CustomHierarchii.LevelSeniority` | CustomHierarchii/HierarchyHandler.cs:124-126 | in the same role, for a unit list of at most 32868 names, an earlier unit gives a strictly higher level |
| `CustomHierarchii.RankedLevelCanBeSentinel` | CustomHierarchii/HierarchyHandler.cs:107-126 | a guard in the unit at index 200 gets level -1, the same value as an unranked player |
| `CustomHierarchii.GetDiff` | CustomHierarchii/HierarchyHandler.cs:85-100 | the text is none iff either level is -1; otherwise it is give, same or follow exactly when the first level is greater, equal or less; the unreachable-code text is never returned |
| `CustomHierarchii.GetDiffAntisymmetric` | CustomHierarchii/HierarchyHandler.cs:85-97 | swapping the players swaps give and follow and keeps same and none |
| `CustomHierarchii.UnitLabel` | CustomHierarchii/HierarchyHandler.cs:78-81 | a unit label is present exactly for MTF players |
| `CustomHierarchii.HierarchiiHandler.CacheLevel` | CustomHierarchii/HierarchyHandler.cs:162 | the cache gains or replaces exactly the player's entry, setting it to the player's current level |
| `CustomHierarchii.HierarchiiHandler.UpdatePlayer` | CustomHierarchii/HierarchyHandler.cs:44-83 | both roster loops, with their `continue`s and early return, leave the labels equal to `Refresh` of the old labels; every cache read is to a present key |
| `CustomHierarchii.RefreshFrame` | CustomHierarchii/HierarchyHandler.cs:44-83 | a label outside the unit and hierarchii labels between the player and another roster member keeps its presence and value |
| `CustomHierarchii.RefreshAt` | CustomHierarchii/HierarchyHandler.cs:44-83 | with distinct roster members, a pair's four labels are what that pair's own step left them |
| `CustomHierarchii.UpdateClearsUnrankedPair` | CustomHierarchii/HierarchyHandler.cs:46-74 | when the player or the other member is unranked, all four unit and hierarchii labels between them are cleared |
| `CustomHierarchii.UpdateRankedPair` | CustomHierarchii/HierarchyHandler.cs:76-81 | between two ranked players: hierarchii(p, player) = GetDiff(player, p); hierarchii(player, p) = GetDiff(p, player); unit(p, player) is p's unit for MTF and cleared otherwise; unit(player, p) is untouched |
| `CustomHierarchii.UpdateFrame` | CustomHierarchii/HierarchyHandler.cs:44-83 | labels between two other players are never changed |
| `Generations.TierIsRoleLevel` | CustomHierarchii/HierarchyHandler.cs:105-119 | on every role the older engine ranks, its tier equals the newer engine's tier |
| `Generations.LevelIsPlayerValue` | CustomHierarchii/HierarchyHandler.cs:102-127 | for a role the older engine ranks, in one of the first hundred units, the old level equals the new seniority value |
| `Generations.GenerationsAgree` | CustomHierarchii/HierarchyHandler.cs:85-97 | for same-side players on ranked roles, each in one of the first hundred units, with fresh cached levels, the old give/same/follow text matches the new built-in rule's GiveOrders/SameRank/FollowOrders |

## Left out

- Event subscription and unsubscription (`OnEnable`, `OnDisable`) are not modelled. They are host plumbing.
- The event handlers `Server_RespawningTeam`, `Player_ChangingRole` and `Player_Verified` are not modelled. Their delayed callbacks are timer scheduling; only the cache write one of them performs is modelled, as `CacheLevel`.
- Info-area masking and the fake sync-var network messages are not modelled. They are networking and host state.
- `Log.Debug` calls are not modelled. They are logging only.
- The plugin metadata and bootstrapping in `PluginHandler.cs` are not modelled.
- The configurable translation is not modelled. Its default texts are constants.
- The host's role→side and role→team maps, the live player list and the unit-name list are not modelled. They are inputs.
- .NET dictionary enumeration order is not modelled. It is the order of the input sequence.
- Registering and removing custom comparators is not modelled. The source only exposes the dictionary itself, and other modules mutate it.
- Custom comparators are modelled as total, side-effect-free functions. A comparator that throws or changes state is outside the model.
- CustomHierarchii.GetDiff: the unreachable-code text drops the two levels it interpolates. The branch is proved unreachable, so the text is never built.
- CustomHierarchii.HierarchiiHandler.UpdatePlayer: a cache read of a missing key throws in C#. Here it is a precondition (`CacheCovers`), so a partial update followed by an exception is not modelled.
- CustomHierarchy.UpdatePlayerWritesPair: this lemma assumes each roster member appears once (`DistinctIds`). With a repeated player, later writes would win.
- CustomHierarchii.UpdateRankedPair: this lemma assumes each roster member appears once (`DistinctIds`).
- CustomHierarchy.UpdatePlayer: its contract gives the final label map, not the sequence of individual label calls.
