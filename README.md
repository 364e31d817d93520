# ExpeditionIcons path planner and relic classifier, in Dafny

ExpeditionIcons is a plugin for the Expedition league. It plans where to set off a
series of explosions: the planner searches for a path of `MaxExplosions` explosion
points starting at the detonator. Each path is scored by the loot it reaches and
the relics that modify that loot. It also classifies relic modifiers and map
markers to pick their icons.

This project models the planning core of `PathPlanner.cs`:

- the vector helpers it relies on;
- the relic multiplier table and the loot weights;
- the order-sensitive score fold `GetScore`;
- the segment check `IsValidPlacement` and the `GetNextPosition` fallback;
- the in-place path mutations (skip, swap, point replacement, `MutatePath`) and `MergePaths`;
- `BuildPath`;
- one generation of the evolutionary search in `GetBestPathSeries`, including its elitism.

From `Icons.cs` it models:

- the relic classifier `GetRelicType`;
- the relic icon table, read by all-match lookup;
- the chest marker table, read by first-match lookup.

The model is deterministic. Every `Random.Shared` draw is an explicit argument, the
1000 candidate points `GetNextPosition` tries are a sequence argument, and the
per-point placement oracle is a function inside the environment. Floats are reals.

Modules, one per file:

| file | module | models |
|---|---|---|
| `vectors.dfy` | `Vectors` | `Vector2` arithmetic, `Lerp`, and the strict `DistanceLessThanOrEqual` |
| `relics.dfy` | `Relics` | loot kinds, the fifteen relic variants, `GetScoreMultiplier`, HashSet identity |
| `outcomes.dfy` | `Outcomes` | `Option` and `Result` (a `Failure` stands for a thrown exception) |
| `placement.dfy` | `Placement` | environment, settings, loot weights, `IsValidPlacement`, `GetNextPosition`, the valid-path invariant |
| `scoring.dfy` | `Scoring` | `GetScore`: a spec function `Score` and the method with its nested loops |
| `mutation.dfy` | `Mutation` | `PointList` (the mutated `List<Vector2>`), skip and swap mutations, point replacement, `MutatePath`, `MergePaths` |
| `building.dfy` | `Building` | `BuildPath`: the relic walk and the fill loop |
| `generation.dfy` | `Generation` | one generation of `GetBestPathSeries`, and the `PathSeries` class holding `bestPath` and `batch` |
| `icons.dfy` | `Icons` | `GetRelicType`, `ExpeditionRelicIcons`, `LogbookChestIcons`, first-match and all-match lookup |

## Model

| member | source | states |
|---|---|---|
| Vectors.StrictTestSymmetric | PathPlanner.cs:12-15 | `DistanceLessThanOrEqual` gives the same answer with its two points exchanged |
| Vectors.StrictTestOnSamePoint | PathPlanner.cs:12-15 | a point passes the test against itself iff the distance is non-zero, because the comparison is a strict `<` |
| Vectors.SamePointPasses | PathPlanner.cs:12-15 | with a non-zero distance a point is within range of itself |
| Vectors.SamePointFailsAtZero | PathPlanner.cs:12-15 | with distance 0 not even the point itself is within range |
| Vectors.BoundaryExcludedOnlyByStrictTest | PathPlanner.cs:12-15 | a point exactly `d` away activates a relic (`Distance <= radius`, line 37) but fails `DistanceLessThanOrEqual` (lines 43, 62, 116) |
| Vectors.DistanceSquaredSymmetric | PathPlanner.cs:14 | squared distance is symmetric |
| Vectors.DistanceSquaredSelf | PathPlanner.cs:14 | the squared distance of a point to itself is 0 |
| Vectors.LerpReversed | PathPlanner.cs:65 | `Lerp(b, a, 1 - t) == Lerp(a, b, t)` |
| Vectors.LerpAtZero | PathPlanner.cs:65 | `Lerp(a, b, 0)` is `a` |
| Vectors.LerpAtOne | PathPlanner.cs:65 | `Lerp(a, b, 1)` is `b` |
| Vectors.LerpSamePoint | PathPlanner.cs:65 | interpolating between a point and itself gives that point |
| Vectors.MidpointIsHalfway | PathPlanner.cs:139 | the skip mutation's midpoint `(a + b) / 2` is `Lerp(a, b, 0.5)` |
| Relics.SetKey | PathPlanner.cs:32-39 | the key a relic HashSet compares keeps the relic's type |
| Relics.SetKeyEqualIff | PathPlanner.cs:289-477 | two relics are one HashSet entry iff they have the same type and either that type is a field-less record (`DoubledMonstersRelic`, `WarningRelic`) or they are the same object |
| Relics.SetKeyIdempotent | PathPlanner.cs:32-39 | taking the key twice changes nothing |
| Relics.GetScoreMultiplier | PathPlanner.cs:289-477 | `WarningRelic` gives `(0, 0)`. Every other relic gives a multiplier in [1, 2] and a bonus in [0, 0.4], exactly `(1, 0)` for the loot categories it does not target, and never both a multiplier and a bonus |
| Relics.OnlyWarningCancels | PathPlanner.cs:289-477 | the multiplier is below 1 iff the relic is `WarningRelic`, and above 1.5 iff it is `DoubledMonstersRelic` on a runic monster |
| Placement.ValidatedPoints | PathPlanner.cs:27 | `_validatedPoints` is at least 1, so every segment check samples at least its endpoint |
| Placement.LootValue | PathPlanner.cs:229-240 | each loot category gets its weight from the settings; it is non-negative whenever the four weights are |
| Placement.SamplesAcceptedMeaning | PathPlanner.cs:63-66 | the sample check holds iff the oracle accepts `Lerp(a, b, j / n)` for every `j` in 1..i |
| Placement.IsValidPlacement | PathPlanner.cs:60-67 | the range test, then the oracle on every sample; no contract of its own, `IsValidPlacementMeaning` states its meaning |
| Placement.IsValidPlacementMeaning | PathPlanner.cs:60-67 | `IsValidPlacement(a, b)` iff the squared distance from `a` to `b` is below the squared explosion range and the oracle accepts every sample `Lerp(a, b, i/n)` for `i = 1..n` |
| Placement.LastSampleIsEndpoint | PathPlanner.cs:63-65 | the last sample is `b` itself |
| Placement.ValidPlacementAcceptsEndpoint | PathPlanner.cs:60-67 | a valid placement's endpoint is accepted by the oracle |
| Placement.ValidPlacementInPlace | PathPlanner.cs:60-67 | staying at `p` is a valid placement iff the explosion range is non-zero and the oracle accepts `p` |
| Placement.StayingInPlaceAllowed | PathPlanner.cs:60-67 | an accepted point with a non-zero range is a valid placement from itself |
| Placement.SamplesOfPointAccepted | PathPlanner.cs:63-66 | every sample of the segment from an accepted point to itself is accepted |
| Placement.AllSamplesOfPoint | PathPlanner.cs:63-66 | the same, as a statement about every sample index |
| Placement.SampleOfPoint | PathPlanner.cs:64-65 | every sample of the segment from a point to itself is that point |
| Placement.ValidPlacementReversed | PathPlanner.cs:60-67 | a valid placement from `a` to `b`, where the oracle accepts `a`, is also valid from `b` to `a` |
| Placement.ReversedSample | PathPlanner.cs:64-65 | the samples of the reversed segment are the original samples in reverse order |
| Placement.GetNextPosition | PathPlanner.cs:54-58 | the result is the fallback `position` or one of the candidates |
| Placement.GetNextPositionOutcome | PathPlanner.cs:54-58 | the result is a valid placement from `previousPosition`, or it is the fallback and no candidate was valid |
| Placement.GetNextPositionFirst | PathPlanner.cs:57 | the first valid candidate is the one returned |
| Placement.ValidPlacementNeedsRange | PathPlanner.cs:62 | no placement is valid when the explosion range is 0 |
| Placement.GetNextPositionFromAcceptedPoint | PathPlanner.cs:54-58 | searching from an accepted point with a non-zero range always returns a valid placement, even when only the fallback is left |
| Placement.ValidPathPointsAccepted | PathPlanner.cs:60-67 | every point of a valid path is accepted by the oracle |
| Scoring.Aggregate | PathPlanner.cs:46 | the product of the active relics' multipliers and the sum of their bonuses are non-negative; the product is 0 when a `WarningRelic` is active and at least 1 otherwise |
| Scoring.Gain | PathPlanner.cs:46-47 | a credited item adds a non-negative amount when weights are non-negative, and exactly 0 while a `WarningRelic` is active |
| Scoring.GainWithoutRelics | PathPlanner.cs:46-47 | with no active relic an item adds exactly its weight |
| Scoring.GainProduct | PathPlanner.cs:47 | `weight * multiplier * (1 + sum)` is non-negative for a non-negative weight, and 0 when the multiplier is 0 |
| Scoring.MulAtLeastOne | PathPlanner.cs:46 | a product of factors of at least 1 is at least 1 |
| Scoring.ActivateRelics | PathPlanner.cs:37-40 | the active relic set only grows |
| Scoring.CreditLoot | PathPlanner.cs:42-48 | the credited set only grows, and with non-negative weights the score does not decrease |
| Scoring.Step | PathPlanner.cs:35-49 | one explosion point: activate the relics it reaches, then credit the loot it reaches; no contract of its own, `StepNonDecreasing`, `StepAddsGains` and `StepWithWarning` state its properties |
| Scoring.Scan | PathPlanner.cs:33-50 | `Step` over the path in order from the empty state; no contract of its own, `ScanPrefix`, `ScanActiveContents`, `ScanCreditedContents` and `ScanNoDuplicates` state its properties |
| Scoring.Score | PathPlanner.cs:30-52 | the score `Scan` accumulates; no contract of its own, `GetScore`, `ScorePrefixMonotone` and `WarningFreezesScore` state its properties |
| Scoring.GetScore | PathPlanner.cs:30-52 | the nested loops compute `Score`; an empty path scores 0; with non-negative weights the score is non-negative |
| Scoring.ActivateAt | PathPlanner.cs:37-40 | the relic loop for one explosion point leaves the active relics equal to `ActivateRelics` over the relic list |
| Scoring.CreditAt | PathPlanner.cs:42-48 | the loot loop for one explosion point leaves the credited loot and the score equal to `CreditLoot` over the loot list |
| Scoring.StepNonDecreasing | PathPlanner.cs:35-49 | with non-negative weights one explosion point never lowers the score |
| Scoring.ScorePrefixMonotone | PathPlanner.cs:35-49 | the score of every prefix lies between 0 and the score of the whole path |
| Scoring.ActivateRelicsWellFormed | PathPlanner.cs:37-40 | the active relics hold no two entries the HashSet would merge |
| Scoring.CreditLootNoDuplicates | PathPlanner.cs:42-44 | crediting one point's loot never credits an item twice |
| Scoring.ScanNoDuplicates | PathPlanner.cs:42-44 | along the whole path each loot item is credited at most once, however many points reach it |
| Scoring.ScanPrefix | PathPlanner.cs:35-47 | the active relics and the credited loot of a prefix are prefixes of those of the whole path |
| Scoring.ActivateRelicsContents | PathPlanner.cs:37-40 | a relic is active after a point iff it was active before or lies within the explosion radius (`<=`) of the point |
| Scoring.CreditLootContents | PathPlanner.cs:42-44 | an item is credited after a point iff it was credited before or lies strictly within the radius of the point |
| Scoring.ScanActiveContents | PathPlanner.cs:35-40 | a relic is active after the path iff some point of the path is within the explosion radius of it |
| Scoring.ScanCreditedContents | PathPlanner.cs:42-44 | an item is credited after the path iff some point of the path is strictly within the radius of it |
| Scoring.RelicReachedSnoc | PathPlanner.cs:35-40 | one more explosion point reaches a relic iff the earlier points did or that point is within the radius of it |
| Scoring.LootReachedSnoc | PathPlanner.cs:42-44 | one more explosion point reaches an item iff the earlier points did or that point is strictly within the radius of it |
| Scoring.ActivateRelicsFixed | PathPlanner.cs:37-40 | a point that reaches only active relics leaves the active set as it is |
| Scoring.CreditLootFixed | PathPlanner.cs:42-48 | a point that reaches only credited items changes neither the credited set nor the score |
| Scoring.RepeatedPointAddsNothing | PathPlanner.cs:35-49 | exploding twice at the same point adds nothing to the state or the score |
| Scoring.CreditLootWithWarning | PathPlanner.cs:471-477 | loot credited while a `WarningRelic` is active adds 0 |
| Scoring.StepWithWarning | PathPlanner.cs:35-49 | a point that activates or keeps a `WarningRelic` leaves the score as it was, and the warning stays active |
| Scoring.HasWarningPrefix | PathPlanner.cs:37-40 | a warning in a prefix of the active relics stays in the extended set |
| Scoring.WarningFreezesScore | PathPlanner.cs:35-49 | once point `k` reaches a `WarningRelic`, the path scores exactly what its first `k` points scored, so earlier score is kept |
| Scoring.WarningStaysActive | PathPlanner.cs:37-40 | a warning reached at point `k` is still active at every later point |
| Scoring.UnreachedRelicIrrelevant | PathPlanner.cs:37 | adding a relic that no point of the path reaches changes nothing |
| Scoring.CreditLootAddsGains | PathPlanner.cs:42-48 | one point's loot raises the score by exactly the sum of the gains of the newly credited items at the current active relics |
| Scoring.StepAddsGains | PathPlanner.cs:35-49 | one explosion point raises the score by exactly the gains of the items it credits, at the relics active at that point |
| Mutation.PointList.constructor | PathPlanner.cs:85 | `originalPath.ToList()`: a fresh list holding the given points |
| Mutation.PointList.RemoveAt | PathPlanner.cs:143 | removes exactly the element at `i` |
| Mutation.PointList.Insert | PathPlanner.cs:144 | inserts exactly one element at `i` |
| Mutation.PointList.Add | PathPlanner.cs:157 | appends exactly one element |
| Mutation.PointList.Set | PathPlanner.cs:126 | replaces exactly the element at `i` |
| Mutation.CheckIndex | PathPlanner.cs:153 | `1 + (i + offset) % pathCount` lies in 1..pathCount |
| Mutation.SkipSearch | PathPlanner.cs:151-160 | the point it finds is an inner point whose neighbours form a valid placement |
| Mutation.InjectMidpoint | PathPlanner.cs:139-145 | keeps the length: the points up to `j`, the midpoint, then the old points without the last |
| Mutation.SkipPoint | PathPlanner.cs:156-157 | keeps the length: the points without `k`, then the new last point |
| Mutation.Skip | PathPlanner.cs:132-163 | the skip mutation keeps the path length, and a path it reports unchanged is unchanged |
| Mutation.SkipInjects | PathPlanner.cs:136-146 | when the offset draw selects injection and both halves are valid, the midpoint is injected |
| Mutation.SkipSearchOutcome | PathPlanner.cs:148-162 | otherwise the search decides: no skippable point leaves the path, a skippable point is removed and a `GetNextPosition` point is appended |
| Mutation.TryApplySkipMutation | PathPlanner.cs:132-163 | the in-place edit of the list and its result are those of `Skip` |
| Mutation.InjectInPlace | PathPlanner.cs:141-142 | dropping the last point and inserting the midpoint after point `j` leaves the list equal to `InjectMidpoint` of the old list |
| Mutation.SkipInPlace | PathPlanner.cs:154-155 | removing point `k` and appending a `GetNextPosition` point drawn around the last point leaves the list equal to `SkipPoint` of the old list |
| Mutation.FindSkippablePoint | PathPlanner.cs:151-160 | the search loop finds what `SkipSearch` specifies |
| Mutation.SwapAdjacentPermutes | PathPlanner.cs:175 | the swap keeps the length and the multiset of points, exchanges the two elements at `k` and `k+1`, and leaves all others |
| Mutation.SwapSearch | PathPlanner.cs:169-178 | the index it finds has both crossing segments valid |
| Mutation.Swap | PathPlanner.cs:165-181 | the swap mutation keeps the length and the multiset of points, an unreported swap leaves the path unchanged, and a reported one is one adjacent swap |
| Mutation.SwapAsWritten | PathPlanner.cs:165-181 | the source fails (`Random.Next(0, Count - 3)` throws) iff the path has fewer than 3 points, and agrees with `Swap` otherwise |
| Mutation.SwapAsWrittenThrowsOnTwoPoints | PathPlanner.cs:167-168 | on a two-point path the source throws, where `Swap` leaves the path as it is |
| Mutation.TryApplySwapMutation | PathPlanner.cs:165-181 | the in-place edit of the list and its result are those of the corrected `Swap`, which leaves a path of fewer than 3 points unchanged |
| Mutation.FindSwappablePoint | PathPlanner.cs:169-178 | the search loop finds what `SwapSearch` specifies |
| Mutation.SwapSearchStep | PathPlanner.cs:169-178 | one round of the swap search stops at a swappable point and otherwise goes on to the next round |
| Mutation.FirstValidChange | PathPlanner.cs:104-119 | a replacement it finds is within the radius of the previous point and a valid placement before the next point, and comes from one of the tries |
| Mutation.Replace | PathPlanner.cs:98-126 | point replacement keeps the length and changes no point other than `changeIndex` |
| Mutation.IsValidChange | PathPlanner.cs:116-118 | the acceptance test of a replacement: within the radius of the previous point (strict test), and a valid placement before the next point unless it replaces the last one; no contract of its own, `FirstValidChange` and `ReplacementFromPrevious` state what it guarantees |
| Mutation.MutatePass | PathPlanner.cs:86-127 | one pass with the corrected swap: a skip if drawn and applied, else a swap if drawn and applied, else a replacement; no contract of its own, `MutatePassAsWritten` and `MutatePassPreservesValidPath` state its properties |
| Mutation.MutatePassAsWritten | PathPlanner.cs:86-127 | one pass as written throws iff it reaches the swap mutation (swap coin drawn, no skip applied) on a path of fewer than 3 points; otherwise it is `MutatePass` |
| Mutation.MutateAsWritten | PathPlanner.cs:82-130 | where `MutatePath` as written does not throw, it computes `Mutate` |
| Mutation.MutateAsWrittenFails | PathPlanner.cs:82-130 | `MutatePath` as written throws iff the path has fewer than 3 points and some pass reaches the swap mutation on the path the earlier passes left; on paths of 3 points or more it equals `Mutate` |
| Mutation.SomeSwapReachedStep | PathPlanner.cs:86-93 | one more pass reaches the swap mutation somewhere iff the earlier passes did or the new pass does |
| Mutation.Mutate | PathPlanner.cs:82-130 | `MutatePath` with the corrected swap mutation keeps the path length |
| Mutation.MutatePath | PathPlanner.cs:82-130 | returns a fresh list holding `Mutate` (corrected swap) of the original, so the original path is never modified |
| Mutation.MutateOnce | PathPlanner.cs:88-126 | one pass of the loop edits the list as `MutatePass` (corrected swap) specifies |
| Mutation.FindValidChange | PathPlanner.cs:102-119 | the do/while loop with at most 11 tries finds what `FirstValidChange` specifies |
| Mutation.FirstValidChangeStep | PathPlanner.cs:104-119 | one try takes its candidate if it is a valid change and otherwise leaves the search to the remaining tries |
| Mutation.SkipPreservesValidPath | PathPlanner.cs:132-163 | the skip mutation keeps a valid path valid |
| Mutation.InjectPreservesValidPath | PathPlanner.cs:139-145 | injecting a midpoint whose halves are valid keeps the path valid |
| Mutation.SkipPointPreservesValidPath | PathPlanner.cs:154-157 | removing a skippable point and appending a `GetNextPosition` point keeps the path valid |
| Mutation.SwapPreservesValidPath | PathPlanner.cs:165-181 | the swap mutation keeps a valid path valid |
| Mutation.ReplacePreservesValidPath | PathPlanner.cs:98-126 | point replacement keeps a valid path valid |
| Mutation.ReplacementFromPrevious | PathPlanner.cs:104-118 | an accepted replacement is a valid placement from the previous point |
| Mutation.MutatePassPreservesValidPath | PathPlanner.cs:86-127 | one mutation pass keeps a valid path valid |
| Mutation.MutatePreservesValidPath | PathPlanner.cs:82-130 | `MutatePath` keeps a valid path valid |
| Mutation.MergePaths | PathPlanner.cs:183-192 | fails iff the lengths differ; otherwise element `i` is `path1[i] * factor + path2[i] * (1 - factor)` |
| Mutation.BlendIsLerp | PathPlanner.cs:191 | `a * t + b * (1 - t)` is `Lerp(b, a, t)` |
| Mutation.BlendCoordinate | PathPlanner.cs:191 | the same blend, one coordinate at a time |
| Mutation.MergeEndpoints | PathPlanner.cs:183-192 | factor 1 gives `path1`, factor 0 gives `path2`, and merging a path with itself gives it back |
| Building.WalkPoint | PathPlanner.cs:249-258 | within the explosion range of `current` the walk appends the relic itself |
| Building.WalkStep | PathPlanner.cs:247-266 | one pass of the walk adds at most one point, continues only below `MaxExplosions`, and keeps the path valid |
| Building.Walk | PathPlanner.cs:245-266 | the do/while loop, one `WalkStep` after another until one stops; no contract of its own, `WalkGrows` and `WalkValid` state its properties |
| Building.RelicWalkAsWritten | PathPlanner.cs:243-266 | the walk as written yields a valid path of at most `MaxExplosions` points |
| Building.RelicWalk | PathPlanner.cs:243-266 | the corrected walk yields a valid path of at most `MaxExplosions` points |
| Building.WalkGrows | PathPlanner.cs:247-266 | the walk only extends the path, and never beyond `MaxExplosions` |
| Building.WalkValid | PathPlanner.cs:247-266 | the walk keeps the path valid |
| Building.ValidPathAppendIf | PathPlanner.cs:260-264 | a point kept after the validity check extends a valid path to a valid path |
| Building.ValidPathAppend | PathPlanner.cs:260-264 | the same, for a path known to be valid |
| Building.Fill | PathPlanner.cs:268-273 | the fill loop from the last point of the walk; no contract of its own, `FillLength` and `FillValid` state its properties |
| Building.Walked | PathPlanner.cs:243-267 | the optional walk, as written or corrected, yields a valid path of at most `MaxExplosions` points (one when that is 0), and the empty path when no walk is drawn |
| Building.FillLength | PathPlanner.cs:269-273 | the fill loop only extends the path, and to exactly `MaxExplosions` points when it is shorter |
| Building.FillValid | PathPlanner.cs:269-273 | the fill loop keeps the path valid |
| Building.BuildWith | PathPlanner.cs:227-276 | `BuildPath`: the walk (as written or corrected), then the fill loop; no contract of its own, `BuildLength` and `BuildValid` state its properties |
| Building.BuildAsWritten | PathPlanner.cs:227-276 | `BuildPath` as the source writes it, relic walk included; `BuildLength` and `BuildValid` hold of it |
| Building.Build | PathPlanner.cs:227-276 | `BuildPath` with the corrected relic walk, the one the generation step uses; `BuildLength` and `BuildValid` hold of it |
| Building.BuildLength | PathPlanner.cs:242-275 | `BuildPath`, with the walk as written or corrected, returns exactly `MaxExplosions` points when `MaxExplosions >= 1`, and at most one point when it is 0 |
| Building.BuildValid | PathPlanner.cs:227-276 | `BuildPath`, with the walk as written or corrected, returns a valid path when the starting point is accepted and the range is non-zero |
| Building.BuildPath | PathPlanner.cs:227-276 | the two loops compute `BuildWith`: as written (`keepCurrent`) or with the corrected walk |
| Building.WalkToRelic | PathPlanner.cs:245-266 | the do/while loop computes `Walk`; as written (`keepCurrent`) `current` moves only on a step that falls short of the relic |
| Building.WalkStepNaN | PathPlanner.cs:256-264 | a zero-length step (a NaN point) ends the walk with the path unchanged |
| Building.WalkStepTaken | PathPlanner.cs:249-266 | one pass of the walk unfolds as the loop body reads |
| Building.Repeat | PathPlanner.cs:201 | `Enumerable.Repeat(p, count)`: `count` copies of `p` |
| Building.RelicWalkAsWrittenRepeatsRelic | PathPlanner.cs:250-266 | as written, reaching a relic outside the explosion radius fills the whole path with the relic point |
| Building.RepeatsFrom | PathPlanner.cs:250-266 | once the walk as written has placed the relic, it keeps placing it until the path is full |
| Building.RelicWalkStopsAtRelic | PathPlanner.cs:243-266 | the corrected walk places the relic once and stops |
| Building.RelicWalkAsWrittenExample | PathPlanner.cs:243-266 | relic at (8, 0), range 10, radius 5, three explosions: the walk as written gives the relic three times |
| Building.RelicWalkExample | PathPlanner.cs:243-266 | on the same input the corrected walk gives the relic once |
| Building.ExamplePlacement | PathPlanner.cs:60-67 | on that input the step from the start to the relic is a valid placement |
| Building.AcceptingOracleAcceptsSamples | PathPlanner.cs:63-66 | an oracle that accepts every point accepts every sample |
| Generation.ScoreAll | PathPlanner.cs:205-206 | every path of the batch is paired with a score, in order |
| Generation.Insert | PathPlanner.cs:207 | insertion adds exactly the one element |
| Generation.SortDescending | PathPlanner.cs:207 | the sort is a permutation of the scored batch |
| Generation.InsertDescending | PathPlanner.cs:207 | inserting into a descending list keeps it descending |
| Generation.SortDescendingSorts | PathPlanner.cs:207 | the sort yields a descending permutation of the scored batch |
| Generation.Take | PathPlanner.cs:208 | `Take(count)` is the prefix of length `min(count, length)` |
| Generation.Survivors | PathPlanner.cs:205-209 | there are as many survivors as the smaller of `PathGenerationSize` and the batch size |
| Generation.SurvivorsAreTheBest | PathPlanner.cs:205-209 | the survivors are in descending order of score, each is a batch path with its true score, and the first scores at least as much as every path of the batch |
| Generation.ScoreAllGenuine | PathPlanner.cs:205-206 | every scored entry pairs a batch path with its true score |
| Generation.GenuinePermuted | PathPlanner.cs:207 | reordering the scored entries keeps every entry a batch path with its true score |
| Generation.TakeKeepsOrder | PathPlanner.cs:208 | taking a prefix keeps the descending order and the pairing of paths with their true scores |
| Generation.HeadIsTop | PathPlanner.cs:205-208 | the head of the descending scores is at least the score of every batch path |
| Generation.Paths | PathPlanner.cs:212 | `.Select(i => i.x)` keeps the paths in order |
| Generation.MutateOrKeep | PathPlanner.cs:214 | with the corrected swap, a copy fails iff its coin asks for a mutation and the path is empty; it keeps its length; with the coin above `PathMutateChance` it is the path itself |
| Generation.MutateOrKeepAsWritten | PathPlanner.cs:214 | as written, a copy fails iff its coin asks for a mutation and the path is empty, or has fewer than 3 points and some pass reaches the swap mutation; where it does not fail it is `MutateOrKeep` |
| Generation.MutateAll | PathPlanner.cs:210-216 | with the corrected swap, the copies in order, the first failing one ending the pipeline; no contract of its own, `MutateAllOutcome` and `MutateAllFailureStays` state its properties |
| Generation.MutateAllOutcome | PathPlanner.cs:210-214 | with the corrected swap, the copies fail iff some copy would mutate an empty path; otherwise each copy is that copy's `MutateOrKeep` |
| Generation.MutateAllFailureStays | PathPlanner.cs:210-216 | the first failing copy decides the outcome of the whole pipeline |
| Generation.Truncate | PathPlanner.cs:215 | the `(int)` cast truncates toward zero |
| Generation.BuildEach | PathPlanner.cs:215 | `newPaths` holds `count` paths built with the corrected walk, the `i`th from the `i`th draws |
| Generation.BuildEachLength | PathPlanner.cs:215 | with `MaxExplosions >= 1` every new built path has `MaxExplosions` points |
| Generation.BuildEachValid | PathPlanner.cs:215 | every new built path is a valid path from the starting point |
| Generation.NextGeneration | PathPlanner.cs:205-222 | one loop iteration with the corrected swap and walk, failing at the first stage that throws; no contract of its own, `NextGenerationElitism`, `NextGenerationBatch`, `NextGenerationFails`, `NextGenerationKeepsLength` and `NextGenerationKeepsValid` state its properties |
| Generation.NextGenerationElitism | PathPlanner.cs:217-222 | the new best path is the old one or a batch path, scores at least as much as the old one and as every batch path, and is replaced only by a strictly better score |
| Generation.NextGenerationBatch | PathPlanner.cs:210-216 | the new batch is the mutated or kept copies of the survivors twice over, then the old best path, then the new built paths |
| Generation.NextGenerationShape | PathPlanner.cs:205-216 | a generation that succeeds had a non-negative new-path count, some survivor and no failing copy, and its batch is the copies, the old best path and the built paths |
| Generation.NextGenerationOk | PathPlanner.cs:205-222 | when no stage throws, the generation is the elitist choice of best path and the assembled batch |
| Generation.AssembledBatch | PathPlanner.cs:210-216 | in the assembled batch, position `j` below the copy count holds copy `j` mutated or kept, the next position the old best path, and the rest the built paths |
| Generation.Parts | PathPlanner.cs:216 | `Append` then `Concat` puts the front, the middle element and the back at consecutive positions |
| Generation.CopyOfSurvivor | PathPlanner.cs:210-212 | every copy taken from the survivors is a path of the batch |
| Generation.SurvivorCopiesInBatch | PathPlanner.cs:210-212 | every path of the doubled survivors is a path of the batch |
| Generation.CopiesKeepLength | PathPlanner.cs:214 | if every copy has a given length and no copy fails, every mutated or kept copy has that length |
| Generation.CopiesKeepValid | PathPlanner.cs:214 | if every copy is valid and no copy fails, every mutated or kept copy is valid |
| Generation.NextGenerationFails | PathPlanner.cs:205-219 | with the corrected swap, a generation fails iff the new-path count is negative, no path survives, or a copy would mutate an empty survivor |
| Generation.DoubledCopyEmpty | PathPlanner.cs:210-214 | a copy of the doubled survivors mutates an empty path iff one of the two copies of an empty survivor mutates |
| Generation.NextGenerationKeepsLength | PathPlanner.cs:201-223 | if the best path and every batch path have `MaxExplosions` points, so do the new ones |
| Generation.NextGenerationKeepsValid | PathPlanner.cs:201-223 | if the best path and every batch path are valid, so are the new ones |
| Generation.CopyValid | PathPlanner.cs:214 | a mutated or kept copy of a valid path is valid |
| Generation.PathSeries.constructor | PathPlanner.cs:201-202 | the best path starts as `MaxExplosions` zero points and the batch as `2 * PathGenerationSize` paths built with the corrected walk |
| Generation.PathSeries.Next | PathPlanner.cs:203-224 | one loop iteration: on success the state becomes the next generation and the yielded `PathState` is the best path with its score; on failure the state is unchanged |
| Generation.Breed | PathPlanner.cs:205-221 | the loop body before the state is replaced computes `NextGeneration`, failing at the same stage with the same error |
| Generation.ScoreBatch | PathPlanner.cs:205-206 | the loop computes `ScoreAll` |
| Generation.MutateSurvivors | PathPlanner.cs:210-214 | the loop computes the outcome of the mutation pipeline with the corrected swap, stopping at the first failure |
| Generation.BuildAll | PathPlanner.cs:215 | the loop builds the `count` new paths from their draws, with the corrected walk |
| Icons.ExactArms | Icons.cs:12-28 | each of the 17 exact modifier names maps to its listed relic type |
| Icons.ExactArmBeforeFallback | Icons.cs:13-29 | `...ExpeditionLogbookQuantityMonster` contains "Monster", yet yields `LogbookMonsterRelic`: exact arms come first |
| Icons.Fallbacks | Icons.cs:29-31 | an unlisted name yields `OtherMonsterRelic` if it contains "Monster", else `OtherChestRelic` if it contains "Chest", else nothing |
| Icons.UnclassifiedIff | Icons.cs:8-33 | the classifier yields nothing iff the name is unlisted and contains neither "Monster" nor "Chest" |
| Icons.ListedIsClassified | Icons.cs:12-28 | a listed name is classified by an exact arm |
| Icons.SharedRelicType | Icons.cs:15-27 | four distinct names (SirensScarabChest, VendorCurrency, BasicCurrencyChest, StackedDeckChest) all yield `OtherGoodChestRelic` |
| Icons.GetRelicType | Icons.cs:8-33 | the classifier: exact arms in order, then "Monster", then "Chest"; no contract of its own, `ExactArms`, `ExactArmBeforeFallback`, `Fallbacks` and `UnclassifiedIff` state its behaviour |
| Icons.Contains | Icons.cs:29-30 | `string.Contains`: the needle occurs at some position; no contract of its own, `ContainsSelf`, `ContainsMiddle`, `ContainsTransitive` and `MissingChar` state its properties |
| Icons.ContainsSelf | Icons.cs:29-30 | a string contains itself |
| Icons.ContainsMiddle | Icons.cs:29-30 | a string contains every infix |
| Icons.ContainsTransitive | Icons.cs:29-30 | containment is transitive |
| Icons.MissingChar | Icons.cs:29-30 | a string lacking one of the needle's characters does not contain it |
| Icons.LacksAppend | Icons.cs:29-30 | joining two strings that lack a character gives a string that lacks it |
| Icons.NoMonster | Icons.cs:29 | a string with no "Mon" does not contain "Monster" |
| Icons.NoMonAppend | Icons.cs:29 | joining two strings without "Mon" creates none when the first does not end within two characters of an 'M' |
| Icons.FactionChest1HasNoMonster | Icons.cs:29 | `...VendorCurrencyFactionChest1` does not contain "Monster" |
| Icons.LongerNameFallsThrough | Icons.cs:22-30 | `...ExpeditionVendorCurrencyFactionChest1` does not hit the VendorCurrency arm and yields `OtherChestRelic` |
| Icons.FactionElite1Lacks | Icons.cs:22-31 | `...ExpeditionVendorCurrencyFactionElite1` has no 'h' and no 's' |
| Icons.LongerNameUnclassified | Icons.cs:22-31 | `...ExpeditionVendorCurrencyFactionElite1` yields nothing |
| Icons.AllMatches | ExpeditionIcons.cs:222-225 | the all-match lookup returns no more entries than the table has |
| Icons.Matches | ExpeditionIcons.cs:153-154 | an entry matches a name when the name contains one of its substrings; no contract of its own |
| Icons.FirstMatch | ExpeditionIcons.cs:151-154 | `FirstOrDefault` over the table; no contract of its own, `FirstMatchSpec` and `FirstMatchIsFirstOfAll` state its behaviour |
| Icons.FirstMatchSpec | ExpeditionIcons.cs:151-154 | first-match lookup finds nothing iff no entry matches, and otherwise returns a matching entry preceded by no matching one |
| Icons.AllMatchesSpec | ExpeditionIcons.cs:222-225 | an entry is in the all-match result iff it is in the table and matches |
| Icons.FirstMatchIsFirstOfAll | ExpeditionIcons.cs:151-154 | first-match lookup returns the head of the all-match result |
| Icons.ExactNamesHaveIcons | Icons.cs:35-245 | each of the 17 exact relic modifier names matches at least one entry of `ExpeditionRelicIcons` |
| Icons.ListingEntry | Icons.cs:35-245 | every exact name is listed verbatim, at a given position, by some entry of `ExpeditionRelicIcons` |
| Icons.ListingEntryLow | Icons.cs:35-245 | the same for the first eight names |
| Icons.ListingEntryHigh | Icons.cs:35-245 | the same for the remaining nine names |
| Icons.SpecificChestIcons | Icons.cs:247-419 | each specific chest entry is its picker with the single marker path `.../ChestMarkers/Chest<name>.ao` |
| Icons.SpecificEntries | Icons.cs:247-419 | no specific chest entry uses the `OtherChests` picker |
| Icons.SpecificMarkerMatchesCatchAll | Icons.cs:420-432 | every specific chest marker path also matches the catch-all `OtherChests` entry |
| Icons.SpecificChestWins | Icons.cs:247-433 | a name matching a specific chest entry gets a specific entry at or before it from first-match lookup, never `OtherChests`, although the catch-all also matches |
| Icons.CatchAllIff | Icons.cs:420-432 | first-match lookup returns `OtherChests` iff the catch-all matches and no specific chest entry does |
| Icons.MarkerLayout | Icons.cs:247-419 | a marker path has its last '/' right after the generic chest-marker path, its only '.' in `.ao`, and the chest name in between |
| Icons.MarkerInMarker | Icons.cs:247-419 | one chest's marker path occurs in another's only when the chest names are equal |
| Icons.MarkerFindsOwnEntry | Icons.cs:247-433 | first-match lookup of the marker path of specific chest `k` returns entry `k` itself |
| Icons.SpecificMarkersFindOwnEntries | Icons.cs:247-433 | the same for every specific chest at once |

## Left out

- Randomness: every `Random.Shared` draw is an argument, with its range stated as a precondition. `Random.Next(min, max)` draws are integers in `[min, max)` (or `min` when the two are equal), `Random.Next(2)` coins are booleans, `NextDouble` draws are reals, and the 1000 candidates `GetNextPosition` tries are a sequence. The distributions are not modelled, and neither is `GetNextMaybeInvalidPosition` (PathPlanner.cs:69-80).
- Floating point: `float` and `double` are reals, so rounding, NaN and overflow are not modelled. The one exception is that a zero-length walk step is modelled as the NaN point no range test accepts.
- `MathF.SinCos` and the `MathF.Pow(0.99f, i)` radius shrinking are inside the candidate sequence, not computed.
- `Vector2.Length` (a square root) in `BuildPath` is a caller-supplied `norm` function. The `Distance` in point replacement's allowed move radius (PathPlanner.cs:112) only shapes the candidates, so the candidates of each try are given directly.
- Mutation.ReplaceCandidate has no contract: a try's candidate is the result of `GetNextPosition` around the previous or the changing point, and its properties are those of `Placement.GetNextPosition`.
- Placement.GetNextPosition: its contract only says the result is the fallback or a candidate; the validity of the result is stated by `GetNextPositionOutcome` and `GetNextPositionFirst`.
- `GetBestPathSeries` is an infinite lazy stream; the model is one generation (`NextGeneration`), stepped by `PathSeries.Next`.
- The sort in `GetBestPathSeries` is stable in the source. The model's insertion sort is stable too, but only descending order and permutation are proved.
- The `(int)` cast of the new-path count is modelled as truncation toward zero; its overflow for values beyond the `int` range is not.
- Generation.PathSeries.constructor: requires `MaxExplosions >= 0`, where the source's `Enumerable.Repeat` throws for a negative count.
- Generation.PathSeries.constructor: builds its batch with the corrected relic walk of `Building.Build`, not the walk as written (see Findings).
- Building.BuildDrawsFit: includes `MaxExplosions >= 0`, so no member that builds a path takes a negative count, where `new List<Vector2>(MaxExplosions)` (PathPlanner.cs:242) throws. The only caller of `BuildPath` has already thrown at `Enumerable.Repeat` (PathPlanner.cs:201) for such a count.
- Building.Build: uses the corrected relic walk, which stops once the relic is placed; the source keeps placing the relic (see Findings). `Building.BuildAsWritten` is the walk as written; `BuildLength`, `BuildValid` and `BuildPath` cover both.
- Building.BuildPath: requires `MaxExplosions >= 0` through `BuildDrawsFit`, where the source throws for a negative count.
- Generation.BuildEach: builds with the corrected relic walk of `Building.Build`, not the walk as written.
- Generation.BuildAll: calls `BuildPath` with the corrected relic walk, not the walk as written.
- Mutation.MutatePass: uses the corrected `Swap`, so a pass never throws. As written, a pass that reaches the swap mutation on a path of fewer than 3 points throws (see Findings); `Mutation.MutatePassAsWritten`, `Mutation.MutateAsWritten` and `Mutation.MutateAsWrittenFails` model that throw.
- Mutation.Mutate: built on the corrected `MutatePass`, so it never throws on a 1- or 2-point path; `Mutation.MutateAsWritten` does.
- Mutation.MutatePath: computes the corrected `Mutate`, so it never throws on a 1- or 2-point path.
- Mutation.MutateOnce: edits the list as the corrected `MutatePass`, so it never throws on a 1- or 2-point path.
- Mutation.TryApplySwapMutation: leaves a path of fewer than 3 points unchanged and reports no swap, where the source throws; `Mutation.SwapAsWritten` is the throwing version.
- Generation.MutateOrKeep: fails only on an empty path; the throw of the swap mutation as written on 1- or 2-point paths is in `Generation.MutateOrKeepAsWritten`.
- Generation.MutateAll: folds the corrected `MutateOrKeep`, so no copy fails on a 1- or 2-point path where the swap mutation as written throws; `MutateOrKeepAsWritten` has that throw per copy.
- Generation.NextGeneration: composes the corrected swap mutation and the corrected relic walk, so it does not throw on 1- or 2-point survivors and does not repeat the relic in built paths; `MutateOrKeepAsWritten` and `Building.BuildAsWritten` model those stages as written.
- Generation.MutateAllOutcome: states the failure condition of the corrected pipeline, without the swap mutation's throw on 1- or 2-point paths.
- Generation.MutateSurvivors: computes the corrected pipeline, so it does not fail on 1- or 2-point paths.
- Generation.NextGenerationFails: states the failure condition of the corrected generation step, without the swap mutation's throw on 1- or 2-point survivors.
- PlannerSettings: `ValidatedIntermediatePoints` and `PathGenerationSize` are natural numbers. In the source, `ValidatedIntermediatePoints` of -1 makes every segment check skip the oracle, one below -1 makes `Enumerable.Range(1, _validatedPoints)` throw (PathPlanner.cs:63), and a negative `PathGenerationSize` makes `Enumerable.Range(0, PathGenerationSize * 2)` throw (PathPlanner.cs:202).
- The loot value table is keyed by object reference in the source (PathPlanner.cs:20, 229-240). It is modelled as the total weight function `LootValue` over the loot category, so the table rebuild inside `BuildPath` is not a separate step.
- `PlannerSettings` is not part of this model's source files; its fields are taken from their uses in `PathPlanner.cs`.
- `RandomBiasedElement` and the commented-out merge step (PathPlanner.cs:194-197, 213) are dead code and not modelled. `MergePaths` is modelled on its own, with its factor as an argument.
- PathPlannerRunner.cs is not part of this model: it runs the planner concurrently on worker tasks with time limits.
- ExpeditionIcons.cs is not part of this model: it draws icons through the game API. Only its two lookups over the icon tables (ExpeditionIcons.cs:151-154 and 222-225) are modelled.
- The `DefaultIcon` of each table entry, the settings classes and the icon display settings are not modelled; table entries keep their picker and their metadata substrings.
- The repository's `IconPickerIndex.cs` does not declare the chest pickers that `LogbookChestIcons` uses, and `ExpeditionMarkerIconDescription` names its icon `Icon` rather than `DefaultIcon`. The model follows `Icons.cs`.
- `string.Contains` is ordinal substring search over `seq<char>`, without culture rules.

## Findings

| source | as written | input that shows it | evidently intended | confidence | as-written member | corrected member |
|---|---|---|---|---|---|---|
| PathPlanner.cs:167-168 | `Random.Shared.Next(0, path.Count - 3)` throws `ArgumentOutOfRangeException` when the path has fewer than 3 points, so `MutatePath` throws on a one- or two-point path whenever the swap coin comes up | a path of two points with the skip mutation declined and the swap coin 0 | a path too short to swap is left unchanged and the mutation reports no swap | not executed; high | Mutation.SwapAsWrittenThrowsOnTwoPoints | Mutation.Swap |
| PathPlanner.cs:250-266 | when the relic is within the explosion range, the walk appends the relic but leaves `current` where it was. The loop condition tests the old `current`, so the walk appends the relic again on every pass until the path is full | start (0, 0), relic (8, 0), explosion range 10, explosion radius 5, 3 explosions, every point accepted: the walk yields the relic three times | the walk stops once the relic is placed, leaving the fill loop to spend the remaining explosions | not executed; medium | Building.RelicWalkAsWrittenExample | Building.RelicWalkStopsAtRelic |

`BuildPath` with `MaxExplosions` equal to 0 still returns one point when a walk to a relic is chosen and its first step is valid, because the walk is a do/while loop. `Building.BuildLength` states this as an upper bound of one point; it is not listed as a finding, since no caller passes such a value.
