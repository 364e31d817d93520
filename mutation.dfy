/**
 * The path edits of `PathPlanner`: the skip mutation, the swap mutation,
 * the point replacement of `MutatePath`, `MutatePath` itself and
 * `MergePaths`. The mutations edit a `List<Vector2>` in place (here a
 * `PointList`); every random draw is an argument.
 */
module Mutation {
  import opened Vectors
  import opened Outcomes
  import opened Placement

  /** The `List<Vector2>` the mutations edit in place. */
  class PointList {
    var items: seq<Vector2>

    constructor (points: seq<Vector2>)
      ensures items == points
    {
      items := points;
    }

    function Count(): nat
      reads this
    {
      |items|
    }

    function Get(i: nat): Vector2
      reads this
      requires i < |items|
    {
      items[i]
    }

    function Last(): Vector2
      reads this
      requires items != []
    {
      items[|items| - 1]
    }

    method RemoveAt(i: nat)
      requires i < |items|
      modifies this
      ensures items == old(items[..i] + items[i + 1..])
    {
      items := items[..i] + items[i + 1..];
    }

    method Insert(i: nat, v: Vector2)
      requires i <= |items|
      modifies this
      ensures items == old(items[..i] + [v] + items[i..])
    {
      items := items[..i] + [v] + items[i..];
    }

    method Add(v: Vector2)
      modifies this
      ensures items == old(items) + [v]
    {
      items := items + [v];
    }

    method Set(i: nat, v: Vector2)
      requires i < |items|
      modifies this
      ensures items == old(items)[i := v]
    {
      items := items[i := v];
    }
  }

  /** The index the search loops of both mutations test at step i. */
  function CheckIndex(i: nat, offset: nat, pathCount: nat): (k: nat)
    requires pathCount > 0
    ensures 1 <= k <= pathCount
  {
    1 + (i + offset) % pathCount
  }

  // ---------------------------------------------------------------------
  // Skip mutation

  /**
   * The draws of one skip attempt: the search start offset, the injection
   * index, and the candidates `GetNextPosition` tries for the new last point.
   */
  datatype SkipDraws = SkipDraws(searchStartOffset: int, injectionIndex: int, candidates: seq<Vector2>)

  /** The draws `Random.Next` can make for a path of `count` points. */
  predicate SkipDrawsFit(count: nat, d: SkipDraws) {
    NextInRange(0, count - 1, d.searchStartOffset)
    && (d.searchStartOffset == count - 2 ==> NextInRange(0, count - 2, d.injectionIndex))
  }

  /** The first index k the skip search finds whose neighbours can be joined directly. */
  function SkipSearch(env: ExpeditionEnvironment, n: nat, path: seq<Vector2>, offset: nat, i: nat): (r: Option<nat>)
    requires |path| >= 3 && i <= |path| - 2
    ensures r.Some? ==> 1 <= r.value <= |path| - 2
                        && IsValidPlacement(env, n, path[r.value - 1], path[r.value + 1])
    decreases |path| - 2 - i
  {
    if i == |path| - 2 then None
    else
      var k := CheckIndex(i, offset, |path| - 2);
      if IsValidPlacement(env, n, path[k - 1], path[k + 1]) then Some(k)
      else SkipSearch(env, n, path, offset, i + 1)
  }

  /** Drop the last point and insert the midpoint of path[j] and path[j + 1] between them. */
  function InjectMidpoint(path: seq<Vector2>, j: nat): (r: seq<Vector2>)
    requires j + 2 <= |path|
    ensures |r| == |path|
    ensures r[..j + 1] == path[..j + 1] && r[j + 1] == Midpoint(path[j], path[j + 1])
    ensures r[j + 2..] == path[j + 1..|path| - 1]
  {
    var kept := path[..|path| - 1];
    kept[..j + 1] + [Midpoint(path[j], path[j + 1])] + kept[j + 1..]
  }

  /** Both halves of the segment path[j] -> path[j + 1], split at its midpoint, are valid placements. */
  predicate MidpointInjectable(env: ExpeditionEnvironment, n: nat, path: seq<Vector2>, j: nat)
    requires j + 1 < |path|
  {
    var midpoint := Midpoint(path[j], path[j + 1]);
    IsValidPlacement(env, n, path[j], midpoint) && IsValidPlacement(env, n, midpoint, path[j + 1])
  }

  /**
   * Remove path[k] and append `next`, the point found next to the last point
   * (which the removal does not change, as k is not the last index).
   */
  function SkipPoint(path: seq<Vector2>, k: nat, next: Vector2): (r: seq<Vector2>)
    requires 1 <= k <= |path| - 2
    ensures |r| == |path|
    ensures r[..k] == path[..k] && r[k..|path| - 1] == path[k + 1..] && r[|path| - 1] == next
  {
    path[..k] + path[k + 1..] + [next]
  }

  /**
   * `TryApplySkipMutation`: when the offset lands on the end, try to inject
   * a midpoint; otherwise, or when that fails, search (from offset 0 after a
   * failed injection) for a point whose neighbours can be joined directly.
   */
  function Skip(env: ExpeditionEnvironment, n: nat, path: seq<Vector2>, d: SkipDraws): (r: (bool, seq<Vector2>))
    requires |path| >= 1 && SkipDrawsFit(|path|, d)
    ensures |r.1| == |path|
    ensures !r.0 ==> r.1 == path
  {
    var pathCount := |path| - 2;
    var j := d.injectionIndex;
    if d.searchStartOffset == pathCount && MidpointInjectable(env, n, path, j)
    then (true, InjectMidpoint(path, j))
    else if pathCount <= 0 then (false, path)
    else
      var offset := if d.searchStartOffset == pathCount then 0 else d.searchStartOffset;
      match SkipSearch(env, n, path, offset, 0)
      case None => (false, path)
      case Some(k) =>
        var last := path[|path| - 1];
        (true, SkipPoint(path, k, GetNextPosition(env, n, last, last, d.candidates)))
  }

  lemma SkipInjects(env: ExpeditionEnvironment, n: nat, path: seq<Vector2>, d: SkipDraws)
    requires |path| >= 2 && SkipDrawsFit(|path|, d) && d.searchStartOffset == |path| - 2
    requires MidpointInjectable(env, n, path, d.injectionIndex)
    ensures Skip(env, n, path, d) == (true, InjectMidpoint(path, d.injectionIndex))
  {
  }

  lemma SkipSearchOutcome(env: ExpeditionEnvironment, n: nat, path: seq<Vector2>, d: SkipDraws, offset: nat)
    requires |path| >= 3 && SkipDrawsFit(|path|, d)
    requires !(d.searchStartOffset == |path| - 2 && MidpointInjectable(env, n, path, d.injectionIndex))
    requires offset == if d.searchStartOffset == |path| - 2 then 0 else d.searchStartOffset
    ensures SkipSearch(env, n, path, offset, 0).None? ==> Skip(env, n, path, d) == (false, path)
    ensures SkipSearch(env, n, path, offset, 0).Some? ==>
              Skip(env, n, path, d)
              == (true, SkipPoint(path, SkipSearch(env, n, path, offset, 0).value,
                                  GetNextPosition(env, n, path[|path| - 1], path[|path| - 1], d.candidates)))
  {
  }

  method TryApplySkipMutation(path: PointList, env: ExpeditionEnvironment, n: nat, d: SkipDraws)
    returns (applied: bool)
    requires path.Count() >= 1 && SkipDrawsFit(path.Count(), d)
    modifies path
    ensures (applied, path.items) == Skip(env, n, old(path.items), d)
  {
    ghost var original := path.items;
    var pathCount := path.Count() - 2;
    var searchStartOffset := d.searchStartOffset;
    if searchStartOffset == pathCount {
      var injectionIndex := d.injectionIndex;
      var midpoint := Midpoint(path.Get(injectionIndex), path.Get(injectionIndex + 1));
      if IsValidPlacement(env, n, path.Get(injectionIndex), midpoint)
         && IsValidPlacement(env, n, midpoint, path.Get(injectionIndex + 1)) {
        SkipInjects(env, n, original, d);
        InjectInPlace(path, injectionIndex, midpoint);
        assert path.items == InjectMidpoint(original, injectionIndex);
        return true;
      }
      searchStartOffset := 0;
    }
    assert !(d.searchStartOffset == pathCount && MidpointInjectable(env, n, original, d.injectionIndex));
    if pathCount <= 0 {
      assert (false, path.items) == Skip(env, n, original, d);
      return false;
    }
    SkipSearchOutcome(env, n, original, d, searchStartOffset);
    var found := FindSkippablePoint(env, n, path.items, searchStartOffset);
    if found.None? {
      assert Skip(env, n, original, d) == (false, original);
      return false;
    }
    ghost var last := original[|original| - 1];
    assert Skip(env, n, original, d)
           == (true, SkipPoint(original, found.value, GetNextPosition(env, n, last, last, d.candidates)));
    SkipInPlace(path, env, n, found.value, d.candidates);
    return true;
  }

  /** Drops the last point and inserts `midpoint` after point `j`. */
  method InjectInPlace(path: PointList, j: nat, midpoint: Vector2)
    requires j + 2 <= path.Count() && midpoint == Midpoint(path.items[j], path.items[j + 1])
    modifies path
    ensures path.items == InjectMidpoint(old(path.items), j)
  {
    ghost var original := path.items;
    path.RemoveAt(path.Count() - 1);
    assert path.items == original[..|original| - 1];
    path.Insert(j + 1, midpoint);
  }

  /** Removes point `k` and appends a `GetNextPosition` point drawn around the last point. */
  method SkipInPlace(path: PointList, env: ExpeditionEnvironment, n: nat, k: nat, candidates: seq<Vector2>)
    requires 1 <= k <= path.Count() - 2
    modifies path
    ensures var last := old(path.items)[|old(path.items)| - 1];
            path.items == SkipPoint(old(path.items), k, GetNextPosition(env, n, last, last, candidates))
  {
    ghost var original := path.items;
    path.RemoveAt(k);
    assert path.Last() == original[|original| - 1];
    path.Add(GetNextPosition(env, n, path.Last(), path.Last(), candidates));
  }

  /** The search loop of `TryApplySkipMutation`, which reads the path and does not change it. */
  method FindSkippablePoint(env: ExpeditionEnvironment, n: nat, path: seq<Vector2>, offset: nat)
    returns (found: Option<nat>)
    requires |path| >= 3
    ensures found == SkipSearch(env, n, path, offset, 0)
  {
    var pathCount := |path| - 2;
    for i := 0 to pathCount
      invariant SkipSearch(env, n, path, offset, i) == SkipSearch(env, n, path, offset, 0)
    {
      var checkIndex := CheckIndex(i, offset, pathCount);
      if IsValidPlacement(env, n, path[checkIndex - 1], path[checkIndex + 1]) {
        return Some(checkIndex);
      }
    }
    return None;
  }

  // ---------------------------------------------------------------------
  // Swap mutation

  function SwapAdjacent(path: seq<Vector2>, k: nat): (r: seq<Vector2>)
    requires k + 1 < |path|
  {
    path[k := path[k + 1]][k + 1 := path[k]]
  }

  /** Swapping two neighbours keeps the points and the length, and changes only k and k + 1. */
  lemma SwapAdjacentPermutes(path: seq<Vector2>, k: nat)
    requires k + 1 < |path|
    ensures |SwapAdjacent(path, k)| == |path|
    ensures multiset(SwapAdjacent(path, k)) == multiset(path)
    ensures SwapAdjacent(path, k)[k] == path[k + 1] && SwapAdjacent(path, k)[k + 1] == path[k]
    ensures forall j | 0 <= j < |path| && j != k && j != k + 1 :: SwapAdjacent(path, k)[j] == path[j]
  {
    var r := SwapAdjacent(path, k);
    assert path == path[..k] + [path[k], path[k + 1]] + path[k + 2..];
    assert r == path[..k] + [path[k + 1], path[k]] + path[k + 2..];
  }

  /** The first index k at which the swap search may exchange path[k] and path[k + 1]. */
  function SwapSearch(env: ExpeditionEnvironment, n: nat, path: seq<Vector2>, offset: nat, i: nat): (r: Option<nat>)
    requires |path| >= 4 && i <= |path| - 3
    ensures r.Some? ==> 1 <= r.value <= |path| - 3
                        && IsValidPlacement(env, n, path[r.value - 1], path[r.value + 1])
                        && IsValidPlacement(env, n, path[r.value], path[r.value + 2])
    decreases |path| - 3 - i
  {
    if i == |path| - 3 then None
    else
      var k := CheckIndex(i, offset, |path| - 3);
      if IsValidPlacement(env, n, path[k - 1], path[k + 1]) && IsValidPlacement(env, n, path[k], path[k + 2])
      then Some(k)
      else SwapSearch(env, n, path, offset, i + 1)
  }

  /** The offset `Random.Next(0, Count - 3)` can draw, for paths where that call is made. */
  predicate SwapDrawFits(count: nat, offset: int) {
    count >= 3 ==> NextInRange(0, count - 3, offset)
  }

  /**
   * `TryApplySwapMutation`, corrected for paths of fewer than 3 points,
   * which it leaves unchanged.
   */
  function Swap(env: ExpeditionEnvironment, n: nat, path: seq<Vector2>, offset: int): (r: (bool, seq<Vector2>))
    requires SwapDrawFits(|path|, offset)
    ensures |r.1| == |path| && multiset(r.1) == multiset(path)
    ensures !r.0 ==> r.1 == path
    ensures r.0 ==> exists k | 1 <= k <= |path| - 3 :: r.1 == SwapAdjacent(path, k)
  {
    if |path| < 4 then (false, path)
    else
      match SwapSearch(env, n, path, offset, 0)
      case None => (false, path)
      case Some(k) =>
        SwapAdjacentPermutes(path, k);
        (true, SwapAdjacent(path, k))
  }

  /**
   * `TryApplySwapMutation` as written: `Random.Next(0, Count - 3)` throws
   * for a path of fewer than 3 points.
   */
  function SwapAsWritten(env: ExpeditionEnvironment, n: nat, path: seq<Vector2>, offset: int)
    : (r: Result<(bool, seq<Vector2>)>)
    requires SwapDrawFits(|path|, offset)
    ensures r.Failure? <==> |path| < 3
    ensures r.Ok? ==> r.value == Swap(env, n, path, offset)
  {
    if |path| < 3 then Failure("Random.Next: minValue is greater than maxValue")
    else Ok(Swap(env, n, path, offset))
  }

  /** A two-point path makes the swap mutation as written throw, whatever the draw. */
  lemma SwapAsWrittenThrowsOnTwoPoints(env: ExpeditionEnvironment, n: nat, a: Vector2, b: Vector2, offset: int)
    ensures SwapAsWritten(env, n, [a, b], offset).Failure?
    ensures Swap(env, n, [a, b], offset) == (false, [a, b])
  {
  }

  method TryApplySwapMutation(path: PointList, env: ExpeditionEnvironment, n: nat, offset: int)
    returns (swapped: bool)
    requires SwapDrawFits(path.Count(), offset)
    modifies path
    ensures (swapped, path.items) == Swap(env, n, old(path.items), offset)
  {
    if path.Count() < 4 {
      return false;
    }
    var found := FindSwappablePoint(env, n, path.items, offset);
    if found.None? {
      return false;
    }
    ghost var original := path.items;
    var checkIndex := found.value;
    var a, b := path.Get(checkIndex), path.Get(checkIndex + 1);
    path.Set(checkIndex + 1, a);
    path.Set(checkIndex, b);
    assert path.items == SwapAdjacent(original, checkIndex);
    return true;
  }

  /** The search loop of `TryApplySwapMutation`, which reads the path and does not change it. */
  method FindSwappablePoint(env: ExpeditionEnvironment, n: nat, path: seq<Vector2>, offset: nat)
    returns (found: Option<nat>)
    requires |path| >= 4
    ensures found == SwapSearch(env, n, path, offset, 0)
  {
    var pathCount := |path| - 3;
    for i := 0 to pathCount
      invariant SwapSearch(env, n, path, offset, i) == SwapSearch(env, n, path, offset, 0)
    {
      var checkIndex := CheckIndex(i, offset, pathCount);
      SwapSearchStep(env, n, path, offset, i);
      if IsValidPlacement(env, n, path[checkIndex - 1], path[checkIndex + 1])
         && IsValidPlacement(env, n, path[checkIndex], path[checkIndex + 2]) {
        return Some(checkIndex);
      }
    }
    return None;
  }

  /** One round of the swap search: stop at a swappable point, else go on. */
  lemma SwapSearchStep(env: ExpeditionEnvironment, n: nat, path: seq<Vector2>, offset: nat, i: nat)
    requires |path| >= 4 && i < |path| - 3
    ensures var k := CheckIndex(i, offset, |path| - 3);
            SwapSearch(env, n, path, offset, i)
            == if IsValidPlacement(env, n, path[k - 1], path[k + 1]) && IsValidPlacement(env, n, path[k], path[k + 2])
               then Some(k) else SwapSearch(env, n, path, offset, i + 1)
  {
  }

  // ---------------------------------------------------------------------
  // Point replacement

  /**
   * One try of the replacement loop: the coin choosing where to search
   * from (the previous point, or the point being changed) and the
   * candidates `GetNextPosition` tries.
   */
  datatype ReplaceTry = ReplaceTry(fromPrevious: bool, candidates: seq<Vector2>)

  /** The do/while runs its body once and then at most 10 more times. */
  const MaxTries: nat := 11

  function ReplaceCandidate(env: ExpeditionEnvironment, n: nat, previous: Vector2, changing: Vector2,
                            t: ReplaceTry): (c: Vector2)
  {
    if t.fromPrevious then GetNextPosition(env, n, previous, previous, t.candidates)
    else GetNextPosition(env, n, changing, previous, t.candidates)
  }

  /** `isValidChange`: close enough to the previous point, and a valid step to the next one. */
  predicate IsValidChange(env: ExpeditionEnvironment, n: nat, radius: real, path: seq<Vector2>, k: nat,
                          previous: Vector2, changed: Vector2)
    requires k < |path|
  {
    DistanceLessThanOrEqual(previous, changed, radius)
    && (k == |path| - 1 || IsValidPlacement(env, n, changed, path[k + 1]))
  }

  /** The first try whose candidate is a valid change, if any. */
  function FirstValidChange(env: ExpeditionEnvironment, n: nat, radius: real, path: seq<Vector2>, k: nat,
                            previous: Vector2, tries: seq<ReplaceTry>): (r: Option<Vector2>)
    requires k < |path|
    ensures r.Some? ==> IsValidChange(env, n, radius, path, k, previous, r.value)
    ensures r.Some? ==> exists t | t in tries :: r.value == ReplaceCandidate(env, n, previous, path[k], t)
    decreases |tries|
  {
    if tries == [] then None
    else
      var c := ReplaceCandidate(env, n, previous, path[k], tries[0]);
      if IsValidChange(env, n, radius, path, k, previous, c) then Some(c)
      else FirstValidChange(env, n, radius, path, k, previous, tries[1..])
  }

  /** The replacement step of `MutatePath`: path[k] changes to the first valid candidate, if any. */
  function Replace(env: ExpeditionEnvironment, n: nat, start: Vector2, radius: real, path: seq<Vector2>, k: nat,
                   tries: seq<ReplaceTry>): (r: seq<Vector2>)
    requires k < |path|
    ensures |r| == |path|
    ensures forall j | 0 <= j < |path| && j != k :: r[j] == path[j]
  {
    match FirstValidChange(env, n, radius, path, k, Previous(start, path, k), tries)
    case None => path
    case Some(c) => path[k := c]
  }

  // ---------------------------------------------------------------------
  // MutatePath

  /** The draws of one pass of the mutation loop. */
  datatype PassDraws = PassDraws(trySkip: bool, skip: SkipDraws, trySwap: bool, swapOffset: int,
                                 changeIndex: int, tries: seq<ReplaceTry>)

  predicate PassDrawsFit(count: nat, d: PassDraws) {
    SkipDrawsFit(count, d.skip) && SwapDrawFits(count, d.swapOffset)
    && NextInRange(0, count, d.changeIndex) && |d.tries| == MaxTries
  }

  /** One pass: a skip if drawn and possible, else a swap if drawn and possible, else a replacement. */
  function MutatePass(env: ExpeditionEnvironment, n: nat, start: Vector2, radius: real, path: seq<Vector2>,
                      d: PassDraws): seq<Vector2>
    requires |path| >= 1 && PassDrawsFit(|path|, d)
  {
    if d.trySkip && Skip(env, n, path, d.skip).0 then Skip(env, n, path, d.skip).1
    else if d.trySwap && Swap(env, n, path, d.swapOffset).0 then Swap(env, n, path, d.swapOffset).1
    else Replace(env, n, start, radius, path, d.changeIndex, d.tries)
  }

  /** The passes of `MutatePath` in order. */
  function Mutate(env: ExpeditionEnvironment, n: nat, start: Vector2, radius: real, path: seq<Vector2>,
                  passes: seq<PassDraws>): (r: seq<Vector2>)
    requires |path| >= 1
    requires forall i | 0 <= i < |passes| :: PassDrawsFit(|path|, passes[i])
    ensures |r| == |path|
    decreases |passes|
  {
    if passes == [] then path
    else
      var before := Mutate(env, n, start, radius, path, passes[..|passes| - 1]);
      MutatePass(env, n, start, radius, before, passes[|passes| - 1])
  }

  /** A pass reaches the swap mutation: the swap coin is drawn and no skip mutation was applied first. */
  predicate SwapReached(env: ExpeditionEnvironment, n: nat, path: seq<Vector2>, d: PassDraws)
    requires |path| >= 1 && PassDrawsFit(|path|, d)
  {
    d.trySwap && !(d.trySkip && Skip(env, n, path, d.skip).0)
  }

  /**
   * One pass as the source writes it: the swap mutation throws for a path
   * of fewer than 3 points.
   */
  function MutatePassAsWritten(env: ExpeditionEnvironment, n: nat, start: Vector2, radius: real, path: seq<Vector2>,
                               d: PassDraws): (r: Result<seq<Vector2>>)
    requires |path| >= 1 && PassDrawsFit(|path|, d)
    ensures r.Failure? <==> SwapReached(env, n, path, d) && |path| < 3
    ensures r.Ok? ==> r.value == MutatePass(env, n, start, radius, path, d)
  {
    if d.trySkip && Skip(env, n, path, d.skip).0 then Ok(Skip(env, n, path, d.skip).1)
    else if d.trySwap then
      match SwapAsWritten(env, n, path, d.swapOffset)
      case Failure(e) => Failure(e)
      case Ok(swap) => if swap.0 then Ok(swap.1) else Ok(Replace(env, n, start, radius, path, d.changeIndex, d.tries))
    else Ok(Replace(env, n, start, radius, path, d.changeIndex, d.tries))
  }

  /** The passes of `MutatePath` as written; the first pass that throws ends it. */
  function MutateAsWritten(env: ExpeditionEnvironment, n: nat, start: Vector2, radius: real, path: seq<Vector2>,
                           passes: seq<PassDraws>): (r: Result<seq<Vector2>>)
    requires |path| >= 1
    requires forall i | 0 <= i < |passes| :: PassDrawsFit(|path|, passes[i])
    ensures r.Ok? ==> r.value == Mutate(env, n, start, radius, path, passes)
    decreases |passes|
  {
    if passes == [] then Ok(path)
    else
      match MutateAsWritten(env, n, start, radius, path, passes[..|passes| - 1])
      case Failure(e) => Failure(e)
      case Ok(before) => MutatePassAsWritten(env, n, start, radius, before, passes[|passes| - 1])
  }

  /** Pass `i` of `MutatePath` reaches the swap mutation, on the path the passes before it leave. */
  predicate SwapReachedAt(env: ExpeditionEnvironment, n: nat, start: Vector2, radius: real, path: seq<Vector2>,
                          passes: seq<PassDraws>, i: nat)
    requires |path| >= 1 && i < |passes|
    requires forall j | 0 <= j < |passes| :: PassDrawsFit(|path|, passes[j])
  {
    SwapReached(env, n, Mutate(env, n, start, radius, path, passes[..i]), passes[i])
  }

  /** Some pass of `MutatePath` reaches the swap mutation. */
  predicate SomeSwapReached(env: ExpeditionEnvironment, n: nat, start: Vector2, radius: real, path: seq<Vector2>,
                            passes: seq<PassDraws>)
    requires |path| >= 1
    requires forall j | 0 <= j < |passes| :: PassDrawsFit(|path|, passes[j])
  {
    exists i | 0 <= i < |passes| :: SwapReachedAt(env, n, start, radius, path, passes, i)
  }

  /** Whether pass `i` reaches the swap mutation does not depend on the passes after it. */
  lemma SwapReachedAtFront(env: ExpeditionEnvironment, n: nat, start: Vector2, radius: real, path: seq<Vector2>,
                           passes: seq<PassDraws>, i: nat)
    requires |path| >= 1 && i < |passes| - 1
    requires forall j | 0 <= j < |passes| :: PassDrawsFit(|path|, passes[j])
    ensures SwapReachedAt(env, n, start, radius, path, passes, i)
            == SwapReachedAt(env, n, start, radius, path, passes[..|passes| - 1], i)
  {
    assert passes[..|passes| - 1][..i] == passes[..i];
  }

  /** Adding a pass adds the question whether that pass reaches the swap mutation. */
  lemma SomeSwapReachedStep(env: ExpeditionEnvironment, n: nat, start: Vector2, radius: real, path: seq<Vector2>,
                            passes: seq<PassDraws>)
    requires |path| >= 1 && passes != []
    requires forall j | 0 <= j < |passes| :: PassDrawsFit(|path|, passes[j])
    ensures SomeSwapReached(env, n, start, radius, path, passes)
            <==> SomeSwapReached(env, n, start, radius, path, passes[..|passes| - 1])
                 || SwapReachedAt(env, n, start, radius, path, passes, |passes| - 1)
  {
    var k := |passes| - 1;
    var front := passes[..k];
    if SomeSwapReached(env, n, start, radius, path, passes) {
      var i :| 0 <= i < |passes| && SwapReachedAt(env, n, start, radius, path, passes, i);
      if i < k {
        SwapReachedAtFront(env, n, start, radius, path, passes, i);
      }
    }
    if SomeSwapReached(env, n, start, radius, path, front) {
      var i :| 0 <= i < k && SwapReachedAt(env, n, start, radius, path, front, i);
      SwapReachedAtFront(env, n, start, radius, path, passes, i);
    }
  }

  /**
   * `MutatePath` as written throws exactly when the path has fewer than 3
   * points and some pass reaches the swap mutation; otherwise it computes
   * `Mutate`, so on paths of 3 points or more the two agree.
   */
  lemma {:induction false} MutateAsWrittenFails(env: ExpeditionEnvironment, n: nat, start: Vector2, radius: real,
                                                path: seq<Vector2>, passes: seq<PassDraws>)
    requires |path| >= 1
    requires forall i | 0 <= i < |passes| :: PassDrawsFit(|path|, passes[i])
    ensures MutateAsWritten(env, n, start, radius, path, passes).Failure?
            <==> |path| < 3 && SomeSwapReached(env, n, start, radius, path, passes)
    ensures |path| >= 3 ==> MutateAsWritten(env, n, start, radius, path, passes) == Ok(Mutate(env, n, start, radius, path, passes))
    decreases |passes|
  {
    if passes != [] {
      var k := |passes| - 1;
      var front := passes[..k];
      MutateAsWrittenFails(env, n, start, radius, path, front);
      SomeSwapReachedStep(env, n, start, radius, path, passes);
      var before := Mutate(env, n, start, radius, path, front);
      assert SwapReachedAt(env, n, start, radius, path, passes, k) == SwapReached(env, n, before, passes[k]);
    }
  }

  /**
   * `MutatePath`: 1 to 3 passes over a copy of the original path. The
   * original is not modified (the method has no `modifies` clause).
   */
  method MutatePath(env: ExpeditionEnvironment, n: nat, startingPoint: Vector2, radius: real,
                    originalPath: PointList, passes: seq<PassDraws>) returns (newPath: PointList)
    requires originalPath.Count() >= 1
    requires 1 <= |passes| <= 3
    requires forall i | 0 <= i < |passes| :: PassDrawsFit(originalPath.Count(), passes[i])
    ensures fresh(newPath)
    ensures newPath.items == Mutate(env, n, startingPoint, radius, originalPath.items, passes)
  {
    newPath := new PointList(originalPath.items);
    for mutation := 0 to |passes|
      invariant fresh(newPath)
      invariant newPath.items == Mutate(env, n, startingPoint, radius, originalPath.items, passes[..mutation])
    {
      assert passes[..mutation + 1][..mutation] == passes[..mutation];
      MutateOnce(newPath, env, n, startingPoint, radius, passes[mutation]);
    }
    assert passes[..|passes|] == passes;
  }

  /** One iteration of the loop in `MutatePath`. */
  method MutateOnce(path: PointList, env: ExpeditionEnvironment, n: nat, startingPoint: Vector2, radius: real,
                    d: PassDraws)
    requires path.Count() >= 1 && PassDrawsFit(path.Count(), d)
    modifies path
    ensures path.items == MutatePass(env, n, startingPoint, radius, old(path.items), d)
  {
    if d.trySkip {
      var applied := TryApplySkipMutation(path, env, n, d.skip);
      if applied {
        return;
      }
    }
    if d.trySwap {
      var swapped := TryApplySwapMutation(path, env, n, d.swapOffset);
      if swapped {
        return;
      }
    }
    var changeIndex := d.changeIndex;
    var previousPoint := if changeIndex == 0 then startingPoint else path.Get(changeIndex - 1);
    var changed := FindValidChange(env, n, radius, path.items, changeIndex, previousPoint, d.tries);
    if changed.None? {
      return;
    }
    path.Set(changeIndex, changed.value);
  }

  /** The do/while loop of the replacement, which reads the path and does not change it. */
  method FindValidChange(env: ExpeditionEnvironment, n: nat, radius: real, path: seq<Vector2>, changeIndex: nat,
                         previousPoint: Vector2, tries: seq<ReplaceTry>) returns (found: Option<Vector2>)
    requires changeIndex < |path| && |tries| == MaxTries
    ensures found == FirstValidChange(env, n, radius, path, changeIndex, previousPoint, tries)
  {
    var changingPoint := path[changeIndex];
    var attempt := 0;
    FirstValidChangeStep(env, n, radius, path, changeIndex, previousPoint, tries, 0);
    assert tries[0..] == tries;
    var changedPoint := ReplaceCandidate(env, n, previousPoint, changingPoint, tries[0]);
    var isValidChange := IsValidChange(env, n, radius, path, changeIndex, previousPoint, changedPoint);
    while !isValidChange && attempt < MaxTries - 1
      invariant 0 <= attempt <= MaxTries - 1
      invariant isValidChange ==>
                  FirstValidChange(env, n, radius, path, changeIndex, previousPoint, tries) == Some(changedPoint)
      invariant !isValidChange ==>
                  FirstValidChange(env, n, radius, path, changeIndex, previousPoint, tries)
                  == FirstValidChange(env, n, radius, path, changeIndex, previousPoint, tries[attempt + 1..])
    {
      attempt := attempt + 1;
      FirstValidChangeStep(env, n, radius, path, changeIndex, previousPoint, tries, attempt);
      changedPoint := ReplaceCandidate(env, n, previousPoint, changingPoint, tries[attempt]);
      isValidChange := IsValidChange(env, n, radius, path, changeIndex, previousPoint, changedPoint);
    }
    if !isValidChange {
      assert tries[attempt + 1..] == [];
      assert FirstValidChange(env, n, radius, path, changeIndex, previousPoint, tries[attempt + 1..]) == None;
      return None;
    }
    return Some(changedPoint);
  }

  /** One try of the search: take its candidate if valid, else go on with the rest. */
  lemma FirstValidChangeStep(env: ExpeditionEnvironment, n: nat, radius: real, path: seq<Vector2>, k: nat,
                             previous: Vector2, tries: seq<ReplaceTry>, a: nat)
    requires k < |path| && a < |tries|
    ensures var c := ReplaceCandidate(env, n, previous, path[k], tries[a]);
            FirstValidChange(env, n, radius, path, k, previous, tries[a..])
            == if IsValidChange(env, n, radius, path, k, previous, c) then Some(c)
               else FirstValidChange(env, n, radius, path, k, previous, tries[a + 1..])
  {
    assert tries[a..][0] == tries[a];
    assert tries[a..][1..] == tries[a + 1..];
  }

  // ---------------------------------------------------------------------
  // Every edit keeps a valid path valid.

  lemma SkipPreservesValidPath(env: ExpeditionEnvironment, n: nat, start: Vector2, path: seq<Vector2>, d: SkipDraws)
    requires n >= 1 && |path| >= 1 && SkipDrawsFit(|path|, d)
    requires ValidPath(env, n, start, path)
    ensures ValidPath(env, n, start, Skip(env, n, path, d).1)
  {
    var pathCount := |path| - 2;
    if d.searchStartOffset == pathCount && MidpointInjectable(env, n, path, d.injectionIndex) {
      SkipInjects(env, n, path, d);
      InjectPreservesValidPath(env, n, start, path, d.injectionIndex);
    } else if pathCount > 0 {
      var offset := if d.searchStartOffset == pathCount then 0 else d.searchStartOffset;
      SkipSearchOutcome(env, n, path, d, offset);
      var found := SkipSearch(env, n, path, offset, 0);
      if found.Some? {
        SkipPointPreservesValidPath(env, n, start, path, found.value, d.candidates);
      }
    }
  }

  lemma InjectPreservesValidPath(env: ExpeditionEnvironment, n: nat, start: Vector2, path: seq<Vector2>, j: nat)
    requires j + 2 <= |path|
    requires ValidPath(env, n, start, path)
    requires MidpointInjectable(env, n, path, j)
    ensures ValidPath(env, n, start, InjectMidpoint(path, j))
  {
    var r := InjectMidpoint(path, j);
    forall i | 0 <= i < |r|
      ensures IsValidPlacement(env, n, Previous(start, r, i), r[i])
    {
      if i <= j {
        assert r[i] == r[..j + 1][i] == path[i];
        if i > 0 {
          assert r[i - 1] == r[..j + 1][i - 1] == path[i - 1];
        }
        assert IsValidPlacement(env, n, Previous(start, path, i), path[i]);
      } else if i == j + 1 {
        assert r[j] == r[..j + 1][j] == path[j];
      } else if i == j + 2 {
        assert r[i] == r[j + 2..][0] == path[j + 1];
      } else {
        assert r[i] == r[j + 2..][i - j - 2] == path[i - 1];
        assert r[i - 1] == r[j + 2..][i - j - 3] == path[i - 2];
        assert IsValidPlacement(env, n, Previous(start, path, i - 1), path[i - 1]);
      }
    }
  }

  lemma SkipPointPreservesValidPath(env: ExpeditionEnvironment, n: nat, start: Vector2, path: seq<Vector2>, k: nat,
                                    candidates: seq<Vector2>)
    requires n >= 1 && 1 <= k <= |path| - 2
    requires ValidPath(env, n, start, path)
    requires IsValidPlacement(env, n, path[k - 1], path[k + 1])
    ensures ValidPath(env, n, start, SkipPoint(path, k, GetNextPosition(env, n, path[|path| - 1], path[|path| - 1], candidates)))
  {
    var last := path[|path| - 1];
    var r := SkipPoint(path, k, GetNextPosition(env, n, last, last, candidates));
    assert r[|path| - 2] == r[k..|path| - 1][|path| - 2 - k] == last;
    ValidPathPointsAccepted(env, n, start, path, |path| - 1);
    ValidPlacementNeedsRange(env, n, Previous(start, path, 0), path[0]);
    GetNextPositionFromAcceptedPoint(env, n, last, candidates);
    forall i | 0 <= i < |r|
      ensures IsValidPlacement(env, n, Previous(start, r, i), r[i])
    {
      if i < k {
        assert r[i] == r[..k][i] == path[i];
        if i > 0 {
          assert r[i - 1] == r[..k][i - 1] == path[i - 1];
        }
        assert IsValidPlacement(env, n, Previous(start, path, i), path[i]);
      } else if i == k {
        assert r[k] == r[k..|path| - 1][0] == path[k + 1];
        assert r[k - 1] == r[..k][k - 1] == path[k - 1];
      } else if i < |path| - 1 {
        assert r[i] == r[k..|path| - 1][i - k] == path[i + 1];
        assert r[i - 1] == r[k..|path| - 1][i - 1 - k] == path[i];
        assert IsValidPlacement(env, n, Previous(start, path, i + 1), path[i + 1]);
      }
    }
  }

  lemma SwapPreservesValidPath(env: ExpeditionEnvironment, n: nat, start: Vector2, path: seq<Vector2>, offset: int)
    requires n >= 1 && SwapDrawFits(|path|, offset)
    requires ValidPath(env, n, start, path)
    ensures ValidPath(env, n, start, Swap(env, n, path, offset).1)
  {
    var r := Swap(env, n, path, offset);
    if r.0 {
      var k := SwapSearch(env, n, path, offset, 0).value;
      SwapAdjacentPermutes(path, k);
      ValidPathPointsAccepted(env, n, start, path, k);
      assert IsValidPlacement(env, n, Previous(start, path, k + 1), path[k + 1]);
      ValidPlacementReversed(env, n, path[k], path[k + 1]);
      forall i | 0 <= i < |r.1|
        ensures IsValidPlacement(env, n, Previous(start, r.1, i), r.1[i])
      {
        if i != k && i != k + 1 && i != k + 2 {
          assert IsValidPlacement(env, n, Previous(start, path, i), path[i]);
        }
      }
    }
  }

  lemma ReplacePreservesValidPath(env: ExpeditionEnvironment, n: nat, start: Vector2, radius: real,
                                  path: seq<Vector2>, k: nat, tries: seq<ReplaceTry>)
    requires n >= 1 && k < |path|
    requires ValidPath(env, n, start, path)
    requires env.isValidPlacement(start)
    ensures ValidPath(env, n, start, Replace(env, n, start, radius, path, k, tries))
  {
    var previous := Previous(start, path, k);
    var found := FirstValidChange(env, n, radius, path, k, previous, tries);
    if found.Some? {
      var c := found.value;
      var r := path[k := c];
      ReplacementFromPrevious(env, n, start, radius, path, k, tries);
      forall i | 0 <= i < |r|
        ensures IsValidPlacement(env, n, Previous(start, r, i), r[i])
      {
        if i != k && i != k + 1 {
          assert IsValidPlacement(env, n, Previous(start, path, i), path[i]);
        } else if i == k + 1 {
          assert IsValidChange(env, n, radius, path, k, previous, c);
        }
      }
    }
  }

  /** The replacement point is a valid placement from the point before it. */
  lemma ReplacementFromPrevious(env: ExpeditionEnvironment, n: nat, start: Vector2, radius: real,
                                path: seq<Vector2>, k: nat, tries: seq<ReplaceTry>)
    requires n >= 1 && k < |path|
    requires ValidPath(env, n, start, path)
    requires env.isValidPlacement(start)
    requires FirstValidChange(env, n, radius, path, k, Previous(start, path, k), tries).Some?
    ensures IsValidPlacement(env, n, Previous(start, path, k),
                             FirstValidChange(env, n, radius, path, k, Previous(start, path, k), tries).value)
  {
    var previous := Previous(start, path, k);
    var c := FirstValidChange(env, n, radius, path, k, previous, tries).value;
    var t :| t in tries && c == ReplaceCandidate(env, n, previous, path[k], t);
    var position := if t.fromPrevious then previous else path[k];
    GetNextPositionOutcome(env, n, position, previous, t.candidates);
    assert IsValidPlacement(env, n, previous, path[k]);
    if c == previous {
      if k > 0 {
        ValidPathPointsAccepted(env, n, start, path, k - 1);
      }
      ValidPlacementNeedsRange(env, n, previous, path[k]);
      StayingInPlaceAllowed(env, n, previous);
    }
  }

  lemma MutatePassPreservesValidPath(env: ExpeditionEnvironment, n: nat, start: Vector2, radius: real,
                                     path: seq<Vector2>, d: PassDraws)
    requires n >= 1 && |path| >= 1 && PassDrawsFit(|path|, d)
    requires ValidPath(env, n, start, path)
    requires env.isValidPlacement(start)
    ensures ValidPath(env, n, start, MutatePass(env, n, start, radius, path, d))
  {
    SkipPreservesValidPath(env, n, start, path, d.skip);
    SwapPreservesValidPath(env, n, start, path, d.swapOffset);
    ReplacePreservesValidPath(env, n, start, radius, path, d.changeIndex, d.tries);
  }

  /**
   * `MutatePath` keeps the length of the path and keeps a valid path valid
   * (given a starting point the oracle accepts).
   */
  lemma {:induction false} MutatePreservesValidPath(env: ExpeditionEnvironment, n: nat, start: Vector2,
                                                    radius: real, path: seq<Vector2>, passes: seq<PassDraws>)
    requires n >= 1 && |path| >= 1
    requires forall i | 0 <= i < |passes| :: PassDrawsFit(|path|, passes[i])
    requires ValidPath(env, n, start, path)
    requires env.isValidPlacement(start)
    ensures ValidPath(env, n, start, Mutate(env, n, start, radius, path, passes))
    decreases |passes|
  {
    if passes != [] {
      var init := passes[..|passes| - 1];
      MutatePreservesValidPath(env, n, start, radius, path, init);
      MutatePassPreservesValidPath(env, n, start, radius, Mutate(env, n, start, radius, path, init),
                                   passes[|passes| - 1]);
    }
  }

  // ---------------------------------------------------------------------
  // MergePaths

  /**
   * `MergePaths`: the point-wise blend `p1 * factor + p2 * (1 - factor)`;
   * paths of different lengths throw.
   */
  function MergePaths(path1: seq<Vector2>, path2: seq<Vector2>, factor: real): (r: Result<seq<Vector2>>)
    ensures r.Failure? <==> |path1| != |path2|
    ensures r.Ok? ==> |r.value| == |path1|
                      && forall i | 0 <= i < |path1| :: r.value[i] == Lerp(path2[i], path1[i], factor)
  {
    if |path1| != |path2| then Failure("Paths have different lengths")
    else
      var merged := seq(|path1|, i requires 0 <= i < |path1| =>
                          Add(Scale(path1[i], factor), Scale(path2[i], 1.0 - factor)));
      assert forall i | 0 <= i < |path1| :: merged[i] == Lerp(path2[i], path1[i], factor) by {
        forall i | 0 <= i < |path1| ensures merged[i] == Lerp(path2[i], path1[i], factor) {
          BlendIsLerp(path1[i], path2[i], factor);
        }
      }
      Ok(merged)
  }

  lemma BlendIsLerp(a: Vector2, b: Vector2, t: real)
    ensures Add(Scale(a, t), Scale(b, 1.0 - t)) == Lerp(b, a, t)
  {
    BlendCoordinate(a.x, b.x, t);
    BlendCoordinate(a.y, b.y, t);
  }

  lemma BlendCoordinate(a: real, b: real, t: real)
    ensures Mul(a, t) + Mul(b, 1.0 - t) == b + Mul(a - b, t)
  {
  }

  /** Merging with factor 1 gives the first path, with factor 0 the second, and a path with itself gives it back. */
  lemma MergeEndpoints(path1: seq<Vector2>, path2: seq<Vector2>, factor: real)
    requires |path1| == |path2|
    ensures factor == 1.0 ==> MergePaths(path1, path2, factor) == Ok(path1)
    ensures factor == 0.0 ==> MergePaths(path1, path2, factor) == Ok(path2)
    ensures MergePaths(path1, path1, factor) == Ok(path1)
  {
    var r := MergePaths(path1, path2, factor).value;
    var same := MergePaths(path1, path1, factor).value;
    forall i | 0 <= i < |path1|
      ensures factor == 1.0 ==> r[i] == path1[i]
      ensures factor == 0.0 ==> r[i] == path2[i]
      ensures same[i] == path1[i]
    {
      LerpAtOne(path2[i], path1[i]);
      LerpAtZero(path2[i], path1[i]);
      LerpSamePoint(path1[i], factor);
    }
    if factor == 1.0 {
      assert r == path1;
    }
    if factor == 0.0 {
      assert r == path2;
    }
    assert same == path1;
  }
}
