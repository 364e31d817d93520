/**
 * `BuildPath`: an optional walk towards a relic followed by the fill loop
 * that extends the path to `MaxExplosions` points. Every random draw is
 * an argument, and `Vector2.Length` (a square root) is the caller-supplied
 * `norm`.
 */
module Building {
  import opened Vectors
  import opened Outcomes
  import opened Placement

  /**
   * The draws of one `BuildPath` call: the coin `Random.Next(2) != 0` that
   * asks for a walk to a relic, the relic index, and for the fill step that
   * finds the path at length i, the candidates `GetNextPosition` tries.
   */
  datatype BuildDraws = BuildDraws(walkToRelic: bool, relicIndex: int, fills: seq<seq<Vector2>>)

  /**
   * Draws a `BuildPath` call can make. `MaxExplosions` is not negative:
   * `new List<Vector2>(MaxExplosions)` throws for a negative capacity, and
   * the only caller has already made `Enumerable.Repeat` with that count,
   * which throws for it first.
   */
  predicate BuildDrawsFit(env: ExpeditionEnvironment, d: BuildDraws) {
    env.maxExplosions >= 0
    && (d.walkToRelic && |env.relics| > 0 ==> NextInRange(0, |env.relics|, d.relicIndex))
    && |d.fills| >= env.maxExplosions
  }

  /** How far the path may still grow, for termination. */
  function Room(env: ExpeditionEnvironment, path: seq<Vector2>): nat {
    if |path| < env.maxExplosions then env.maxExplosions - |path| else 0
  }

  /**
   * The point one pass of the walk appends: the relic itself when it is
   * within the explosion range of `current`, otherwise the point one
   * explosion range from `current` towards it. `None` stands for the NaN
   * point a zero-length step divides into, which no range test accepts.
   */
  function WalkPoint(env: ExpeditionEnvironment, relic: Vector2, norm: Vector2 -> real, current: Vector2)
    : (p: Option<Vector2>)
    ensures LengthLessThan(Sub(relic, current), env.explosionRange) ==> p == Some(relic)
  {
    var diff := Sub(relic, current);
    if LengthLessThan(diff, env.explosionRange) then Some(relic)
    else if norm(diff) == 0.0 then None
    else Some(Add(current, Scale(diff, env.explosionRange / norm(diff))))
  }

  /** What one pass of the walk leaves: the final path, or the new `current` and the longer path. */
  datatype WalkOutcome = Stop(path: seq<Vector2>) | Continue(current: Vector2, path: seq<Vector2>)

  /**
   * One pass of the do/while loop walking from `current` towards the
   * relic. It appends a point and stops, removing it again, when it is not
   * a valid placement from the point before it. The loop goes on while
   * `current` is not within the explosion radius of the relic and the path
   * is not full. `keepCurrent` selects the source as written, where
   * reaching the relic leaves `current` where it was (see
   * `RelicWalkAsWritten`).
   */
  function WalkStep(env: ExpeditionEnvironment, n: nat, relic: Vector2, norm: Vector2 -> real, current: Vector2,
                    path: seq<Vector2>, keepCurrent: bool): (o: WalkOutcome)
    ensures path <= o.path && |o.path| <= |path| + 1
    ensures o.Continue? ==> |o.path| == |path| + 1 && |o.path| < env.maxExplosions
    ensures ValidPath(env, n, env.startingPoint, path) ==> ValidPath(env, n, env.startingPoint, o.path)
  {
    match WalkPoint(env, relic, norm, current)
    case None => Stop(path)
    case Some(point) =>
      var extended := path + [point];
      if !IsValidPlacement(env, n, Previous(env.startingPoint, extended, |path|), point) then Stop(path)
      else
        ValidPathAppendIf(env, n, env.startingPoint, path, point);
        var reached := LengthLessThan(Sub(relic, current), env.explosionRange);
        var next := if reached && keepCurrent then current else point;
        if !DistanceLessThanOrEqual(next, relic, env.explosionRadius) && |extended| < env.maxExplosions
        then Continue(next, extended)
        else Stop(extended)
  }

  /** The do/while loop of the walk, pass after pass. */
  function Walk(env: ExpeditionEnvironment, n: nat, relic: Vector2, norm: Vector2 -> real, current: Vector2,
                path: seq<Vector2>, keepCurrent: bool): (r: seq<Vector2>)
    decreases Room(env, path)
  {
    match WalkStep(env, n, relic, norm, current, path, keepCurrent)
    case Stop(p) => p
    case Continue(c, p) => Walk(env, n, relic, norm, c, p, keepCurrent)
  }

  /** The walk as the source writes it: reaching the relic does not move `current`. */
  function RelicWalkAsWritten(env: ExpeditionEnvironment, n: nat, relic: Vector2, norm: Vector2 -> real)
    : (r: seq<Vector2>)
    ensures ValidPath(env, n, env.startingPoint, r)
    ensures |r| <= Bound(env)
  {
    WalkValid(env, n, relic, norm, env.startingPoint, [], true);
    WalkGrows(env, n, relic, norm, env.startingPoint, [], true);
    Walk(env, n, relic, norm, env.startingPoint, [], true)
  }

  /** The walk with `current` set to the relic once it is reached, which ends the walk there. */
  function RelicWalk(env: ExpeditionEnvironment, n: nat, relic: Vector2, norm: Vector2 -> real)
    : (r: seq<Vector2>)
    ensures ValidPath(env, n, env.startingPoint, r)
    ensures |r| <= Bound(env)
  {
    WalkValid(env, n, relic, norm, env.startingPoint, [], false);
    WalkGrows(env, n, relic, norm, env.startingPoint, [], false);
    Walk(env, n, relic, norm, env.startingPoint, [], false)
  }

  /** A walk never makes the path longer than `MaxExplosions`, or than 1 point when that is below 1. */
  function Bound(env: ExpeditionEnvironment): nat {
    if env.maxExplosions >= 1 then env.maxExplosions else 1
  }

  /** The walk extends the path it is given and stays within `Bound`. */
  lemma {:induction false} WalkGrows(env: ExpeditionEnvironment, n: nat, relic: Vector2, norm: Vector2 -> real,
                                     current: Vector2, path: seq<Vector2>, keepCurrent: bool)
    requires path == [] || |path| < env.maxExplosions
    ensures path <= Walk(env, n, relic, norm, current, path, keepCurrent)
    ensures |Walk(env, n, relic, norm, current, path, keepCurrent)| <= Bound(env)
    decreases Room(env, path)
  {
    var o := WalkStep(env, n, relic, norm, current, path, keepCurrent);
    if o.Continue? {
      WalkGrows(env, n, relic, norm, o.current, o.path, keepCurrent);
    }
  }

  /** The walk keeps a valid path valid: it appends only points that pass `IsValidPlacement`. */
  lemma {:induction false} WalkValid(env: ExpeditionEnvironment, n: nat, relic: Vector2, norm: Vector2 -> real,
                                     current: Vector2, path: seq<Vector2>, keepCurrent: bool)
    requires ValidPath(env, n, env.startingPoint, path)
    ensures ValidPath(env, n, env.startingPoint, Walk(env, n, relic, norm, current, path, keepCurrent))
    decreases Room(env, path)
  {
    var o := WalkStep(env, n, relic, norm, current, path, keepCurrent);
    if o.Continue? {
      WalkValid(env, n, relic, norm, o.current, o.path, keepCurrent);
    }
  }

  lemma ValidPathAppendIf(env: ExpeditionEnvironment, n: nat, start: Vector2, path: seq<Vector2>, p: Vector2)
    requires IsValidPlacement(env, n, Previous(start, path + [p], |path|), p)
    ensures ValidPath(env, n, start, path) ==> ValidPath(env, n, start, path + [p])
  {
    if ValidPath(env, n, start, path) {
      ValidPathAppend(env, n, start, path, p);
    }
  }

  /** Appending a point that is a valid placement from the last one keeps a path valid. */
  lemma ValidPathAppend(env: ExpeditionEnvironment, n: nat, start: Vector2, path: seq<Vector2>, p: Vector2)
    requires ValidPath(env, n, start, path)
    requires IsValidPlacement(env, n, Previous(start, path + [p], |path|), p)
    ensures ValidPath(env, n, start, path + [p])
  {
    var r := path + [p];
    forall i | 0 <= i < |r|
      ensures IsValidPlacement(env, n, Previous(start, r, i), r[i])
    {
      if i < |path| {
        assert IsValidPlacement(env, n, Previous(start, path, i), path[i]);
      }
    }
  }

  /** The fill loop: append `GetNextPosition` of the last point until the path is full. */
  function Fill(env: ExpeditionEnvironment, n: nat, point: Vector2, path: seq<Vector2>, fills: seq<seq<Vector2>>)
    : (r: seq<Vector2>)
    requires |fills| >= env.maxExplosions
    decreases Room(env, path)
  {
    if |path| >= env.maxExplosions then path
    else
      var next := GetNextPosition(env, n, point, point, fills[|path|]);
      Fill(env, n, next, path + [next], fills)
  }

  /** The fill loop brings the path to exactly `MaxExplosions` points, or leaves a longer one alone. */
  lemma {:induction false} FillLength(env: ExpeditionEnvironment, n: nat, point: Vector2, path: seq<Vector2>,
                                      fills: seq<seq<Vector2>>)
    requires |fills| >= env.maxExplosions
    ensures path <= Fill(env, n, point, path, fills)
    ensures |Fill(env, n, point, path, fills)| == if |path| < env.maxExplosions then env.maxExplosions else |path|
    decreases Room(env, path)
  {
    if |path| < env.maxExplosions {
      var next := GetNextPosition(env, n, point, point, fills[|path|]);
      FillLength(env, n, next, path + [next], fills);
    }
  }

  /**
   * Continuing from the last point of a valid path (or from an accepted
   * starting point) keeps the path valid, given a non-zero explosion range.
   */
  lemma {:induction false} FillValid(env: ExpeditionEnvironment, n: nat, point: Vector2, path: seq<Vector2>,
                                     fills: seq<seq<Vector2>>)
    requires n >= 1 && |fills| >= env.maxExplosions
    requires env.explosionRange != 0.0 && env.isValidPlacement(point)
    requires ValidPath(env, n, env.startingPoint, path)
    requires point == if path == [] then env.startingPoint else path[|path| - 1]
    ensures ValidPath(env, n, env.startingPoint, Fill(env, n, point, path, fills))
    decreases Room(env, path)
  {
    if |path| < env.maxExplosions {
      var next := GetNextPosition(env, n, point, point, fills[|path|]);
      GetNextPositionFromAcceptedPoint(env, n, point, fills[|path|]);
      ValidPathAppend(env, n, env.startingPoint, path, next);
      ValidPlacementAcceptsEndpoint(env, n, point, next);
      FillValid(env, n, next, path + [next], fills);
    }
  }

  /**
   * The walk, when the coin asks for one and there is a relic: as written
   * when `keepCurrent` holds, corrected otherwise.
   */
  function Walked(env: ExpeditionEnvironment, n: nat, d: BuildDraws, norm: Vector2 -> real, keepCurrent: bool)
    : (r: seq<Vector2>)
    requires BuildDrawsFit(env, d)
    ensures ValidPath(env, n, env.startingPoint, r) && |r| <= Bound(env)
    ensures !(d.walkToRelic && |env.relics| > 0) ==> r == []
  {
    if d.walkToRelic && |env.relics| > 0 then
      var relic := env.relics[d.relicIndex].0;
      if keepCurrent then RelicWalkAsWritten(env, n, relic, norm) else RelicWalk(env, n, relic, norm)
    else []
  }

  /** `path.LastOrDefault(StartingPoint)` */
  function LastOrStart(env: ExpeditionEnvironment, path: seq<Vector2>): Vector2 {
    if path == [] then env.startingPoint else path[|path| - 1]
  }

  /** `BuildPath`: the relic walk (as written or corrected), then the fill loop. */
  function BuildWith(env: ExpeditionEnvironment, n: nat, d: BuildDraws, norm: Vector2 -> real, keepCurrent: bool)
    : seq<Vector2>
    requires BuildDrawsFit(env, d)
  {
    var walked := Walked(env, n, d, norm, keepCurrent);
    Fill(env, n, LastOrStart(env, walked), walked, d.fills)
  }

  /** `BuildPath` as the source writes it. */
  function BuildAsWritten(env: ExpeditionEnvironment, n: nat, d: BuildDraws, norm: Vector2 -> real): seq<Vector2>
    requires BuildDrawsFit(env, d)
  {
    BuildWith(env, n, d, norm, true)
  }

  /** `BuildPath` with the corrected relic walk; the generation loop uses this one. */
  function Build(env: ExpeditionEnvironment, n: nat, d: BuildDraws, norm: Vector2 -> real): seq<Vector2>
    requires BuildDrawsFit(env, d)
  {
    BuildWith(env, n, d, norm, false)
  }

  /**
   * `BuildPath` returns exactly `MaxExplosions` points when that is at
   * least 1; for 0 the walk's single pass may still leave one point.
   */
  lemma BuildLength(env: ExpeditionEnvironment, n: nat, d: BuildDraws, norm: Vector2 -> real, keepCurrent: bool)
    requires BuildDrawsFit(env, d)
    ensures env.maxExplosions >= 1 ==> |BuildWith(env, n, d, norm, keepCurrent)| == env.maxExplosions
    ensures env.maxExplosions == 0 ==> |BuildWith(env, n, d, norm, keepCurrent)| <= 1
  {
    var walked := Walked(env, n, d, norm, keepCurrent);
    FillLength(env, n, LastOrStart(env, walked), walked, d.fills);
  }

  /**
   * From an accepted starting point and with a non-zero explosion range,
   * every point `BuildPath` returns is a valid placement from the one
   * before it.
   */
  lemma BuildValid(env: ExpeditionEnvironment, n: nat, d: BuildDraws, norm: Vector2 -> real, keepCurrent: bool)
    requires n >= 1 && BuildDrawsFit(env, d)
    requires env.explosionRange != 0.0 && env.isValidPlacement(env.startingPoint)
    ensures ValidPath(env, n, env.startingPoint, BuildWith(env, n, d, norm, keepCurrent))
  {
    var walked := Walked(env, n, d, norm, keepCurrent);
    if walked != [] {
      ValidPathPointsAccepted(env, n, env.startingPoint, walked, |walked| - 1);
    }
    FillValid(env, n, LastOrStart(env, walked), walked, d.fills);
  }

  method BuildPath(env: ExpeditionEnvironment, n: nat, d: BuildDraws, norm: Vector2 -> real, keepCurrent: bool)
    returns (path: seq<Vector2>)
    requires BuildDrawsFit(env, d)
    ensures path == BuildWith(env, n, d, norm, keepCurrent)
  {
    path := [];
    if d.walkToRelic && |env.relics| > 0 {
      path := WalkToRelic(env, n, env.relics[d.relicIndex].0, norm, keepCurrent);
    }
    assert path == Walked(env, n, d, norm, keepCurrent);
    var point := LastOrStart(env, path);
    while |path| < env.maxExplosions
      invariant Fill(env, n, point, path, d.fills) == BuildWith(env, n, d, norm, keepCurrent)
      decreases env.maxExplosions - |path|
    {
      point := GetNextPosition(env, n, point, point, d.fills[|path|]);
      path := path + [point];
    }
  }

  /**
   * The do/while loop of `BuildPath` that walks towards the chosen relic.
   * As written (`keepCurrent`), `current` moves only on a step that falls
   * short of the relic.
   */
  method WalkToRelic(env: ExpeditionEnvironment, n: nat, relic: Vector2, norm: Vector2 -> real, keepCurrent: bool)
    returns (path: seq<Vector2>)
    ensures path == Walk(env, n, relic, norm, env.startingPoint, [], keepCurrent)
  {
    path := [];
    var current := env.startingPoint;
    while true
      invariant path == [] || |path| < env.maxExplosions
      invariant Walk(env, n, relic, norm, current, path, keepCurrent)
                == Walk(env, n, relic, norm, env.startingPoint, [], keepCurrent)
      decreases Room(env, path)
    {
      ghost var before, from := path, current;
      var point := WalkPoint(env, relic, norm, current);
      if point.None? {
        WalkStepNaN(env, n, relic, norm, from, before, keepCurrent);
        return;
      }
      if !(keepCurrent && LengthLessThan(Sub(relic, current), env.explosionRange)) {
        current := point.value;
      }
      path := path + [point.value];
      WalkStepTaken(env, n, relic, norm, from, before, point.value, keepCurrent);
      if !IsValidPlacement(env, n, Previous(env.startingPoint, path, |path| - 1), path[|path| - 1]) {
        path := path[..|path| - 1];
        assert path == before;
        return;
      }
      if DistanceLessThanOrEqual(current, relic, env.explosionRadius) || |path| >= env.maxExplosions {
        return;
      }
    }
  }

  lemma WalkStepNaN(env: ExpeditionEnvironment, n: nat, relic: Vector2, norm: Vector2 -> real, current: Vector2,
                    path: seq<Vector2>, keepCurrent: bool)
    requires WalkPoint(env, relic, norm, current).None?
    ensures Walk(env, n, relic, norm, current, path, keepCurrent) == path
  {
  }

  /** One pass of the walk, once the appended point is known. */
  lemma WalkStepTaken(env: ExpeditionEnvironment, n: nat, relic: Vector2, norm: Vector2 -> real, current: Vector2,
                      path: seq<Vector2>, point: Vector2, keepCurrent: bool)
    requires WalkPoint(env, relic, norm, current) == Some(point)
    ensures Walk(env, n, relic, norm, current, path, keepCurrent)
            == if !IsValidPlacement(env, n, Previous(env.startingPoint, path + [point], |path|), point) then path
               else
                 var next := if LengthLessThan(Sub(relic, current), env.explosionRange) && keepCurrent
                             then current else point;
                 if !DistanceLessThanOrEqual(next, relic, env.explosionRadius) && |path| + 1 < env.maxExplosions
                 then Walk(env, n, relic, norm, next, path + [point], keepCurrent)
                 else path + [point]
  {
  }

  /** `count` copies of `p`. */
  function Repeat(p: Vector2, count: nat): (r: seq<Vector2>)
    ensures |r| == count && forall i | 0 <= i < count :: r[i] == p
  {
    seq(count, _ => p)
  }

  /**
   * As written, a relic within the explosion range of the start (but not
   * within the explosion radius of it) is appended again and again until
   * the path is full: `current` never moves, so the loop condition never
   * changes.
   */
  lemma RelicWalkAsWrittenRepeatsRelic(env: ExpeditionEnvironment, n: nat, relic: Vector2, norm: Vector2 -> real)
    requires n >= 1 && env.maxExplosions >= 1
    requires LengthLessThan(Sub(relic, env.startingPoint), env.explosionRange)
    requires IsValidPlacement(env, n, env.startingPoint, relic)
    requires !DistanceLessThanOrEqual(env.startingPoint, relic, env.explosionRadius)
    ensures RelicWalkAsWritten(env, n, relic, norm) == Repeat(relic, env.maxExplosions)
  {
    ValidPlacementNeedsRange(env, n, env.startingPoint, relic);
    ValidPlacementAcceptsEndpoint(env, n, env.startingPoint, relic);
    StayingInPlaceAllowed(env, n, relic);
    WalkStepTaken(env, n, relic, norm, env.startingPoint, [], relic, true);
    assert Previous(env.startingPoint, [] + [relic], 0) == env.startingPoint;
    assert [] + [relic] == Repeat(relic, 1);
    if 1 < env.maxExplosions {
      RepeatsFrom(env, n, relic, norm, 1);
    }
  }

  lemma {:induction false} RepeatsFrom(env: ExpeditionEnvironment, n: nat, relic: Vector2, norm: Vector2 -> real,
                                       k: nat)
    requires n >= 1 && 1 <= k < env.maxExplosions
    requires LengthLessThan(Sub(relic, env.startingPoint), env.explosionRange)
    requires IsValidPlacement(env, n, relic, relic)
    requires !DistanceLessThanOrEqual(env.startingPoint, relic, env.explosionRadius)
    ensures Walk(env, n, relic, norm, env.startingPoint, Repeat(relic, k), true) == Repeat(relic, env.maxExplosions)
    decreases env.maxExplosions - k
  {
    var path := Repeat(relic, k);
    WalkStepTaken(env, n, relic, norm, env.startingPoint, path, relic, true);
    assert Previous(env.startingPoint, path + [relic], k) == relic;
    assert path + [relic] == Repeat(relic, k + 1);
    if k + 1 < env.maxExplosions {
      RepeatsFrom(env, n, relic, norm, k + 1);
    }
  }

  /** Corrected, the walk ends on the relic (for a non-zero explosion radius). */
  lemma RelicWalkStopsAtRelic(env: ExpeditionEnvironment, n: nat, relic: Vector2, norm: Vector2 -> real)
    requires LengthLessThan(Sub(relic, env.startingPoint), env.explosionRange)
    requires IsValidPlacement(env, n, env.startingPoint, relic)
    requires env.explosionRadius != 0.0
    ensures RelicWalk(env, n, relic, norm) == [relic]
  {
    WalkStepTaken(env, n, relic, norm, env.startingPoint, [], relic, false);
    SamePointPasses(relic, env.explosionRadius);
    assert Previous(env.startingPoint, [] + [relic], 0) == env.startingPoint;
    assert [] + [relic] == [relic];
  }

  /**
   * The input that shows it: a start at (0, 0), a relic at (8, 0),
   * explosion range 10, explosion radius 5, 3 explosions and an oracle
   * that accepts every point.
   */
  function ExampleEnvironment(): ExpeditionEnvironment {
    ExpeditionEnvironment([], [], 10.0, 5.0, 3, Zero, _ => true)
  }

  /** On the example the walk as written yields the relic three times. */
  lemma RelicWalkAsWrittenExample(n: nat, norm: Vector2 -> real)
    requires n >= 1
    ensures RelicWalkAsWritten(ExampleEnvironment(), n, Vector2(8.0, 0.0), norm) == Repeat(Vector2(8.0, 0.0), 3)
  {
    ExampleDistances();
    ExamplePlacement(n);
    RelicWalkAsWrittenRepeatsRelic(ExampleEnvironment(), n, Vector2(8.0, 0.0), norm);
  }

  /** On the example the corrected walk yields the relic once. */
  lemma RelicWalkExample(n: nat, norm: Vector2 -> real)
    requires n >= 1
    ensures RelicWalk(ExampleEnvironment(), n, Vector2(8.0, 0.0), norm) == [Vector2(8.0, 0.0)]
  {
    ExampleLength();
    ExamplePlacement(n);
    RelicWalkStopsAtRelic(ExampleEnvironment(), n, Vector2(8.0, 0.0), norm);
  }

  lemma ExamplePlacement(n: nat)
    ensures IsValidPlacement(ExampleEnvironment(), n, Zero, Vector2(8.0, 0.0))
  {
    ExampleDistance(10.0);
    AcceptingOracleAcceptsSamples(ExampleEnvironment(), n, Zero, Vector2(8.0, 0.0));
  }

  lemma AcceptingOracleAcceptsSamples(env: ExpeditionEnvironment, n: nat, a: Vector2, b: Vector2)
    requires forall p :: env.isValidPlacement(p)
    ensures SamplesAccepted(env, n, a, b, n)
  {
    SamplesAcceptedMeaning(env, n, a, b, n);
  }

  /** The distances of the example: the relic at (8, 0) is 8 away from the origin. */
  lemma ExampleDistances()
    ensures LengthLessThan(Sub(Vector2(8.0, 0.0), Zero), 10.0)
    ensures DistanceLessThanOrEqual(Zero, Vector2(8.0, 0.0), 10.0)
    ensures !DistanceLessThanOrEqual(Zero, Vector2(8.0, 0.0), 5.0)
  {
    ExampleLength();
    ExampleDistance(10.0);
    ExampleDistance(5.0);
  }

  lemma ExampleLength()
    ensures LengthLessThan(Sub(Vector2(8.0, 0.0), Zero), 10.0)
  {
    assert Sub(Vector2(8.0, 0.0), Zero) == Vector2(8.0, 0.0);
    assert LengthSquared(Vector2(8.0, 0.0)) == 64.0;
    assert Square(10.0) == 100.0;
  }

  lemma ExampleDistance(d: real)
    requires d == 10.0 || d == 5.0
    ensures DistanceLessThanOrEqual(Zero, Vector2(8.0, 0.0), d) <==> d == 10.0
  {
    ExampleDistanceSquared();
    if d == 10.0 {
      assert Square(d) == 100.0;
    } else {
      assert Square(d) == 25.0;
    }
  }

  lemma ExampleDistanceSquared()
    ensures DistanceSquared(Zero, Vector2(8.0, 0.0)) == 64.0
  {
    assert Sub(Zero, Vector2(8.0, 0.0)) == Vector2(-8.0, 0.0);
    assert Square(-8.0) == 64.0;
    assert Square(0.0) == 0.0;
  }
}
