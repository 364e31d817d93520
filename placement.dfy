/**
 * The planner's inputs (`ExpeditionEnvironment`, the planner settings) and
 * its placement rules: `IsValidPlacement`, the `GetNextPosition` fallback
 * and the path invariant they maintain.
 */
module Placement {
  import opened Vectors
  import opened Relics

  /**
   * `ExpeditionEnvironment`. `isValidPlacement` is the caller-supplied
   * oracle for a single point.
   */
  datatype ExpeditionEnvironment = ExpeditionEnvironment(
    relics: seq<(Vector2, Relic)>,
    loot: seq<(Vector2, Loot)>,
    explosionRange: real,
    explosionRadius: real,
    maxExplosions: int,
    startingPoint: Vector2,
    isValidPlacement: Vector2 -> bool)

  /** The planner settings the core reads. */
  datatype PlannerSettings = PlannerSettings(
    validatedIntermediatePoints: nat,
    runicMonsterWeight: real,
    artifactChestWeight: real,
    otherChestWeight: real,
    normalMonsterWeight: real,
    pathGenerationSize: nat,
    pathMutateChance: real,
    newRandomPathInjectionRate: real)

  /** `_validatedPoints`: the number of samples checked along every segment. */
  function ValidatedPoints(s: PlannerSettings): (n: nat)
    ensures n >= 1
  {
    s.validatedIntermediatePoints + 1
  }

  /** The loot value table that `BuildPath` fills from the settings. */
  function LootValue(s: PlannerSettings, k: LootKind): (w: real)
    ensures WeightsNonNegative(s) ==> w >= 0.0
  {
    match k
    case RunicMonster => s.runicMonsterWeight
    case ArtifactChest => s.artifactChestWeight
    case OtherChest => s.otherChestWeight
    case NormalMonster => s.normalMonsterWeight
  }

  predicate WeightsNonNegative(s: PlannerSettings) {
    s.runicMonsterWeight >= 0.0 && s.artifactChestWeight >= 0.0
    && s.otherChestWeight >= 0.0 && s.normalMonsterWeight >= 0.0
  }

  /**
   * `Random.Next(min, max)`: throws when min > max, returns min when they
   * are equal, and otherwise a value in [min, max). `Random.Next(max)` is
   * `Random.Next(0, max)`.
   */
  predicate NextInRange(min: int, max: int, v: int) {
    min <= max && (if min == max then v == min else min <= v < max)
  }

  /** The i-th of n samples along the segment from a to b; the n-th is b itself. */
  function Sample(a: Vector2, b: Vector2, n: nat, i: nat): Vector2
    requires n >= 1
  {
    Lerp(a, b, (i as real) / (n as real))
  }

  /**
   * `IsValidPlacement`: b is within the explosion range of a (strict test)
   * and the oracle accepts every one of the samples 1..n along a -> b
   * (`IsValidPlacementMeaning` states it with a quantifier).
   */
  predicate IsValidPlacement(env: ExpeditionEnvironment, validatedPoints: nat, a: Vector2, b: Vector2) {
    DistanceLessThanOrEqual(a, b, env.explosionRange)
    && SamplesAccepted(env, validatedPoints, a, b, validatedPoints)
  }

  /** The oracle accepts the samples 1..i of the n samples along a -> b. */
  predicate SamplesAccepted(env: ExpeditionEnvironment, n: nat, a: Vector2, b: Vector2, i: nat)
    requires i <= n
    decreases i
  {
    i == 0 || (env.isValidPlacement(Sample(a, b, n, i)) && SamplesAccepted(env, n, a, b, i - 1))
  }

  lemma {:induction false} SamplesAcceptedMeaning(env: ExpeditionEnvironment, n: nat, a: Vector2, b: Vector2, i: nat)
    requires i <= n
    ensures SamplesAccepted(env, n, a, b, i)
            <==> forall j | 1 <= j <= i :: env.isValidPlacement(Sample(a, b, n, j))
    decreases i
  {
    if i > 0 {
      SamplesAcceptedMeaning(env, n, a, b, i - 1);
    }
  }

  /** The range test, and the oracle on every sample `Lerp(a, b, i / n)` for i = 1..n. */
  lemma IsValidPlacementMeaning(env: ExpeditionEnvironment, n: nat, a: Vector2, b: Vector2)
    ensures IsValidPlacement(env, n, a, b)
            <==> DistanceLessThanOrEqual(a, b, env.explosionRange)
                 && forall i | 1 <= i <= n :: env.isValidPlacement(Sample(a, b, n, i))
  {
    SamplesAcceptedMeaning(env, n, a, b, n);
  }

  lemma LastSampleIsEndpoint(a: Vector2, b: Vector2, n: nat)
    requires n >= 1
    ensures Sample(a, b, n, n) == b
  {
    DivideSelf(n as real);
    LerpAtOne(a, b);
  }

  /** The last sample is the endpoint itself, so a valid placement has an accepted endpoint. */
  lemma ValidPlacementAcceptsEndpoint(env: ExpeditionEnvironment, n: nat, a: Vector2, b: Vector2)
    requires n >= 1
    requires IsValidPlacement(env, n, a, b)
    ensures env.isValidPlacement(b)
  {
    LastSampleIsEndpoint(a, b, n);
  }

  /** Staying in place is valid iff the range is not 0 and the oracle accepts the point. */
  lemma ValidPlacementInPlace(env: ExpeditionEnvironment, n: nat, p: Vector2)
    requires n >= 1
    ensures IsValidPlacement(env, n, p, p) <==> env.explosionRange != 0.0 && env.isValidPlacement(p)
  {
    if env.explosionRange != 0.0 && env.isValidPlacement(p) {
      StayingInPlaceAllowed(env, n, p);
    } else if IsValidPlacement(env, n, p, p) {
      StrictTestOnSamePoint(p, env.explosionRange);
      ValidPlacementAcceptsEndpoint(env, n, p, p);
    }
  }

  lemma StayingInPlaceAllowed(env: ExpeditionEnvironment, n: nat, p: Vector2)
    requires env.explosionRange != 0.0 && env.isValidPlacement(p)
    ensures IsValidPlacement(env, n, p, p)
  {
    SamplesOfPointAccepted(env, n, p);
    SamePointPasses(p, env.explosionRange);
  }

  lemma SamplesOfPointAccepted(env: ExpeditionEnvironment, n: nat, p: Vector2)
    requires env.isValidPlacement(p)
    ensures SamplesAccepted(env, n, p, p, n)
  {
    AllSamplesOfPoint(env, p, n);
    SamplesAcceptedMeaning(env, n, p, p, n);
  }

  lemma AllSamplesOfPoint(env: ExpeditionEnvironment, p: Vector2, n: nat)
    requires env.isValidPlacement(p)
    ensures forall i | 1 <= i <= n :: env.isValidPlacement(Sample(p, p, n, i))
  {
    forall i | 1 <= i <= n
      ensures env.isValidPlacement(Sample(p, p, n, i))
    {
      SampleOfPoint(p, n, i);
    }
  }

  lemma SampleOfPoint(p: Vector2, n: nat, i: nat)
    requires n >= 1
    ensures Sample(p, p, n, i) == p
  {
    LerpSamePoint(p, (i as real) / (n as real));
  }

  /**
   * A valid segment is valid backwards once its start point is accepted:
   * the samples of b -> a are a and the samples of a -> b except b.
   */
  lemma ValidPlacementReversed(env: ExpeditionEnvironment, n: nat, a: Vector2, b: Vector2)
    requires n >= 1
    requires IsValidPlacement(env, n, a, b)
    requires env.isValidPlacement(a)
    ensures IsValidPlacement(env, n, b, a)
  {
    StrictTestSymmetric(a, b, env.explosionRange);
    IsValidPlacementMeaning(env, n, a, b);
    IsValidPlacementMeaning(env, n, b, a);
    forall i | 1 <= i <= n
      ensures env.isValidPlacement(Sample(b, a, n, i))
    {
      ReversedSample(a, b, n, i);
      if i == n {
        assert Sample(b, a, n, i) == a by {
          LastSampleIsEndpoint(b, a, n);
        }
      }
    }
  }

  lemma ReversedSample(a: Vector2, b: Vector2, n: nat, i: nat)
    requires 1 <= i <= n
    ensures Sample(b, a, n, i) == Lerp(a, b, ((n - i) as real) / (n as real))
    ensures i < n ==> Sample(b, a, n, i) == Sample(a, b, n, n - i)
  {
    FractionComplement(i, n);
    LerpReversed(a, b, ((n - i) as real) / (n as real));
  }

  /**
   * `GetNextPosition`: the first candidate that is a valid placement from
   * `previous`, or `position` when none is. The candidates stand for the
   * 1000 random points the source draws around `position`.
   */
  function GetNextPosition(env: ExpeditionEnvironment, n: nat, position: Vector2, previous: Vector2,
                           candidates: seq<Vector2>): (r: Vector2)
    ensures r == position || r in candidates
    decreases |candidates|
  {
    if candidates == [] then position
    else if IsValidPlacement(env, n, previous, candidates[0]) then candidates[0]
    else GetNextPosition(env, n, position, previous, candidates[1..])
  }

  /** The result is a valid placement, or the fallback `position` when no candidate is. */
  lemma {:induction false} GetNextPositionOutcome(env: ExpeditionEnvironment, n: nat, position: Vector2,
                                                  previous: Vector2, candidates: seq<Vector2>)
    ensures IsValidPlacement(env, n, previous, GetNextPosition(env, n, position, previous, candidates))
            || (GetNextPosition(env, n, position, previous, candidates) == position
                && forall c | c in candidates :: !IsValidPlacement(env, n, previous, c))
    decreases |candidates|
  {
    if candidates != [] && !IsValidPlacement(env, n, previous, candidates[0]) {
      GetNextPositionOutcome(env, n, position, previous, candidates[1..]);
      forall c | c in candidates
        ensures !IsValidPlacement(env, n, previous, GetNextPosition(env, n, position, previous, candidates)) ==>
                  !IsValidPlacement(env, n, previous, c)
      {
        if c != candidates[0] {
          assert c in candidates[1..];
        }
      }
    }
  }

  /** No placement is valid when the explosion range is 0: the range test is strict. */
  lemma ValidPlacementNeedsRange(env: ExpeditionEnvironment, n: nat, a: Vector2, b: Vector2)
    requires IsValidPlacement(env, n, a, b)
    ensures env.explosionRange != 0.0
  {
    if env.explosionRange == 0.0 {
      MulByZero(0.0, 0.0);
    }
  }

  /** It is the FIRST valid candidate that is chosen. */
  lemma {:induction false} GetNextPositionFirst(env: ExpeditionEnvironment, n: nat, position: Vector2,
                                                previous: Vector2, candidates: seq<Vector2>, k: nat)
    requires k < |candidates|
    requires IsValidPlacement(env, n, previous, candidates[k])
    requires forall j | 0 <= j < k :: !IsValidPlacement(env, n, previous, candidates[j])
    ensures GetNextPosition(env, n, position, previous, candidates) == candidates[k]
  {
    if k > 0 {
      assert !IsValidPlacement(env, n, previous, candidates[0]);
      GetNextPositionFirst(env, n, position, previous, candidates[1..], k - 1);
    }
  }

  /**
   * The fallback keeps a path valid when the planner asks for a point next
   * to an already accepted one: searching from p with p as the previous
   * point yields a valid placement from p.
   */
  lemma GetNextPositionFromAcceptedPoint(env: ExpeditionEnvironment, n: nat, p: Vector2,
                                         candidates: seq<Vector2>)
    requires env.explosionRange != 0.0 && env.isValidPlacement(p)
    ensures IsValidPlacement(env, n, p, GetNextPosition(env, n, p, p, candidates))
  {
    var r := GetNextPosition(env, n, p, p, candidates);
    GetNextPositionOutcome(env, n, p, p, candidates);
    if r == p {
      StayingInPlaceAllowed(env, n, p);
    }
  }

  /** The point before path[i]: the starting point for the first one. */
  function Previous(start: Vector2, path: seq<Vector2>, i: nat): Vector2
    requires i < |path|
  {
    if i == 0 then start else path[i - 1]
  }

  /** Every explosion of the path is a valid placement from the one before it. */
  predicate ValidPath(env: ExpeditionEnvironment, n: nat, start: Vector2, path: seq<Vector2>) {
    forall i {:trigger Previous(start, path, i)} | 0 <= i < |path| ::
      IsValidPlacement(env, n, Previous(start, path, i), path[i])
  }

  /** On a valid path every point is accepted by the oracle. */
  lemma ValidPathPointsAccepted(env: ExpeditionEnvironment, n: nat, start: Vector2, path: seq<Vector2>, i: nat)
    requires n >= 1
    requires ValidPath(env, n, start, path) && i < |path|
    ensures env.isValidPlacement(path[i])
  {
    ValidPlacementAcceptsEndpoint(env, n, Previous(start, path, i), path[i]);
  }
}
