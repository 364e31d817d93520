/**
 * One generation of `GetBestPathSeries`: score the batch, keep the
 * `PathGenerationSize` best paths, take them twice and mutate each copy
 * by chance, append the best path so far and freshly built paths, and
 * replace the best path only by a strictly better survivor (elitism).
 */
module Generation {
  import opened Vectors
  import opened Outcomes
  import opened Placement
  import opened Scoring
  import opened Mutation
  import opened Building

  /** A batch entry with its score: the `(GetScore(x, environment), x)` tuple. */
  datatype Scored = Scored(score: real, path: seq<Vector2>)

  /** `PathState`: the best path so far and its score. */
  datatype PathState = PathState(points: seq<Vector2>, score: real)

  // ---------------------------------------------------------------------
  // Scoring and ranking the batch

  /** `batch.Select(x => (GetScore(x, environment), x))`. */
  function ScoreAll(s: PlannerSettings, env: ExpeditionEnvironment, batch: seq<seq<Vector2>>): (r: seq<Scored>)
    ensures |r| == |batch|
    ensures forall i | 0 <= i < |r| :: r[i].path == batch[i]
  {
    seq(|batch|, i requires 0 <= i < |batch| => Scored(Score(s, env, batch[i]), batch[i]))
  }

  /** Every entry carries the score of its own path and a path of the batch. */
  predicate Genuine(s: PlannerSettings, env: ExpeditionEnvironment, batch: seq<seq<Vector2>>, xs: seq<Scored>) {
    forall e | e in xs :: e.score == Score(s, env, e.path) && e.path in batch
  }

  predicate Descending(xs: seq<Scored>) {
    forall i, j | 0 <= i < j < |xs| :: xs[i].score >= xs[j].score
  }

  /**
   * Inserts `x` after every entry that scores at least as much, which is
   * where a stable descending sort puts a later entry.
   */
  function Insert(x: Scored, sorted: seq<Scored>): (r: seq<Scored>)
    ensures |r| == |sorted| + 1
    ensures multiset(r) == multiset(sorted) + multiset{x}
  {
    if sorted == [] then [x]
    else if sorted[0].score >= x.score then
      assert sorted == [sorted[0]] + sorted[1..];
      [sorted[0]] + Insert(x, sorted[1..])
    else [x] + sorted
  }

  /** `OrderByDescending(x => x.Item1)`, as an insertion sort. */
  function SortDescending(xs: seq<Scored>): (r: seq<Scored>)
    ensures |r| == |xs|
    ensures multiset(r) == multiset(xs)
  {
    if xs == [] then []
    else
      assert xs == xs[..|xs| - 1] + [xs[|xs| - 1]];
      Insert(xs[|xs| - 1], SortDescending(xs[..|xs| - 1]))
  }

  lemma {:induction false} InsertDescending(x: Scored, sorted: seq<Scored>)
    requires Descending(sorted)
    ensures Descending(Insert(x, sorted))
  {
    if sorted != [] && sorted[0].score >= x.score {
      var rest := sorted[1..];
      InsertDescending(x, rest);
      var tail := Insert(x, rest);
      forall j | 0 <= j < |tail|
        ensures sorted[0].score >= tail[j].score
      {
        assert tail[j] in multiset(tail);
        if tail[j] != x {
          assert tail[j] in multiset(rest);
          var k :| 0 <= k < |rest| && rest[k] == tail[j];
          assert sorted[k + 1] == tail[j];
        }
      }
    }
  }

  /** The sort orders by descending score and is a permutation. */
  lemma {:induction false} SortDescendingSorts(xs: seq<Scored>)
    ensures Descending(SortDescending(xs))
    ensures multiset(SortDescending(xs)) == multiset(xs)
  {
    if xs != [] {
      SortDescendingSorts(xs[..|xs| - 1]);
      InsertDescending(xs[|xs| - 1], SortDescending(xs[..|xs| - 1]));
    }
  }

  /** `Take(count)`: the first `count` entries, or all of them when there are fewer. */
  function Take(xs: seq<Scored>, count: nat): (r: seq<Scored>)
    ensures |r| == if count <= |xs| then count else |xs|
    ensures forall i | 0 <= i < |r| :: r[i] == xs[i]
  {
    if count <= |xs| then xs[..count] else xs
  }

  /** `batchWithValues`: the `PathGenerationSize` best paths of the batch with their scores. */
  function Survivors(s: PlannerSettings, env: ExpeditionEnvironment, batch: seq<seq<Vector2>>): (r: seq<Scored>)
    ensures |r| == if s.pathGenerationSize <= |batch| then s.pathGenerationSize else |batch|
  {
    Take(SortDescending(ScoreAll(s, env, batch)), s.pathGenerationSize)
  }

  /**
   * The survivors are `PathGenerationSize` entries (or the whole batch),
   * in descending order, each a batch path with its own score, and the
   * first scores at least as much as every path of the batch.
   */
  lemma SurvivorsAreTheBest(s: PlannerSettings, env: ExpeditionEnvironment, batch: seq<seq<Vector2>>)
    ensures var sv := Survivors(s, env, batch);
            Descending(sv)
            && Genuine(s, env, batch, sv)
            && (sv != [] ==> forall p | p in batch :: sv[0].score >= Score(s, env, p))
  {
    var scored := ScoreAll(s, env, batch);
    var sorted := SortDescending(scored);
    SortDescendingSorts(scored);
    ScoreAllGenuine(s, env, batch);
    GenuinePermuted(s, env, batch, scored, sorted);
    TakeKeepsOrder(s, env, batch, sorted, s.pathGenerationSize);
    if Survivors(s, env, batch) != [] {
      HeadIsTop(s, env, batch, sorted);
    }
  }

  /** Every scored entry is a batch path with its own score. */
  lemma ScoreAllGenuine(s: PlannerSettings, env: ExpeditionEnvironment, batch: seq<seq<Vector2>>)
    ensures Genuine(s, env, batch, ScoreAll(s, env, batch))
  {
    var scored := ScoreAll(s, env, batch);
    forall e | e in scored
      ensures e.score == Score(s, env, e.path) && e.path in batch
    {
      var i :| 0 <= i < |scored| && scored[i] == e;
    }
  }

  /** A permutation of genuine entries is genuine. */
  lemma GenuinePermuted(s: PlannerSettings, env: ExpeditionEnvironment, batch: seq<seq<Vector2>>,
                        xs: seq<Scored>, ys: seq<Scored>)
    requires Genuine(s, env, batch, xs) && multiset(ys) == multiset(xs)
    ensures Genuine(s, env, batch, ys)
  {
    forall e | e in ys
      ensures e.score == Score(s, env, e.path) && e.path in batch
    {
      assert e in multiset(ys);
      assert e in xs;
    }
  }

  /** A prefix of a descending, genuine list is descending and genuine. */
  lemma TakeKeepsOrder(s: PlannerSettings, env: ExpeditionEnvironment, batch: seq<seq<Vector2>>,
                       xs: seq<Scored>, count: nat)
    requires Descending(xs) && Genuine(s, env, batch, xs)
    ensures Descending(Take(xs, count)) && Genuine(s, env, batch, Take(xs, count))
  {
    var r := Take(xs, count);
    forall e | e in r
      ensures e in xs
    {
      var i :| 0 <= i < |r| && r[i] == e;
      assert xs[i] == e;
    }
  }

  /** The head of a descending, genuine sort of the batch scores at least as much as every batch path. */
  lemma HeadIsTop(s: PlannerSettings, env: ExpeditionEnvironment, batch: seq<seq<Vector2>>, sorted: seq<Scored>)
    requires Descending(sorted) && multiset(sorted) == multiset(ScoreAll(s, env, batch)) && sorted != []
    ensures forall p | p in batch :: sorted[0].score >= Score(s, env, p)
  {
    var scored := ScoreAll(s, env, batch);
    forall p | p in batch
      ensures sorted[0].score >= Score(s, env, p)
    {
      var i :| 0 <= i < |batch| && batch[i] == p;
      assert scored[i] in multiset(sorted);
      var j :| 0 <= j < |sorted| && sorted[j] == scored[i];
      assert sorted[0].score >= sorted[j].score || j == 0;
    }
  }

  // ---------------------------------------------------------------------
  // Mutating the survivors

  /** The paths of scored entries: `.Select(i => i.x)`. */
  function Paths(xs: seq<Scored>): (r: seq<seq<Vector2>>)
    ensures |r| == |xs| && forall i | 0 <= i < |xs| :: r[i] == xs[i].path
  {
    seq(|xs|, i requires 0 <= i < |xs| => xs[i].path)
  }

  /**
   * The draws for one copy of a survivor: `NextDouble()` and, when that
   * does not exceed `PathMutateChance`, the passes of `MutatePath`.
   */
  datatype SurvivorDraw = SurvivorDraw(coin: real, passes: seq<PassDraws>)

  predicate Mutates(s: PlannerSettings, d: SurvivorDraw) {
    !(d.coin > s.pathMutateChance)
  }

  /** `Random.Next(1, 4)` passes, each drawn for a path of this length. */
  predicate SurvivorDrawFits(s: PlannerSettings, path: seq<Vector2>, d: SurvivorDraw) {
    Mutates(s, d) && |path| >= 1 ==>
      1 <= |d.passes| <= 3 && forall i | 0 <= i < |d.passes| :: PassDrawsFit(|path|, d.passes[i])
  }

  /**
   * One copy: kept as it is, or mutated with the explosion range as the
   * radius and the starting point as the fallback origin. An empty path
   * cannot be mutated (every pass indexes it).
   */
  function MutateOrKeep(s: PlannerSettings, env: ExpeditionEnvironment, n: nat, path: seq<Vector2>,
                        d: SurvivorDraw): (r: Result<seq<Vector2>>)
    requires SurvivorDrawFits(s, path, d)
    ensures r.Failure? <==> Mutates(s, d) && path == []
    ensures r.Ok? ==> |r.value| == |path|
    ensures !Mutates(s, d) ==> r == Ok(path)
  {
    if !Mutates(s, d) then Ok(path)
    else if path == [] then Failure("Index was out of range")
    else Ok(Mutate(env, n, env.startingPoint, env.explosionRange, path, d.passes))
  }

  /**
   * One copy as the source writes it: besides the empty path, a path of 1
   * or 2 points throws when a pass reaches the swap mutation. Where it
   * does not throw it agrees with `MutateOrKeep`.
   */
  function MutateOrKeepAsWritten(s: PlannerSettings, env: ExpeditionEnvironment, n: nat, path: seq<Vector2>,
                                 d: SurvivorDraw): (r: Result<seq<Vector2>>)
    requires SurvivorDrawFits(s, path, d)
    ensures r.Failure? <==>
              Mutates(s, d)
              && (path == [] || (|path| < 3 && SomeSwapReached(env, n, env.startingPoint, env.explosionRange, path, d.passes)))
    ensures r.Ok? ==> r == MutateOrKeep(s, env, n, path, d)
  {
    if !Mutates(s, d) then Ok(path)
    else if path == [] then Failure("Index was out of range")
    else
      MutateAsWrittenFails(env, n, env.startingPoint, env.explosionRange, path, d.passes);
      MutateAsWritten(env, n, env.startingPoint, env.explosionRange, path, d.passes)
  }

  predicate AllDrawsFit(s: PlannerSettings, paths: seq<seq<Vector2>>, draws: seq<SurvivorDraw>) {
    |draws| == |paths| && forall i | 0 <= i < |paths| :: SurvivorDrawFits(s, paths[i], draws[i])
  }

  /** `mixedAndMutated`, evaluated in order; the first failing copy ends it. */
  function MutateAll(s: PlannerSettings, env: ExpeditionEnvironment, n: nat, paths: seq<seq<Vector2>>,
                     draws: seq<SurvivorDraw>): (r: Result<seq<seq<Vector2>>>)
    requires AllDrawsFit(s, paths, draws)
    decreases |paths|
  {
    if paths == [] then Ok([])
    else
      var k := |paths| - 1;
      match MutateAll(s, env, n, paths[..k], draws[..k])
      case Failure(e) => Failure(e)
      case Ok(done) =>
        match MutateOrKeep(s, env, n, paths[k], draws[k])
        case Failure(e) => Failure(e)
        case Ok(p) => Ok(done + [p])
  }

  /**
   * `mixedAndMutated` fails exactly when some copy is to be mutated and its
   * path is empty; otherwise copy `i` is the outcome for path `i`.
   */
  lemma {:induction false} MutateAllOutcome(s: PlannerSettings, env: ExpeditionEnvironment, n: nat,
                                            paths: seq<seq<Vector2>>, draws: seq<SurvivorDraw>)
    requires AllDrawsFit(s, paths, draws)
    ensures var r := MutateAll(s, env, n, paths, draws);
            (r.Failure? <==> exists i | 0 <= i < |paths| :: Mutates(s, draws[i]) && paths[i] == [])
            && (r.Ok? ==> |r.value| == |paths|
                          && forall i | 0 <= i < |paths| :: MutateOrKeep(s, env, n, paths[i], draws[i]) == Ok(r.value[i]))
    decreases |paths|
  {
    if paths != [] {
      var k := |paths| - 1;
      assert AllDrawsFit(s, paths[..k], draws[..k]);
      MutateAllOutcome(s, env, n, paths[..k], draws[..k]);
      var before := MutateAll(s, env, n, paths[..k], draws[..k]);
      if before.Failure? {
        var i :| 0 <= i < k && Mutates(s, draws[..k][i]) && paths[..k][i] == [];
        assert Mutates(s, draws[i]) && paths[i] == [];
      } else if MutateOrKeep(s, env, n, paths[k], draws[k]).Ok? {
        forall i | 0 <= i < |paths|
          ensures !(Mutates(s, draws[i]) && paths[i] == [])
        {
          if i < k {
            assert paths[..k][i] == paths[i] && draws[..k][i] == draws[i];
          }
        }
      }
    }
  }

  /** Once a prefix of the copies fails, the whole stage fails with its error. */
  lemma {:induction false} MutateAllFailureStays(s: PlannerSettings, env: ExpeditionEnvironment, n: nat,
                                                 paths: seq<seq<Vector2>>, draws: seq<SurvivorDraw>, i: nat)
    requires AllDrawsFit(s, paths, draws) && i <= |paths|
    requires AllDrawsFit(s, paths[..i], draws[..i])
    requires MutateAll(s, env, n, paths[..i], draws[..i]).Failure?
    ensures MutateAll(s, env, n, paths, draws) == MutateAll(s, env, n, paths[..i], draws[..i])
    decreases |paths| - i
  {
    if i < |paths| {
      assert paths[..i + 1][..i] == paths[..i] && draws[..i + 1][..i] == draws[..i];
      assert AllDrawsFit(s, paths[..i + 1], draws[..i + 1]);
      MutateAllFailureStays(s, env, n, paths, draws, i + 1);
    } else {
      assert paths[..i] == paths && draws[..i] == draws;
    }
  }

  // ---------------------------------------------------------------------
  // The generation step

  /**
   * `(int)(PathGenerationSize * NewRandomPathInjectionRate)`: the
   * conversion truncates toward zero.
   */
  function Truncate(x: real): (r: int)
    ensures 0.0 <= x ==> 0 <= r && r as real <= x < r as real + 1.0
    ensures x < 0.0 ==> r <= 0 && r as real - 1.0 < x <= r as real
  {
    if 0.0 <= x then x.Floor else -((-x).Floor)
  }

  function NewPathCount(s: PlannerSettings): int {
    Truncate(Mul(s.pathGenerationSize as real, s.newRandomPathInjectionRate))
  }

  /** The draws of one generation: one per survivor copy and one per new path. */
  datatype GenerationDraws = GenerationDraws(survivors: seq<SurvivorDraw>, newPaths: seq<BuildDraws>)

  predicate GenerationDrawsFit(s: PlannerSettings, env: ExpeditionEnvironment, batch: seq<seq<Vector2>>,
                               d: GenerationDraws) {
    var sv := Survivors(s, env, batch);
    AllDrawsFit(s, Paths(sv + sv), d.survivors)
    && NewPathCount(s) <= |d.newPaths|
    && forall i | 0 <= i < |d.newPaths| :: BuildDrawsFit(env, d.newPaths[i])
  }

  /** `newPaths`: `count` built paths, the `i`th from the `i`th draws. */
  function BuildEach(env: ExpeditionEnvironment, n: nat, norm: Vector2 -> real, draws: seq<BuildDraws>,
                     count: nat): (r: seq<seq<Vector2>>)
    requires count <= |draws|
    requires forall i | 0 <= i < |draws| :: BuildDrawsFit(env, draws[i])
    ensures |r| == count
    ensures forall i | 0 <= i < count :: r[i] == Build(env, n, draws[i], norm)
    decreases count
  {
    if count == 0 then [] else BuildEach(env, n, norm, draws, count - 1) + [Build(env, n, draws[count - 1], norm)]
  }

  /** With `MaxExplosions >= 1`, every new path has `MaxExplosions` points. */
  lemma BuildEachLength(env: ExpeditionEnvironment, n: nat, norm: Vector2 -> real, draws: seq<BuildDraws>,
                        count: nat)
    requires count <= |draws|
    requires forall i | 0 <= i < |draws| :: BuildDrawsFit(env, draws[i])
    requires env.maxExplosions >= 1
    ensures forall p | p in BuildEach(env, n, norm, draws, count) :: |p| == env.maxExplosions
  {
    var built := BuildEach(env, n, norm, draws, count);
    forall p | p in built
      ensures |p| == env.maxExplosions
    {
      var i :| 0 <= i < count && built[i] == p;
      BuildLength(env, n, draws[i], norm, false);
    }
  }

  /** From an accepted starting point and with a non-zero range, every new path is valid. */
  lemma BuildEachValid(env: ExpeditionEnvironment, n: nat, norm: Vector2 -> real, draws: seq<BuildDraws>,
                       count: nat)
    requires count <= |draws|
    requires forall i | 0 <= i < |draws| :: BuildDrawsFit(env, draws[i])
    requires n >= 1 && env.explosionRange != 0.0 && env.isValidPlacement(env.startingPoint)
    ensures forall p | p in BuildEach(env, n, norm, draws, count) :: ValidPath(env, n, env.startingPoint, p)
  {
    var built := BuildEach(env, n, norm, draws, count);
    forall p | p in built
      ensures ValidPath(env, n, env.startingPoint, p)
    {
      var i :| 0 <= i < count && built[i] == p;
      BuildValid(env, n, draws[i], norm, false);
    }
  }

  /** The best path and the batch after one generation. */
  datatype Generation = Generation(best: seq<Vector2>, batch: seq<seq<Vector2>>)

  /**
   * One iteration of the loop of `GetBestPathSeries`, with the corrected
   * swap mutation and relic walk. It fails where the source throws
   * `Enumerable.Range` with a negative count, a mutation of an empty
   * path, and `batchWithValues[0]` with no survivors, in the order the
   * lazy pipeline meets them; the throw of the swap mutation as written
   * on paths of 1 or 2 points is not among them (`MutateOrKeepAsWritten`
   * has it).
   */
  function NextGeneration(s: PlannerSettings, env: ExpeditionEnvironment, n: nat, norm: Vector2 -> real,
                          best: seq<Vector2>, batch: seq<seq<Vector2>>, d: GenerationDraws): (r: Result<Generation>)
    requires GenerationDrawsFit(s, env, batch, d)
  {
    var sv := Survivors(s, env, batch);
    var count := NewPathCount(s);
    if count < 0 then Failure("count is less than zero")
    else
      match MutateAll(s, env, n, Paths(sv + sv), d.survivors)
      case Failure(e) => Failure(e)
      case Ok(mixed) =>
        if sv == [] then Failure("Index was out of range")
        else
          var built := BuildEach(env, n, norm, d.newPaths, count);
          var newBest := if sv[0].score > Score(s, env, best) then sv[0].path else best;
          Ok(Generation(newBest, mixed + [best] + built))
  }

  /**
   * Elitism: the new best path is the old one or a path of the batch, it
   * scores at least as much as the old best path and as every path of the
   * batch, and it changes only for a strictly better score.
   */
  lemma NextGenerationElitism(s: PlannerSettings, env: ExpeditionEnvironment, n: nat, norm: Vector2 -> real,
                              best: seq<Vector2>, batch: seq<seq<Vector2>>, d: GenerationDraws)
    requires GenerationDrawsFit(s, env, batch, d)
    ensures var r := NextGeneration(s, env, n, norm, best, batch, d);
            r.Ok? ==>
              (r.value.best == best || r.value.best in batch)
              && Score(s, env, r.value.best) >= Score(s, env, best)
              && (forall p | p in batch :: Score(s, env, r.value.best) >= Score(s, env, p))
              && (r.value.best != best ==> Score(s, env, r.value.best) > Score(s, env, best))
  {
    SurvivorsAreTheBest(s, env, batch);
    var sv := Survivors(s, env, batch);
    if sv != [] {
      assert sv[0] in sv;
    }
  }

  /**
   * The new batch: the two copies of every survivor (kept or mutated by
   * their own draws), then the old best path, then
   * `(int)(PathGenerationSize * NewRandomPathInjectionRate)` new paths,
   * each built from its own draws.
   */
  lemma NextGenerationBatch(s: PlannerSettings, env: ExpeditionEnvironment, n: nat, norm: Vector2 -> real,
                            best: seq<Vector2>, batch: seq<seq<Vector2>>, d: GenerationDraws)
    requires GenerationDrawsFit(s, env, batch, d)
    ensures var r := NextGeneration(s, env, n, norm, best, batch, d);
            var sv := Survivors(s, env, batch);
            var m := |sv|;
            r.Ok? ==>
              |r.value.batch| == 2 * m + 1 + NewPathCount(s)
              && (forall j | 0 <= j < 2 * m ::
                    MutateOrKeep(s, env, n, Paths(sv + sv)[j], d.survivors[j]) == Ok(r.value.batch[j]))
              && r.value.batch[2 * m] == best
              && r.value.batch[2 * m + 1..] == BuildEach(env, n, norm, d.newPaths, NewPathCount(s))
  {
    var sv := Survivors(s, env, batch);
    var r := NextGeneration(s, env, n, norm, best, batch, d);
    if r.Ok? {
      NextGenerationShape(s, env, n, norm, best, batch, d);
      AssembledBatch(s, env, n, norm, Paths(sv + sv), d.survivors, best, d.newPaths, NewPathCount(s), r.value.batch);
    }
  }

  /** Where the copies, the old best path and the new paths sit in an assembled batch. */
  lemma AssembledBatch(s: PlannerSettings, env: ExpeditionEnvironment, n: nat, norm: Vector2 -> real,
                       paths: seq<seq<Vector2>>, draws: seq<SurvivorDraw>, best: seq<Vector2>,
                       newDraws: seq<BuildDraws>, count: nat, all: seq<seq<Vector2>>)
    requires AllDrawsFit(s, paths, draws) && MutateAll(s, env, n, paths, draws).Ok?
    requires count <= |newDraws| && forall i | 0 <= i < |newDraws| :: BuildDrawsFit(env, newDraws[i])
    requires all == MutateAll(s, env, n, paths, draws).value + [best] + BuildEach(env, n, norm, newDraws, count)
    ensures |all| == |paths| + 1 + count
    ensures forall j | 0 <= j < |paths| :: MutateOrKeep(s, env, n, paths[j], draws[j]) == Ok(all[j])
    ensures all[|paths|] == best
    ensures all[|paths| + 1..] == BuildEach(env, n, norm, newDraws, count)
  {
    MutateAllOutcome(s, env, n, paths, draws);
    var mixed := MutateAll(s, env, n, paths, draws).value;
    var built := BuildEach(env, n, norm, newDraws, count);
    Parts(mixed, best, built, all);
  }

  /** A successful generation is the survivors' copies, then the old best path, then the new paths. */
  lemma NextGenerationShape(s: PlannerSettings, env: ExpeditionEnvironment, n: nat, norm: Vector2 -> real,
                            best: seq<Vector2>, batch: seq<seq<Vector2>>, d: GenerationDraws)
    requires GenerationDrawsFit(s, env, batch, d)
    ensures var r := NextGeneration(s, env, n, norm, best, batch, d);
            var sv := Survivors(s, env, batch);
            var mixed := MutateAll(s, env, n, Paths(sv + sv), d.survivors);
            r.Ok? ==>
              NewPathCount(s) >= 0 && sv != [] && mixed.Ok?
              && r.value.batch == mixed.value + [best] + BuildEach(env, n, norm, d.newPaths, NewPathCount(s))
  {
  }

  /** The positions of the three parts of `front + [middle] + back`. */
  lemma Parts(front: seq<seq<Vector2>>, middle: seq<Vector2>, back: seq<seq<Vector2>>, all: seq<seq<Vector2>>)
    requires all == front + [middle] + back
    ensures |all| == |front| + 1 + |back|
    ensures forall j | 0 <= j < |front| :: all[j] == front[j]
    ensures all[|front|] == middle
    ensures all[|front| + 1..] == back
  {
  }

  /** Copy `j` of the survivors, `j < |survivors|` or not, is a path of the batch. */
  lemma CopyOfSurvivor(s: PlannerSettings, env: ExpeditionEnvironment, batch: seq<seq<Vector2>>, j: nat)
    requires j < 2 * |Survivors(s, env, batch)|
    ensures var sv := Survivors(s, env, batch); Paths(sv + sv)[j] in batch
  {
    SurvivorsAreTheBest(s, env, batch);
    var sv := Survivors(s, env, batch);
    assert (sv + sv)[j] in sv;
  }

  /**
   * A generation fails exactly when the new-path count is negative, there
   * are no survivors, or one of the two copies of an empty survivor is to
   * be mutated.
   */
  lemma NextGenerationFails(s: PlannerSettings, env: ExpeditionEnvironment, n: nat, norm: Vector2 -> real,
                            best: seq<Vector2>, batch: seq<seq<Vector2>>, d: GenerationDraws)
    requires GenerationDrawsFit(s, env, batch, d)
    ensures var sv := Survivors(s, env, batch);
            NextGeneration(s, env, n, norm, best, batch, d).Failure?
            <==> NewPathCount(s) < 0 || s.pathGenerationSize == 0 || batch == []
                 || exists k | 0 <= k < |sv| ::
                      sv[k].path == [] && (Mutates(s, d.survivors[k]) || Mutates(s, d.survivors[|sv| + k]))
  {
    var sv := Survivors(s, env, batch);
    MutateAllOutcome(s, env, n, Paths(sv + sv), d.survivors);
    DoubledCopyEmpty(s, sv, d.survivors);
  }

  /** Copy `i` of `sv + sv` is survivor `i` or survivor `i - |sv|`. */
  lemma DoubledCopyEmpty(s: PlannerSettings, sv: seq<Scored>, draws: seq<SurvivorDraw>)
    requires |draws| == 2 * |sv|
    ensures var paths := Paths(sv + sv);
            (exists i | 0 <= i < |paths| :: Mutates(s, draws[i]) && paths[i] == [])
            <==> exists k | 0 <= k < |sv| :: sv[k].path == [] && (Mutates(s, draws[k]) || Mutates(s, draws[|sv| + k]))
  {
    var m := |sv|;
    var paths := Paths(sv + sv);
    if exists i | 0 <= i < |paths| :: Mutates(s, draws[i]) && paths[i] == [] {
      var i :| 0 <= i < |paths| && Mutates(s, draws[i]) && paths[i] == [];
      var k := if i < m then i else i - m;
      assert (sv + sv)[i] == sv[k];
    }
    if exists k | 0 <= k < m :: sv[k].path == [] && (Mutates(s, draws[k]) || Mutates(s, draws[m + k])) {
      var k :| 0 <= k < m && sv[k].path == [] && (Mutates(s, draws[k]) || Mutates(s, draws[m + k]));
      assert (sv + sv)[k] == sv[k] && (sv + sv)[m + k] == sv[k];
      if Mutates(s, draws[k]) {
        assert Mutates(s, draws[k]) && paths[k] == [];
      } else {
        assert Mutates(s, draws[m + k]) && paths[m + k] == [];
      }
    }
  }

  /**
   * With paths of `MaxExplosions` points (at least one), the next batch
   * and best path have that length too.
   */
  lemma NextGenerationKeepsLength(s: PlannerSettings, env: ExpeditionEnvironment, n: nat, norm: Vector2 -> real,
                                  best: seq<Vector2>, batch: seq<seq<Vector2>>, d: GenerationDraws)
    requires GenerationDrawsFit(s, env, batch, d)
    requires env.maxExplosions >= 1 && |best| == env.maxExplosions
    requires forall p | p in batch :: |p| == env.maxExplosions
    ensures var r := NextGeneration(s, env, n, norm, best, batch, d);
            r.Ok? ==> |r.value.best| == env.maxExplosions
                      && forall p | p in r.value.batch :: |p| == env.maxExplosions
  {
    var r := NextGeneration(s, env, n, norm, best, batch, d);
    if r.Ok? {
      NextGenerationElitism(s, env, n, norm, best, batch, d);
      NextGenerationShape(s, env, n, norm, best, batch, d);
      var sv := Survivors(s, env, batch);
      var paths := Paths(sv + sv);
      SurvivorCopiesInBatch(s, env, batch);
      CopiesKeepLength(s, env, n, paths, d.survivors, env.maxExplosions);
      BuildEachLength(env, n, norm, d.newPaths, NewPathCount(s));
    }
  }

  /**
   * From an accepted starting point and with a non-zero explosion range,
   * valid paths stay valid: the mutated copies, the kept best path and
   * the new paths all pass `IsValidPlacement` point by point.
   */
  lemma NextGenerationKeepsValid(s: PlannerSettings, env: ExpeditionEnvironment, n: nat, norm: Vector2 -> real,
                                 best: seq<Vector2>, batch: seq<seq<Vector2>>, d: GenerationDraws)
    requires GenerationDrawsFit(s, env, batch, d)
    requires n >= 1 && env.explosionRange != 0.0 && env.isValidPlacement(env.startingPoint)
    requires ValidPath(env, n, env.startingPoint, best)
    requires forall p | p in batch :: ValidPath(env, n, env.startingPoint, p)
    ensures var r := NextGeneration(s, env, n, norm, best, batch, d);
            r.Ok? ==> ValidPath(env, n, env.startingPoint, r.value.best)
                      && forall p | p in r.value.batch :: ValidPath(env, n, env.startingPoint, p)
  {
    var r := NextGeneration(s, env, n, norm, best, batch, d);
    if r.Ok? {
      NextGenerationElitism(s, env, n, norm, best, batch, d);
      NextGenerationShape(s, env, n, norm, best, batch, d);
      var sv := Survivors(s, env, batch);
      var paths := Paths(sv + sv);
      SurvivorCopiesInBatch(s, env, batch);
      CopiesKeepValid(s, env, n, paths, d.survivors);
      BuildEachValid(env, n, norm, d.newPaths, NewPathCount(s));
    }
  }

  /** Every copy taken from the survivors is a path of the batch. */
  lemma SurvivorCopiesInBatch(s: PlannerSettings, env: ExpeditionEnvironment, batch: seq<seq<Vector2>>)
    ensures var sv := Survivors(s, env, batch); forall p | p in Paths(sv + sv) :: p in batch
  {
    var sv := Survivors(s, env, batch);
    var paths := Paths(sv + sv);
    forall p | p in paths
      ensures p in batch
    {
      var j :| 0 <= j < |paths| && paths[j] == p;
      CopyOfSurvivor(s, env, batch, j);
    }
  }

  /** Kept or mutated copies of paths of one length have that length. */
  lemma CopiesKeepLength(s: PlannerSettings, env: ExpeditionEnvironment, n: nat, paths: seq<seq<Vector2>>,
                         draws: seq<SurvivorDraw>, len: nat)
    requires AllDrawsFit(s, paths, draws)
    requires forall p | p in paths :: |p| == len
    ensures var r := MutateAll(s, env, n, paths, draws);
            r.Ok? ==> forall p | p in r.value :: |p| == len
  {
    var r := MutateAll(s, env, n, paths, draws);
    MutateAllOutcome(s, env, n, paths, draws);
    if r.Ok? {
      forall p | p in r.value
        ensures |p| == len
      {
        var j :| 0 <= j < |r.value| && r.value[j] == p;
        assert paths[j] in paths;
      }
    }
  }

  /** Kept or mutated copies of valid paths are valid. */
  lemma CopiesKeepValid(s: PlannerSettings, env: ExpeditionEnvironment, n: nat, paths: seq<seq<Vector2>>,
                        draws: seq<SurvivorDraw>)
    requires AllDrawsFit(s, paths, draws)
    requires n >= 1 && env.isValidPlacement(env.startingPoint)
    requires forall p | p in paths :: ValidPath(env, n, env.startingPoint, p)
    ensures var r := MutateAll(s, env, n, paths, draws);
            r.Ok? ==> forall p | p in r.value :: ValidPath(env, n, env.startingPoint, p)
  {
    var r := MutateAll(s, env, n, paths, draws);
    MutateAllOutcome(s, env, n, paths, draws);
    if r.Ok? {
      forall p | p in r.value
        ensures ValidPath(env, n, env.startingPoint, p)
      {
        var j :| 0 <= j < |r.value| && r.value[j] == p;
        assert paths[j] in paths;
        CopyValid(s, env, n, paths[j], draws[j], p);
      }
    }
  }

  /** A copy kept or mutated from a valid path is valid. */
  lemma CopyValid(s: PlannerSettings, env: ExpeditionEnvironment, n: nat, path: seq<Vector2>, d: SurvivorDraw,
                  copy: seq<Vector2>)
    requires n >= 1 && env.isValidPlacement(env.startingPoint)
    requires SurvivorDrawFits(s, path, d) && MutateOrKeep(s, env, n, path, d) == Ok(copy)
    requires ValidPath(env, n, env.startingPoint, path)
    ensures ValidPath(env, n, env.startingPoint, copy)
  {
    if Mutates(s, d) {
      MutatePreservesValidPath(env, n, env.startingPoint, env.explosionRange, path, d.passes);
    }
  }

  // ---------------------------------------------------------------------
  // The series

  /** The state `GetBestPathSeries` carries from one iteration to the next. */
  class PathSeries {
    const settings: PlannerSettings
    const env: ExpeditionEnvironment
    const n: nat
    const norm: Vector2 -> real
    var bestPath: seq<Vector2>
    var batch: seq<seq<Vector2>>

    /**
     * Before the loop: a best path of `MaxExplosions` zero points and
     * `2 * PathGenerationSize` built paths.
     */
    constructor (settings: PlannerSettings, env: ExpeditionEnvironment, norm: Vector2 -> real,
                 draws: seq<BuildDraws>)
      requires env.maxExplosions >= 0
      requires |draws| == 2 * settings.pathGenerationSize
      requires forall i | 0 <= i < |draws| :: BuildDrawsFit(env, draws[i])
      ensures this.settings == settings && this.env == env && this.norm == norm
      ensures n == ValidatedPoints(settings)
      ensures bestPath == Repeat(Zero, env.maxExplosions)
      ensures |batch| == |draws|
      ensures forall i | 0 <= i < |draws| :: batch[i] == Build(env, ValidatedPoints(settings), draws[i], norm)
    {
      var built := BuildAll(env, ValidatedPoints(settings), norm, draws, |draws|);
      this.settings := settings;
      this.env := env;
      this.n := ValidatedPoints(settings);
      this.norm := norm;
      bestPath := Repeat(Zero, env.maxExplosions);
      batch := built;
    }

    /**
     * One iteration: the new best path and batch are those of
     * `NextGeneration`, and the yielded state is the best path with its
     * score. When the step throws, nothing changes here; in the source the
     * exception also ends the iteration and the worker running it, so no
     * further step follows.
     */
    method Next(d: GenerationDraws) returns (r: Result<PathState>)
      requires GenerationDrawsFit(settings, env, batch, d)
      modifies this
      ensures match NextGeneration(settings, env, n, norm, old(bestPath), old(batch), d)
              case Failure(e) => r == Failure(e) && bestPath == old(bestPath) && batch == old(batch)
              case Ok(g) => bestPath == g.best && batch == g.batch
                            && r == Ok(PathState(g.best, Score(settings, env, g.best)))
    {
      var g := Breed(settings, env, n, norm, bestPath, batch, d);
      if g.Failure? {
        return Failure(g.error);
      }
      bestPath := g.value.best;
      batch := g.value.batch;
      var score := GetScore(settings, env, bestPath);
      r := Ok(PathState(bestPath, score));
    }
  }

  /**
   * The body of one iteration before the state is replaced: score and
   * keep the survivors, mutate their two copies, build the new paths and
   * pick the best path.
   */
  method Breed(s: PlannerSettings, env: ExpeditionEnvironment, n: nat, norm: Vector2 -> real,
               best: seq<Vector2>, batch: seq<seq<Vector2>>, d: GenerationDraws) returns (r: Result<Generation>)
    requires GenerationDrawsFit(s, env, batch, d)
    ensures r == NextGeneration(s, env, n, norm, best, batch, d)
  {
    var scored := ScoreBatch(s, env, batch);
    var sv := Take(SortDescending(scored), s.pathGenerationSize);
    assert sv == Survivors(s, env, batch);
    var count := NewPathCount(s);
    if count < 0 {
      assert NextGeneration(s, env, n, norm, best, batch, d) == Failure("count is less than zero");
      return Failure("count is less than zero");
    }
    var mixed := MutateSurvivors(s, env, n, Paths(sv + sv), d.survivors);
    if mixed.Failure? {
      assert NextGeneration(s, env, n, norm, best, batch, d) == Failure(mixed.error);
      return Failure(mixed.error);
    }
    var built := BuildAll(env, n, norm, d.newPaths, count);
    var newBatch := mixed.value + [best] + built;
    if sv == [] {
      assert NextGeneration(s, env, n, norm, best, batch, d) == Failure("Index was out of range");
      return Failure("Index was out of range");
    }
    var bestScore := GetScore(s, env, best);
    var newBest := best;
    if sv[0].score > bestScore {
      newBest := sv[0].path;
    }
    NextGenerationOk(s, env, n, norm, best, batch, d);
    assert built == BuildEach(env, n, norm, d.newPaths, NewPathCount(s));
    assert bestScore == Score(s, env, best);
    assert NextGeneration(s, env, n, norm, best, batch, d) == Ok(Generation(newBest, newBatch));
    return Ok(Generation(newBest, newBatch));
  }

  /** When no stage throws, the generation is the elitist choice and the assembled batch. */
  lemma NextGenerationOk(s: PlannerSettings, env: ExpeditionEnvironment, n: nat, norm: Vector2 -> real,
                         best: seq<Vector2>, batch: seq<seq<Vector2>>, d: GenerationDraws)
    requires GenerationDrawsFit(s, env, batch, d)
    requires NewPathCount(s) >= 0 && Survivors(s, env, batch) != []
    requires MutateAll(s, env, n, Paths(Survivors(s, env, batch) + Survivors(s, env, batch)), d.survivors).Ok?
    ensures var sv := Survivors(s, env, batch);
            var mixed := MutateAll(s, env, n, Paths(sv + sv), d.survivors).value;
            NextGeneration(s, env, n, norm, best, batch, d)
            == Ok(Generation(if sv[0].score > Score(s, env, best) then sv[0].path else best,
                             mixed + [best] + BuildEach(env, n, norm, d.newPaths, NewPathCount(s))))
  {
  }

  /** The scores of the batch, one `GetScore` call per path. */
  method ScoreBatch(s: PlannerSettings, env: ExpeditionEnvironment, batch: seq<seq<Vector2>>)
    returns (scored: seq<Scored>)
    ensures scored == ScoreAll(s, env, batch)
  {
    scored := [];
    for i := 0 to |batch|
      invariant scored == ScoreAll(s, env, batch[..i])
    {
      var score := GetScore(s, env, batch[i]);
      scored := scored + [Scored(score, batch[i])];
    }
    assert batch[..|batch|] == batch;
  }

  /** The mutation stage: each copy kept or passed to `MutatePath`. */
  method MutateSurvivors(s: PlannerSettings, env: ExpeditionEnvironment, n: nat, paths: seq<seq<Vector2>>,
                         draws: seq<SurvivorDraw>) returns (r: Result<seq<seq<Vector2>>>)
    requires AllDrawsFit(s, paths, draws)
    ensures r == MutateAll(s, env, n, paths, draws)
  {
    var done: seq<seq<Vector2>> := [];
    for i := 0 to |paths|
      invariant MutateAll(s, env, n, paths[..i], draws[..i]) == Ok(done)
    {
      assert paths[..i + 1][..i] == paths[..i] && draws[..i + 1][..i] == draws[..i];
      if !Mutates(s, draws[i]) {
        done := done + [paths[i]];
      } else if paths[i] == [] {
        assert AllDrawsFit(s, paths[..i + 1], draws[..i + 1]);
        MutateAllFailureStays(s, env, n, paths, draws, i + 1);
        return Failure("Index was out of range");
      } else {
        var original := new PointList(paths[i]);
        var mutated := MutatePath(env, n, env.startingPoint, env.explosionRange, original, draws[i].passes);
        done := done + [mutated.items];
      }
    }
    assert paths[..|paths|] == paths && draws[..|draws|] == draws;
    r := Ok(done);
  }

  /** `count` calls of `BuildPath`, the `i`th with the `i`th draws. */
  method BuildAll(env: ExpeditionEnvironment, n: nat, norm: Vector2 -> real, draws: seq<BuildDraws>, count: nat)
    returns (built: seq<seq<Vector2>>)
    requires count <= |draws|
    requires forall i | 0 <= i < |draws| :: BuildDrawsFit(env, draws[i])
    ensures |built| == count
    ensures forall i | 0 <= i < count :: built[i] == Build(env, n, draws[i], norm)
  {
    built := [];
    for i := 0 to count
      invariant |built| == i
      invariant forall j | 0 <= j < i :: built[j] == Build(env, n, draws[j], norm)
    {
      var path := BuildPath(env, n, draws[i], norm, false);
      built := built + [path];
    }
  }
}
