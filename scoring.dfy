/**
 * `PathPlanner.GetScore`: the score of a path is an order-sensitive fold
 * over its explosion points. At every point the relics within the
 * explosion radius join the active relic set, and then every loot item
 * within the radius that was not credited before is credited once, adding
 * weight * (product of multipliers) * (1 + sum of bonuses) over the
 * relics active at that moment.
 */
module Scoring {
  import opened Vectors
  import opened Relics
  import opened Placement

  /**
   * What `GetScore` keeps while it walks the path: the relic `HashSet`
   * (as its set keys, in insertion order), the loot `HashSet` (in
   * insertion order) and the running score.
   */
  datatype ScanState = ScanState(active: seq<Relic>, credited: seq<Loot>, score: real)

  const Initial: ScanState := ScanState([], [], 0.0)

  predicate NoDuplicates<T(==)>(s: seq<T>) {
    forall i, j | 0 <= i < j < |s| :: s[i] != s[j]
  }

  /** Every element of the active set is its own set key, and none is there twice. */
  predicate ActiveWellFormed(active: seq<Relic>) {
    NoDuplicates(active) && forall i | 0 <= i < |active| :: SetKey(active[i]) == active[i]
  }

  predicate HasWarning(active: seq<Relic>) {
    exists i | 0 <= i < |active| :: active[i].kind == WarningRelic
  }

  /**
   * The `Aggregate` over the active relics: the product of their
   * multipliers and the sum of their bonuses, folded from (1, 0) in the
   * set's enumeration order.
   */
  function Aggregate(active: seq<Relic>, loot: LootKind): (m: (real, real))
    ensures m.0 >= 0.0 && m.1 >= 0.0
    ensures HasWarning(active) ==> m.0 == 0.0
    ensures !HasWarning(active) ==> m.0 >= 1.0
    decreases |active|
  {
    if active == [] then (1.0, 0.0)
    else
      var a := Aggregate(active[..|active| - 1], loot);
      var b := GetScoreMultiplier(active[|active| - 1].kind, loot);
      assert HasWarning(active) <==>
             HasWarning(active[..|active| - 1]) || active[|active| - 1].kind == WarningRelic;
      MulNonNegative(a.0, b.0);
      if a.0 == 0.0 || b.0 == 0.0 then
        MulByZero(a.0, b.0);
        (Mul(a.0, b.0), a.1 + b.1)
      else
        MulAtLeastOne(a.0, b.0);
        (Mul(a.0, b.0), a.1 + b.1)
  }

  lemma MulAtLeastOne(a: real, b: real)
    ensures a >= 1.0 && b >= 1.0 ==> Mul(a, b) >= 1.0
  {
    if a >= 1.0 && b >= 1.0 {
      MulNonNegative(a - 1.0, b - 1.0);
      assert Mul(a, b) == Mul(a - 1.0, b - 1.0) + a + b - 1.0;
    }
  }

  /** What crediting one loot item adds to the score, given the relics active at that point. */
  function Gain(s: PlannerSettings, active: seq<Relic>, loot: Loot): (g: real)
    ensures WeightsNonNegative(s) ==> g >= 0.0
    ensures HasWarning(active) ==> g == 0.0
  {
    var m := Aggregate(active, loot.kind);
    var w := LootValue(s, loot.kind);
    GainProduct(w, m.0, m.1);
    Mul(Mul(w, m.0), 1.0 + m.1)
  }

  lemma GainProduct(w: real, mult: real, sum: real)
    requires mult >= 0.0 && sum >= 0.0
    ensures w >= 0.0 ==> Mul(Mul(w, mult), 1.0 + sum) >= 0.0
    ensures mult == 0.0 ==> Mul(Mul(w, mult), 1.0 + sum) == 0.0
  {
    if w >= 0.0 {
      MulNonNegative(w, mult);
      MulNonNegative(Mul(w, mult), 1.0 + sum);
    }
    if mult == 0.0 {
      MulByZero(w, mult);
      MulByZero(Mul(w, mult), 1.0 + sum);
    }
  }

  /** With no relic active a credited item adds exactly its weight. */
  lemma GainWithoutRelics(s: PlannerSettings, loot: Loot)
    ensures Gain(s, [], loot) == LootValue(s, loot.kind)
  {
    var w := LootValue(s, loot.kind);
    assert Aggregate([], loot.kind) == (1.0, 0.0);
    assert Mul(w, 1.0) == w;
    assert Mul(w, 1.0 + 0.0) == w;
  }

  /** `HashSet.Add` on the relic set, up to record equality. */
  function Activate(active: seq<Relic>, relic: Relic): seq<Relic> {
    if SetKey(relic) in active then active else active + [SetKey(relic)]
  }

  /** The relic loop at one explosion point p. */
  function ActivateRelics(relics: seq<(Vector2, Relic)>, radius: real, p: Vector2,
                          active: seq<Relic>): (r: seq<Relic>)
    ensures active <= r
    decreases |relics|
  {
    if relics == [] then active
    else
      var prev := ActivateRelics(relics[..|relics| - 1], radius, p, active);
      var (pos, relic) := relics[|relics| - 1];
      if WithinDistance(pos, p, radius) then Activate(prev, relic) else prev
  }

  /**
   * The loot loop at one explosion point p: an item within the (strict)
   * radius is credited when the loot set did not hold it yet.
   */
  function CreditLoot(s: PlannerSettings, loot: seq<(Vector2, Loot)>, radius: real, p: Vector2,
                      active: seq<Relic>, credited: seq<Loot>, score: real): (r: (seq<Loot>, real))
    ensures credited <= r.0
    ensures WeightsNonNegative(s) ==> r.1 >= score
    decreases |loot|
  {
    if loot == [] then (credited, score)
    else
      var prev := CreditLoot(s, loot[..|loot| - 1], radius, p, active, credited, score);
      var (pos, item) := loot[|loot| - 1];
      if DistanceLessThanOrEqual(pos, p, radius) && item !in prev.0
      then (prev.0 + [item], prev.1 + Gain(s, active, item))
      else prev
  }

  /** One iteration of the outer loop: relics first, then loot. */
  function Step(s: PlannerSettings, env: ExpeditionEnvironment, st: ScanState, p: Vector2): ScanState {
    var active := ActivateRelics(env.relics, env.explosionRadius, p, st.active);
    var r := CreditLoot(s, env.loot, env.explosionRadius, p, active, st.credited, st.score);
    ScanState(active, r.0, r.1)
  }

  function Scan(s: PlannerSettings, env: ExpeditionEnvironment, path: seq<Vector2>): ScanState
    decreases |path|
  {
    if path == [] then Initial
    else Step(s, env, Scan(s, env, path[..|path| - 1]), path[|path| - 1])
  }

  function Score(s: PlannerSettings, env: ExpeditionEnvironment, path: seq<Vector2>): real {
    Scan(s, env, path).score
  }

  /** `GetScore`, with its two hash sets as local sequences. */
  method GetScore(s: PlannerSettings, env: ExpeditionEnvironment, path: seq<Vector2>) returns (score: real)
    ensures score == Score(s, env, path)
    ensures path == [] ==> score == 0.0
    ensures WeightsNonNegative(s) ==> score >= 0.0
  {
    var active: seq<Relic> := [];
    var credited: seq<Loot> := [];
    score := 0.0;
    for i := 0 to |path|
      invariant Scan(s, env, path[..i]) == ScanState(active, credited, score)
    {
      var p := path[i];
      active := ActivateAt(env, p, active);
      credited, score := CreditAt(s, env, p, active, credited, score);
      assert path[..i + 1][..i] == path[..i];
    }
    assert path[..|path|] == path;
    if WeightsNonNegative(s) {
      ScorePrefixMonotone(s, env, path, 0);
    }
  }

  /** The relic loop of one explosion point `p`. */
  method ActivateAt(env: ExpeditionEnvironment, p: Vector2, active: seq<Relic>) returns (r: seq<Relic>)
    ensures r == ActivateRelics(env.relics, env.explosionRadius, p, active)
  {
    r := active;
    for j := 0 to |env.relics|
      invariant r == ActivateRelics(env.relics[..j], env.explosionRadius, p, active)
    {
      assert env.relics[..j + 1][..j] == env.relics[..j];
      var (pos, relic) := env.relics[j];
      if WithinDistance(pos, p, env.explosionRadius) {
        r := Activate(r, relic);
      }
    }
    assert env.relics[..|env.relics|] == env.relics;
  }

  /** The loot loop of one explosion point `p`, with the relics `active` after it. */
  method CreditAt(s: PlannerSettings, env: ExpeditionEnvironment, p: Vector2, active: seq<Relic>,
                  credited: seq<Loot>, score: real) returns (credited': seq<Loot>, score': real)
    ensures (credited', score') == CreditLoot(s, env.loot, env.explosionRadius, p, active, credited, score)
  {
    credited', score' := credited, score;
    for j := 0 to |env.loot|
      invariant (credited', score') == CreditLoot(s, env.loot[..j], env.explosionRadius, p, active, credited, score)
    {
      assert env.loot[..j + 1][..j] == env.loot[..j];
      var (pos, item) := env.loot[j];
      if DistanceLessThanOrEqual(pos, p, env.explosionRadius) && item !in credited' {
        credited' := credited' + [item];
        score' := score' + Gain(s, active, item);
      }
    }
    assert env.loot[..|env.loot|] == env.loot;
  }

  // ---------------------------------------------------------------------
  // The score never decreases along the path.

  lemma StepNonDecreasing(s: PlannerSettings, env: ExpeditionEnvironment, st: ScanState, p: Vector2)
    requires WeightsNonNegative(s)
    ensures Step(s, env, st, p).score >= st.score
  {
  }

  /** With non-negative weights the score of a prefix is at most the score of the path. */
  lemma {:induction false} ScorePrefixMonotone(s: PlannerSettings, env: ExpeditionEnvironment,
                                               path: seq<Vector2>, k: nat)
    requires WeightsNonNegative(s)
    requires k <= |path|
    ensures 0.0 <= Score(s, env, path[..k]) <= Score(s, env, path)
    decreases |path|
  {
    if path == [] {
      assert path[..k] == [];
    } else if k == |path| {
      assert path[..k] == path;
      ScorePrefixMonotone(s, env, path[..|path| - 1], k - 1);
      assert path[..|path| - 1][..k - 1] == path[..k - 1];
      StepNonDecreasing(s, env, Scan(s, env, path[..k - 1]), path[k - 1]);
      assert path[..k - 1] == path[..|path| - 1];
    } else {
      ScorePrefixMonotone(s, env, path[..|path| - 1], k);
      assert path[..|path| - 1][..k] == path[..k];
      StepNonDecreasing(s, env, Scan(s, env, path[..|path| - 1]), path[|path| - 1]);
    }
  }

  // ---------------------------------------------------------------------
  // The relic set and the loot set only grow, and hold no duplicates.

  lemma {:induction false} ActivateRelicsWellFormed(relics: seq<(Vector2, Relic)>, radius: real, p: Vector2,
                                                    active: seq<Relic>)
    requires ActiveWellFormed(active)
    ensures ActiveWellFormed(ActivateRelics(relics, radius, p, active))
    decreases |relics|
  {
    if relics != [] {
      ActivateRelicsWellFormed(relics[..|relics| - 1], radius, p, active);
      SetKeyIdempotent(relics[|relics| - 1].1);
    }
  }

  lemma {:induction false} CreditLootNoDuplicates(s: PlannerSettings, loot: seq<(Vector2, Loot)>, radius: real,
                                                  p: Vector2, active: seq<Relic>, credited: seq<Loot>, score: real)
    requires NoDuplicates(credited)
    ensures NoDuplicates(CreditLoot(s, loot, radius, p, active, credited, score).0)
    decreases |loot|
  {
    if loot != [] {
      CreditLootNoDuplicates(s, loot[..|loot| - 1], radius, p, active, credited, score);
    }
  }

  /** Each loot item is credited at most once, and each relic (up to record equality) is active once. */
  lemma {:induction false} ScanNoDuplicates(s: PlannerSettings, env: ExpeditionEnvironment, path: seq<Vector2>)
    ensures NoDuplicates(Scan(s, env, path).credited)
    ensures ActiveWellFormed(Scan(s, env, path).active)
    decreases |path|
  {
    if path != [] {
      var prev := Scan(s, env, path[..|path| - 1]);
      var p := path[|path| - 1];
      ScanNoDuplicates(s, env, path[..|path| - 1]);
      ActivateRelicsWellFormed(env.relics, env.explosionRadius, p, prev.active);
      var active := ActivateRelics(env.relics, env.explosionRadius, p, prev.active);
      CreditLootNoDuplicates(s, env.loot, env.explosionRadius, p, active, prev.credited, prev.score);
    }
  }

  /** The state after a prefix of the path is a prefix of the state after the whole path. */
  lemma {:induction false} ScanPrefix(s: PlannerSettings, env: ExpeditionEnvironment, path: seq<Vector2>, k: nat)
    requires k <= |path|
    ensures Scan(s, env, path[..k]).active <= Scan(s, env, path).active
    ensures Scan(s, env, path[..k]).credited <= Scan(s, env, path).credited
    decreases |path|
  {
    if k == |path| {
      assert path[..k] == path;
    } else {
      ScanPrefix(s, env, path[..|path| - 1], k);
      assert path[..|path| - 1][..k] == path[..k];
    }
  }

  // ---------------------------------------------------------------------
  // What the sets hold: exactly the relics and the loot some point reached.

  /** The relic `relics[j]` is reached from p. */
  predicate RelicHit(relics: seq<(Vector2, Relic)>, radius: real, p: Vector2, j: int)
    requires 0 <= j < |relics|
  {
    WithinDistance(relics[j].0, p, radius)
  }

  /** The loot item `loot[j]` is reached from p. */
  predicate LootHit(loot: seq<(Vector2, Loot)>, radius: real, p: Vector2, j: int)
    requires 0 <= j < |loot|
  {
    DistanceLessThanOrEqual(loot[j].0, p, radius)
  }

  lemma {:induction false} ActivateRelicsContents(relics: seq<(Vector2, Relic)>, radius: real, p: Vector2,
                                                  active: seq<Relic>, key: Relic)
    ensures key in ActivateRelics(relics, radius, p, active) <==>
            key in active || exists j | 0 <= j < |relics| :: RelicHit(relics, radius, p, j) && SetKey(relics[j].1) == key
    decreases |relics|
  {
    if relics != [] {
      var init := relics[..|relics| - 1];
      ActivateRelicsContents(init, radius, p, active, key);
      if exists j | 0 <= j < |init| :: RelicHit(init, radius, p, j) && SetKey(init[j].1) == key {
        var j :| 0 <= j < |init| && RelicHit(init, radius, p, j) && SetKey(init[j].1) == key;
        assert RelicHit(relics, radius, p, j) && SetKey(relics[j].1) == key;
      }
      if exists j | 0 <= j < |relics| :: RelicHit(relics, radius, p, j) && SetKey(relics[j].1) == key {
        var j :| 0 <= j < |relics| && RelicHit(relics, radius, p, j) && SetKey(relics[j].1) == key;
        if j < |init| {
          assert RelicHit(init, radius, p, j) && SetKey(init[j].1) == key;
        }
      }
    }
  }

  lemma {:induction false} CreditLootContents(s: PlannerSettings, loot: seq<(Vector2, Loot)>, radius: real,
                                              p: Vector2, active: seq<Relic>, credited: seq<Loot>, score: real,
                                              item: Loot)
    ensures item in CreditLoot(s, loot, radius, p, active, credited, score).0 <==>
            item in credited || exists j | 0 <= j < |loot| :: LootHit(loot, radius, p, j) && loot[j].1 == item
    decreases |loot|
  {
    if loot != [] {
      var init := loot[..|loot| - 1];
      CreditLootContents(s, init, radius, p, active, credited, score, item);
      if exists j | 0 <= j < |init| :: LootHit(init, radius, p, j) && init[j].1 == item {
        var j :| 0 <= j < |init| && LootHit(init, radius, p, j) && init[j].1 == item;
        assert LootHit(loot, radius, p, j) && loot[j].1 == item;
      }
      if exists j | 0 <= j < |loot| :: LootHit(loot, radius, p, j) && loot[j].1 == item {
        var j :| 0 <= j < |loot| && LootHit(loot, radius, p, j) && loot[j].1 == item;
        if j < |init| {
          assert LootHit(init, radius, p, j) && init[j].1 == item;
        }
      }
    }
  }

  /** Some point of the path reaches a relic with this set key. */
  predicate RelicReached(env: ExpeditionEnvironment, path: seq<Vector2>, key: Relic) {
    exists i, j | 0 <= i < |path| && 0 <= j < |env.relics| ::
      RelicHit(env.relics, env.explosionRadius, path[i], j) && SetKey(env.relics[j].1) == key
  }

  /** Some point of the path reaches this loot item. */
  predicate LootReached(env: ExpeditionEnvironment, path: seq<Vector2>, item: Loot) {
    exists i, j | 0 <= i < |path| && 0 <= j < |env.loot| ::
      LootHit(env.loot, env.explosionRadius, path[i], j) && env.loot[j].1 == item
  }

  /** A relic is reached along a path with one more point iff the shorter path or the new point reaches it. */
  lemma RelicReachedSnoc(env: ExpeditionEnvironment, init: seq<Vector2>, p: Vector2, key: Relic)
    ensures RelicReached(env, init + [p], key) <==>
            RelicReached(env, init, key)
            || exists j | 0 <= j < |env.relics| :: RelicHit(env.relics, env.explosionRadius, p, j) && SetKey(env.relics[j].1) == key
  {
    var path := init + [p];
    if RelicReached(env, init, key) {
      var i, j :| 0 <= i < |init| && 0 <= j < |env.relics|
                  && RelicHit(env.relics, env.explosionRadius, init[i], j) && SetKey(env.relics[j].1) == key;
      assert path[i] == init[i];
    }
    if exists j | 0 <= j < |env.relics| :: RelicHit(env.relics, env.explosionRadius, p, j) && SetKey(env.relics[j].1) == key {
      var j :| 0 <= j < |env.relics| && RelicHit(env.relics, env.explosionRadius, p, j) && SetKey(env.relics[j].1) == key;
      assert path[|init|] == p;
    }
    if RelicReached(env, path, key) {
      var i, j :| 0 <= i < |path| && 0 <= j < |env.relics|
                  && RelicHit(env.relics, env.explosionRadius, path[i], j) && SetKey(env.relics[j].1) == key;
      if i < |init| {
        assert init[i] == path[i];
      }
    }
  }

  /** An item is reached along a path with one more point iff the shorter path or the new point reaches it. */
  lemma LootReachedSnoc(env: ExpeditionEnvironment, init: seq<Vector2>, p: Vector2, item: Loot)
    ensures LootReached(env, init + [p], item) <==>
            LootReached(env, init, item)
            || exists j | 0 <= j < |env.loot| :: LootHit(env.loot, env.explosionRadius, p, j) && env.loot[j].1 == item
  {
    var path := init + [p];
    if LootReached(env, init, item) {
      var i, j :| 0 <= i < |init| && 0 <= j < |env.loot|
                  && LootHit(env.loot, env.explosionRadius, init[i], j) && env.loot[j].1 == item;
      assert path[i] == init[i];
    }
    if exists j | 0 <= j < |env.loot| :: LootHit(env.loot, env.explosionRadius, p, j) && env.loot[j].1 == item {
      var j :| 0 <= j < |env.loot| && LootHit(env.loot, env.explosionRadius, p, j) && env.loot[j].1 == item;
      assert path[|init|] == p;
    }
    if LootReached(env, path, item) {
      var i, j :| 0 <= i < |path| && 0 <= j < |env.loot|
                  && LootHit(env.loot, env.explosionRadius, path[i], j) && env.loot[j].1 == item;
      if i < |init| {
        assert init[i] == path[i];
      }
    }
  }

  /** After the path, the relic set holds exactly the relics some point reached. */
  lemma {:induction false} ScanActiveContents(s: PlannerSettings, env: ExpeditionEnvironment,
                                              path: seq<Vector2>, key: Relic)
    ensures key in Scan(s, env, path).active <==> RelicReached(env, path, key)
    decreases |path|
  {
    if path != [] {
      var init := path[..|path| - 1];
      var p := path[|path| - 1];
      assert path == init + [p];
      ScanActiveContents(s, env, init, key);
      ActivateRelicsContents(env.relics, env.explosionRadius, p, Scan(s, env, init).active, key);
      RelicReachedSnoc(env, init, p, key);
    }
  }

  /** After the path, the loot set holds exactly the loot some point reached. */
  lemma {:induction false} ScanCreditedContents(s: PlannerSettings, env: ExpeditionEnvironment,
                                                path: seq<Vector2>, item: Loot)
    ensures item in Scan(s, env, path).credited <==> LootReached(env, path, item)
    decreases |path|
  {
    if path != [] {
      var init := path[..|path| - 1];
      var p := path[|path| - 1];
      assert path == init + [p];
      var prev := Scan(s, env, init);
      ScanCreditedContents(s, env, init, item);
      var active := ActivateRelics(env.relics, env.explosionRadius, p, prev.active);
      CreditLootContents(s, env.loot, env.explosionRadius, p, active, prev.credited, prev.score, item);
      LootReachedSnoc(env, init, p, item);
    }
  }

  // ---------------------------------------------------------------------
  // A point that repeats the previous one adds nothing.

  lemma {:induction false} ActivateRelicsFixed(relics: seq<(Vector2, Relic)>, radius: real, p: Vector2,
                                               active: seq<Relic>)
    requires forall j | 0 <= j < |relics| :: RelicHit(relics, radius, p, j) ==> SetKey(relics[j].1) in active
    ensures ActivateRelics(relics, radius, p, active) == active
    decreases |relics|
  {
    if relics != [] {
      var init := relics[..|relics| - 1];
      forall j | 0 <= j < |init| && RelicHit(init, radius, p, j)
        ensures SetKey(init[j].1) in active
      {
        assert RelicHit(relics, radius, p, j);
      }
      ActivateRelicsFixed(init, radius, p, active);
      assert !RelicHit(relics, radius, p, |relics| - 1) || SetKey(relics[|relics| - 1].1) in active;
    }
  }

  lemma {:induction false} CreditLootFixed(s: PlannerSettings, loot: seq<(Vector2, Loot)>, radius: real,
                                           p: Vector2, active: seq<Relic>, credited: seq<Loot>, score: real)
    requires forall j | 0 <= j < |loot| :: LootHit(loot, radius, p, j) ==> loot[j].1 in credited
    ensures CreditLoot(s, loot, radius, p, active, credited, score) == (credited, score)
    decreases |loot|
  {
    if loot != [] {
      var init := loot[..|loot| - 1];
      forall j | 0 <= j < |init| && LootHit(init, radius, p, j)
        ensures init[j].1 in credited
      {
        assert LootHit(loot, radius, p, j);
      }
      CreditLootFixed(s, init, radius, p, active, credited, score);
      assert !LootHit(loot, radius, p, |loot| - 1) || loot[|loot| - 1].1 in credited;
    }
  }

  /** Exploding twice at the same point scores no more than exploding once. */
  lemma RepeatedPointAddsNothing(s: PlannerSettings, env: ExpeditionEnvironment, path: seq<Vector2>, p: Vector2)
    ensures Scan(s, env, path + [p, p]) == Scan(s, env, path + [p])
    ensures Score(s, env, path + [p, p]) == Score(s, env, path + [p])
  {
    assert (path + [p, p])[..|path| + 1] == path + [p];
    assert (path + [p])[..|path|] == path;
    var once := Scan(s, env, path + [p]);
    forall j | 0 <= j < |env.relics| && RelicHit(env.relics, env.explosionRadius, p, j)
      ensures SetKey(env.relics[j].1) in once.active
    {
      ActivateRelicsContents(env.relics, env.explosionRadius, p, Scan(s, env, path).active, SetKey(env.relics[j].1));
    }
    ActivateRelicsFixed(env.relics, env.explosionRadius, p, once.active);
    forall j | 0 <= j < |env.loot| && LootHit(env.loot, env.explosionRadius, p, j)
      ensures env.loot[j].1 in once.credited
    {
      var prev := Scan(s, env, path);
      var active := ActivateRelics(env.relics, env.explosionRadius, p, prev.active);
      CreditLootContents(s, env.loot, env.explosionRadius, p, active, prev.credited, prev.score, env.loot[j].1);
    }
    CreditLootFixed(s, env.loot, env.explosionRadius, p, once.active, once.credited, once.score);
  }

  // ---------------------------------------------------------------------
  // A warning relic stops the score, and keeps what was collected before.

  lemma {:induction false} CreditLootWithWarning(s: PlannerSettings, loot: seq<(Vector2, Loot)>, radius: real,
                                                 p: Vector2, active: seq<Relic>, credited: seq<Loot>, score: real)
    requires HasWarning(active)
    ensures CreditLoot(s, loot, radius, p, active, credited, score).1 == score
    decreases |loot|
  {
    if loot != [] {
      CreditLootWithWarning(s, loot[..|loot| - 1], radius, p, active, credited, score);
    }
  }

  lemma StepWithWarning(s: PlannerSettings, env: ExpeditionEnvironment, st: ScanState, p: Vector2)
    requires HasWarning(ActivateRelics(env.relics, env.explosionRadius, p, st.active))
    ensures Step(s, env, st, p).score == st.score
    ensures HasWarning(Step(s, env, st, p).active)
  {
    var active := ActivateRelics(env.relics, env.explosionRadius, p, st.active);
    CreditLootWithWarning(s, env.loot, env.explosionRadius, p, active, st.credited, st.score);
  }

  lemma HasWarningPrefix(a: seq<Relic>, b: seq<Relic>)
    requires a <= b && HasWarning(a)
    ensures HasWarning(b)
  {
    var i :| 0 <= i < |a| && a[i].kind == WarningRelic;
    assert b[i] == a[i];
  }

  /**
   * Once point k reaches a warning relic, nothing credited from point k on
   * adds to the score, and what the points before k collected is kept.
   */
  lemma {:induction false} WarningFreezesScore(s: PlannerSettings, env: ExpeditionEnvironment,
                                               path: seq<Vector2>, k: nat, j: nat)
    requires k < |path| && j < |env.relics|
    requires env.relics[j].1.kind == WarningRelic
    requires WithinDistance(env.relics[j].0, path[k], env.explosionRadius)
    ensures Score(s, env, path) == Score(s, env, path[..k])
    decreases |path|
  {
    var init := path[..|path| - 1];
    var p := path[|path| - 1];
    var prev := Scan(s, env, init);
    if k == |path| - 1 {
      var key := SetKey(env.relics[j].1);
      ActivateRelicsContents(env.relics, env.explosionRadius, p, prev.active, key);
      var active := ActivateRelics(env.relics, env.explosionRadius, p, prev.active);
      assert RelicHit(env.relics, env.explosionRadius, p, j);
      var i :| 0 <= i < |active| && active[i] == key;
      assert active[i].kind == WarningRelic;
      StepWithWarning(s, env, prev, p);
      assert path[..k] == init;
    } else {
      assert init[k] == path[k];
      WarningFreezesScore(s, env, init, k, j);
      assert init[..k] == path[..k];
      assert init[..k + 1] == path[..k + 1];
      WarningStaysActive(s, env, path, k, j);
      var active := ActivateRelics(env.relics, env.explosionRadius, p, prev.active);
      HasWarningPrefix(prev.active, active);
      StepWithWarning(s, env, prev, p);
    }
  }

  /** A warning relic reached at point k is still active after every later point. */
  lemma WarningStaysActive(s: PlannerSettings, env: ExpeditionEnvironment, path: seq<Vector2>, k: nat, j: nat)
    requires k < |path| - 1 && j < |env.relics|
    requires env.relics[j].1.kind == WarningRelic
    requires WithinDistance(env.relics[j].0, path[k], env.explosionRadius)
    ensures HasWarning(Scan(s, env, path[..|path| - 1]).active)
  {
    var key := SetKey(env.relics[j].1);
    var init := path[..|path| - 1];
    ScanActiveContents(s, env, init, key);
    assert RelicHit(env.relics, env.explosionRadius, init[k], j);
    var active := Scan(s, env, init).active;
    var i :| 0 <= i < |active| && active[i] == key;
    assert active[i].kind == WarningRelic;
  }

  // ---------------------------------------------------------------------
  // A relic no point reaches does not change anything.

  /**
   * Adding a relic that no point of the path reaches leaves the whole scan
   * unchanged. Applied to `path[..k]`, a relic first reached at point k
   * leaves the score collected before k as it was.
   */
  lemma {:induction false} UnreachedRelicIrrelevant(s: PlannerSettings, env: ExpeditionEnvironment,
                                                    path: seq<Vector2>, pos: Vector2, relic: Relic)
    requires forall i | 0 <= i < |path| :: !WithinDistance(pos, path[i], env.explosionRadius)
    ensures Scan(s, env.(relics := env.relics + [(pos, relic)]), path) == Scan(s, env, path)
    decreases |path|
  {
    if path != [] {
      var env2 := env.(relics := env.relics + [(pos, relic)]);
      var init := path[..|path| - 1];
      UnreachedRelicIrrelevant(s, env, init, pos, relic);
      assert env2.relics[..|env2.relics| - 1] == env.relics;
    }
  }

  // ---------------------------------------------------------------------
  // Each credited item adds exactly its gain.

  /** The sum of the gains of the given items, under one active relic set. */
  function SumGain(s: PlannerSettings, active: seq<Relic>, items: seq<Loot>): real
    decreases |items|
  {
    if items == [] then 0.0 else SumGain(s, active, items[..|items| - 1]) + Gain(s, active, items[|items| - 1])
  }

  lemma {:induction false} CreditLootAddsGains(s: PlannerSettings, loot: seq<(Vector2, Loot)>, radius: real,
                                               p: Vector2, active: seq<Relic>, credited: seq<Loot>, score: real)
    ensures var r := CreditLoot(s, loot, radius, p, active, credited, score);
            r.1 == score + SumGain(s, active, r.0[|credited|..])
    decreases |loot|
  {
    if loot != [] {
      var prev := CreditLoot(s, loot[..|loot| - 1], radius, p, active, credited, score);
      CreditLootAddsGains(s, loot[..|loot| - 1], radius, p, active, credited, score);
      var item := loot[|loot| - 1].1;
      assert (prev.0 + [item])[|credited|..] == prev.0[|credited|..] + [item];
      assert (prev.0[|credited|..] + [item])[..|prev.0[|credited|..]|] == prev.0[|credited|..];
    } else {
      assert credited[|credited|..] == [];
    }
  }

  /**
   * One explosion point adds to the score exactly the gains of the items it
   * credits, each computed with the relics active after that point's relic
   * loop.
   */
  lemma StepAddsGains(s: PlannerSettings, env: ExpeditionEnvironment, st: ScanState, p: Vector2)
    ensures st.credited <= Step(s, env, st, p).credited
    ensures var next := Step(s, env, st, p);
            next.score == st.score + SumGain(s, next.active, next.credited[|st.credited|..])
  {
    var active := ActivateRelics(env.relics, env.explosionRadius, p, st.active);
    CreditLootAddsGains(s, env.loot, env.explosionRadius, p, active, st.credited, st.score);
  }
}
