/**
 * The loot categories and the relic variants of the planner, with each
 * relic's `GetScoreMultiplier` table.
 */
module Relics {

  /** The four loot classes. RunicMonster and NormalMonster are IMonster; ArtifactChest and OtherChest are IChest. */
  datatype LootKind = RunicMonster | NormalMonster | ArtifactChest | OtherChest

  predicate IsMonster(k: LootKind) {
    k == RunicMonster || k == NormalMonster
  }

  predicate IsChest(k: LootKind) {
    k == ArtifactChest || k == OtherChest
  }

  /** A loot object. Loot classes compare by reference, so `id` stands for the object's identity. */
  datatype Loot = Loot(id: nat, kind: LootKind)

  /** The fifteen IExpeditionRelic implementations. */
  datatype RelicKind =
    | DoubledMonstersRelic
    | IncreasedMonsterLootRelic
    | IncreasedMonsterArtifactsRelic
    | IncreasedChestLootRelic
    | IncreasedChestArtifactsRelic
    | OtherMonsterRelic
    | OtherChestRelic
    | OtherGoodMonsterRelic
    | OtherGoodChestRelic
    | LogbookMonsterRelic
    | LogbookChestRelic
    | FracturedMonsterRelic
    | FracturedChestRelic
    | PackSizeMonsterRelic
    | WarningRelic

  /** A relic object: `id` stands for its reference identity. */
  datatype Relic = Relic(id: nat, kind: RelicKind)

  /**
   * DoubledMonstersRelic and WarningRelic are C# records without fields:
   * they compare by value, so all their instances are equal. The other
   * relic types are classes and compare by reference.
   */
  predicate IsRecord(k: RelicKind) {
    k == DoubledMonstersRelic || k == WarningRelic
  }

  /** The value a HashSet of relics compares. */
  function SetKey(r: Relic): (key: Relic)
    ensures key.kind == r.kind
  {
    if IsRecord(r.kind) then Relic(0, r.kind) else r
  }

  /** Two relics collapse to one HashSet entry iff they have the same type and are records or the same object. */
  lemma SetKeyEqualIff(a: Relic, b: Relic)
    ensures SetKey(a) == SetKey(b) <==> a.kind == b.kind && (IsRecord(a.kind) || a.id == b.id)
  {
  }

  lemma SetKeyIdempotent(r: Relic)
    ensures SetKey(SetKey(r)) == SetKey(r)
  {
  }

  /** The loot categories a relic is written for, read off its type name. */
  function Targets(k: RelicKind): set<LootKind> {
    match k
    case DoubledMonstersRelic => {RunicMonster}
    case IncreasedChestArtifactsRelic => {ArtifactChest}
    case WarningRelic => {RunicMonster, NormalMonster, ArtifactChest, OtherChest}
    case IncreasedChestLootRelic | OtherChestRelic | OtherGoodChestRelic | LogbookChestRelic | FracturedChestRelic =>
      {ArtifactChest, OtherChest}
    case IncreasedMonsterLootRelic | IncreasedMonsterArtifactsRelic | OtherMonsterRelic | OtherGoodMonsterRelic
      | LogbookMonsterRelic | FracturedMonsterRelic | PackSizeMonsterRelic =>
      {RunicMonster, NormalMonster}
  }

  /**
   * `GetScoreMultiplier`: a (multiplier, bonus) pair. The planner multiplies
   * the multipliers and adds the bonuses of all active relics.
   */
  function GetScoreMultiplier(k: RelicKind, loot: LootKind): (m: (real, real))
    ensures k == WarningRelic ==> m == (0.0, 0.0)
    ensures k != WarningRelic ==> 1.0 <= m.0 <= 2.0 && 0.0 <= m.1 <= 0.4
    ensures k != WarningRelic ==> (m == (1.0, 0.0) <==> loot !in Targets(k))
    ensures m.0 == 1.0 || m.1 == 0.0
  {
    match k
    case DoubledMonstersRelic => if loot == RunicMonster then (2.0, 0.0) else (1.0, 0.0)
    case IncreasedMonsterLootRelic => if IsMonster(loot) then (1.0, 0.4) else (1.0, 0.0)
    case IncreasedMonsterArtifactsRelic => if IsMonster(loot) then (1.0, 0.4) else (1.0, 0.0)
    case IncreasedChestLootRelic => if IsChest(loot) then (1.0, 0.4) else (1.0, 0.0)
    case IncreasedChestArtifactsRelic => if loot == ArtifactChest then (1.0, 0.4) else (1.0, 0.0)
    case OtherMonsterRelic => if IsMonster(loot) then (1.0, 0.15) else (1.0, 0.0)
    case OtherChestRelic => if IsChest(loot) then (1.0, 0.15) else (1.0, 0.0)
    case OtherGoodMonsterRelic => if IsMonster(loot) then (1.0, 0.25) else (1.0, 0.0)
    case OtherGoodChestRelic => if IsChest(loot) then (1.0, 0.25) else (1.0, 0.0)
    case LogbookMonsterRelic => if IsMonster(loot) then (1.5, 0.0) else (1.0, 0.0)
    case LogbookChestRelic => if IsChest(loot) then (1.5, 0.0) else (1.0, 0.0)
    case FracturedMonsterRelic => if IsMonster(loot) then (1.3, 0.0) else (1.0, 0.0)
    case FracturedChestRelic => if IsChest(loot) then (1.3, 0.0) else (1.0, 0.0)
    case PackSizeMonsterRelic => if IsMonster(loot) then (1.25, 0.0) else (1.0, 0.0)
    case WarningRelic => (0.0, 0.0)
  }

  /** Only the Warning relic can lower a score; the Doubled relic is the only one above x1.5. */
  lemma OnlyWarningCancels(k: RelicKind, loot: LootKind)
    ensures GetScoreMultiplier(k, loot).0 < 1.0 <==> k == WarningRelic
    ensures GetScoreMultiplier(k, loot).0 > 1.5 <==> k == DoubledMonstersRelic && loot == RunicMonster
  {
  }
}
