/**
 * The relic classifier `Icons.GetRelicType` and the two marker tables of
 * `Icons`: `ExpeditionRelicIcons`, read by all-match lookup, and
 * `LogbookChestIcons`, read by first-match lookup. A table entry matches
 * a name when the name contains one of the entry's substrings.
 */
module Icons {
  import opened Outcomes
  import opened Relics

  // ---------------------------------------------------------------------
  // Substring search

  /** `sub` occurs in `s` at position `i` (ordinal comparison). */
  predicate MatchesAt(s: string, sub: string, i: nat) {
    i + |sub| <= |s| && forall k | 0 <= k < |sub| :: s[i + k] == sub[k]
  }

  /** `string.Contains`. */
  predicate Contains(s: string, sub: string) {
    exists i: nat | i <= |s| :: MatchesAt(s, sub, i)
  }

  lemma ContainsMiddle(a: string, b: string, c: string)
    ensures Contains(a + b + c, b)
  {
    assert MatchesAt(a + b + c, b, |a|);
  }

  /** A substring of a substring is a substring. */
  lemma ContainsTransitive(a: string, b: string, c: string)
    requires Contains(a, b) && Contains(b, c)
    ensures Contains(a, c)
  {
    var i: nat :| i <= |a| && MatchesAt(a, b, i);
    var j: nat :| j <= |b| && MatchesAt(b, c, j);
    forall k | 0 <= k < |c|
      ensures a[i + j + k] == c[k]
    {
      assert b[j + k] == c[k];
      assert a[i + (j + k)] == b[j + k];
    }
    assert MatchesAt(a, c, i + j);
  }

  /** No character of `s` is `c`. */
  predicate Lacks(s: string, c: char) {
    forall k | 0 <= k < |s| :: s[k] != c
  }

  lemma LacksAppend(a: string, b: string, c: char)
    requires Lacks(a, c) && Lacks(b, c)
    ensures Lacks(a + b, c)
  {
    forall k | 0 <= k < |a + b|
      ensures (a + b)[k] != c
    {
      if k < |a| {
        assert (a + b)[k] == a[k];
      } else {
        assert (a + b)[k] == b[k - |a|];
      }
    }
  }

  /** A string lacking one of the characters of `sub` does not contain `sub`. */
  lemma MissingChar(s: string, sub: string, j: nat)
    requires j < |sub| && Lacks(s, sub[j])
    ensures !Contains(s, sub)
  {
    forall i: nat | i <= |s|
      ensures !MatchesAt(s, sub, i)
    {
      if i + |sub| <= |s| {
        assert s[i + j] != sub[j];
      }
    }
  }

  /** No "Mon" occurs in `s`. */
  predicate NoMon(s: string) {
    forall k | 0 <= k < |s| - 2 :: !(s[k] == 'M' && s[k + 1] == 'o' && s[k + 2] == 'n')
  }

  /** Joining two strings without "Mon" creates none when `a` does not end in an 'M' within two characters. */
  lemma NoMonAppend(a: string, b: string)
    requires NoMon(a) && NoMon(b)
    requires |a| >= 2 && a[|a| - 2] != 'M' && a[|a| - 1] != 'M'
    ensures NoMon(a + b)
  {
    var s := a + b;
    forall k | 0 <= k < |s| - 2
      ensures !(s[k] == 'M' && s[k + 1] == 'o' && s[k + 2] == 'n')
    {
      if k < |a| - 2 {
        assert s[k] == a[k] && s[k + 1] == a[k + 1] && s[k + 2] == a[k + 2];
      } else if k < |a| {
        assert s[k] == a[k];
      } else {
        assert s[k] == b[k - |a|] && s[k + 1] == b[k + 1 - |a|] && s[k + 2] == b[k + 2 - |a|];
      }
    }
  }

  /** A string in which no "Mon" occurs does not contain "Monster". */
  lemma NoMonster(s: string)
    requires NoMon(s)
    ensures !Contains(s, "Monster")
  {
    forall i: nat | i <= |s|
      ensures !MatchesAt(s, "Monster", i)
    {
      if i + 7 <= |s| {
        assert !(s[i] == 'M' && s[i + 1] == 'o' && s[i + 2] == 'n');
        assert "Monster"[0] == 'M' && "Monster"[1] == 'o' && "Monster"[2] == 'n';
        assert !(s[i + 0] == "Monster"[0] && s[i + 1] == "Monster"[1] && s[i + 2] == "Monster"[2]);
      }
    }
  }

  // ---------------------------------------------------------------------
  // GetRelicType

  // The mod and metadata names below are the source's literals written as
  // concatenations of short chunks, so that the prover can index them
  // chunk by chunk when it shows which substrings a name contains.
  const Prefix: string := "Expedition" + "Relic" + "Modifier"

  /** The seventeen mod names with an exact arm, in the order of the switch. */
  const ExpeditionLogbookQuantityChest: string := Prefix + "Expedition" + "Logbook" + "Quantity" + "Chest"
  const ExpeditionLogbookQuantityMonster: string := Prefix + "Expedition" + "Logbook" + "Quantity" + "Monster"
  const SirensScarabElite: string := Prefix + "Sirens" + "Scarab" + "Elite"
  const SirensScarabChest: string := Prefix + "Sirens" + "Scarab" + "Chest"
  const ExpeditionFracturedItemsElite: string := Prefix + "Expedition" + "Fractured" + "Items" + "Elite"
  const ExpeditionFracturedItemsChest: string := Prefix + "Expedition" + "Fractured" + "Items" + "Chest"
  const PackSize: string := Prefix + "Pack" + "Size"
  const ElitesDuplicated: string := Prefix + "Elites" + "Duplicated"
  const ExpeditionCurrencyQuantityChest: string := Prefix + "Expedition" + "Currency" + "Quantity" + "Chest"
  const ExpeditionCurrencyQuantityMonster: string := Prefix + "Expedition" + "Currency" + "Quantity" + "Monster"
  const ExpeditionVendorCurrency: string := Prefix + "Expedition" + "Vendor" + "Currency"
  const ItemQuantityChest: string := Prefix + "Item" + "Quantity" + "Chest"
  const ItemQuantityMonster: string := Prefix + "Item" + "Quantity" + "Monster"
  const ExpeditionBasicCurrencyChest: string := Prefix + "Expedition" + "Basic" + "Currency" + "Chest"
  const ExpeditionBasicCurrencyElite: string := Prefix + "Expedition" + "Basic" + "Currency" + "Elite"
  const StackedDeckChest: string := Prefix + "Stacked" + "Deck" + "Chest"
  const StackedDeckElite: string := Prefix + "Stacked" + "Deck" + "Elite"

  const ExactNames: seq<string> := [
    ExpeditionLogbookQuantityChest, ExpeditionLogbookQuantityMonster, SirensScarabElite, SirensScarabChest,
    ExpeditionFracturedItemsElite, ExpeditionFracturedItemsChest, PackSize, ElitesDuplicated,
    ExpeditionCurrencyQuantityChest, ExpeditionCurrencyQuantityMonster, ExpeditionVendorCurrency,
    ItemQuantityChest, ItemQuantityMonster, ExpeditionBasicCurrencyChest, ExpeditionBasicCurrencyElite,
    StackedDeckChest, StackedDeckElite
  ]

  /**
   * `GetRelicType`: the exact arms in order, then a name containing
   * "Monster", then one containing "Chest"; `None` stands for `null`.
   */
  function GetRelicType(mod: string): Option<RelicKind> {
    if mod == ExpeditionLogbookQuantityChest then Some(LogbookChestRelic)
    else if mod == ExpeditionLogbookQuantityMonster then Some(LogbookMonsterRelic)
    else if mod == SirensScarabElite then Some(OtherGoodMonsterRelic)
    else if mod == SirensScarabChest then Some(OtherGoodChestRelic)
    else if mod == ExpeditionFracturedItemsElite then Some(FracturedMonsterRelic)
    else if mod == ExpeditionFracturedItemsChest then Some(FracturedChestRelic)
    else if mod == PackSize then Some(PackSizeMonsterRelic)
    else if mod == ElitesDuplicated then Some(DoubledMonstersRelic)
    else if mod == ExpeditionCurrencyQuantityChest then Some(IncreasedChestArtifactsRelic)
    else if mod == ExpeditionCurrencyQuantityMonster then Some(IncreasedMonsterArtifactsRelic)
    else if mod == ExpeditionVendorCurrency then Some(OtherGoodChestRelic)
    else if mod == ItemQuantityChest then Some(IncreasedChestLootRelic)
    else if mod == ItemQuantityMonster then Some(IncreasedMonsterLootRelic)
    else if mod == ExpeditionBasicCurrencyChest then Some(OtherGoodChestRelic)
    else if mod == ExpeditionBasicCurrencyElite then Some(OtherGoodMonsterRelic)
    else if mod == StackedDeckChest then Some(OtherGoodChestRelic)
    else if mod == StackedDeckElite then Some(OtherGoodMonsterRelic)
    else if Contains(mod, "Monster") then Some(OtherMonsterRelic)
    else if Contains(mod, "Chest") then Some(OtherChestRelic)
    else None
  }

  /** Contains is reflexive. */
  lemma ContainsSelf(s: string)
    ensures Contains(s, s)
  {
    assert MatchesAt(s, s, 0);
  }

  /** Each exact arm yields its own relic type, whatever else the name contains. */
  lemma ExactArms()
    ensures GetRelicType(ExpeditionLogbookQuantityChest) == Some(LogbookChestRelic)
    ensures GetRelicType(ExpeditionLogbookQuantityMonster) == Some(LogbookMonsterRelic)
    ensures GetRelicType(SirensScarabElite) == Some(OtherGoodMonsterRelic)
    ensures GetRelicType(SirensScarabChest) == Some(OtherGoodChestRelic)
    ensures GetRelicType(ExpeditionFracturedItemsElite) == Some(FracturedMonsterRelic)
    ensures GetRelicType(ExpeditionFracturedItemsChest) == Some(FracturedChestRelic)
    ensures GetRelicType(PackSize) == Some(PackSizeMonsterRelic)
    ensures GetRelicType(ElitesDuplicated) == Some(DoubledMonstersRelic)
    ensures GetRelicType(ExpeditionCurrencyQuantityChest) == Some(IncreasedChestArtifactsRelic)
    ensures GetRelicType(ExpeditionCurrencyQuantityMonster) == Some(IncreasedMonsterArtifactsRelic)
    ensures GetRelicType(ExpeditionVendorCurrency) == Some(OtherGoodChestRelic)
    ensures GetRelicType(ItemQuantityChest) == Some(IncreasedChestLootRelic)
    ensures GetRelicType(ItemQuantityMonster) == Some(IncreasedMonsterLootRelic)
    ensures GetRelicType(ExpeditionBasicCurrencyChest) == Some(OtherGoodChestRelic)
    ensures GetRelicType(ExpeditionBasicCurrencyElite) == Some(OtherGoodMonsterRelic)
    ensures GetRelicType(StackedDeckChest) == Some(OtherGoodChestRelic)
    ensures GetRelicType(StackedDeckElite) == Some(OtherGoodMonsterRelic)
  {
    // Names of equal length, told apart by one character.
    assert SirensScarabChest[35] != SirensScarabElite[35];
    assert ExpeditionFracturedItemsChest[47] != ExpeditionFracturedItemsElite[47];
    assert ItemQuantityChest[23] != SirensScarabElite[23];
    assert ItemQuantityChest[23] != SirensScarabChest[23];
    assert ExpeditionBasicCurrencyElite[46] != ExpeditionBasicCurrencyChest[46];
    assert StackedDeckChest[23] != ElitesDuplicated[23];
    assert StackedDeckElite[23] != ElitesDuplicated[23];
    assert StackedDeckElite[34] != StackedDeckChest[34];
  }

  /**
   * An exact arm comes before the "Monster" fallback: the logbook monster
   * mod contains "Monster" and is still a `LogbookMonsterRelic`.
   */
  lemma ExactArmBeforeFallback()
    ensures Contains(ExpeditionLogbookQuantityMonster, "Monster")
    ensures GetRelicType(ExpeditionLogbookQuantityMonster) == Some(LogbookMonsterRelic)
  {
    ContainsMiddle(Prefix + "Expedition" + "Logbook" + "Quantity", "Monster", "");
    assert Prefix + "Expedition" + "Logbook" + "Quantity" + "Monster" + "" == ExpeditionLogbookQuantityMonster;
  }

  /**
   * Past the exact arms, a name containing "Monster" is an
   * `OtherMonsterRelic` even if it also contains "Chest"; one containing
   * only "Chest" is an `OtherChestRelic`; any other name is unclassified.
   */
  lemma Fallbacks(mod: string)
    requires mod !in ExactNames
    ensures Contains(mod, "Monster") ==> GetRelicType(mod) == Some(OtherMonsterRelic)
    ensures !Contains(mod, "Monster") && Contains(mod, "Chest") ==> GetRelicType(mod) == Some(OtherChestRelic)
    ensures !Contains(mod, "Monster") && !Contains(mod, "Chest") ==> GetRelicType(mod) == None
  {
  }

  /** A name is unclassified exactly when no exact arm and neither fallback applies. */
  lemma UnclassifiedIff(mod: string)
    ensures GetRelicType(mod) == None
            <==> mod !in ExactNames && !Contains(mod, "Monster") && !Contains(mod, "Chest")
  {
    if mod in ExactNames {
      ListedIsClassified(mod);
    }
  }

  /** A listed name is classified by its exact arm, whatever the fallbacks would say. */
  lemma ListedIsClassified(mod: string)
    requires mod in ExactNames
    ensures GetRelicType(mod).Some?
  {
    var i :| 0 <= i < |ExactNames| && ExactNames[i] == mod;
  }

  /** Four different mod names all yield `OtherGoodChestRelic`. */
  lemma SharedRelicType()
    ensures SirensScarabChest != ExpeditionVendorCurrency && SirensScarabChest != ExpeditionBasicCurrencyChest
    ensures SirensScarabChest != StackedDeckChest && ExpeditionVendorCurrency != ExpeditionBasicCurrencyChest
    ensures ExpeditionVendorCurrency != StackedDeckChest && ExpeditionBasicCurrencyChest != StackedDeckChest
    ensures GetRelicType(SirensScarabChest) == Some(OtherGoodChestRelic)
    ensures GetRelicType(ExpeditionVendorCurrency) == Some(OtherGoodChestRelic)
    ensures GetRelicType(ExpeditionBasicCurrencyChest) == Some(OtherGoodChestRelic)
    ensures GetRelicType(StackedDeckChest) == Some(OtherGoodChestRelic)
  {
    ExactArms();
  }

  const FactionChest1: string := ExpeditionVendorCurrency + "Faction" + "Chest1"
  const FactionElite1: string := ExpeditionVendorCurrency + "Faction" + "Elite1"

  lemma FactionChest1HasNoMonster()
    ensures !Contains(FactionChest1, "Monster")
  {
    var s := "Expedition";
    var chunks := ["Relic", "Modifier", "Expedition", "Vendor", "Currency", "Faction", "Chest1"];
    NoMonAppend(s, chunks[0]);
    s := s + chunks[0];
    NoMonAppend(s, chunks[1]);
    s := s + chunks[1];
    NoMonAppend(s, chunks[2]);
    s := s + chunks[2];
    NoMonAppend(s, chunks[3]);
    s := s + chunks[3];
    NoMonAppend(s, chunks[4]);
    s := s + chunks[4];
    NoMonAppend(s, chunks[5]);
    s := s + chunks[5];
    NoMonAppend(s, chunks[6]);
    s := s + chunks[6];
    assert s == FactionChest1;
    NoMonster(FactionChest1);
  }

  /**
   * Exact arms compare whole names: a longer name that starts with the
   * vendor-currency mod falls through to the "Chest" fallback.
   */
  lemma LongerNameFallsThrough()
    ensures GetRelicType(FactionChest1) == Some(OtherChestRelic)
  {
    FactionChest1HasNoMonster();
    ContainsMiddle(ExpeditionVendorCurrency + "Faction", "Chest", "1");
    assert ExpeditionVendorCurrency + "Faction" + "Chest" + "1" == FactionChest1;
  }

  /** `FactionElite1` has no 'h' and no 's'. */
  lemma FactionElite1Lacks()
    ensures Lacks(FactionElite1, 'h') && Lacks(FactionElite1, 's')
  {
    var s := "Expedition";
    var chunks := ["Relic", "Modifier", "Expedition", "Vendor", "Currency", "Faction", "Elite1"];
    forall n | 0 <= n < |chunks|
      ensures Lacks(chunks[n], 'h') && Lacks(chunks[n], 's')
    {
    }
    LacksAppend(s, chunks[0], 'h');
    LacksAppend(s, chunks[0], 's');
    s := s + chunks[0];
    LacksAppend(s, chunks[1], 'h');
    LacksAppend(s, chunks[1], 's');
    s := s + chunks[1];
    LacksAppend(s, chunks[2], 'h');
    LacksAppend(s, chunks[2], 's');
    s := s + chunks[2];
    LacksAppend(s, chunks[3], 'h');
    LacksAppend(s, chunks[3], 's');
    s := s + chunks[3];
    LacksAppend(s, chunks[4], 'h');
    LacksAppend(s, chunks[4], 's');
    s := s + chunks[4];
    LacksAppend(s, chunks[5], 'h');
    LacksAppend(s, chunks[5], 's');
    s := s + chunks[5];
    LacksAppend(s, chunks[6], 'h');
    LacksAppend(s, chunks[6], 's');
    s := s + chunks[6];
    assert s == FactionElite1;
  }

  /** A longer vendor-currency name with neither "Monster" nor "Chest" is unclassified. */
  lemma LongerNameUnclassified()
    ensures GetRelicType(FactionElite1) == None
  {
    FactionElite1Lacks();
    MissingChar(FactionElite1, "Chest", 1);
    MissingChar(FactionElite1, "Monster", 3);
  }

  // ---------------------------------------------------------------------
  // Marker tables

  /** `IconPickerIndex`, with the chest entries the chest table uses. */
  datatype IconPickerIndex =
    | Legion | Uniques | Essences | VaalGems | Logbooks | Jewellery | Enchants | Scarabs | Breach | Influenced
    | Maps | Fractured | Harbinger | MonsterMods | Artifacts | Rerolls | Quantity | Currency | StackedDecks
    | RunicMonsterDuplication
    | BlightChest | FragmentChest | LeagueChest | JewelleryChest | WeaponChest | CurrencyChest
    | HeistChest | BreachChest | RitualChest | MetamorphChest | MapsChest | GemsChest
    | FossilsChest | DivinationCardsChest | EssenceChest | ArmourChest | LegionChest | DeliriumChest
    | UniquesChest | OtherChests

  /** `ExpeditionMarkerIconDescription`: the picker and the metadata substrings. */
  datatype IconDescription = IconDescription(picker: IconPickerIndex, substrings: seq<string>)

  /** `icon.BaseEntityMetadataSubstrings.Any(name.Contains)`. */
  predicate Matches(e: IconDescription, name: string) {
    exists j | 0 <= j < |e.substrings| :: Contains(name, e.substrings[j])
  }

  /** `table.FirstOrDefault(icon => Matches(icon, name))`. */
  function FirstMatch(table: seq<IconDescription>, name: string): Option<IconDescription> {
    if table == [] then None
    else if Matches(table[0], name) then Some(table[0])
    else FirstMatch(table[1..], name)
  }

  /** `table.Where(icon => Matches(icon, name))`, in table order. */
  function AllMatches(table: seq<IconDescription>, name: string): (r: seq<IconDescription>)
    ensures |r| <= |table|
  {
    if table == [] then []
    else (if Matches(table[0], name) then [table[0]] else []) + AllMatches(table[1..], name)
  }

  /**
   * First-match lookup finds nothing exactly when no entry matches, and
   * otherwise the entry at some index `i` that matches while no entry
   * before `i` does.
   */
  lemma {:induction false} FirstMatchSpec(table: seq<IconDescription>, name: string)
    ensures FirstMatch(table, name).None? <==> forall i | 0 <= i < |table| :: !Matches(table[i], name)
    ensures FirstMatch(table, name).Some? ==>
              exists i | 0 <= i < |table| ::
                table[i] == FirstMatch(table, name).value && Matches(table[i], name)
                && forall j | 0 <= j < i :: !Matches(table[j], name)
  {
    if table != [] && !Matches(table[0], name) {
      var rest := table[1..];
      FirstMatchSpec(rest, name);
      if FirstMatch(rest, name).Some? {
        var i :| 0 <= i < |rest| && rest[i] == FirstMatch(rest, name).value && Matches(rest[i], name)
                 && forall j | 0 <= j < i :: !Matches(rest[j], name);
        assert table[i + 1] == rest[i];
        forall j | 0 <= j < i + 1
          ensures !Matches(table[j], name)
        {
          if j > 0 {
            assert table[j] == rest[j - 1];
          }
        }
      } else {
        forall i | 0 <= i < |table|
          ensures !Matches(table[i], name)
        {
          if i > 0 {
            assert table[i] == rest[i - 1];
          }
        }
      }
    }
  }

  /** All-match lookup keeps exactly the matching entries. */
  lemma {:induction false} AllMatchesSpec(table: seq<IconDescription>, name: string)
    ensures forall e :: e in AllMatches(table, name) <==> e in table && Matches(e, name)
  {
    if table != [] {
      AllMatchesSpec(table[1..], name);
      assert table == [table[0]] + table[1..];
    }
  }

  /** The first match is the head of all matches. */
  lemma {:induction false} FirstMatchIsFirstOfAll(table: seq<IconDescription>, name: string)
    ensures FirstMatch(table, name) == if AllMatches(table, name) == [] then None else Some(AllMatches(table, name)[0])
  {
    if table != [] && !Matches(table[0], name) {
      FirstMatchIsFirstOfAll(table[1..], name);
    }
  }

  /** The entries of `ExpeditionRelicIcons`, one per relic icon picker. */
  const LegionIcon: IconDescription := IconDescription(Legion, [Prefix + "Legion" + "Splinters" + "Elite", Prefix + "Eternal" + "Empire" + "Legion" + "Elite", Prefix + "Legion" + "Splinters" + "Chest", Prefix + "Eternal" + "Empire" + "Legion" + "Chest"])
  const UniquesIcon: IconDescription := IconDescription(Uniques, [Prefix + "Expedition" + "Unique" + "Elite", Prefix + "Lost" + "Men" + "Unique" + "Elite", Prefix + "Expedition" + "Unique" + "Chest", Prefix + "Lost" + "Men" + "Unique" + "Chest"])
  const EssencesIcon: IconDescription := IconDescription(Essences, [Prefix + "Essences" + "Elite", Prefix + "Lost" + "Men" + "Essence" + "Elite", Prefix + "Lost" + "Men" + "Essence" + "Chest", Prefix + "Essences" + "Chest"])
  const VaalGemsIcon: IconDescription := IconDescription(VaalGems, [Prefix + "Vaal" + "Gems" + "Elite", Prefix + "Expedition" + "Gems" + "Elite", Prefix + "Vaal" + "Gems" + "Chest", Prefix + "Expedition" + "Gems" + "Chest"])
  const LogbooksIcon: IconDescription := IconDescription(Logbooks, [ExpeditionLogbookQuantityChest, ExpeditionLogbookQuantityMonster])
  const JewelleryIcon: IconDescription := IconDescription(Jewellery, [Prefix + "Expedition" + "Rare" + "Trinket" + "Elite", Prefix + "Expedition" + "Rare" + "Trinket" + "Chest"])
  const EnchantsIcon: IconDescription := IconDescription(Enchants, [Prefix + "Eternal" + "Empire" + "Enchant" + "Elite", Prefix + "Eternal" + "Empire" + "Enchant" + "Chest"])
  const ScarabsIcon: IconDescription := IconDescription(Scarabs, [SirensScarabElite, SirensScarabChest])
  const BreachIcon: IconDescription := IconDescription(Breach, [Prefix + "Breach" + "Splinters" + "Elite", Prefix + "Sirens" + "Breach" + "Elite", Prefix + "Breach" + "Splinters" + "Chest", Prefix + "Sirens" + "Breach" + "Chest"])
  const InfluencedIcon: IconDescription := IconDescription(Influenced, [Prefix + "Expedition" + "Influenced" + "Items" + "Elite", Prefix + "Expedition" + "Influenced" + "Items" + "Chest"])
  const MapsIcon: IconDescription := IconDescription(Maps, [Prefix + "Expedition" + "Maps" + "Elite", Prefix + "Expedition" + "Maps" + "Chest"])
  const FracturedIcon: IconDescription := IconDescription(Fractured, [ExpeditionFracturedItemsElite, ExpeditionFracturedItemsChest])
  const HarbingerIcon: IconDescription := IconDescription(Harbinger, [Prefix + "Harbinger" + "Currency" + "Elite", Prefix + "Harbinger" + "Currency" + "Chest"])
  const MonsterModsIcon: IconDescription := IconDescription(MonsterMods, [PackSize, Prefix + "Rare" + "Monster" + "Chance"])
  const RunicMonsterDuplicationIcon: IconDescription := IconDescription(RunicMonsterDuplication, [ElitesDuplicated])
  const ArtifactsIcon: IconDescription := IconDescription(Artifacts, [ExpeditionCurrencyQuantityChest, ExpeditionCurrencyQuantityMonster])
  const RerollsIcon: IconDescription := IconDescription(Rerolls, [ExpeditionVendorCurrency])
  const QuantityIcon: IconDescription := IconDescription(Quantity, [ItemQuantityChest, ItemQuantityMonster])
  const CurrencyIcon: IconDescription := IconDescription(Currency, [ExpeditionBasicCurrencyChest, ExpeditionBasicCurrencyElite])
  const StackedDecksIcon: IconDescription := IconDescription(StackedDecks, [StackedDeckChest, StackedDeckElite])

  /** `ExpeditionRelicIcons`. */
  const ExpeditionRelicIcons: seq<IconDescription> := [
    LegionIcon, UniquesIcon, EssencesIcon, VaalGemsIcon,
    LogbooksIcon, JewelleryIcon, EnchantsIcon, ScarabsIcon,
    BreachIcon, InfluencedIcon, MapsIcon, FracturedIcon,
    HarbingerIcon, MonsterModsIcon, RunicMonsterDuplicationIcon, ArtifactsIcon,
    RerollsIcon, QuantityIcon, CurrencyIcon, StackedDecksIcon
  ]

  /** Every mod name with an exact arm in `GetRelicType` also has a relic icon. */
  lemma ExactNamesHaveIcons()
    ensures forall i | 0 <= i < |ExactNames| :: AllMatches(ExpeditionRelicIcons, ExactNames[i]) != []
  {
    forall i | 0 <= i < |ExactNames|
      ensures AllMatches(ExpeditionRelicIcons, ExactNames[i]) != []
    {
      var e, j := ListingEntry(i);
      ContainsSelf(ExactNames[i]);
      assert Matches(e, ExactNames[i]);
      AllMatchesSpec(ExpeditionRelicIcons, ExactNames[i]);
      assert e in AllMatches(ExpeditionRelicIcons, ExactNames[i]);
    }
  }

  /** The entry of `ExpeditionRelicIcons` that lists exact name `i` verbatim, and where. */
  lemma ListingEntry(i: nat) returns (e: IconDescription, j: nat)
    requires i < |ExactNames|
    ensures e in ExpeditionRelicIcons && j < |e.substrings| && e.substrings[j] == ExactNames[i]
  {
    if i < 8 {
      e, j := ListingEntryLow(i);
    } else {
      e, j := ListingEntryHigh(i);
    }
  }

  lemma ListingEntryLow(i: nat) returns (e: IconDescription, j: nat)
    requires i < 8
    ensures e in ExpeditionRelicIcons && j < |e.substrings| && e.substrings[j] == ExactNames[i]
  {
    if i == 0 {
      e, j := LogbooksIcon, 0;
      assert e == ExpeditionRelicIcons[4];
      assert e.substrings[j] == ExactNames[0];
    } else if i == 1 {
      e, j := LogbooksIcon, 1;
      assert e == ExpeditionRelicIcons[4];
      assert e.substrings[j] == ExactNames[1];
    } else if i == 2 {
      e, j := ScarabsIcon, 0;
      assert e == ExpeditionRelicIcons[7];
      assert e.substrings[j] == ExactNames[2];
    } else if i == 3 {
      e, j := ScarabsIcon, 1;
      assert e == ExpeditionRelicIcons[7];
      assert e.substrings[j] == ExactNames[3];
    } else if i == 4 {
      e, j := FracturedIcon, 0;
      assert e == ExpeditionRelicIcons[11];
      assert e.substrings[j] == ExactNames[4];
    } else if i == 5 {
      e, j := FracturedIcon, 1;
      assert e == ExpeditionRelicIcons[11];
      assert e.substrings[j] == ExactNames[5];
    } else if i == 6 {
      e, j := MonsterModsIcon, 0;
      assert e == ExpeditionRelicIcons[13];
      assert e.substrings[j] == ExactNames[6];
    } else {
      e, j := RunicMonsterDuplicationIcon, 0;
      assert e == ExpeditionRelicIcons[14];
      assert e.substrings[j] == ExactNames[7];
    }
  }

  lemma ListingEntryHigh(i: nat) returns (e: IconDescription, j: nat)
    requires 8 <= i < |ExactNames|
    ensures e in ExpeditionRelicIcons && j < |e.substrings| && e.substrings[j] == ExactNames[i]
  {
    if i == 8 {
      e, j := ArtifactsIcon, 0;
      assert e == ExpeditionRelicIcons[15];
      assert e.substrings[j] == ExactNames[8];
    } else if i == 9 {
      e, j := ArtifactsIcon, 1;
      assert e == ExpeditionRelicIcons[15];
      assert e.substrings[j] == ExactNames[9];
    } else if i == 10 {
      e, j := RerollsIcon, 0;
      assert e == ExpeditionRelicIcons[16];
      assert e.substrings[j] == ExactNames[10];
    } else if i == 11 {
      e, j := QuantityIcon, 0;
      assert e == ExpeditionRelicIcons[17];
      assert e.substrings[j] == ExactNames[11];
    } else if i == 12 {
      e, j := QuantityIcon, 1;
      assert e == ExpeditionRelicIcons[17];
      assert e.substrings[j] == ExactNames[12];
    } else if i == 13 {
      e, j := CurrencyIcon, 0;
      assert e == ExpeditionRelicIcons[18];
      assert e.substrings[j] == ExactNames[13];
    } else if i == 14 {
      e, j := CurrencyIcon, 1;
      assert e == ExpeditionRelicIcons[18];
      assert e.substrings[j] == ExactNames[14];
    } else if i == 15 {
      e, j := StackedDecksIcon, 0;
      assert e == ExpeditionRelicIcons[19];
      assert e.substrings[j] == ExactNames[15];
    } else {
      e, j := StackedDecksIcon, 1;
      assert e == ExpeditionRelicIcons[19];
      assert e.substrings[j] == ExactNames[16];
    }
  }

  /** The generic chest-marker path, the last substring of the catch-all entry. */
  const ChestMarkers: string := "Metadata" + "/Terrain" + "/Doodads" + "/Leagues" + "/" + "Expedition" + "/Chest" + "Markers"

  /** The marker path of one specific chest type. */
  function Marker(name: string): string {
    ChestMarkers + "/Chest" + name + ".ao"
  }

  /** The catch-all `OtherChests` entry. */
  const OtherChestsIcon: IconDescription :=
    IconDescription(OtherChests, ["chest" + "marker1", "chest" + "marker2", "chest" + "marker3",
                                  "chest" + "marker" + "_signpost", ChestMarkers])

  /** The pickers and chest names of the nineteen specific entries, in order. */
  const SpecificChests: seq<(IconPickerIndex, string)> := [
    (BlightChest, "Blight"),
    (FragmentChest, "Fragments"),
    (LeagueChest, "League"),
    (JewelleryChest, "Trinkets"),
    (WeaponChest, "Weapon"),
    (CurrencyChest, "Currency"),
    (HeistChest, "Heist"),
    (BreachChest, "Breach"),
    (RitualChest, "Ritual"),
    (MetamorphChest, "Metamorph"),
    (MapsChest, "Maps"),
    (GemsChest, "Gems"),
    (FossilsChest, "Fossils"),
    (DivinationCardsChest, "Divination" + "Cards"),
    (EssenceChest, "Essence"),
    (ArmourChest, "Armour"),
    (LegionChest, "Legion"),
    (DeliriumChest, "Delirium"),
    (UniquesChest, "Uniques")
  ]

  /** The specific entries of `LogbookChestIcons`: one marker path each. */
  function SpecificChestIcons(): (r: seq<IconDescription>)
    ensures |r| == |SpecificChests|
    ensures forall i | 0 <= i < |r| :: r[i] == IconDescription(SpecificChests[i].0, [Marker(SpecificChests[i].1)])
  {
    seq(|SpecificChests|, i requires 0 <= i < |SpecificChests| =>
      IconDescription(SpecificChests[i].0, [Marker(SpecificChests[i].1)]))
  }

  /** `LogbookChestIcons`: the specific entries, then the catch-all. */
  const LogbookChestIcons: seq<IconDescription> := SpecificChestIcons() + [OtherChestsIcon]

  /** No specific entry is the catch-all. */
  lemma SpecificEntries()
    ensures forall i | 0 <= i < |SpecificChests| :: SpecificChests[i].0 != OtherChests
  {
  }

  /** A name containing a specific marker also matches the catch-all entry. */
  lemma SpecificMarkerMatchesCatchAll(name: string, chest: string)
    requires Contains(name, Marker(chest))
    ensures Matches(OtherChestsIcon, name)
  {
    assert MatchesAt(Marker(chest), ChestMarkers, 0);
    ContainsTransitive(name, Marker(chest), ChestMarkers);
    assert OtherChestsIcon.substrings[4] == ChestMarkers;
  }

  /**
   * First-match lookup returns a specific entry, at or before entry `k`,
   * for any name that entry `k` matches; the catch-all is returned only
   * when no specific entry matches.
   */
  lemma SpecificChestWins(name: string, k: nat)
    requires k < |SpecificChestIcons()| && Matches(SpecificChestIcons()[k], name)
    ensures Matches(OtherChestsIcon, name)
    ensures FirstMatch(LogbookChestIcons, name).Some?
    ensures exists i | 0 <= i <= k :: FirstMatch(LogbookChestIcons, name) == Some(SpecificChestIcons()[i])
    ensures FirstMatch(LogbookChestIcons, name).value.picker != OtherChests
  {
    SpecificEntries();
    var chest := SpecificChests[k].1;
    assert SpecificChestIcons()[k].substrings[0] == Marker(chest);
    SpecificMarkerMatchesCatchAll(name, chest);
    FirstMatchSpec(LogbookChestIcons, name);
    assert LogbookChestIcons[k] == SpecificChestIcons()[k];
    var i :| 0 <= i < |LogbookChestIcons| && LogbookChestIcons[i] == FirstMatch(LogbookChestIcons, name).value
             && Matches(LogbookChestIcons[i], name) && forall j | 0 <= j < i :: !Matches(LogbookChestIcons[j], name);
    assert i <= k;
    assert LogbookChestIcons[i] == SpecificChestIcons()[i];
  }

  /** The catch-all is the answer exactly when it matches and no specific entry does. */
  lemma CatchAllIff(name: string)
    ensures FirstMatch(LogbookChestIcons, name) == Some(OtherChestsIcon)
            <==> Matches(OtherChestsIcon, name)
                 && forall k | 0 <= k < |SpecificChestIcons()| :: !Matches(SpecificChestIcons()[k], name)
  {
    FirstMatchSpec(LogbookChestIcons, name);
    SpecificEntries();
    if exists k | 0 <= k < |SpecificChestIcons()| :: Matches(SpecificChestIcons()[k], name) {
      var k :| 0 <= k < |SpecificChestIcons()| && Matches(SpecificChestIcons()[k], name);
      SpecificChestWins(name, k);
    } else if Matches(OtherChestsIcon, name) {
      assert forall j | 0 <= j < |SpecificChestIcons()| :: LogbookChestIcons[j] == SpecificChestIcons()[j];
      assert LogbookChestIcons[|SpecificChestIcons()|] == OtherChestsIcon;
    }
  }

  // ---------------------------------------------------------------------
  // Each marker path finds its own entry

  /** The generic chest-marker path has no '.' and no '/' past its start. */
  lemma ChestMarkersPlain()
    ensures Lacks(ChestMarkers, '.')
    ensures ChestMarkers[0] != '/'
  {
    LacksAppend("Metadata", "/Terrain", '.');
    LacksAppend("Metadata" + "/Terrain", "/Doodads", '.');
    LacksAppend("Metadata" + "/Terrain" + "/Doodads", "/Leagues", '.');
    LacksAppend("Metadata" + "/Terrain" + "/Doodads" + "/Leagues", "/", '.');
    LacksAppend("Metadata" + "/Terrain" + "/Doodads" + "/Leagues" + "/", "Expedition", '.');
    LacksAppend("Metadata" + "/Terrain" + "/Doodads" + "/Leagues" + "/" + "Expedition", "/Chest", '.');
    LacksAppend("Metadata" + "/Terrain" + "/Doodads" + "/Leagues" + "/" + "Expedition" + "/Chest", "Markers", '.');
  }

  /** Where the marker path of `c` has its last '/' and its only '.', and where `c` sits in it. */
  lemma MarkerLayout(c: string)
    requires Lacks(c, '.') && Lacks(c, '/')
    ensures |Marker(c)| == |ChestMarkers| + 9 + |c|
    ensures Marker(c)[|ChestMarkers|] == '/' && Marker(c)[|Marker(c)| - 3] == '.'
    ensures forall x | 0 <= x < |Marker(c)| - 3 :: Marker(c)[x] != '.'
    ensures forall x | |ChestMarkers| < x < |Marker(c)| :: Marker(c)[x] != '/'
    ensures forall k | 0 <= k < |c| :: Marker(c)[|ChestMarkers| + 6 + k] == c[k]
  {
    ChestMarkersPlain();
    var m := Marker(c);
    var l := |ChestMarkers|;
    forall x | 0 <= x < |m|
      ensures x < l ==> m[x] == ChestMarkers[x]
      ensures l <= x < l + 6 ==> m[x] == "/Chest"[x - l]
      ensures l + 6 <= x < l + 6 + |c| ==> m[x] == c[x - l - 6]
      ensures l + 6 + |c| <= x ==> m[x] == ".ao"[x - l - 6 - |c|]
    {
    }
  }

  /** One chest's marker path occurs in another's only when the two chest names are equal. */
  lemma MarkerInMarker(a: string, b: string)
    requires Lacks(a, '.') && Lacks(a, '/') && Lacks(b, '.') && Lacks(b, '/')
    requires Contains(Marker(b), Marker(a))
    ensures a == b
  {
    MarkerLayout(a);
    MarkerLayout(b);
    var s, sub := Marker(b), Marker(a);
    var l := |ChestMarkers|;
    var i: nat :| i <= |s| && MatchesAt(s, sub, i);
    assert s[i + (|sub| - 3)] == sub[|sub| - 3] == '.';
    assert i + |sub| == |s|;
    assert s[i + l] == sub[l] == '/';
    assert i == 0;
    forall k | 0 <= k < |a|
      ensures a[k] == b[k]
    {
      assert s[l + 6 + k] == sub[l + 6 + k];
    }
  }

  /** The chest names of the specific entries are plain words. */
  lemma SpecificNamesPlain(k: nat)
    requires k < |SpecificChests|
    ensures Lacks(SpecificChests[k].1, '.') && Lacks(SpecificChests[k].1, '/')
  {
    if k < 10 {
      SpecificNamesPlainLow(k);
    } else {
      SpecificNamesPlainHigh(k);
    }
  }

  lemma SpecificNamesPlainLow(k: nat)
    requires k < 10
    ensures Lacks(SpecificChests[k].1, '.') && Lacks(SpecificChests[k].1, '/')
  {
  }

  lemma SpecificNamesPlainHigh(k: nat)
    requires 10 <= k < |SpecificChests|
    ensures Lacks(SpecificChests[k].1, '.') && Lacks(SpecificChests[k].1, '/')
  {
  }

  /** No two specific entries share a chest name. */
  lemma SpecificNamesDistinct(j: nat, k: nat)
    requires j < k < |SpecificChests|
    ensures SpecificChests[j].1 != SpecificChests[k].1
  {
  }

  /**
   * The marker path of each specific chest resolves, by first-match
   * lookup, to that chest's own entry: no earlier entry's marker path
   * occurs in it.
   */
  lemma SpecificMarkersFindOwnEntries()
    ensures forall k | 0 <= k < |SpecificChests| ::
              FirstMatch(LogbookChestIcons, Marker(SpecificChests[k].1)) == Some(SpecificChestIcons()[k])
  {
    forall k | 0 <= k < |SpecificChests|
      ensures FirstMatch(LogbookChestIcons, Marker(SpecificChests[k].1)) == Some(SpecificChestIcons()[k])
    {
      MarkerFindsOwnEntry(k);
    }
  }

  lemma MarkerFindsOwnEntry(k: nat)
    requires k < |SpecificChests|
    ensures FirstMatch(LogbookChestIcons, Marker(SpecificChests[k].1)) == Some(SpecificChestIcons()[k])
  {
    var name := Marker(SpecificChests[k].1);
    SpecificNamesPlain(k);
    ContainsSelf(name);
    assert LogbookChestIcons[k] == SpecificChestIcons()[k];
    assert Matches(LogbookChestIcons[k], name) by {
      assert SpecificChestIcons()[k].substrings[0] == name;
    }
    forall j | 0 <= j < k
      ensures !Matches(LogbookChestIcons[j], name)
    {
      assert LogbookChestIcons[j] == SpecificChestIcons()[j];
      if Matches(LogbookChestIcons[j], name) {
        assert Contains(name, Marker(SpecificChests[j].1));
        SpecificNamesPlain(j);
        SpecificNamesDistinct(j, k);
        MarkerInMarker(SpecificChests[j].1, SpecificChests[k].1);
        assert false;
      }
    }
    FirstMatchSpec(LogbookChestIcons, name);
    var i :| 0 <= i < |LogbookChestIcons| && LogbookChestIcons[i] == FirstMatch(LogbookChestIcons, name).value
             && Matches(LogbookChestIcons[i], name) && forall j | 0 <= j < i :: !Matches(LogbookChestIcons[j], name);
    assert i == k;
  }
}
