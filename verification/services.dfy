/** The integer tables of the game and reward services: which abilities a
    level unlocks, the integer parts of a character built from a user, the
    achievement reward tiers and the long-session achievement. */
module Services {
  import opened Text

  /** The six abilities, in unlocking order; ability `i` unlocks at level
      `5 * (i + 1)`. */
  const ABILITIES: seq<string> := ["Power Strike", "Sprint Boost", "Flexibility Enhancement",
                                   "Meditation Focus", "Balance Master", "Core Strength"]

  function AbilityThreshold(i: nat): int
  {
    5 * (i + 1)
  }

  /** How many abilities a level has unlocked. */
  function UnlockedCount(level: int): (n: nat)
    ensures n <= |ABILITIES|
    ensures forall i :: 0 <= i < |ABILITIES| ==> (i < n <==> AbilityThreshold(i) <= level)
  {
    if level < 5 then 0 else if level >= 30 then 6 else level / 5
  }

  /** `getAbilitiesForLevel`: six independent threshold tests, in order,
      which together yield the unlocked prefix of the ability list. */
  function GetAbilitiesForLevel(level: int): (r: seq<string>)
    ensures r == ABILITIES[..UnlockedCount(level)]
  {
    (if level >= 5 then ["Power Strike"] else [])
    + (if level >= 10 then ["Sprint Boost"] else [])
    + (if level >= 15 then ["Flexibility Enhancement"] else [])
    + (if level >= 20 then ["Meditation Focus"] else [])
    + (if level >= 25 then ["Balance Master"] else [])
    + (if level >= 30 then ["Core Strength"] else [])
  }

  /** A higher level keeps every ability of a lower one, in the same order. */
  lemma AbilitiesGrow(low: int, high: int)
    requires low <= high
    ensures GetAbilitiesForLevel(low) <= GetAbilitiesForLevel(high)
  {
    assert UnlockedCount(low) <= UnlockedCount(high);
  }

  /** What `buildCharacterFromUser` derives by integer arithmetic. */
  datatype Character = Character(level: int, experience: int, gold: int, unlockedAbilities: seq<string>)

  /** The loop `for i in 1..level`: each level's abilities appended in turn,
      repeats included. */
  function AbilitiesThrough(level: int): seq<string>
    decreases level
  {
    if level < 1 then [] else AbilitiesThrough(level - 1) + GetAbilitiesForLevel(level)
  }

  /** `buildCharacterFromUser`: level and experience from the user, 50 gold
      per level, and every level's abilities up to the user's level, so that
      ability `k` is held once for each level from its threshold on. */
  function BuildCharacter(fitnessLevel: int, experiencePoints: int): (c: Character)
    ensures c.level == fitnessLevel && c.experience == experiencePoints
    ensures c.gold == 50 * fitnessLevel
    ensures forall k :: 0 <= k < |ABILITIES| ==>
      multiset(c.unlockedAbilities)[ABILITIES[k]] ==
        if fitnessLevel >= AbilityThreshold(k) then fitnessLevel - AbilityThreshold(k) + 1 else 0
  {
    forall k | 0 <= k < |ABILITIES|
      ensures multiset(AbilitiesThrough(fitnessLevel))[ABILITIES[k]] ==
        if fitnessLevel >= AbilityThreshold(k) then fitnessLevel - AbilityThreshold(k) + 1 else 0
    {
      AbilityCopies(fitnessLevel, k);
    }
    Character(fitnessLevel, experiencePoints, 50 * fitnessLevel, AbilitiesThrough(fitnessLevel))
  }

  /** An ability appears once per level from its threshold on: ability `k`
      occurs `level - 5 * (k + 1) + 1` times when that is positive. */
  lemma {:induction false} AbilityCopies(level: int, k: nat)
    requires k < |ABILITIES|
    ensures multiset(AbilitiesThrough(level))[ABILITIES[k]] ==
      if level >= AbilityThreshold(k) then level - AbilityThreshold(k) + 1 else 0
    decreases level
  {
    if level >= 1 {
      AbilityCopies(level - 1, k);
      PrefixCount(UnlockedCount(level), k);
    }
  }

  /** The ability names are distinct, so a prefix holds ability `k` once if
      it reaches it and not at all otherwise. */
  lemma PrefixCount(n: nat, k: nat)
    requires n <= |ABILITIES| && k < |ABILITIES|
    ensures multiset(ABILITIES[..n])[ABILITIES[k]] == if k < n then 1 else 0
  {
    assert forall i, j :: 0 <= i < j < |ABILITIES| ==> ABILITIES[i] != ABILITIES[j];
    if n > 0 {
      PrefixCount(n - 1, k);
      assert ABILITIES[..n] == ABILITIES[..n - 1] + [ABILITIES[n - 1]];
    }
  }

  // ------------------------------------------------------------ rewards

  /** The fields of `RewardBundle` the reward functions set. */
  datatype RewardBundle = RewardBundle(experience: int, gold: int, items: seq<string>,
                                       achievements: seq<string>, message: string)

  /** The reward tiers in the order they are tried: the word an id must
      contain, then the experience and gold it pays. Other ids pay 100 and 50. */
  const TIERS: seq<(string, int, int)> := [("legendary", 1000, 500), ("epic", 500, 250), ("rare", 200, 100)]

  /** `getAchievementReward`: the first tier whose word occurs in the id
      decides the experience and gold; the id itself is the one achievement
      recorded. */
  function GetAchievementReward(achievementId: string): (b: RewardBundle)
    ensures b.achievements == [achievementId] && b.items == []
    ensures b.message == "Achievement unlocked: " + achievementId
    ensures forall i :: (0 <= i < |TIERS| && Contains(achievementId, TIERS[i].0)
                         && (forall j :: 0 <= j < i ==> !Contains(achievementId, TIERS[j].0)))
                        ==> b.experience == TIERS[i].1 && b.gold == TIERS[i].2
    ensures (forall i :: 0 <= i < |TIERS| ==> !Contains(achievementId, TIERS[i].0))
      ==> b.experience == 100 && b.gold == 50
  {
    var (experience, gold) :=
      if Contains(achievementId, "legendary") then (1000, 500)
      else if Contains(achievementId, "epic") then (500, 250)
      else if Contains(achievementId, "rare") then (200, 100)
      else (100, 50);
    assert TIERS[0].0 == "legendary" && TIERS[1].0 == "epic" && TIERS[2].0 == "rare";
    RewardBundle(experience, gold, [], [achievementId], "Achievement unlocked: " + achievementId)
  }

  /** Every tier pays twice as much experience as gold, and no tier pays
      more than a legendary id. */
  lemma AchievementRewardShape(achievementId: string, legendaryId: string)
    requires Contains(legendaryId, "legendary")
    ensures var b := GetAchievementReward(achievementId);
      b.experience == 2 * b.gold && 50 <= b.gold <= GetAchievementReward(legendaryId).gold
  {
  }

  const MARATHON_MINUTES: real := 120.0

  /** `checkAchievements`: a session of two hours or more earns
      "marathon_session"; nothing else in the bundle changes. */
  function CheckAchievements(b: RewardBundle, duration: real): (r: RewardBundle)
    ensures r.(achievements := b.achievements) == b
    ensures b.achievements <= r.achievements
    ensures multiset(r.achievements)["marathon_session"] ==
      multiset(b.achievements)["marathon_session"] + (if duration >= 120.0 then 1 else 0)
    ensures |r.achievements| == |b.achievements| + (if duration >= 120.0 then 1 else 0)
  {
    if duration >= MARATHON_MINUTES then b.(achievements := b.achievements + ["marathon_session"]) else b
  }
}
