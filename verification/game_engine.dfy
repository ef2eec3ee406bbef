/** The gamification rules of the game engine: login streaks, the level-up
    loop, achievements, quests, the daily reward and the rewards for fitness
    data. A player is a value and every rule returns the updated player; the
    date ("today", as a day number) is a parameter, and the engine's quest and
    achievement tables are sequences read in their iteration order. */
module GameEngine {
  import opened Wrappers

  datatype Player = Player(
    userId: string,
    level: int,
    experience: int,
    nextLevelExp: int,
    totalSteps: int,
    totalCalories: int,
    totalWorkouts: int,
    streak: int,
    gold: int,
    gems: int,
    energy: int,
    strength: int,
    stamina: int,
    agility: int,
    intelligence: int,
    completedQuests: seq<string>,
    unlockedAchievements: seq<string>,
    inventory: seq<string>,
    lastLoginDate: Option<int>,
    lastWorkoutDate: Option<int>)

  /** A `GamePlayer` as its member initialisers leave it. */
  function NewPlayer(userId: string): (p: Player)
    ensures p.level == 1 && p.experience == 0 && p.nextLevelExp == 100
    ensures p.gold == 100 && p.energy == 100 && p.completedQuests == []
  {
    Player(userId, 1, 0, 100, 0, 0, 0, 0, 100, 0, 100, 10, 10, 10, 10, [], [], [], None, None)
  }

  /** A quest: its kind ("steps", "calories", "workouts", "streak" or
      "login"), the target, and the rewards. */
  datatype GameQuest = GameQuest(
    id: string,
    kind: string,
    targetValue: int,
    rewardExp: int,
    rewardGold: int,
    rewardGems: int,
    rewardItems: seq<string>,
    repeatable: bool)

  /** An achievement: the kind of value it watches, the threshold, the gems. */
  datatype GameAchievement = GameAchievement(id: string, condition: string, conditionValue: int, rewardGems: int)

  /** `initializeDefaultContent`. */
  const DEFAULT_QUESTS: seq<GameQuest> := [
    GameQuest("daily_steps_5000", "steps", 5000, 50, 25, 0, [], true),
    GameQuest("daily_calories_200", "calories", 200, 75, 35, 0, [], true),
    GameQuest("daily_login", "login", 1, 30, 10, 1, [], true),
    GameQuest("weekly_workouts_3", "workouts", 3, 200, 100, 5, ["energy_potion"], false),
    GameQuest("weekly_streak_5", "streak", 5, 150, 75, 3, [], false)
  ]

  const DEFAULT_ACHIEVEMENTS: seq<GameAchievement> := [
    GameAchievement("first_10k_steps", "steps", 10000, 20),
    GameAchievement("level_10", "level", 10, 50),
    GameAchievement("streak_30", "streak", 30, 100),
    GameAchievement("quest_master", "quests", 50, 200)
  ]

  /** The tables are maps keyed by id, so no id occurs twice. */
  predicate DistinctQuestIds(qs: seq<GameQuest>)
  {
    forall i, j :: 0 <= i < j < |qs| ==> qs[i].id != qs[j].id
  }

  predicate DistinctAchievementIds(achs: seq<GameAchievement>)
  {
    forall i, j :: 0 <= i < j < |achs| ==> achs[i].id != achs[j].id
  }

  /** The default tables satisfy that. */
  lemma DefaultTablesDistinct()
    ensures DistinctQuestIds(DEFAULT_QUESTS) && DistinctAchievementIds(DEFAULT_ACHIEVEMENTS)
  {
  }

  predicate NoDuplicates(s: seq<string>)
  {
    forall i, j :: 0 <= i < j < |s| ==> s[i] != s[j]
  }

  // ------------------------------------------------------------ streak

  /** `checkAndUpdateStreak` on day `today`: a first login starts a streak
      of 1, a second login the same day changes nothing, the next day extends
      the streak, a longer gap restarts it; a last login later than today
      leaves the streak as it is. The login date becomes today. */
  function CheckAndUpdateStreak(p: Player, today: int): (r: Player)
    ensures p.lastLoginDate == Some(today) ==> r == p
    ensures p.lastLoginDate != Some(today) ==>
      r == p.(streak := r.streak, lastLoginDate := Some(today))
    ensures p.lastLoginDate.None? ==> r.streak == 1
    ensures p.lastLoginDate.Some? && today - p.lastLoginDate.value == 1 ==> r.streak == p.streak + 1
    ensures p.lastLoginDate.Some? && today - p.lastLoginDate.value > 1 ==> r.streak == 1
    ensures p.lastLoginDate.Some? && today < p.lastLoginDate.value ==> r.streak == p.streak
  {
    match p.lastLoginDate
    case None => p.(streak := 1, lastLoginDate := Some(today))
    case Some(last) =>
      if last == today then p
      else
        var diffDays := today - last;
        var streak := if diffDays == 1 then p.streak + 1 else if diffDays > 1 then 1 else p.streak;
        p.(streak := streak, lastLoginDate := Some(today))
  }

  /** Logging in on each of the `n` days after the last login. */
  function LoginDaily(p: Player, n: nat): Player
    requires p.lastLoginDate.Some?
    decreases n
  {
    if n == 0 then p
    else LoginDaily(CheckAndUpdateStreak(p, p.lastLoginDate.value + 1), n - 1)
  }

  /** `n` consecutive daily logins extend the streak by `n`; a repeated
      login on the same day is a no-op. */
  lemma {:induction false} DailyLoginsExtendStreak(p: Player, n: nat)
    requires p.lastLoginDate.Some?
    ensures LoginDaily(p, n).streak == p.streak + n
    ensures LoginDaily(p, n).lastLoginDate == Some(p.lastLoginDate.value + n)
    ensures CheckAndUpdateStreak(LoginDaily(p, n), p.lastLoginDate.value + n) == LoginDaily(p, n)
    decreases n
  {
    if n > 0 {
      DailyLoginsExtendStreak(CheckAndUpdateStreak(p, p.lastLoginDate.value + 1), n - 1);
    }
  }

  // ------------------------------------------------------------ achievements

  predicate Qualifies(a: GameAchievement, kind: string, value: int)
  {
    a.condition == kind && value >= a.conditionValue
  }

  /** `checkAchievement(kind, value)`: every achievement of that kind whose
      threshold `value` reaches, and that the player does not hold yet, is
      appended once and pays its gems. Only the achievements and gems change. */
  function CheckAchievement(p: Player, achs: seq<GameAchievement>, kind: string, value: int): (r: Player)
    ensures r == p.(unlockedAchievements := r.unlockedAchievements, gems := r.gems)
    ensures p.unlockedAchievements <= r.unlockedAchievements
    ensures NoDuplicates(p.unlockedAchievements) ==> NoDuplicates(r.unlockedAchievements)
    ensures NonNegativeGems(achs) ==> r.gems >= p.gems
    decreases |achs|
  {
    if |achs| == 0 then p
    else CheckAchievement(AfterHead(p, achs[0], kind, value), achs[1..], kind, value)
  }

  predicate NonNegativeGems(achs: seq<GameAchievement>)
  {
    forall i :: 0 <= i < |achs| ==> achs[i].rewardGems >= 0
  }

  /** An id is held after the check iff it was held before or some
      qualifying achievement of the table has it. */
  lemma {:induction false} CheckAchievementUnlocks(p: Player, achs: seq<GameAchievement>, kind: string, value: int, id: string)
    ensures id in CheckAchievement(p, achs, kind, value).unlockedAchievements <==>
      id in p.unlockedAchievements || exists i :: 0 <= i < |achs| && Qualifies(achs[i], kind, value) && achs[i].id == id
    decreases |achs|
  {
    if |achs| > 0 {
      var q := AfterHead(p, achs[0], kind, value);
      var tail := achs[1..];
      CheckAchievementUnlocks(q, tail, kind, value, id);
      assert forall i :: 0 <= i < |tail| ==> tail[i] == achs[i + 1];
      if exists i :: 0 <= i < |achs| && Qualifies(achs[i], kind, value) && achs[i].id == id {
        var i :| 0 <= i < |achs| && Qualifies(achs[i], kind, value) && achs[i].id == id;
        if i > 0 {
          assert Qualifies(tail[i - 1], kind, value) && tail[i - 1].id == id;
        }
      }
    }
  }

  /** The gems the table pays for an id: those of the first entry with it. */
  function GemsOf(achs: seq<GameAchievement>, id: string): int
  {
    if |achs| == 0 then 0 else if achs[0].id == id then achs[0].rewardGems else GemsOf(achs[1..], id)
  }

  function GemsFor(achs: seq<GameAchievement>, ids: seq<string>): int
  {
    if |ids| == 0 then 0 else GemsOf(achs, ids[0]) + GemsFor(achs, ids[1..])
  }

  lemma {:induction false} GemsForSkipsHead(achs: seq<GameAchievement>, ids: seq<string>)
    requires |achs| > 0 && achs[0].id !in ids
    ensures GemsFor(achs, ids) == GemsFor(achs[1..], ids)
    decreases |ids|
  {
    if |ids| > 0 {
      GemsForSkipsHead(achs, ids[1..]);
    }
  }

  /** The ids a check appends. */
  function Added(p: Player, achs: seq<GameAchievement>, kind: string, value: int): seq<string>
  {
    CheckAchievement(p, achs, kind, value).unlockedAchievements[|p.unlockedAchievements|..]
  }

  /** One step of the check: the player after the table's first entry. */
  function AfterHead(p: Player, a: GameAchievement, kind: string, value: int): (q: Player)
    ensures p.unlockedAchievements <= q.unlockedAchievements
  {
    if Qualifies(a, kind, value) && a.id !in p.unlockedAchievements
    then p.(unlockedAchievements := p.unlockedAchievements + [a.id], gems := p.gems + a.rewardGems)
    else p
  }

  lemma AddedSplit(p: Player, achs: seq<GameAchievement>, kind: string, value: int)
    requires |achs| > 0
    ensures var q := AfterHead(p, achs[0], kind, value);
      Added(p, achs, kind, value)
        == q.unlockedAchievements[|p.unlockedAchievements|..] + Added(q, achs[1..], kind, value)
  {
    var q := AfterHead(p, achs[0], kind, value);
    assert CheckAchievement(p, achs, kind, value) == CheckAchievement(q, achs[1..], kind, value);
  }

  /** Every appended id is new to the player and belongs to a qualifying
      achievement of the table. */
  lemma {:induction false} AddedFresh(p: Player, achs: seq<GameAchievement>, kind: string, value: int)
    ensures var added := Added(p, achs, kind, value);
      forall k :: 0 <= k < |added| ==>
        added[k] !in p.unlockedAchievements
        && exists i :: 0 <= i < |achs| && Qualifies(achs[i], kind, value) && achs[i].id == added[k]
    decreases |achs|
  {
    if |achs| > 0 {
      var q := AfterHead(p, achs[0], kind, value);
      var tail := achs[1..];
      AddedFresh(q, tail, kind, value);
      AddedSplit(p, achs, kind, value);
      var later := Added(q, tail, kind, value);
      var added := Added(p, achs, kind, value);
      var head := q.unlockedAchievements[|p.unlockedAchievements|..];
      forall k | 0 <= k < |added|
        ensures added[k] !in p.unlockedAchievements
        ensures exists i :: 0 <= i < |achs| && Qualifies(achs[i], kind, value) && achs[i].id == added[k]
      {
        if k < |head| {
          assert added[k] == achs[0].id;
        } else {
          assert added[k] == later[k - |head|];
          var i :| 0 <= i < |tail| && Qualifies(tail[i], kind, value) && tail[i].id == added[k];
          assert achs[i + 1] == tail[i];
        }
      }
    }
  }

  /** With distinct ids, the first entry's id is not among those the rest
      of the table appends. */
  lemma HeadNotLater(p: Player, achs: seq<GameAchievement>, kind: string, value: int)
    requires |achs| > 0 && DistinctAchievementIds(achs)
    ensures achs[0].id !in Added(AfterHead(p, achs[0], kind, value), achs[1..], kind, value)
  {
    var q := AfterHead(p, achs[0], kind, value);
    var tail := achs[1..];
    AddedFresh(q, tail, kind, value);
    var later := Added(q, tail, kind, value);
    forall k | 0 <= k < |later|
      ensures later[k] != achs[0].id
    {
      var i :| 0 <= i < |tail| && Qualifies(tail[i], kind, value) && tail[i].id == later[k];
      assert achs[i + 1] == tail[i];
    }
  }

  /** The gems gained are exactly those of the achievements appended. */
  lemma {:induction false} CheckAchievementGems(p: Player, achs: seq<GameAchievement>, kind: string, value: int)
    requires DistinctAchievementIds(achs)
    ensures CheckAchievement(p, achs, kind, value).gems == p.gems + GemsFor(achs, Added(p, achs, kind, value))
    decreases |achs|
  {
    if |achs| > 0 {
      var a := achs[0];
      var q := AfterHead(p, a, kind, value);
      var tail := achs[1..];
      assert DistinctAchievementIds(tail) by {
        assert forall i :: 0 <= i < |tail| ==> tail[i] == achs[i + 1];
      }
      CheckAchievementGems(q, tail, kind, value);
      AddedSplit(p, achs, kind, value);
      HeadNotLater(p, achs, kind, value);
      var later := Added(q, tail, kind, value);
      GemsForSkipsHead(achs, later);
      var added := Added(p, achs, kind, value);
      if q != p {
        assert added == [a.id] + later;
        assert added[1..] == later;
      } else {
        assert added == later;
      }
    }
  }

  /** Checking the same value again changes nothing. */
  lemma {:induction false} CheckAchievementIdempotent(p: Player, achs: seq<GameAchievement>, kind: string, value: int)
    ensures var r := CheckAchievement(p, achs, kind, value);
      CheckAchievement(r, achs, kind, value) == r
  {
    var r := CheckAchievement(p, achs, kind, value);
    forall i | 0 <= i < |achs| && Qualifies(achs[i], kind, value)
      ensures achs[i].id in r.unlockedAchievements
    {
      CheckAchievementUnlocks(p, achs, kind, value, achs[i].id);
    }
    NothingNew(r, achs, kind, value);
  }

  /** A player already holding every qualifying achievement is unchanged. */
  lemma {:induction false} NothingNew(p: Player, achs: seq<GameAchievement>, kind: string, value: int)
    requires forall i :: 0 <= i < |achs| && Qualifies(achs[i], kind, value) ==> achs[i].id in p.unlockedAchievements
    ensures CheckAchievement(p, achs, kind, value) == p
    decreases |achs|
  {
    if |achs| > 0 {
      assert forall i :: 1 <= i < |achs| ==> achs[i] == achs[1..][i - 1];
      NothingNew(p, achs[1..], kind, value);
    }
  }

  // ------------------------------------------------------------ level-up

  /** `static_cast<int>(n * 1.5)`: exact in double for every `int`, then
      truncated toward zero. */
  function Grow(n: int): (m: int)
    ensures n >= 0 ==> n <= m && m == n + n / 2
    ensures n <= 0 ==> m <= n
  {
    if n >= 0 then n + n / 2 else -((-n) + (-n) / 2)
  }

  /** The loop `while (experience >= nextLevelExp)` ends: the threshold is
      positive, or the loop does not start. */
  predicate Settles(p: Player)
  {
    p.experience < p.nextLevelExp || p.nextLevelExp >= 1
  }

  /** One pass of the level-up loop. */
  function LevelUpStep(p: Player, achs: seq<GameAchievement>): Player
  {
    var q := p.(
      level := p.level + 1,
      experience := p.experience - p.nextLevelExp,
      strength := p.strength + 2,
      stamina := p.stamina + 3,
      agility := p.agility + 1,
      intelligence := p.intelligence + 1,
      nextLevelExp := Grow(p.nextLevelExp),
      gold := p.gold + (p.level + 1) * 50,
      gems := p.gems + (p.level + 1));
    CheckAchievement(q, achs, "level", q.level)
  }

  /** The threshold after `i` level-ups, and the experience they consume. */
  function Threshold(n: int, i: nat): int
    decreases i
  {
    if i == 0 then n else Threshold(Grow(n), i - 1)
  }

  function ThresholdSum(n: int, i: nat): int
    decreases i
  {
    if i == 0 then 0 else n + ThresholdSum(Grow(n), i - 1)
  }

  /** The sum of the `k` levels reached from `level`. */
  function LevelSum(level: int, k: nat): int
    decreases k
  {
    if k == 0 then 0 else (level + 1) + LevelSum(level + 1, k - 1)
  }

  /** `checkLevelUp`: while the experience reaches the threshold, gain a
      level, pay the threshold, grow it by half, add 2/3/1/1 to the four
      stats, 50 gold and 1 gem per new level, and check the level
      achievements. Ends with the experience below the threshold. */
  function LevelUp(p: Player, achs: seq<GameAchievement>): (r: Player)
    requires Settles(p)
    ensures r.level >= p.level
    ensures r.experience < r.nextLevelExp
    ensures p.nextLevelExp >= 1 ==> r.nextLevelExp >= p.nextLevelExp
    ensures var k := r.level - p.level;
      && r.strength == p.strength + 2 * k && r.stamina == p.stamina + 3 * k
      && r.agility == p.agility + k && r.intelligence == p.intelligence + k
      && r.gold == p.gold + 50 * LevelSum(p.level, k)
      && (NonNegativeGems(achs) ==> r.gems >= p.gems + LevelSum(p.level, k))
      && r.nextLevelExp == Threshold(p.nextLevelExp, k)
      && r.experience == p.experience - ThresholdSum(p.nextLevelExp, k)
    ensures r == p.(level := r.level, experience := r.experience, nextLevelExp := r.nextLevelExp,
                    strength := r.strength, stamina := r.stamina, agility := r.agility,
                    intelligence := r.intelligence, gold := r.gold, gems := r.gems,
                    unlockedAchievements := r.unlockedAchievements)
    ensures p.unlockedAchievements <= r.unlockedAchievements
    decreases p.experience
  {
    if p.experience < p.nextLevelExp then p
    else LevelUp(LevelUpStep(p, achs), achs)
  }

  /** Each pass ran because its guard held: before pass `i` the remaining
      experience reached the threshold of that pass. */
  lemma {:induction false} LevelUpGuards(p: Player, achs: seq<GameAchievement>)
    requires Settles(p)
    ensures var k := LevelUp(p, achs).level - p.level;
      forall i :: 0 <= i < k ==> p.experience - ThresholdSum(p.nextLevelExp, i) >= Threshold(p.nextLevelExp, i)
    decreases p.experience
  {
    if p.experience >= p.nextLevelExp {
      var q := LevelUpStep(p, achs);
      LevelUpGuards(q, achs);
      var k := LevelUp(p, achs).level - p.level;
      forall i | 0 <= i < k
        ensures p.experience - ThresholdSum(p.nextLevelExp, i) >= Threshold(p.nextLevelExp, i)
      {
        if i > 0 {
          assert q.experience - ThresholdSum(q.nextLevelExp, i - 1) >= Threshold(q.nextLevelExp, i - 1);
        }
      }
    }
  }

  /** With a threshold of zero or less the loop never ends: every pass
      leaves the guard true. This is the case of a player built from a user
      at level 0, whose threshold is `100 * 0 * 0`. */
  lemma {:induction false} LevelUpDivergesWithoutThreshold(p: Player, achs: seq<GameAchievement>, n: nat)
    requires p.nextLevelExp <= 0 && p.experience >= p.nextLevelExp
    ensures var q := StepN(p, achs, n); q.nextLevelExp <= 0 && q.experience >= q.nextLevelExp
    decreases n
  {
    if n > 0 {
      LevelUpDivergesWithoutThreshold(p, achs, n - 1);
      StepPays(StepN(p, achs, n - 1), achs);
    }
  }

  /** One pass pays the threshold and grows it; achievements touch neither. */
  lemma StepPays(p: Player, achs: seq<GameAchievement>)
    ensures LevelUpStep(p, achs).experience == p.experience - p.nextLevelExp
    ensures LevelUpStep(p, achs).nextLevelExp == Grow(p.nextLevelExp)
  {
  }

  /** `n` passes of the loop body, guard unchecked. */
  function StepN(p: Player, achs: seq<GameAchievement>, n: nat): Player
    decreases n
  {
    if n == 0 then p else LevelUpStep(StepN(p, achs, n - 1), achs)
  }

  /** The gold the loop pays, in closed form: `50 * (k * level + k (k + 1) / 2)`. */
  lemma {:induction false} LevelSumClosedForm(level: int, k: nat)
    ensures 2 * LevelSum(level, k) == 2 * k * level + k * (k + 1)
    decreases k
  {
    if k > 0 {
      LevelSumClosedForm(level + 1, k - 1);
    }
  }

  // ------------------------------------------------------------ quests

  predicate QuestMet(p: Player, q: GameQuest)
  {
    || (q.kind == "steps" && p.totalSteps >= q.targetValue)
    || (q.kind == "calories" && p.totalCalories >= q.targetValue)
    || (q.kind == "workouts" && p.totalWorkouts >= q.targetValue)
    || (q.kind == "streak" && p.streak >= q.targetValue)
    || (q.kind == "login" && p.lastLoginDate.Some?)
  }

  /** A repeatable quest can always be awarded, another only once. */
  predicate Eligible(p: Player, q: GameQuest)
  {
    q.repeatable || q.id !in p.completedQuests
  }

  /** A quest's rewards: experience, gold, gems, items, and its id recorded. */
  function AwardQuest(p: Player, q: GameQuest): Player
  {
    p.(experience := p.experience + q.rewardExp,
       gold := p.gold + q.rewardGold,
       gems := p.gems + q.rewardGems,
       inventory := p.inventory + q.rewardItems,
       completedQuests := p.completedQuests + [q.id])
  }

  function QuestIds(qs: seq<GameQuest>): seq<string>
  {
    if |qs| == 0 then [] else [qs[0].id] + QuestIds(qs[1..])
  }

  function QuestItems(qs: seq<GameQuest>): seq<string>
  {
    if |qs| == 0 then [] else qs[0].rewardItems + QuestItems(qs[1..])
  }

  function TotalExp(qs: seq<GameQuest>): int
  {
    if |qs| == 0 then 0 else qs[0].rewardExp + TotalExp(qs[1..])
  }

  function TotalGold(qs: seq<GameQuest>): int
  {
    if |qs| == 0 then 0 else qs[0].rewardGold + TotalGold(qs[1..])
  }

  function TotalGems(qs: seq<GameQuest>): int
  {
    if |qs| == 0 then 0 else qs[0].rewardGems + TotalGems(qs[1..])
  }

  /** The quests of the table the player qualifies for, in table order. */
  function Earned(p: Player, quests: seq<GameQuest>): seq<GameQuest>
  {
    if |quests| == 0 then []
    else (if Eligible(p, quests[0]) && QuestMet(p, quests[0]) then [quests[0]] else []) + Earned(p, quests[1..])
  }

  /** `checkQuests`: each quest of the table, in turn, that is not an
      already completed one-off and whose target the player meets is
      awarded. Returns the player and the quests awarded. Awarding changes
      nothing a target reads, so the awarded quests are exactly those the
      player qualified for at the start. */
  function CheckQuests(p: Player, quests: seq<GameQuest>): (r: (Player, seq<GameQuest>))
    ensures r.0.completedQuests == p.completedQuests + QuestIds(r.1)
    ensures r.0.inventory == p.inventory + QuestItems(r.1)
    ensures r.0.experience == p.experience + TotalExp(r.1)
    ensures r.0.gold == p.gold + TotalGold(r.1)
    ensures r.0.gems == p.gems + TotalGems(r.1)
    ensures r.0 == p.(completedQuests := r.0.completedQuests, inventory := r.0.inventory,
                      experience := r.0.experience, gold := r.0.gold, gems := r.0.gems)
    decreases |quests|
  {
    if |quests| == 0 then (p, [])
    else
      var q := quests[0];
      if Awarded(p, q) then
        var (r, done) := CheckQuests(AwardQuest(p, q), quests[1..]);
        assert ([q] + done)[1..] == done;
        (r, [q] + done)
      else CheckQuests(p, quests[1..])
  }

  predicate Awarded(p: Player, q: GameQuest)
  {
    Eligible(p, q) && QuestMet(p, q)
  }

  /** Only quests of the table the player qualified for at the start are
      awarded, and with distinct ids exactly those, in table order: awarding
      changes nothing a target reads. A one-off quest already completed is
      never awarded again. */
  lemma {:induction false} CheckQuestsAwards(p: Player, quests: seq<GameQuest>)
    ensures forall q :: q in CheckQuests(p, quests).1 ==> q in quests && Eligible(p, q) && QuestMet(p, q)
    ensures DistinctQuestIds(quests) ==> CheckQuests(p, quests).1 == Earned(p, quests)
    decreases |quests|
  {
    if |quests| > 0 {
      var q := quests[0];
      var tail := quests[1..];
      var p1 := if Awarded(p, q) then AwardQuest(p, q) else p;
      CheckQuestsAwards(p1, tail);
      assert SameTargets(p, p1, q.id);
      var done := CheckQuests(p1, tail).1;
      assert CheckQuests(p, quests).1 == (if Awarded(p, q) then [q] else []) + done;
      forall x | x in done
        ensures x in quests && Eligible(p, x) && QuestMet(p, x)
      {
        assert x in tail;
      }
      if DistinctQuestIds(quests) {
        assert DistinctQuestIds(tail) by {
          assert forall i :: 1 <= i < |quests| ==> tail[i - 1] == quests[i];
        }
        assert forall x :: x in tail ==> x.id != q.id by {
          forall x | x in tail ensures x.id != q.id {
            var i :| 0 <= i < |tail| && tail[i] == x;
            assert quests[i + 1] == x;
          }
        }
        SameEarned(p, p1, tail, q.id);
      }
    }
  }

  /** `p1` reads the same as `p` for every target, and has at most `id`
      more among its completed quests. */
  predicate SameTargets(p: Player, p1: Player, id: string)
  {
    && p1.totalSteps == p.totalSteps && p1.totalCalories == p.totalCalories
    && p1.totalWorkouts == p.totalWorkouts && p1.streak == p.streak
    && p1.lastLoginDate == p.lastLoginDate
    && (p1.completedQuests == p.completedQuests || p1.completedQuests == p.completedQuests + [id])
  }

  /** Recording quest `id` does not change what the later quests of a table
      with distinct ids earn. */
  lemma {:induction false} SameEarned(p: Player, p1: Player, quests: seq<GameQuest>, id: string)
    requires forall q :: q in quests ==> q.id != id
    requires SameTargets(p, p1, id)
    ensures Earned(p1, quests) == Earned(p, quests)
    decreases |quests|
  {
    if |quests| > 0 {
      assert forall q :: q in quests[1..] ==> q in quests;
      SameEarned(p, p1, quests[1..], id);
    }
  }

  // ------------------------------------------------------------ engine operations

  /** The first quest of the table with that id. */
  function FindQuest(quests: seq<GameQuest>, id: string): (r: Option<GameQuest>)
    ensures r.Some? ==> r.value in quests && r.value.id == id
    ensures r.None? ==> forall q :: q in quests ==> q.id != id
  {
    if |quests| == 0 then None
    else if quests[0].id == id then Some(quests[0])
    else FindQuest(quests[1..], id)
  }

  /** The level-up after completing quest `questId` ends, when the completion
      gets that far. */
  predicate CompletionSettles(players: map<string, Player>, quests: seq<GameQuest>, userId: string, questId: string)
  {
    (userId in players && FindQuest(quests, questId).Some? && Eligible(players[userId], FindQuest(quests, questId).value))
      ==> Settles(AwardQuest(players[userId], FindQuest(quests, questId).value))
  }

  /** `completeQuest`: refuses an unknown player or quest, and a one-off
      quest already completed, with nothing changed; otherwise pays the
      quest's rewards, records it, runs the level-up loop and checks the
      quest-count achievements. */
  function CompleteQuest(players: map<string, Player>, quests: seq<GameQuest>, achs: seq<GameAchievement>,
                         userId: string, questId: string): (r: Result<map<string, Player>>)
    requires CompletionSettles(players, quests, userId, questId)
    ensures r.Failure? && (userId !in players || FindQuest(quests, questId).None?) <==> r == Failure(UnknownPlayerOrQuest)
    ensures r == Failure(QuestAlreadyCompleted) <==>
      userId in players && FindQuest(quests, questId).Some?
      && !FindQuest(quests, questId).value.repeatable && questId in players[userId].completedQuests
    ensures r.Failure? ==> r == Failure(UnknownPlayerOrQuest) || r == Failure(QuestAlreadyCompleted)
    ensures r.Success? ==> userId in players && r.value.Keys == players.Keys
    ensures r.Success? ==> forall u :: u in players && u != userId ==> r.value[u] == players[u]
    ensures r.Success? ==> FindQuest(quests, questId).Some? && userId in players
    ensures r.Success? ==> var (p, q, p2) := (players[userId], FindQuest(quests, questId).value, r.value[userId]);
      && p2.completedQuests == p.completedQuests + [questId]
      && p2.inventory == p.inventory + q.rewardItems
      && p2.level >= p.level
      && p2.experience < p2.nextLevelExp
      && p2.gold == p.gold + q.rewardGold + 50 * LevelSum(p.level, p2.level - p.level)
    ensures r.Success? ==> var (p, q, p2) := (players[userId], FindQuest(quests, questId).value, r.value[userId]);
      var k := p2.level - p.level;
      && p2.experience == p.experience + q.rewardExp - ThresholdSum(p.nextLevelExp, k)
      && p2.nextLevelExp == Threshold(p.nextLevelExp, k)
      && p2.strength == p.strength + 2 * k && p2.stamina == p.stamina + 3 * k
      && p2.agility == p.agility + k && p2.intelligence == p.intelligence + k
      && (NonNegativeGems(achs) ==> p2.gems >= p.gems + q.rewardGems + LevelSum(p.level, k))
  {
    if userId !in players then Failure(UnknownPlayerOrQuest)
    else
      match FindQuest(quests, questId)
      case None => Failure(UnknownPlayerOrQuest)
      case Some(q) =>
        var p := players[userId];
        if !q.repeatable && questId in p.completedQuests then Failure(QuestAlreadyCompleted)
        else
          var p1 := LevelUp(AwardQuest(p, q), achs);
          var p2 := CheckAchievement(p1, achs, "quests", |p1.completedQuests|);
          Success(players[userId := p2])
  }

  /** A one-off quest completed once is refused the second time. */
  lemma CompleteOneOffTwice(players: map<string, Player>, quests: seq<GameQuest>, achs: seq<GameAchievement>,
                            userId: string, questId: string)
    requires CompletionSettles(players, quests, userId, questId)
    requires CompleteQuest(players, quests, achs, userId, questId).Success?
    requires !FindQuest(quests, questId).value.repeatable
    ensures var after := CompleteQuest(players, quests, achs, userId, questId).value;
      CompletionSettles(after, quests, userId, questId)
      && CompleteQuest(after, quests, achs, userId, questId) == Failure(QuestAlreadyCompleted)
  {
    var after := CompleteQuest(players, quests, achs, userId, questId).value;
    assert questId in after[userId].completedQuests;
  }

  const DAILY_BASE_GOLD: int := 50
  const STREAK_BONUS_GOLD: int := 10

  /** `claimDailyReward` on day `today`: refused when the player's last login
      is today; otherwise 50 gold plus 10 per streak day, one gem, and the
      login date set to today. The streak itself is not updated. */
  function ClaimDailyReward(p: Player, today: int): (r: Result<Player>)
    ensures r.Failure? <==> p.lastLoginDate == Some(today)
    ensures r.Failure? ==> r.error == AlreadyClaimed
    ensures r.Success? ==> r.value == p.(gold := p.gold + 50 + 10 * p.streak, gems := p.gems + 1,
                                         lastLoginDate := Some(today))
  {
    if p.lastLoginDate == Some(today) then Failure(AlreadyClaimed)
    else
      var totalGold := DAILY_BASE_GOLD + p.streak * STREAK_BONUS_GOLD;
      Success(p.(gold := p.gold + totalGold, gems := p.gems + 1, lastLoginDate := Some(today)))
  }

  /** A second claim on the same day is refused. */
  lemma ClaimTwiceSameDay(p: Player, today: int)
    requires ClaimDailyReward(p, today).Success?
    ensures ClaimDailyReward(ClaimDailyReward(p, today).value, today) == Failure(AlreadyClaimed)
  {
  }

  // ------------------------------------------------------------ fitness data

  /** C++ integer division of `a` by a positive `b`: truncated toward zero. */
  function Quot(a: int, b: int): (q: int)
    requires b > 0
    ensures a >= 0 ==> q == a / b
    ensures a < 0 ==> q == -((-a) / b)
  {
    if a >= 0 then a / b else -((-a) / b)
  }

  /** The experience and gold one batch of fitness data earns. */
  function EarnedExp(steps: int, calories: int, duration: int): int
  {
    Quot(steps, 100) + Quot(calories, 10) + duration * 2
  }

  function EarnedGold(steps: int, calories: int, duration: int): int
  {
    Quot(steps, 200) + Quot(calories, 20) + duration
  }

  /** Experience is twice the gold, give or take the two rounding steps:
      `steps/100` against `2 * (steps/200)` and the same for calories. */
  lemma EarnedExpTwiceGold(steps: int, calories: int, duration: int)
    ensures -2 <= EarnedExp(steps, calories, duration) - 2 * EarnedGold(steps, calories, duration) <= 2
    ensures steps >= 0 && calories >= 0 ==>
      0 <= EarnedExp(steps, calories, duration) - 2 * EarnedGold(steps, calories, duration)
  {
    QuotHalving100(steps);
    QuotHalving10(calories);
  }

  /** `a / 100` against twice `a / 200`, both truncated. */
  lemma QuotHalving100(a: int)
    ensures -1 <= Quot(a, 100) - 2 * Quot(a, 200) <= 1
    ensures a >= 0 ==> 0 <= Quot(a, 100) - 2 * Quot(a, 200)
  {
    var n := if a >= 0 then a else -a;
    var q := n / 200;
    assert 200 * q <= n < 200 * q + 200;
    assert 2 * q <= n / 100 <= 2 * q + 1;
  }

  /** `a / 10` against twice `a / 20`, both truncated. */
  lemma QuotHalving10(a: int)
    ensures -1 <= Quot(a, 10) - 2 * Quot(a, 20) <= 1
    ensures a >= 0 ==> 0 <= Quot(a, 10) - 2 * Quot(a, 20)
  {
    var n := if a >= 0 then a else -a;
    var q := n / 20;
    assert 20 * q <= n < 20 * q + 20;
    assert 2 * q <= n / 10 <= 2 * q + 1;
  }

  /** The player once the batch is counted, before any level-up: totals
      raised, a workout counted only for a positive duration, the earnings
      added. */
  function Credited(p: Player, steps: int, calories: int, duration: int, today: int): (c: Player)
    ensures c.totalSteps == p.totalSteps + steps && c.totalCalories == p.totalCalories + calories
    ensures c.totalWorkouts == p.totalWorkouts + (if duration > 0 then 1 else 0)
    ensures c.experience == p.experience + EarnedExp(steps, calories, duration)
    ensures c.gold == p.gold + EarnedGold(steps, calories, duration)
  {
    var p1 := p.(totalSteps := p.totalSteps + steps, totalCalories := p.totalCalories + calories);
    var p2 := if duration > 0 then p1.(totalWorkouts := p1.totalWorkouts + 1, lastWorkoutDate := Some(today)) else p1;
    p2.(experience := p2.experience + EarnedExp(steps, calories, duration),
        gold := p2.gold + EarnedGold(steps, calories, duration))
  }

  datatype FitnessUpdate = FitnessUpdate(
    player: Player, expEarned: int, goldEarned: int, completed: seq<GameQuest>, levelUp: bool)

  /** `updateFromFitnessData` for a known player: count the batch, run the
      level-up loop, award quests, check the step, calorie, workout and
      streak achievements. `levelUp` reports whether the experience is again
      at the threshold, which only quest rewards can cause. */
  function UpdateFromFitnessData(p: Player, quests: seq<GameQuest>, achs: seq<GameAchievement>,
                                 steps: int, calories: int, duration: int, today: int): (r: FitnessUpdate)
    requires Settles(Credited(p, steps, calories, duration, today))
    ensures r.expEarned == EarnedExp(steps, calories, duration)
    ensures r.goldEarned == EarnedGold(steps, calories, duration)
    ensures r.player.totalSteps == p.totalSteps + steps
    ensures r.player.totalCalories == p.totalCalories + calories
    ensures r.player.totalWorkouts == p.totalWorkouts + (if duration > 0 then 1 else 0)
    ensures r.player.lastWorkoutDate == if duration > 0 then Some(today) else p.lastWorkoutDate
    ensures r.player.streak == p.streak && r.player.lastLoginDate == p.lastLoginDate
    ensures r.player.level >= p.level
    ensures r.player.completedQuests == p.completedQuests + QuestIds(r.completed)
    ensures forall q :: q in r.completed ==> q in quests && Eligible(p, q)
    ensures r.levelUp ==> TotalExp(r.completed) > 0
  {
    var c := Credited(p, steps, calories, duration, today);
    var l := LevelUp(c, achs);
    var (qd, done) := CheckQuests(l, quests);
    CheckQuestsAwards(l, quests);
    var a1 := CheckAchievement(qd, achs, "steps", qd.totalSteps);
    var a2 := CheckAchievement(a1, achs, "calories", a1.totalCalories);
    var a3 := CheckAchievement(a2, achs, "workouts", a2.totalWorkouts);
    var a4 := CheckAchievement(a3, achs, "streak", a3.streak);
    FitnessUpdate(a4, EarnedExp(steps, calories, duration), EarnedGold(steps, calories, duration),
                  done, a4.experience >= a4.nextLevelExp)
  }
}
