/** The Equihash difficulty ladder (`equihash.setting`): a non-empty list of
    configured levels and a cursor into it that steps up and down and saturates
    at both ends. */
module Ladder {
  import opened Wrappers
  import opened Model

  function ToModel(d: ConfigDifficulty): Difficulty
  {
    Difficulty(d.n, d.k)
  }

  /** The cursor after `IncreaseDifficulty` on a ladder of `count` levels. */
  function Up(level: nat, count: nat): nat
  {
    if level == count - 1 then level else level + 1
  }

  /** The cursor after `DecreaseDifficulty`. */
  function Down(level: nat): nat
  {
    if level == 0 then level else level - 1
  }

  /** The cursor after t increases. */
  function UpTimes(level: nat, count: nat, t: nat): nat
    decreases t
  {
    if t == 0 then level else UpTimes(Up(level, count), count, t - 1)
  }

  /** The cursor after t decreases. */
  function DownTimes(level: nat, t: nat): nat
  {
    if t == 0 then level else DownTimes(Down(level), t - 1)
  }

  /** t increases from any level land on min(level + t, top). */
  lemma {:induction false} UpTimesSaturates(level: nat, count: nat, t: nat)
    requires level < count
    ensures UpTimes(level, count, t) == if level + t < count - 1 then level + t else count - 1
    decreases t
  {
    if t > 0 {
      UpTimesSaturates(Up(level, count), count, t - 1);
    }
  }

  /** t decreases from any level land on max(level - t, 0). */
  lemma {:induction false} DownTimesSaturates(level: nat, t: nat)
    ensures DownTimes(level, t) == if level >= t then level - t else 0
  {
    if t > 0 {
      DownTimesSaturates(Down(level), t - 1);
    }
  }

  /** From the bottom, count - 1 increases reach the top and any further ones change nothing;
      from the top, count - 1 decreases reach the bottom and further ones change nothing. */
  lemma ClimbAndDescend(count: nat, extra: nat)
    requires count > 0
    ensures UpTimes(0, count, count - 1) == count - 1
    ensures UpTimes(0, count, count - 1 + extra) == count - 1
    ensures DownTimes(count - 1, count - 1) == 0
    ensures DownTimes(count - 1, count - 1 + extra) == 0
  {
    UpTimesSaturates(0, count, count - 1);
    UpTimesSaturates(0, count, count - 1 + extra);
    DownTimesSaturates(count - 1, count - 1);
    DownTimesSaturates(count - 1, count - 1 + extra);
  }

  /** `equihash.setting`. The configured levels are fixed at construction (a `const` here). */
  class Setting {
    var difficulty: Difficulty
    var currentLevel: int
    const difficultyLevels: seq<ConfigDifficulty>

    /** The cursor is on the ladder and the active difficulty is the level it selects. */
    ghost predicate Valid()
      reads this
    {
      0 <= currentLevel < |difficultyLevels| &&
      difficulty == ToModel(difficultyLevels[currentLevel])
    }

    constructor (levels: seq<ConfigDifficulty>)
      requires |levels| > 0
      ensures Valid()
      ensures difficultyLevels == levels && currentLevel == 0 && difficulty == ToModel(levels[0])
    {
      difficultyLevels := levels;
      currentLevel := 0;
      difficulty := Difficulty(levels[0].n, levels[0].k);
    }

    /** `IsMaxDifficulty`. */
    predicate IsMaxDifficulty()
      reads this
    {
      currentLevel == |difficultyLevels| - 1
    }

    /** `IsMinDifficulty`. */
    predicate IsMinDifficulty()
      reads this
    {
      currentLevel == 0
    }

    /** `GetDifficulty`. */
    function GetDifficulty(): (d: Difficulty)
      reads this
      requires Valid()
      ensures d == ToModel(difficultyLevels[currentLevel])
    {
      difficulty
    }

    /** `IncreaseDifficulty`: a no-op at the top level, otherwise one level up. */
    method IncreaseDifficulty()
      requires Valid()
      modifies this
      ensures Valid()
      ensures currentLevel == Up(old(currentLevel), |difficultyLevels|)
      ensures old(IsMaxDifficulty()) ==> currentLevel == old(currentLevel)
      ensures !old(IsMaxDifficulty()) ==> currentLevel == old(currentLevel) + 1
    {
      if !IsMaxDifficulty() {
        currentLevel := currentLevel + 1;
        difficulty := Difficulty(difficultyLevels[currentLevel].n, difficultyLevels[currentLevel].k);
      }
    }

    /** `DecreaseDifficulty`: a no-op at level 0, otherwise one level down. */
    method DecreaseDifficulty()
      requires Valid()
      modifies this
      ensures Valid()
      ensures currentLevel == Down(old(currentLevel))
      ensures old(IsMinDifficulty()) ==> currentLevel == old(currentLevel)
      ensures !old(IsMinDifficulty()) ==> currentLevel == old(currentLevel) - 1
    {
      if !IsMinDifficulty() {
        currentLevel := currentLevel - 1;
        difficulty := Difficulty(difficultyLevels[currentLevel].n, difficultyLevels[currentLevel].k);
      }
    }
  }

  /** `NewSetting`: fails exactly when no level is configured; otherwise starts at level 0. */
  method NewSetting(levels: seq<ConfigDifficulty>) returns (r: Result<Setting, string>)
    ensures r.Failure? <==> |levels| == 0
    ensures r.Failure? ==> r.error == "there aren't difficulties in config"
    ensures r.Success? ==> fresh(r.value) && r.value.Valid() && r.value.difficultyLevels == levels
    ensures r.Success? ==> r.value.currentLevel == 0 && r.value.GetDifficulty() == ToModel(levels[0])
  {
    if |levels| == 0 {
      return Failure("there aren't difficulties in config");
    }
    var s := new Setting(levels);
    return Success(s);
  }

  /** On a one-level ladder the cursor is at the top and at the bottom at once. */
  lemma OneLevelIsMinAndMax(s: Setting)
    requires s.Valid() && |s.difficultyLevels| == 1
    ensures s.IsMaxDifficulty() && s.IsMinDifficulty()
  {
  }
}
