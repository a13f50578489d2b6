/**
  GameStateManager: the statistics and settings kept in the shared
  preferences file "pacman_game_state", modelled as an in-memory map from
  key to stored value. Kotlin's Int is 32-bit, so counters wrap around.
*/
module Store {

  /** Kotlin's Int. */
  newtype int32 = x: int | -0x8000_0000 <= x < 0x8000_0000

  /** Two's-complement wrap-around of an exact result into an Int. */
  function Wrap(x: int): (r: int32)
    ensures -0x8000_0000 <= x < 0x8000_0000 ==> r as int == x
    ensures Congruent(r as int, x)
  {
    ((x + 0x8000_0000) % 0x1_0000_0000 - 0x8000_0000) as int32
  }

  function Max(a: int32, b: int32): int32 {
    if a >= b then a else b
  }

  /** A value as putInt, putBoolean or putString stored it. */
  datatype Pref = IntPref(i: int32) | BoolPref(b: bool) | StringPref(s: string)

  type Prefs = map<string, Pref>

  const KeyHighScore: string := "high_score"
  const KeyLastScore: string := "last_score"
  const KeyGamesPlayed: string := "games_played"
  const KeyTotalDots: string := "total_dots_collected"
  const KeyUseGyroscope: string := "use_gyroscope"
  const KeyUseLightSensor: string := "use_light_sensor"
  const KeySelectedTheme: string := "selected_theme"
  const KeyGameSpeed: string := "game_speed"
  const KeyDifficultyLevel: string := "difficulty_level"

  /** getInt(key, default): the stored Int, or the default when the key holds none. */
  function IntOr(p: Prefs, key: string, default: int32): (r: int32)
    ensures key in p && p[key].IntPref? ==> r == p[key].i
    ensures key !in p ==> r == default
  {
    if key in p && p[key].IntPref? then p[key].i else default
  }

  /** getBoolean(key, default). */
  function BoolOr(p: Prefs, key: string, default: bool): (r: bool)
    ensures key in p && p[key].BoolPref? ==> r == p[key].b
    ensures key !in p ==> r == default
  {
    if key in p && p[key].BoolPref? then p[key].b else default
  }

  /** getString(key, default) ?: default. */
  function StringOr(p: Prefs, key: string, default: string): (r: string)
    ensures key in p && p[key].StringPref? ==> r == p[key].s
    ensures key !in p ==> r == default
  {
    if key in p && p[key].StringPref? then p[key].s else default
  }

  // The getters: each returns what its key holds, and its default when the key is absent.

  /** The high score. */
  function HighScore(p: Prefs): (r: int32)
    ensures KeyHighScore in p && p[KeyHighScore].IntPref? ==> r == p[KeyHighScore].i
    ensures KeyHighScore !in p ==> r == 0
  {
    IntOr(p, KeyHighScore, 0)
  }

  /** The last game's score. */
  function LastScore(p: Prefs): (r: int32)
    ensures KeyLastScore in p && p[KeyLastScore].IntPref? ==> r == p[KeyLastScore].i
    ensures KeyLastScore !in p ==> r == 0
  {
    IntOr(p, KeyLastScore, 0)
  }

  /** The number of games played. */
  function GamesPlayed(p: Prefs): (r: int32)
    ensures KeyGamesPlayed in p && p[KeyGamesPlayed].IntPref? ==> r == p[KeyGamesPlayed].i
    ensures KeyGamesPlayed !in p ==> r == 0
  {
    IntOr(p, KeyGamesPlayed, 0)
  }

  /** The dots collected over all games. */
  function TotalDotsCollected(p: Prefs): (r: int32)
    ensures KeyTotalDots in p && p[KeyTotalDots].IntPref? ==> r == p[KeyTotalDots].i
    ensures KeyTotalDots !in p ==> r == 0
  {
    IntOr(p, KeyTotalDots, 0)
  }

  /** Whether tilt steering is on, off by default. */
  function UseGyroscope(p: Prefs): (r: bool)
    ensures KeyUseGyroscope in p && p[KeyUseGyroscope].BoolPref? ==> r == p[KeyUseGyroscope].b
    ensures KeyUseGyroscope !in p ==> r == false
  {
    BoolOr(p, KeyUseGyroscope, false)
  }

  /** Whether the theme follows the light sensor, on by default. */
  function UseLightSensor(p: Prefs): (r: bool)
    ensures KeyUseLightSensor in p && p[KeyUseLightSensor].BoolPref? ==> r == p[KeyUseLightSensor].b
    ensures KeyUseLightSensor !in p ==> r == true
  {
    BoolOr(p, KeyUseLightSensor, true)
  }

  /** The theme name, "SYSTEM" by default. */
  function SelectedTheme(p: Prefs): (r: string)
    ensures KeySelectedTheme in p && p[KeySelectedTheme].StringPref? ==> r == p[KeySelectedTheme].s
    ensures KeySelectedTheme !in p ==> r == "SYSTEM"
  {
    StringOr(p, KeySelectedTheme, "SYSTEM")
  }

  /** The frame delay in milliseconds, 200 by default. */
  function GameSpeed(p: Prefs): (r: int32)
    ensures KeyGameSpeed in p && p[KeyGameSpeed].IntPref? ==> r == p[KeyGameSpeed].i
    ensures KeyGameSpeed !in p ==> r == 200
  {
    IntOr(p, KeyGameSpeed, 200)
  }

  /** The difficulty level, 1 by default. */
  function DifficultyLevel(p: Prefs): (r: int32)
    ensures KeyDifficultyLevel in p && p[KeyDifficultyLevel].IntPref? ==> r == p[KeyDifficultyLevel].i
    ensures KeyDifficultyLevel !in p ==> r == 1
  {
    IntOr(p, KeyDifficultyLevel, 1)
  }

  /** `p` and `q` hold the same entries for every key outside `keys`. */
  ghost predicate SameExcept(p: Prefs, q: Prefs, keys: set<string>) {
    forall k :: k !in keys ==> (k in p <==> k in q) && (k in p ==> p[k] == q[k])
  }

  /**
    The store after saveScore(score): the high score is raised to the score
    when it is beaten, the last score is the score, one more game is
    counted and the score is added to the dots total.
  */
  function ScoreSaved(p: Prefs, score: int32): (q: Prefs)
    ensures HighScore(q) == Max(HighScore(p), score)
    ensures LastScore(q) == score
    ensures GamesPlayed(q) == Wrap(GamesPlayed(p) as int + 1)
    ensures TotalDotsCollected(q) == Wrap(TotalDotsCollected(p) as int + score as int)
    ensures SameExcept(p, q, {KeyHighScore, KeyLastScore, KeyGamesPlayed, KeyTotalDots})
    ensures KeyHighScore in q <==> KeyHighScore in p || score > HighScore(p)
  {
    var raised := if score > HighScore(p) then p[KeyHighScore := IntPref(score)] else p;
    raised[KeyLastScore := IntPref(score)]
          [KeyGamesPlayed := IntPref(Wrap(GamesPlayed(p) as int + 1))]
          [KeyTotalDots := IntPref(Wrap(TotalDotsCollected(p) as int + score as int))]
  }

  /** The store after saveSettings. */
  function SettingsSaved(p: Prefs, gyroscope: bool, lightSensor: bool, theme: string): (q: Prefs)
    ensures UseGyroscope(q) == gyroscope && UseLightSensor(q) == lightSensor && SelectedTheme(q) == theme
    ensures SameExcept(p, q, {KeyUseGyroscope, KeyUseLightSensor, KeySelectedTheme})
  {
    p[KeyUseGyroscope := BoolPref(gyroscope)][KeyUseLightSensor := BoolPref(lightSensor)][KeySelectedTheme := StringPref(theme)]
  }

  /** The store after saveGameSpeed. */
  function SpeedSaved(p: Prefs, speed: int32): (q: Prefs)
    ensures GameSpeed(q) == speed
    ensures SameExcept(p, q, {KeyGameSpeed})
  {
    p[KeyGameSpeed := IntPref(speed)]
  }

  /** The store after saveDifficultyLevel. */
  function DifficultySaved(p: Prefs, level: int32): (q: Prefs)
    ensures DifficultyLevel(q) == level
    ensures SameExcept(p, q, {KeyDifficultyLevel})
  {
    p[KeyDifficultyLevel := IntPref(level)]
  }

  /** The store after resetSessionData: the last score is 0 and the high score is written back. */
  function SessionReset(p: Prefs): (q: Prefs)
    ensures LastScore(q) == 0 && HighScore(q) == HighScore(p)
    ensures SameExcept(p, q, {KeyLastScore, KeyHighScore})
    ensures KeyLastScore in q && KeyHighScore in q
  {
    p[KeyLastScore := IntPref(0)][KeyHighScore := IntPref(HighScore(p))]
  }

  /** Every getter of a store with nothing in it returns its default. */
  predicate AllDefaults(p: Prefs) {
    && HighScore(p) == 0 && LastScore(p) == 0 && GamesPlayed(p) == 0 && TotalDotsCollected(p) == 0
    && !UseGyroscope(p) && UseLightSensor(p) && SelectedTheme(p) == "SYSTEM"
    && GameSpeed(p) == 200 && DifficultyLevel(p) == 1
  }

  lemma EmptyStoreDefaults()
    ensures AllDefaults(map[])
  {
  }

  /** The largest of `h` and the scores. */
  function MaxOf(h: int32, scores: seq<int32>): int32
    decreases |scores|
  {
    if scores == [] then h else MaxOf(Max(h, scores[0]), scores[1..])
  }

  /** The store after saveScore for each score in turn. */
  function ScoresSaved(p: Prefs, scores: seq<int32>): Prefs
    decreases |scores|
  {
    if scores == [] then p else ScoresSaved(ScoreSaved(p, scores[0]), scores[1..])
  }

  function Sum(scores: seq<int32>): int
    decreases |scores|
  {
    if scores == [] then 0 else scores[0] as int + Sum(scores[1..])
  }

  /**
    Over a run of games the high score is the best of the old high score
    and every game's score, and it is at least each of them.
  */
  lemma {:induction false} HighScoreIsBest(p: Prefs, scores: seq<int32>)
    ensures HighScore(ScoresSaved(p, scores)) == MaxOf(HighScore(p), scores)
    ensures HighScore(ScoresSaved(p, scores)) >= HighScore(p)
    ensures forall i :: 0 <= i < |scores| ==> HighScore(ScoresSaved(p, scores)) >= scores[i]
    decreases |scores|
  {
    if scores != [] {
      var q := ScoreSaved(p, scores[0]);
      HighScoreIsBest(q, scores[1..]);
      forall i | 1 <= i < |scores|
        ensures HighScore(ScoresSaved(p, scores)) >= scores[i]
      {
        assert scores[i] == scores[1..][i - 1];
      }
    }
  }

  /** a and b are equal modulo 2^32. */
  predicate Congruent(a: int, b: int) {
    (a - b) % 0x1_0000_0000 == 0
  }

  /** Over a run of games the games counter grows by their number, modulo 2^32. */
  lemma {:induction false} GamesCounted(p: Prefs, scores: seq<int32>)
    ensures Congruent(GamesPlayed(ScoresSaved(p, scores)) as int, GamesPlayed(p) as int + |scores|)
    decreases |scores|
  {
    if scores != [] {
      var q := ScoreSaved(p, scores[0]);
      GamesCounted(q, scores[1..]);
      var last, mid := GamesPlayed(ScoresSaved(q, scores[1..])) as int, GamesPlayed(q) as int;
      CongruentSum(last, mid + |scores| - 1, mid, GamesPlayed(p) as int + 1);
    }
  }

  /** Over a run of games the dots total grows by the sum of their scores, modulo 2^32. */
  lemma {:induction false} DotsTotalled(p: Prefs, scores: seq<int32>)
    ensures Congruent(TotalDotsCollected(ScoresSaved(p, scores)) as int, TotalDotsCollected(p) as int + Sum(scores))
    decreases |scores|
  {
    if scores != [] {
      var q := ScoreSaved(p, scores[0]);
      DotsTotalled(q, scores[1..]);
      var last, mid := TotalDotsCollected(ScoresSaved(q, scores[1..])) as int, TotalDotsCollected(q) as int;
      CongruentSum(last, mid + Sum(scores[1..]), mid, TotalDotsCollected(p) as int + scores[0] as int);
    }
  }

  /** Congruences modulo 2^32 add up. */
  lemma CongruentSum(a: int, b: int, c: int, d: int)
    requires Congruent(a, b) && Congruent(c, d)
    ensures Congruent(a, b - c + d)
  {
    var k := (a - b) / 0x1_0000_0000;
    var l := (c - d) / 0x1_0000_0000;
    assert a - (b - c + d) == (k + l) * 0x1_0000_0000;
  }

  /** The manager over the store of one device. */
  class GameStateManager {
    var prefs: Prefs

    /** The store as the device holds it when the manager is created. */
    constructor(stored: Prefs)
      ensures prefs == stored
    {
      prefs := stored;
    }

    method SaveScore(score: int32)
      modifies this
      ensures prefs == ScoreSaved(old(prefs), score)
    {
      prefs := ScoreSaved(prefs, score);
    }

    method SaveSettings(useGyroscope: bool, useLightSensor: bool, selectedTheme: string)
      modifies this
      ensures prefs == SettingsSaved(old(prefs), useGyroscope, useLightSensor, selectedTheme)
    {
      prefs := prefs[KeyUseGyroscope := BoolPref(useGyroscope)];
      prefs := prefs[KeyUseLightSensor := BoolPref(useLightSensor)];
      prefs := prefs[KeySelectedTheme := StringPref(selectedTheme)];
    }

    method SaveGameSpeed(speed: int32)
      modifies this
      ensures prefs == SpeedSaved(old(prefs), speed)
    {
      prefs := prefs[KeyGameSpeed := IntPref(speed)];
    }

    method SaveDifficultyLevel(level: int32)
      modifies this
      ensures prefs == DifficultySaved(old(prefs), level)
    {
      prefs := prefs[KeyDifficultyLevel := IntPref(level)];
    }

    /** edit().clear(): every getter then returns its default. */
    method ClearAllData()
      modifies this
      ensures prefs == map[] && AllDefaults(prefs)
    {
      prefs := map[];
    }

    method ResetSessionData()
      modifies this
      ensures prefs == SessionReset(old(prefs))
    {
      prefs := SessionReset(prefs);
    }
  }
}
