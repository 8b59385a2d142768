/**
 * The scoring rule of `applyScore` (backend/db.js:408-420) with the default
 * configuration it falls back on (backend/db.js:139-148). Times are integer
 * milliseconds since the epoch; configuration values and awards are reals (the
 * SQL columns are REAL).
 */
module Scoring {

  const MsPerMinute: int := 60000
  const MsPerHour: int := 3600000

  const BonusOnTimeKey: string := "BONUS_ON_TIME"
  const BonusStar3Key: string := "BONUS_STAR_3"
  const BonusStar4Key: string := "BONUS_STAR_4"
  const BonusStar5Key: string := "BONUS_STAR_5"
  const BmDelayPerHrKey: string := "BM_DELAY_PER_HR"
  const BmReworkKey: string := "BM_REWORK"

  /** The seeded scoring amounts (backend/db.js:139-145). */
  const Defaults: map<string, real> := map[
    BonusOnTimeKey := 3.0, BonusStar3Key := 1.0, BonusStar4Key := 2.0,
    BonusStar5Key := 3.0, BmDelayPerHrKey := 1.0, BmReworkKey := 5.0]

  /** The configuration table as `getConfigMap` returns it. */
  type Config = map<string, real>

  /**
   * `config.KEY || fallback`: a missing key and a stored 0 both give the
   * fallback, any other stored value (negative ones too) is used as it is.
   */
  function Setting(cfg: Config, key: string, fallback: real): (v: real)
    ensures key in cfg && cfg[key] != 0.0 ==> v == cfg[key]
    ensures key !in cfg || cfg[key] == 0.0 ==> v == fallback
  {
    if key in cfg && cfg[key] != 0.0 then cfg[key] else fallback
  }

  /** What one `applyScore` call awards: bonus points and blackmarks. */
  datatype Award = Award(bonus: real, blackmark: real)

  /** The star part of the bonus: only the ratings 3, 4 and 5 earn anything. */
  function StarBonus(cfg: Config, rating: int): (b: real)
    ensures rating != 3 && rating != 4 && rating != 5 ==> b == 0.0
    ensures rating == 3 ==> b == Setting(cfg, BonusStar3Key, 1.0)
    ensures rating == 4 ==> b == Setting(cfg, BonusStar4Key, 2.0)
    ensures rating == 5 ==> b == Setting(cfg, BonusStar5Key, 3.0)
  {
    if rating == 3 then Setting(cfg, BonusStar3Key, 1.0)
    else if rating == 4 then Setting(cfg, BonusStar4Key, 2.0)
    else if rating == 5 then Setting(cfg, BonusStar5Key, 3.0)
    else 0.0
  }

  /** `Math.floor(delayHrs) * rate`: whole hours of delay times the hourly rate. */
  function PerHour(hours: int, rate: real): real {
    hours as real * rate
  }

  /**
   * The award for work due at `eta` and finished at `completedAt`:
   * the on-time bonus when the delay is not positive, the star bonus, and
   * floor(delay in hours) blackmarks per hour when the delay exceeds one hour
   * and the blackmark is not overridden.
   */
  function Score(cfg: Config, eta: int, completedAt: int, rating: int, overrideBlackmark: bool): (a: Award)
    ensures completedAt <= eta ==> a.bonus == Setting(cfg, BonusOnTimeKey, 3.0) + StarBonus(cfg, rating)
    ensures completedAt > eta ==> a.bonus == StarBonus(cfg, rating)
    ensures completedAt - eta <= MsPerHour || overrideBlackmark ==> a.blackmark == 0.0
    ensures completedAt - eta > MsPerHour && !overrideBlackmark ==>
      a.blackmark == PerHour((completedAt - eta) / MsPerHour, Setting(cfg, BmDelayPerHrKey, 1.0))
  {
    var delay := completedAt - eta;
    var onTime := if delay <= 0 then Setting(cfg, BonusOnTimeKey, 3.0) else 0.0;
    var bonus := onTime + StarBonus(cfg, rating);
    var blackmark := if delay > MsPerHour && !overrideBlackmark
      then PerHour(delay / MsPerHour, Setting(cfg, BmDelayPerHrKey, 1.0))
      else 0.0;
    Award(bonus, blackmark)
  }

  /** Every configured scoring value is non-negative. */
  predicate NonNegativeConfig(cfg: Config) {
    forall k :: k in cfg ==> cfg[k] >= 0.0
  }

  lemma DefaultsNonNegative()
    ensures NonNegativeConfig(Defaults)
  {
  }

  /** With a non-negative configuration both parts of an award are non-negative. */
  lemma ScoreNonNegative(cfg: Config, eta: int, completedAt: int, rating: int, overrideBlackmark: bool)
    requires NonNegativeConfig(cfg)
    ensures var a := Score(cfg, eta, completedAt, rating, overrideBlackmark);
      a.bonus >= 0.0 && a.blackmark >= 0.0
  {
    var delay := completedAt - eta;
    if delay > MsPerHour && !overrideBlackmark {
      var q := delay / MsPerHour;
      assert q >= 1;
      RealProductNonNegative(q as real, Setting(cfg, BmDelayPerHrKey, 1.0));
    }
  }

  lemma RealProductNonNegative(x: real, y: real)
    requires x >= 0.0 && y >= 0.0
    ensures x * y >= 0.0
  {
  }

  /** No call both pays the on-time bonus and hands out blackmarks. */
  lemma OnTimeExcludesBlackmark(cfg: Config, eta: int, completedAt: int, rating: int, overrideBlackmark: bool)
    ensures var a := Score(cfg, eta, completedAt, rating, overrideBlackmark);
      completedAt <= eta ==> a.blackmark == 0.0
  {
  }

  /**
   * The grace hour: finishing up to one hour late gives neither the on-time
   * bonus nor a blackmark, only the star bonus.
   */
  lemma GraceHour(cfg: Config, eta: int, completedAt: int, rating: int, overrideBlackmark: bool)
    requires eta < completedAt <= eta + MsPerHour
    ensures Score(cfg, eta, completedAt, rating, overrideBlackmark) == Award(StarBonus(cfg, rating), 0.0)
  {
  }

  /** Overriding the blackmark never touches the bonus. */
  lemma OverrideKeepsBonus(cfg: Config, eta: int, completedAt: int, rating: int)
    ensures Score(cfg, eta, completedAt, rating, true)
         == Award(Score(cfg, eta, completedAt, rating, false).bonus, 0.0)
  {
  }

  /** With a non-negative rate, a later finish never earns fewer blackmarks. */
  lemma BlackmarkMonotone(cfg: Config, eta: int, c1: int, c2: int, rating: int, overrideBlackmark: bool)
    requires NonNegativeConfig(cfg)
    requires c1 <= c2
    ensures Score(cfg, eta, c1, rating, overrideBlackmark).blackmark
         <= Score(cfg, eta, c2, rating, overrideBlackmark).blackmark
  {
    var d1, d2 := c1 - eta, c2 - eta;
    if d1 > MsPerHour && !overrideBlackmark {
      var rate := Setting(cfg, BmDelayPerHrKey, 1.0);
      assert rate >= 0.0;
      HoursMonotone(d1, d2);
      PerHourMonotone(d1 / MsPerHour, d2 / MsPerHour, rate);
      assert Score(cfg, eta, c1, rating, overrideBlackmark).blackmark == PerHour(d1 / MsPerHour, rate);
      assert Score(cfg, eta, c2, rating, overrideBlackmark).blackmark == PerHour(d2 / MsPerHour, rate);
    } else {
      ScoreNonNegative(cfg, eta, c2, rating, overrideBlackmark);
    }
  }

  lemma PerHourMonotone(h1: int, h2: int, rate: real)
    requires h1 <= h2 && rate >= 0.0
    ensures PerHour(h1, rate) <= PerHour(h2, rate)
  {
    RealScaleMonotone(h1 as real, h2 as real, rate);
  }

  /** Whole hours of lateness grow with the lateness. */
  lemma HoursMonotone(x: int, y: int)
    requires x <= y
    ensures x / MsPerHour <= y / MsPerHour
  {
  }

  lemma RealScaleMonotone(x: real, y: real, r: real)
    requires x <= y && r >= 0.0
    ensures x * r <= y * r
  {
  }

  /** Being exactly `h` hours late (h >= 2) costs h times the hourly rate. */
  lemma WholeHoursLate(cfg: Config, eta: int, h: int, rating: int)
    requires h >= 2
    ensures Score(cfg, eta, eta + h * MsPerHour, rating, false).blackmark
         == h as real * Setting(cfg, BmDelayPerHrKey, 1.0)
  {
    assert (h * MsPerHour) / MsPerHour == h;
  }

  /** On time with five stars under the default configuration: 3 + 3 points, no blackmark. */
  lemma DefaultOnTimeFiveStars(eta: int, completedAt: int)
    requires completedAt <= eta
    ensures Score(Defaults, eta, completedAt, 5, false) == Award(6.0, 0.0)
  {
  }

  /** Three hours late with three stars under the default configuration: 1 point, 3 blackmarks. */
  lemma DefaultThreeHoursLate(eta: int)
    ensures Score(Defaults, eta, eta + 3 * MsPerHour, 3, false) == Award(1.0, 3.0)
  {
    WholeHoursLate(Defaults, eta, 3, 3);
  }

  /** Setting a scoring value to 0 in the configuration is the same as leaving it at its default. */
  lemma ZeroSettingFallsBack(cfg: Config, key: string, eta: int, completedAt: int, rating: int, overrideBlackmark: bool)
    requires key in Defaults
    ensures Score(cfg[key := 0.0], eta, completedAt, rating, overrideBlackmark)
         == Score(cfg[key := Defaults[key]], eta, completedAt, rating, overrideBlackmark)
  {
  }
}
