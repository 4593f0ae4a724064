/**
 * Level and speed progression: how the tick interval and the level counters
 * of the game change as apples are eaten, stated on values, with a closed form
 * for the state reached after any number of apples.
 */
module Levels {
  import opened Options

  /**
   * The game's fixed configuration: world size in cells, the initial and the
   * floor tick interval, the amount the interval drops per level and the
   * number of apples per level.
   */
  datatype Constants = Constants(
    worldWidth: int,
    worldHeight: int,
    maxUpdateDelay: int,
    minUpdateDelay: int,
    updateDelayDecrement: int,
    applesPerLevel: int)
  {
    /** What the game relies on: a world with an inside, and a descending tick interval. */
    predicate Valid() {
      worldWidth >= 3 && worldHeight >= 3 &&
      0 < minUpdateDelay <= maxUpdateDelay &&
      updateDelayDecrement > 0 &&
      applesPerLevel > 0
    }
  }

  /** The game's level counters; `lastLevelUp` is the time of the latest level-up, if any. */
  datatype Progress = Progress(updateDelay: int, applesEaten: int, lastLevelUp: Option<real>, isMaxLevel: bool)

  function MaxOf(a: int, b: int): int {
    if a >= b then a else b
  }

  /** The counters a reset leaves. */
  function Initial(k: Constants): (r: Progress)
    ensures r.updateDelay == k.maxUpdateDelay && r.applesEaten == 0
    ensures r.lastLevelUp.None? && !r.isMaxLevel
  {
    Progress(k.maxUpdateDelay, 0, None, false)
  }

  /** The interval lies between the floor and the initial value, and is at the floor once the top level is reached. */
  predicate InRange(k: Constants, p: Progress) {
    p.applesEaten >= 0 &&
    k.minUpdateDelay <= p.updateDelay <= k.maxUpdateDelay &&
    (p.isMaxLevel ==> p.updateDelay == k.minUpdateDelay)
  }

  /**
   * The counters after one more apple, eaten on the tick stamped `lastUpdated`:
   * the count rises by one; on every `applesPerLevel`-th apple, until the top
   * level, the interval drops by the decrement but not below the floor, the
   * level-up time is recorded, and the top level is reached when the floor is.
   */
  function AfterApple(k: Constants, p: Progress, lastUpdated: Option<real>): (r: Progress)
    requires k.Valid()
    ensures r.applesEaten == p.applesEaten + 1
    ensures InRange(k, p) ==> r.updateDelay <= p.updateDelay
    ensures r.updateDelay != p.updateDelay ==> r.applesEaten % k.applesPerLevel == 0 && !p.isMaxLevel
    ensures p.isMaxLevel ==> r.isMaxLevel && r.updateDelay == p.updateDelay && r.lastLevelUp == p.lastLevelUp
    ensures r.isMaxLevel && !p.isMaxLevel ==> r.updateDelay == k.minUpdateDelay && r.applesEaten % k.applesPerLevel == 0
    ensures InRange(k, p) ==> InRange(k, r)
  {
    var eaten := p.applesEaten + 1;
    if eaten % k.applesPerLevel == 0 && !p.isMaxLevel then
      var delay := MaxOf(p.updateDelay - k.updateDelayDecrement, k.minUpdateDelay);
      Progress(delay, eaten, lastUpdated, delay == k.minUpdateDelay)
    else
      p.(applesEaten := eaten)
  }

  /** The counters after one apple per stamp, in order. */
  function AfterApples(k: Constants, p: Progress, stamps: seq<Option<real>>): (r: Progress)
    requires k.Valid()
    ensures r.applesEaten == p.applesEaten + |stamps|
    decreases |stamps|
  {
    if stamps == [] then p
    else AfterApple(k, AfterApples(k, p, stamps[..|stamps| - 1]), stamps[|stamps| - 1])
  }

  // ---------------------------------------------------------------- closed form

  /** The interval once `eaten` apples are eaten from a reset: one decrement per completed level, down to the floor. */
  function DelayAfter(k: Constants, eaten: int): int
    requires k.Valid()
  {
    MaxOf(k.maxUpdateDelay - (eaten / k.applesPerLevel) * k.updateDelayDecrement, k.minUpdateDelay)
  }

  /** The top level is reached once at least one level is complete and the decrements reach the floor. */
  predicate MaxLevelAfter(k: Constants, eaten: int)
    requires k.Valid()
  {
    eaten / k.applesPerLevel >= 1 &&
    k.maxUpdateDelay - (eaten / k.applesPerLevel) * k.updateDelayDecrement <= k.minUpdateDelay
  }

  /** The counters agree with the closed form for their apple count. */
  predicate Reached(k: Constants, p: Progress)
    requires k.Valid()
  {
    p.applesEaten >= 0 &&
    p.updateDelay == DelayAfter(k, p.applesEaten) &&
    p.isMaxLevel == MaxLevelAfter(k, p.applesEaten)
  }

  /** One more apple completes a level exactly when the new count is a multiple. */
  lemma DivStep(n: int, d: int)
    requires n >= 0 && d > 0
    ensures (n + 1) % d == 0 ==> (n + 1) / d == n / d + 1
    ensures (n + 1) % d != 0 ==> (n + 1) / d == n / d
  {
    var q, r := n / d, n % d;
    assert n == d * q + r && 0 <= r < d;
    if r == d - 1 {
      assert n + 1 == d * (q + 1);
      DivUnique(n + 1, d, q + 1, 0);
    } else {
      assert n + 1 == d * q + (r + 1);
      DivUnique(n + 1, d, q, r + 1);
    }
  }

  lemma DivUnique(n: int, d: int, q: int, r: int)
    requires d > 0 && 0 <= r < d && n == d * q + r
    ensures n / d == q && n % d == r
  {
    var q0, r0 := n / d, n % d;
    assert n == d * q0 + r0 && 0 <= r0 < d;
    assert d * (q - q0) == r0 - r;
    MulAway(d, q - q0);
  }

  /** A nonzero multiple of `d` is at least `d` away from zero. */
  lemma {:induction false} MulAway(d: int, m: int)
    requires d > 0
    ensures m >= 1 ==> d * m >= d
    ensures m <= -1 ==> d * m <= -d
    decreases if m >= 0 then m else -m
  {
    if m > 1 {
      MulAway(d, m - 1);
      assert d * m == d * (m - 1) + d;
    } else if m < -1 {
      MulAway(d, m + 1);
      assert d * m == d * (m + 1) - d;
    }
  }

  lemma DecrementStep(k: Constants, levels: int)
    requires k.Valid()
    ensures (levels + 1) * k.updateDelayDecrement == levels * k.updateDelayDecrement + k.updateDelayDecrement
  {
  }

  /** The closed form is kept by every apple. */
  lemma ReachedStep(k: Constants, p: Progress, lastUpdated: Option<real>)
    requires k.Valid() && Reached(k, p)
    ensures Reached(k, AfterApple(k, p, lastUpdated))
  {
    var n := p.applesEaten;
    var levels := n / k.applesPerLevel;
    DivStep(n, k.applesPerLevel);
    DecrementStep(k, levels);
  }

  /** The counters a reset leaves agree with the closed form. */
  lemma InitialReached(k: Constants)
    requires k.Valid()
    ensures Reached(k, Initial(k))
  {
  }

  /** Counters in the closed form stay in range. */
  lemma ReachedInRange(k: Constants, p: Progress)
    requires k.Valid() && Reached(k, p)
    ensures InRange(k, p)
  {
    var levels := p.applesEaten / k.applesPerLevel;
    assert levels >= 0;
    assert levels * k.updateDelayDecrement >= 0;
  }

  /**
   * From a reset, after one apple per stamp the interval is the initial one less
   * one decrement per completed level, but never below the floor, and the top
   * level is reached exactly when a completed level lands on the floor.
   */
  lemma {:induction false} LevelFormula(k: Constants, p: Progress, stamps: seq<Option<real>>)
    requires k.Valid() && Reached(k, p)
    ensures Reached(k, AfterApples(k, p, stamps))
    decreases |stamps|
  {
    if stamps != [] {
      LevelFormula(k, p, stamps[..|stamps| - 1]);
      ReachedStep(k, AfterApples(k, p, stamps[..|stamps| - 1]), stamps[|stamps| - 1]);
    }
  }

  /** Apples never raise the interval, and counters in range stay in range. */
  lemma {:induction false} DelayNeverIncreases(k: Constants, p: Progress, stamps: seq<Option<real>>)
    requires k.Valid() && InRange(k, p)
    ensures AfterApples(k, p, stamps).updateDelay <= p.updateDelay
    ensures InRange(k, AfterApples(k, p, stamps))
    decreases |stamps|
  {
    if stamps != [] {
      DelayNeverIncreases(k, p, stamps[..|stamps| - 1]);
    }
  }

  /** Once the top level is reached, no apple changes the interval or the last level-up time. */
  lemma {:induction false} MaxLevelIsFinal(k: Constants, p: Progress, stamps: seq<Option<real>>)
    requires k.Valid() && p.isMaxLevel
    ensures var r := AfterApples(k, p, stamps);
      r.isMaxLevel && r.updateDelay == p.updateDelay && r.lastLevelUp == p.lastLevelUp
    decreases |stamps|
  {
    if stamps != [] {
      MaxLevelIsFinal(k, p, stamps[..|stamps| - 1]);
    }
  }
}
