/** The client-tick gate of `TabPlayerDistance`: while the mod is enabled a tick
    counter runs, and the tab list is recoloured on every tick whose count is a
    multiple of the configured interval; while it is disabled every tick restores
    the vanilla names. */
module Ticking {
  import opened Wrappers
  import opened JavaLang
  import opened Settings
  import opened TabList

  /** `tickCounter++` on a Java `int`: one more, except that the largest value
      wraps round to the smallest. */
  function NextCounter(counter: Int32): (r: Int32)
    ensures counter < MaxInt32 ==> r == counter + 1
    ensures counter == MaxInt32 ==> r == MinInt32
  {
    Wrap32(counter as int + 1)
  }

  /** `Math.max(1, updateIntervalTicks)`: the interval actually used, never below one. */
  function Period(interval: Int32): (p: int)
    ensures p >= 1 && p >= interval
    ensures p == interval || p == 1
  {
    if interval >= 1 then interval else 1
  }

  /** The update condition: the counter leaves no (truncating) remainder. */
  predicate Due(counter: Int32, interval: Int32) {
    Rem(counter, Period(interval)) == 0
  }

  /** An interval of one or less makes every tick an update tick. */
  lemma SmallIntervalAlwaysDue(counter: Int32, interval: Int32)
    requires interval <= 1
    ensures Due(counter, interval)
  {
    assert Period(interval) == 1;
  }

  /** Whether a tick updates repeats with the interval. */
  lemma DueRepeats(counter: Int32, interval: Int32)
    requires counter as int + Period(interval) <= MaxInt32
    ensures var later: Int32 := counter as int + Period(interval);
      Due(later, interval) <==> Due(counter, interval)
  {
    var p := Period(interval);
    var later: Int32 := counter as int + p;
    RemainderUnique(later, p, counter / p + 1, counter % p);
    RemZeroIffDivisible(counter, p);
    RemZeroIffDivisible(later, p);
  }

  /** After an update tick, none of the next `Period(interval) - 1` ticks updates. */
  lemma NotDueInBetween(counter: Int32, interval: Int32, j: int)
    requires Due(counter, interval) && 0 < j < Period(interval)
    requires counter as int + j <= MaxInt32
    ensures var later: Int32 := counter as int + j;
      !Due(later, interval)
  {
    var p := Period(interval);
    var later: Int32 := counter as int + j;
    RemZeroIffDivisible(counter, p);
    RemainderUnique(later, p, counter / p, j);
    RemZeroIffDivisible(later, p);
  }

  /** Across the `int` wrap two updates can come closer than the interval: with an
      interval of 7 the counter 2147483646 is an update tick, and so is the counter
      four ticks later, -2147483646. */
  lemma WrapShortensInterval()
    ensures var c0: Int32 := MaxInt32 - 1;
      var c4 := NextCounter(NextCounter(NextCounter(NextCounter(c0))));
      Due(c0, 7) && c4 == MinInt32 + 2 && Due(c4, 7)
  {
    var c0: Int32 := MaxInt32 - 1;
    assert c0 == 7 * 306783378;
    assert NextCounter(c0) == MaxInt32;
    assert NextCounter(MaxInt32) == MinInt32;
  }

  /** The mod's client-side state: the configuration it reads (the static `CONFIG`)
      and its tick counter. */
  class TabPlayerDistance {
    const config: Config
    var tickCounter: Int32

    constructor (config: Config)
      ensures this.config == config && tickCounter == 0
    {
      this.config := config;
      tickCounter := 0;
    }

    /** `onClientTick`: `player` is the local player's profile id (`None` when there
        is no player), `world` the loaded players' distances (`None` when there is
        no world) and `list` the player list of the tab overlay. */
    method OnClientTick(player: Option<Uuid>, world: Option<World>, list: array<Entry>)
      modifies this, list
      ensures unchanged(config)
      ensures !config.enabled ==> tickCounter == old(tickCounter)
      ensures !config.enabled ==> list[..] == RestoredList(old(list[..]), player)
      ensures config.enabled ==> tickCounter == NextCounter(old(tickCounter))
      ensures config.enabled && Due(tickCounter, config.updateIntervalTicks)
        ==> list[..] == UpdatedList(old(list[..]), player, world, config.Value())
      ensures config.enabled && !Due(tickCounter, config.updateIntervalTicks)
        ==> list[..] == old(list[..])
    {
      if !config.enabled {
        RestoreVanillaNames(list, player);
        return;
      }
      tickCounter := NextCounter(tickCounter);
      if Rem(tickCounter, Period(config.updateIntervalTicks)) != 0 {
        return;
      }
      UpdateTabList(list, player, world, config.Value());
    }
  }
}
