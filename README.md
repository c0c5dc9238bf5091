# TabPlayerDistance in Dafny

TabPlayerDistance is a client-side Minecraft (Fabric) mod. It colours every name in the
tab player list by how far away that player is:
- close (at most 32 blocks);
- mid (at most 96 blocks);
- far;
- unloaded, when the player's entity is not in the client world.

This project models the mod's logic, all of which lives in `TabPlayerDistance.java`:

- **Tick gate (`onClientTick`).** While the mod is disabled, every tick clears the
  display-name overrides and leaves the tick counter alone. While it is enabled, every
  tick adds one to the counter, which is a Java `int` that wraps. The tab list is
  recoloured only when the counter is a multiple of `max(1, updateIntervalTicks)`.
  Modelled by `Ticking.TabPlayerDistance.OnClientTick`.
- **Tab-list recolouring (`updateTabList` and `restoreVanillaNames`).** A loop overwrites
  the display name of each entry of the player list in place:
  - the local player's own entry is cleared;
  - every other entry gets its profile name in its tier's colour.

  The player list is an `array<Entry>`. The client world is a map from profile id to
  distance. The tier choice is the pure function `TabList.TierOf`.
- **Configuration (`loadConfig` and `saveConfig`).** The six settings of the `CONFIG`
  object are saved as six key/value pairs and loaded back:
  - a missing key reads as its default;
  - the settings are assigned in order;
  - the first value that fails to parse ends the load, and its exception is swallowed.

  The file is modelled as the mapping it holds. Loading is the class method
  `Settings.Config.Load`, and its effect is the function `Settings.LoadFrom`.

The Java library routines the configuration relies on are modelled, up to the differences listed under "Left out":
- `Integer.parseInt` and `Integer.toString`, and `Boolean.parseBoolean` and
  `Boolean.toString`, in `JavaLang`;
- `Formatting.valueOf` and `Formatting.name()`, over all 22 `Formatting` constants,
  in `TextFormatting`.

`JavaLang` also holds the `int` arithmetic the tick counter uses: `Wrap32` for overflow
and `Rem` for Java's truncating `%`.

The update interval is any `int`: loading accepts whatever `Integer.parseInt` reads, and
the tick gate uses `Math.max(1, updateIntervalTicks)`. An interval of one or less
therefore means an update on every tick (`Ticking.SmallIntervalAlwaysDue`).

The modules, one per file, are:
- `Wrappers` (`wrappers.dfy`);
- `JavaLang` (`java_lang.dfy`);
- `TextFormatting` (`text_formatting.dfy`);
- `Settings` (`settings.dfy`);
- `TabList` (`tab_list.dfy`);
- `Ticking` (`ticking.dfy`).

## Model

All source paths are `src/client/java/com/kinan8088/tabplayerdistance/TabPlayerDistance.java`.

| member | source | states |
|---|---|---|
| JavaLang.Wrap32 | src/client/java/com/kinan8088/tabplayerdistance/TabPlayerDistance.java:91 | Reduction to a Java `int`: the identity on values in range, `MaxInt32 + 1` becomes `MinInt32`, and the result is always congruent to the input modulo 2^32. |
| JavaLang.Rem | src/client/java/com/kinan8088/tabplayerdistance/TabPlayerDistance.java:92 | Java's `%` with a positive divisor: the remainder has the sign of the dividend, is smaller than the divisor in magnitude, and differs from the dividend by a multiple of the divisor, which fixes its value. |
| JavaLang.RemZeroIffDivisible | src/client/java/com/kinan8088/tabplayerdistance/TabPlayerDistance.java:92 | The truncating remainder is zero exactly when the Euclidean one is, so the update test is a plain divisibility test. |
| JavaLang.NatToDigitsValue | src/client/java/com/kinan8088/tabplayerdistance/TabPlayerDistance.java:164 | The decimal digits written for a number denote that number. |
| JavaLang.IntToString | src/client/java/com/kinan8088/tabplayerdistance/TabPlayerDistance.java:164 | `Integer.toString` writes a non-empty string that starts with `-` exactly for negative values. |
| JavaLang.ParseInt | src/client/java/com/kinan8088/tabplayerdistance/TabPlayerDistance.java:150 | `Integer.parseInt`: an optional `-` or `+`, at least one digit and a value in `int` range, otherwise the `NumberFormatException` (`None`). No contract of its own: its properties are `ParseIntAccepts` and `IntRoundTrip`. |
| JavaLang.ParseIntAccepts | src/client/java/com/kinan8088/tabplayerdistance/TabPlayerDistance.java:150 | `Integer.parseInt` accepts only an optional sign followed by at least one digit, and yields a negative value only after a `-`. |
| JavaLang.IntRoundTrip | src/client/java/com/kinan8088/tabplayerdistance/TabPlayerDistance.java:150 | `Integer.parseInt` reads back every `int` that `Integer.toString` writes. |
| JavaLang.ParseBoolean | src/client/java/com/kinan8088/tabplayerdistance/TabPlayerDistance.java:149 | `Boolean.parseBoolean` never fails, and is true exactly for the four-letter strings that spell "true" in any mix of upper and lower case. |
| JavaLang.BoolToString | src/client/java/com/kinan8088/tabplayerdistance/TabPlayerDistance.java:163 | `Boolean.toString`: "true" or "false". No contract of its own: `BoolRoundTrip` states that it is read back. |
| JavaLang.BoolRoundTrip | src/client/java/com/kinan8088/tabplayerdistance/TabPlayerDistance.java:149 | `Boolean.parseBoolean` reads back what `Boolean.toString` writes. |
| TextFormatting.ValueOf | src/client/java/com/kinan8088/tabplayerdistance/TabPlayerDistance.java:151-154 | `Formatting.valueOf` returns only a constant whose `name()` is exactly the given string. |
| TextFormatting.FindByName | src/client/java/com/kinan8088/tabplayerdistance/TabPlayerDistance.java:151-154 | The search through the constants returns only a constant with the given name. |
| TextFormatting.FindByNameFails | src/client/java/com/kinan8088/tabplayerdistance/TabPlayerDistance.java:151-154 | A failed search means no remaining constant has that name. |
| TextFormatting.ValueOfFails | src/client/java/com/kinan8088/tabplayerdistance/TabPlayerDistance.java:151-154 | `valueOf` throws (here `None`) exactly when no constant has that name. |
| TextFormatting.ValueOfName | src/client/java/com/kinan8088/tabplayerdistance/TabPlayerDistance.java:151-154 | `valueOf` reads back every constant that `name()` writes. |
| TextFormatting.Name | src/client/java/com/kinan8088/tabplayerdistance/TabPlayerDistance.java:165-168 | `Formatting.name()`, the constant's identifier. No contract of its own: `NameInjective` states that no two constants share a name and `ValueOfName` that `valueOf` reads it back. |
| Settings.Set | src/client/java/com/kinan8088/tabplayerdistance/TabPlayerDistance.java:149-154 | Assigning one setting gives it the new value and leaves the other five unchanged. |
| Settings.Parse | src/client/java/com/kinan8088/tabplayerdistance/TabPlayerDistance.java:149-154 | Parsing `enabled` never fails, and every parsed value has its setting's Java type. |
| Settings.GetProperty | src/client/java/com/kinan8088/tabplayerdistance/TabPlayerDistance.java:149 | `Properties.getProperty(key, default)`: the stored value when the key is present, the default otherwise. No contract of its own: `MissingKeyReadsDefault` states the missing-key case. |
| Settings.FirstFailure | src/client/java/com/kinan8088/tabplayerdistance/TabPlayerDistance.java:149-156 | The position of the first failed reading: every reading before it succeeded, and the one at it failed. |
| Settings.FailurePoint | src/client/java/com/kinan8088/tabplayerdistance/TabPlayerDistance.java:149-156 | The setting whose parse throws first, in load order: every earlier setting parses, and this one does not. |
| Settings.LoadFrom | src/client/java/com/kinan8088/tabplayerdistance/TabPlayerDistance.java:147-157 | The settings after `loadConfig` reads a file: `enabled` always assigned, then the interval and each colour in turn until the first parse that throws. No contract of its own: `LoadFromInOrder`, `LoadFromField`, `LoadMissingKey`, `LoadEmptyGivesDefaults` and `SaveLoadRoundTrip` state its properties. |
| Settings.LoadColorsFrom | src/client/java/com/kinan8088/tabplayerdistance/TabPlayerDistance.java:151-157 | The four colour assignments of `LoadFrom`. No contract of its own: `LoadColorsInOrder` relates it to in-order assignment. |
| Settings.LoadFromInOrder | src/client/java/com/kinan8088/tabplayerdistance/TabPlayerDistance.java:149-156 | Loading as written equals assigning the parsed settings one by one, in key order, up to the first failure. |
| Settings.LoadColorsInOrder | src/client/java/com/kinan8088/tabplayerdistance/TabPlayerDistance.java:151-156 | The same equivalence for the four colour assignments. |
| Settings.AssignFromField | src/client/java/com/kinan8088/tabplayerdistance/TabPlayerDistance.java:149-156 | Under in-order assignment, a setting before the first failure takes its reading and every other setting keeps its value. |
| Settings.LoadFromField | src/client/java/com/kinan8088/tabplayerdistance/TabPlayerDistance.java:149-156 | Partial load: settings before the first failing parse take their parsed values; the failing setting and all later ones keep their previous values. |
| Settings.MissingKeyReadsDefault | src/client/java/com/kinan8088/tabplayerdistance/TabPlayerDistance.java:149-154 | A missing key reads as its default text, and that text parses to the field's initialiser (true, 10, GREEN, YELLOW, RED, GRAY). |
| Settings.DefaultTextParses | src/client/java/com/kinan8088/tabplayerdistance/TabPlayerDistance.java:36-41 | Each `getProperty` default parses to the matching `Config` initialiser. |
| Settings.LoadMissingKey | src/client/java/com/kinan8088/tabplayerdistance/TabPlayerDistance.java:149-156 | A missing key gives its setting the default, provided no earlier setting failed to parse. |
| Settings.LoadEmptyGivesDefaults | src/client/java/com/kinan8088/tabplayerdistance/TabPlayerDistance.java:149-154 | Loading a file with none of the six keys gives exactly the default configuration, whatever the settings were before. |
| Settings.Serialize | src/client/java/com/kinan8088/tabplayerdistance/TabPlayerDistance.java:160-168 | Saving writes all six keys, each with its setting's string form, and no other key. |
| Settings.ParseFormat | src/client/java/com/kinan8088/tabplayerdistance/TabPlayerDistance.java:149-154 | Each setting's saved string parses back to the setting. |
| Settings.SaveLoadRoundTrip | src/client/java/com/kinan8088/tabplayerdistance/TabPlayerDistance.java:139-168 | Loading what saving wrote reproduces all six settings, whatever the settings were before the load. |
| Settings.Config.constructor | src/client/java/com/kinan8088/tabplayerdistance/TabPlayerDistance.java:35-42 | A new `Config` holds the defaults. |
| Settings.Config.Save | src/client/java/com/kinan8088/tabplayerdistance/TabPlayerDistance.java:160-168 | `saveConfig` builds exactly the mapping `Serialize` describes. |
| Settings.Config.Load | src/client/java/com/kinan8088/tabplayerdistance/TabPlayerDistance.java:139-158 | `loadConfig` on a missing file: the settings are unchanged and the current settings are saved. On an unreadable file: the settings are unchanged. Otherwise the new settings are `LoadFrom` of the old ones. |
| TabList.DistanceTo | src/client/java/com/kinan8088/tabplayerdistance/TabPlayerDistance.java:109-113 | A distance exists exactly for players loaded in the world, and it is their recorded distance. |
| TabList.TierOf | src/client/java/com/kinan8088/tabplayerdistance/TabPlayerDistance.java:53-54 | Close iff d ≤ 32; mid iff 32 < d ≤ 96; far iff d > 96; unloaded iff there is no target. |
| TabList.TierColor | src/client/java/com/kinan8088/tabplayerdistance/TabPlayerDistance.java:115-124 | The configured colour of each tier: `closeColor`, `midColor`, `farColor`, `unloadedColor`. No contract of its own: `Recolored` states the colour each entry gets. |
| TabList.Recolored | src/client/java/com/kinan8088/tabplayerdistance/TabPlayerDistance.java:104-126 | Id and name are kept. The local player's entry is cleared. Any other entry shows exactly its profile name, in the colour of its tier. |
| TabList.RecoloredAll | src/client/java/com/kinan8088/tabplayerdistance/TabPlayerDistance.java:102-127 | Same length as the list, and each entry is recoloured in its place. |
| TabList.ClearedAll | src/client/java/com/kinan8088/tabplayerdistance/TabPlayerDistance.java:132-134 | Same length as the list, and each entry in its place has its override cleared. |
| TabList.UpdatedList | src/client/java/com/kinan8088/tabplayerdistance/TabPlayerDistance.java:99-128 | The list after `updateTabList`: unchanged with no player or no world, every entry recoloured otherwise. No contract of its own: `UpdateTabList` is proved against it and the `Update…` lemmas state its properties. |
| TabList.RestoredList | src/client/java/com/kinan8088/tabplayerdistance/TabPlayerDistance.java:130-135 | The list after `restoreVanillaNames`: unchanged with no player, every override cleared otherwise. No contract of its own: `RestoreVanillaNames` is proved against it and `RestoreClearsAll`, `RestoreAfterUpdate` state its properties. |
| TabList.UpdateKeepsProfiles | src/client/java/com/kinan8088/tabplayerdistance/TabPlayerDistance.java:99-128 | An update changes display names only: length, order, ids and names stay. |
| TabList.UpdateOverrides | src/client/java/com/kinan8088/tabplayerdistance/TabPlayerDistance.java:104-126 | After an update, an entry has no override exactly when it is the local player's. Every other entry's override text is its profile name. |
| TabList.UpdateIgnoresOldOverrides | src/client/java/com/kinan8088/tabplayerdistance/TabPlayerDistance.java:102-127 | The result of an update does not depend on the overrides the list held before. |
| TabList.UpdateIdempotent | src/client/java/com/kinan8088/tabplayerdistance/TabPlayerDistance.java:99-128 | Updating twice with the same player, world and settings is the same as updating once. |
| TabList.RestoreClearsAll | src/client/java/com/kinan8088/tabplayerdistance/TabPlayerDistance.java:130-135 | With a local player, restoring leaves ids and names as they were and no override at all. Restoring again changes nothing. |
| TabList.RestoreAfterUpdate | src/client/java/com/kinan8088/tabplayerdistance/TabPlayerDistance.java:99-135 | Restoring after an update gives the same list as restoring without the update. |
| TabList.UpdateTabList | src/client/java/com/kinan8088/tabplayerdistance/TabPlayerDistance.java:99-128 | The in-place loop leaves the array equal to `UpdatedList` of its old contents: unchanged with no player or no world, recoloured otherwise. |
| TabList.RestoreVanillaNames | src/client/java/com/kinan8088/tabplayerdistance/TabPlayerDistance.java:130-135 | The in-place loop leaves the array equal to `RestoredList` of its old contents: unchanged with no player, every override cleared otherwise. |
| Ticking.NextCounter | src/client/java/com/kinan8088/tabplayerdistance/TabPlayerDistance.java:91 | `tickCounter++` adds one, except that `MaxInt32` wraps to `MinInt32`. |
| Ticking.Period | src/client/java/com/kinan8088/tabplayerdistance/TabPlayerDistance.java:92 | `Math.max(1, interval)`: at least 1 and at least the interval, and equal to one of the two. |
| Ticking.Due | src/client/java/com/kinan8088/tabplayerdistance/TabPlayerDistance.java:92 | The update test `tickCounter % Math.max(1, interval) == 0` with Java's `%`. No contract of its own: `SmallIntervalAlwaysDue`, `DueRepeats`, `NotDueInBetween` and `WrapShortensInterval` state its behaviour. |
| Ticking.SmallIntervalAlwaysDue | src/client/java/com/kinan8088/tabplayerdistance/TabPlayerDistance.java:92 | An interval of 1 or less makes every tick an update tick. |
| Ticking.DueRepeats | src/client/java/com/kinan8088/tabplayerdistance/TabPlayerDistance.java:92 | While the counter does not wrap, whether a tick updates repeats with the interval. |
| Ticking.NotDueInBetween | src/client/java/com/kinan8088/tabplayerdistance/TabPlayerDistance.java:92 | While the counter does not wrap, none of the `interval - 1` ticks after an update tick updates, so updates come exactly once per interval. |
| Ticking.WrapShortensInterval | src/client/java/com/kinan8088/tabplayerdistance/TabPlayerDistance.java:91-92 | Across the `int` wrap two updates can come closer than the interval: with interval 7 the counter 2147483646 updates, and so does the counter four ticks later, -2147483646. |
| Ticking.TabPlayerDistance.constructor | src/client/java/com/kinan8088/tabplayerdistance/TabPlayerDistance.java:59 | The tick counter starts at 0. |
| Ticking.TabPlayerDistance.OnClientTick | src/client/java/com/kinan8088/tabplayerdistance/TabPlayerDistance.java:81-95 | When disabled: the counter is unchanged and the list is restored (a no-op without a player). When enabled: the counter takes its next value, and the list is updated exactly when the new counter is divisible by `max(1, interval)`, otherwise left untouched. The configuration never changes. |

## Left out

- The key binding and the `wasPressed` loop that opens the settings screen. These are host input handling.
- The `ConfigScreen` class: its widgets, layout and scaled title rendering. This is user interface.
- File I/O and the properties-file syntax. `Files.exists`, `Properties.load` and `Properties.store` are abstracted:
  - a file is missing, unreadable, or the key/value mapping it holds;
  - saving returns the mapping instead of writing it;
  - a failure while writing (its `IOException` is swallowed) is not modelled.
- The config path from `FabricLoader` and the registration of the tick handler in `onInitializeClient`. These are host plumbing.
- Entity lookup and `distanceTo`. The world is the distance to each loaded player, given as an exact real number, so float rounding and NaN are not modelled.
- `Text`/`Formatting` rendering. An override is a pair of a literal text and one `Formatting`.
- JavaLang.ParseInt: accepts ASCII decimal digits only. Java's `Integer.parseInt` also accepts other Unicode decimal digits.
- JavaLang.ParseBoolean: compares with "true" by folding ASCII letters only. Java's `equalsIgnoreCase` folds through `Character.toUpperCase` and `Character.toLowerCase`, which the model does not reproduce for non-ASCII characters.
- The settings screen's assignments to `CONFIG` (its enable toggle and colour dropdowns), which run on the client thread between ticks. The model takes the configuration a tick reads as given.
