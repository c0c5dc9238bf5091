/** The tab-list recolouring of `TabPlayerDistance`: every entry of the player list
    gets its profile name coloured by how far away that player is, or has its
    override cleared. */
module TabList {
  import opened Wrappers
  import opened TextFormatting
  import opened Settings

  /** A player's profile id (`java.util.UUID`, two 64-bit halves). */
  datatype Uuid = Uuid(mostSigBits: int, leastSigBits: int)

  /** A display-name override: a literal text with one formatting applied. */
  datatype ColoredName = ColoredName(text: string, color: Formatting)

  /** One `PlayerListEntry`: the profile id and name, and the display-name override
      (`None` shows the vanilla name). */
  datatype Entry = Entry(id: Uuid, name: string, displayName: Option<ColoredName>)

  /** The client world seen from the local player: the distance to every player
      entity that is loaded. A profile id outside the map has no loaded entity. */
  type World = map<Uuid, real>

  const CloseDistance: real := 32.0
  const MidDistance: real := 96.0

  datatype Tier = Close | Mid | Far | Unloaded

  /** The distance to the player with profile id `id`, when that player is loaded. */
  function DistanceTo(world: World, id: Uuid): (d: Option<real>)
    ensures d.Some? <==> id in world
    ensures d.Some? ==> d.value == world[id]
  {
    if id in world then Some(world[id]) else None
  }

  /** The distance tier chosen for a target: the bounds are inclusive. */
  function TierOf(distance: Option<real>): (t: Tier)
    ensures t == Unloaded <==> distance.None?
    ensures t == Close <==> distance.Some? && distance.value <= CloseDistance
    ensures t == Mid <==> distance.Some? && CloseDistance < distance.value <= MidDistance
    ensures t == Far <==> distance.Some? && MidDistance < distance.value
  {
    match distance
    case None => Unloaded
    case Some(d) =>
      if d <= CloseDistance then Close
      else if d <= MidDistance then Mid
      else Far
  }

  /** The configured colour of each tier. */
  function TierColor(cfg: ConfigValue, t: Tier): Formatting {
    match t
    case Close => cfg.closeColor
    case Mid => cfg.midColor
    case Far => cfg.farColor
    case Unloaded => cfg.unloadedColor
  }

  /** One pass of the loop body on one entry: the local player's own entry is
      cleared, every other entry shows its profile name in its tier's colour. */
  function Recolored(e: Entry, self: Uuid, world: World, cfg: ConfigValue): (r: Entry)
    ensures r.id == e.id && r.name == e.name
    ensures e.id == self ==> r.displayName.None?
    ensures e.id != self ==> r.displayName.Some? && r.displayName.value.text == e.name
    ensures e.id != self && e.id !in world ==> r.displayName.value.color == cfg.unloadedColor
    ensures e.id != self && e.id in world && world[e.id] <= CloseDistance
      ==> r.displayName.value.color == cfg.closeColor
    ensures e.id != self && e.id in world && CloseDistance < world[e.id] <= MidDistance
      ==> r.displayName.value.color == cfg.midColor
    ensures e.id != self && e.id in world && MidDistance < world[e.id]
      ==> r.displayName.value.color == cfg.farColor
  {
    if e.id == self then e.(displayName := None)
    else
      var tier := TierOf(DistanceTo(world, e.id));
      e.(displayName := Some(ColoredName(e.name, TierColor(cfg, tier))))
  }

  /** `Recolored` applied to every entry, in order. */
  function RecoloredAll(s: seq<Entry>, self: Uuid, world: World, cfg: ConfigValue): (r: seq<Entry>)
    ensures |r| == |s|
    ensures forall i :: 0 <= i < |s| ==> r[i] == Recolored(s[i], self, world, cfg)
  {
    if |s| == 0 then []
    else RecoloredAll(s[..|s| - 1], self, world, cfg) + [Recolored(s[|s| - 1], self, world, cfg)]
  }

  /** The list after `updateTabList`: with no local player or no world nothing
      changes, otherwise every entry is recoloured. */
  function UpdatedList(s: seq<Entry>, player: Option<Uuid>, world: Option<World>, cfg: ConfigValue): seq<Entry> {
    if player.None? || world.None? then s
    else RecoloredAll(s, player.value, world.value, cfg)
  }

  /** Every entry with its override cleared. */
  function ClearedAll(s: seq<Entry>): (r: seq<Entry>)
    ensures |r| == |s|
    ensures forall i :: 0 <= i < |s| ==> r[i] == s[i].(displayName := None)
  {
    if |s| == 0 then []
    else ClearedAll(s[..|s| - 1]) + [s[|s| - 1].(displayName := None)]
  }

  /** The list after `restoreVanillaNames`: unchanged with no local player,
      otherwise every override is cleared. */
  function RestoredList(s: seq<Entry>, player: Option<Uuid>): seq<Entry> {
    if player.None? then s else ClearedAll(s)
  }

  /** Two lists that agree on ids and profile names: they differ at most in their
      display-name overrides. */
  predicate SameProfiles(s: seq<Entry>, t: seq<Entry>) {
    |s| == |t| && forall i :: 0 <= i < |s| ==> s[i].id == t[i].id && s[i].name == t[i].name
  }

  /** Updating changes display names only: length, order, ids and names stay. */
  lemma UpdateKeepsProfiles(s: seq<Entry>, player: Option<Uuid>, world: Option<World>, cfg: ConfigValue)
    ensures SameProfiles(UpdatedList(s, player, world, cfg), s)
  {
  }

  /** After an update with a player and a world, the local player's entry has no
      override and every other entry shows exactly its profile name. */
  lemma UpdateOverrides(s: seq<Entry>, self: Uuid, world: World, cfg: ConfigValue, i: nat)
    requires i < |s|
    ensures var r := UpdatedList(s, Some(self), Some(world), cfg);
      (s[i].id == self <==> r[i].displayName.None?) &&
      (s[i].id != self ==> r[i].displayName.value.text == s[i].name)
  {
  }

  /** The new overrides depend only on ids and profile names, never on the
      overrides the list held before. */
  lemma UpdateIgnoresOldOverrides(s: seq<Entry>, t: seq<Entry>, player: Option<Uuid>, world: Option<World>, cfg: ConfigValue)
    requires player.Some? && world.Some? && SameProfiles(s, t)
    ensures UpdatedList(s, player, world, cfg) == UpdatedList(t, player, world, cfg)
  {
    var r, q := UpdatedList(s, player, world, cfg), UpdatedList(t, player, world, cfg);
    assert forall i :: 0 <= i < |r| ==> r[i] == q[i];
  }

  /** Updating twice with the same inputs is the same as updating once. */
  lemma UpdateIdempotent(s: seq<Entry>, player: Option<Uuid>, world: Option<World>, cfg: ConfigValue)
    ensures var r := UpdatedList(s, player, world, cfg);
      UpdatedList(r, player, world, cfg) == r
  {
    var r := UpdatedList(s, player, world, cfg);
    if player.Some? && world.Some? {
      UpdateKeepsProfiles(s, player, world, cfg);
      UpdateIgnoresOldOverrides(r, s, player, world, cfg);
    }
  }

  /** Restoring with a local player leaves no override at all, and restoring twice
      is restoring once. */
  lemma RestoreClearsAll(s: seq<Entry>, player: Option<Uuid>)
    requires player.Some?
    ensures var r := RestoredList(s, player);
      SameProfiles(r, s) && (forall i :: 0 <= i < |r| ==> r[i].displayName.None?) &&
      RestoredList(r, player) == r
  {
    var r := RestoredList(s, player);
    assert RestoredList(r, player) == r by {
      assert forall i :: 0 <= i < |r| ==> RestoredList(r, player)[i] == r[i];
    }
  }

  /** Restoring after an update gives the same list as restoring straight away:
      the update leaves nothing behind once the overrides are cleared. */
  lemma RestoreAfterUpdate(s: seq<Entry>, player: Option<Uuid>, world: Option<World>, cfg: ConfigValue)
    ensures RestoredList(UpdatedList(s, player, world, cfg), player) == RestoredList(s, player)
  {
    var r := RestoredList(UpdatedList(s, player, world, cfg), player);
    if player.Some? {
      assert forall i :: 0 <= i < |r| ==> r[i] == RestoredList(s, player)[i];
    }
  }

  /** `updateTabList`: overwrites the display name of each entry of the player list
      in place. */
  method UpdateTabList(list: array<Entry>, player: Option<Uuid>, world: Option<World>, cfg: ConfigValue)
    modifies list
    ensures list[..] == UpdatedList(old(list[..]), player, world, cfg)
  {
    if player.None? || world.None? {
      return;
    }
    var self, w := player.value, world.value;
    var i := 0;
    while i < list.Length
      invariant 0 <= i <= list.Length
      invariant forall j :: 0 <= j < i ==> list[j] == Recolored(old(list[j]), self, w, cfg)
      invariant forall j :: i <= j < list.Length ==> list[j] == old(list[j])
    {
      var entry := list[i];
      if entry.id == self {
        list[i] := entry.(displayName := None);
      } else {
        var tier := TierOf(DistanceTo(w, entry.id));
        list[i] := entry.(displayName := Some(ColoredName(entry.name, TierColor(cfg, tier))));
      }
      i := i + 1;
    }
  }

  /** `restoreVanillaNames`: clears every override of the player list in place. */
  method RestoreVanillaNames(list: array<Entry>, player: Option<Uuid>)
    modifies list
    ensures list[..] == RestoredList(old(list[..]), player)
  {
    if player.None? {
      return;
    }
    var i := 0;
    while i < list.Length
      invariant 0 <= i <= list.Length
      invariant forall j :: 0 <= j < i ==> list[j] == old(list[j]).(displayName := None)
      invariant forall j :: i <= j < list.Length ==> list[j] == old(list[j])
    {
      list[i] := list[i].(displayName := None);
      i := i + 1;
    }
  }
}
