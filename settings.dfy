/**
 * The mod's configuration: six settings held in the process-wide `CONFIG` object,
 * loaded from and saved to a properties file. The file itself is not modelled;
 * what the code reads and writes is the key/value mapping the file holds.
 */
module Settings {
  import opened Wrappers
  import opened JavaLang
  import opened TextFormatting

  /** A snapshot of the six settings. */
  datatype ConfigValue = ConfigValue(
    enabled: bool,
    updateIntervalTicks: Int32,
    closeColor: Formatting,
    midColor: Formatting,
    farColor: Formatting,
    unloadedColor: Formatting)

  /** The field initialisers of `Config`. */
  const Defaults: ConfigValue := ConfigValue(true, 10, Green, Yellow, Red, Gray)

  /** The contents of a properties file, after `Properties.load`. */
  type Props = map<string, string>

  /** What opening the configuration file can give. */
  datatype ConfigFile =
    | Missing                 // the file does not exist
    | Unreadable              // opening or parsing the file throws
    | Present(props: Props)   // the file was read into `props`

  /** The six settings, named by the order in which loading assigns them. */
  datatype Field = Enabled | UpdateIntervalTicks | CloseColor | MidColor | FarColor | UnloadedColor

  const LoadOrder: seq<Field> := [Enabled, UpdateIntervalTicks, CloseColor, MidColor, FarColor, UnloadedColor]

  /** Where `f` stands in `LoadOrder`. */
  function Position(f: Field): (p: nat)
    ensures p < |LoadOrder| && LoadOrder[p] == f
  {
    match f
    case Enabled => 0
    case UpdateIntervalTicks => 1
    case CloseColor => 2
    case MidColor => 3
    case FarColor => 4
    case UnloadedColor => 5
  }

  /** The property key of a setting. */
  function Key(f: Field): string {
    match f
    case Enabled => "enabled"
    case UpdateIntervalTicks => "updateIntervalTicks"
    case CloseColor => "closeColor"
    case MidColor => "midColor"
    case FarColor => "farColor"
    case UnloadedColor => "unloadedColor"
  }

  /** The text loading uses when the key is absent. */
  function DefaultText(f: Field): string {
    match f
    case Enabled => "true"
    case UpdateIntervalTicks => "10"
    case CloseColor => "GREEN"
    case MidColor => "YELLOW"
    case FarColor => "RED"
    case UnloadedColor => "GRAY"
  }

  /** The value of one setting, whatever its Java type. */
  datatype FieldValue = BoolValue(b: bool) | IntValue(i: Int32) | ColorValue(c: Formatting)

  function Get(c: ConfigValue, f: Field): FieldValue {
    match f
    case Enabled => BoolValue(c.enabled)
    case UpdateIntervalTicks => IntValue(c.updateIntervalTicks)
    case CloseColor => ColorValue(c.closeColor)
    case MidColor => ColorValue(c.midColor)
    case FarColor => ColorValue(c.farColor)
    case UnloadedColor => ColorValue(c.unloadedColor)
  }

  /** Whether `v` has the Java type of setting `f`. */
  predicate Fits(f: Field, v: FieldValue) {
    match f
    case Enabled => v.BoolValue?
    case UpdateIntervalTicks => v.IntValue?
    case _ => v.ColorValue?
  }

  /** Assigns `v` to setting `f`, leaving the other five alone. */
  function Set(c: ConfigValue, f: Field, v: FieldValue): (r: ConfigValue)
    requires Fits(f, v)
    ensures Get(r, f) == v
    ensures forall g :: g != f ==> Get(r, g) == Get(c, g)
  {
    match f
    case Enabled => c.(enabled := v.b)
    case UpdateIntervalTicks => c.(updateIntervalTicks := v.i)
    case CloseColor => c.(closeColor := v.c)
    case MidColor => c.(midColor := v.c)
    case FarColor => c.(farColor := v.c)
    case UnloadedColor => c.(unloadedColor := v.c)
  }

  /** Two snapshots that agree on every setting are equal. */
  lemma SameSettings(a: ConfigValue, b: ConfigValue)
    requires forall f :: Get(a, f) == Get(b, f)
    ensures a == b
  {
    assert Get(a, Enabled) == Get(b, Enabled);
    assert Get(a, UpdateIntervalTicks) == Get(b, UpdateIntervalTicks);
    assert Get(a, CloseColor) == Get(b, CloseColor);
    assert Get(a, MidColor) == Get(b, MidColor);
    assert Get(a, FarColor) == Get(b, FarColor);
    assert Get(a, UnloadedColor) == Get(b, UnloadedColor);
  }

  /** `Properties.getProperty(key, defaultValue)`. */
  function GetProperty(props: Props, key: string, defaultValue: string): string {
    if key in props then props[key] else defaultValue
  }

  /** The text loading parses for `f`. */
  function Text(props: Props, f: Field): string {
    GetProperty(props, Key(f), DefaultText(f))
  }

  /** The parser loading applies to `f`: `Boolean.parseBoolean`, `Integer.parseInt`
      or `Formatting.valueOf`; `None` is the exception the last two can throw. */
  function Parse(f: Field, text: string): (r: Option<FieldValue>)
    ensures f == Enabled ==> r.Some?
    ensures r.Some? ==> Fits(f, r.value)
  {
    match f
    case Enabled => Some(BoolValue(ParseBoolean(text)))
    case UpdateIntervalTicks =>
      (match ParseInt(text) case Some(i) => Some(IntValue(i)) case None => None)
    case _ =>
      (match ValueOf(text) case Some(c) => Some(ColorValue(c)) case None => None)
  }

  /** How saving writes one setting: `Boolean.toString`, `Integer.toString` or `name()`. */
  function Format(v: FieldValue): string {
    match v
    case BoolValue(b) => BoolToString(b)
    case IntValue(i) => IntToString(i)
    case ColorValue(c) => Name(c)
  }

  /** What loading reads for each setting, in `LoadOrder`: the parsed value, or `None`
      where the parser throws. */
  function Readings(props: Props): (rs: seq<Option<FieldValue>>)
    ensures Typed(rs)
  {
    seq(|LoadOrder|, i requires 0 <= i < |LoadOrder| => Parse(LoadOrder[i], Text(props, LoadOrder[i])))
  }

  /** One reading per setting, each of its setting's type. */
  predicate Typed(rs: seq<Option<FieldValue>>) {
    |rs| == |LoadOrder| && forall i :: 0 <= i < |rs| && rs[i].Some? ==> Fits(LoadOrder[i], rs[i].value)
  }

  /** The first position at or after `i` whose reading failed, or `|rs|`. */
  function FirstFailure(rs: seq<Option<FieldValue>>, i: nat): (p: nat)
    requires i <= |rs|
    ensures i <= p <= |rs|
    ensures forall j :: i <= j < p ==> rs[j].Some?
    ensures p < |rs| ==> rs[p].None?
    decreases |rs| - i
  {
    if i == |rs| || rs[i].None? then i else FirstFailure(rs, i + 1)
  }

  /** The position in `LoadOrder` of the first setting whose text does not parse, or
      `|LoadOrder|` when all of them do. */
  function FailurePoint(props: Props): (p: nat)
    ensures p <= |LoadOrder|
    ensures forall f :: Position(f) < p ==> Parse(f, Text(props, f)).Some?
    ensures p < |LoadOrder| ==> Parse(LoadOrder[p], Text(props, LoadOrder[p])).None?
  {
    var rs := Readings(props);
    var p := FirstFailure(rs, 0);
    assert forall f :: Position(f) < p ==> rs[Position(f)].Some?;
    p
  }

  /** The effect of `loadConfig` on an existing file: the settings are assigned one
      after another from their text in `props` (a missing key reads as its default);
      the first parse that throws ends the sequence, and its exception is
      swallowed. */
  function LoadFrom(c: ConfigValue, props: Props): ConfigValue {
    var c := c.(enabled := ParseBoolean(Text(props, Enabled)));
    match ParseInt(Text(props, UpdateIntervalTicks))
    case None => c
    case Some(interval) => LoadColorsFrom(c.(updateIntervalTicks := interval), props)
  }

  /** The tail of `LoadFrom`: the four colour settings, assigned in the same way. */
  function LoadColorsFrom(c: ConfigValue, props: Props): ConfigValue {
    match ValueOf(Text(props, CloseColor))
    case None => c
    case Some(close) =>
      var c := c.(closeColor := close);
      match ValueOf(Text(props, MidColor))
      case None => c
      case Some(mid) =>
        var c := c.(midColor := mid);
        match ValueOf(Text(props, FarColor))
        case None => c
        case Some(far) =>
          var c := c.(farColor := far);
          match ValueOf(Text(props, UnloadedColor))
          case None => c
          case Some(unloaded) => c.(unloadedColor := unloaded)
  }

  /** Assigning the readings from position `i` on, up to the first failed one. */
  function AssignFrom(c: ConfigValue, rs: seq<Option<FieldValue>>, i: nat): ConfigValue
    requires Typed(rs) && i <= |rs|
    decreases |rs| - i
  {
    if i == |rs| then c
    else
      match rs[i]
      case None => c
      case Some(v) => AssignFrom(Set(c, LoadOrder[i], v), rs, i + 1)
  }

  /** Loading as written agrees with assigning the readings in `LoadOrder` up to
      the first failed one. */
  lemma LoadFromInOrder(c: ConfigValue, props: Props)
    ensures LoadFrom(c, props) == AssignFrom(c, Readings(props), 0)
  {
    var c1 := c.(enabled := ParseBoolean(Text(props, Enabled)));
    EnabledStep(c, props);
    match ParseInt(Text(props, UpdateIntervalTicks)) {
      case None => IntervalStop(c1, props);
      case Some(interval) =>
        IntervalStep(c1, props, interval);
        LoadColorsInOrder(c1.(updateIntervalTicks := interval), props);
    }
  }

  lemma LoadColorsInOrder(c: ConfigValue, props: Props)
    ensures LoadColorsFrom(c, props) == AssignFrom(c, Readings(props), 2)
  {
    match ValueOf(Text(props, CloseColor)) {
      case None => ColorStop(c, props, 2, CloseColor);
      case Some(close) =>
        var c3 := c.(closeColor := close);
        ColorStep(c, props, 2, CloseColor, close);
        match ValueOf(Text(props, MidColor)) {
          case None => ColorStop(c3, props, 3, MidColor);
          case Some(mid) =>
            var c4 := c3.(midColor := mid);
            ColorStep(c3, props, 3, MidColor, mid);
            match ValueOf(Text(props, FarColor)) {
              case None => ColorStop(c4, props, 4, FarColor);
              case Some(far) =>
                var c5 := c4.(farColor := far);
                ColorStep(c4, props, 4, FarColor, far);
                match ValueOf(Text(props, UnloadedColor)) {
                  case None => ColorStop(c5, props, 5, UnloadedColor);
                  case Some(unloaded) => ColorStep(c5, props, 5, UnloadedColor, unloaded);
                }
            }
        }
    }
  }

  lemma EnabledStep(c: ConfigValue, props: Props)
    ensures AssignFrom(c, Readings(props), 0)
         == AssignFrom(c.(enabled := ParseBoolean(Text(props, Enabled))), Readings(props), 1)
  {
  }

  lemma IntervalStep(c: ConfigValue, props: Props, interval: Int32)
    requires ParseInt(Text(props, UpdateIntervalTicks)) == Some(interval)
    ensures AssignFrom(c, Readings(props), 1)
         == AssignFrom(c.(updateIntervalTicks := interval), Readings(props), 2)
  {
  }

  lemma ColorStep(c: ConfigValue, props: Props, i: nat, f: Field, col: Formatting)
    requires 2 <= i < |LoadOrder| && LoadOrder[i] == f && ValueOf(Text(props, f)) == Some(col)
    ensures AssignFrom(c, Readings(props), i) == AssignFrom(Set(c, f, ColorValue(col)), Readings(props), i + 1)
  {
  }

  lemma IntervalStop(c: ConfigValue, props: Props)
    requires ParseInt(Text(props, UpdateIntervalTicks)).None?
    ensures AssignFrom(c, Readings(props), 1) == c
  {
  }

  lemma ColorStop(c: ConfigValue, props: Props, i: nat, f: Field)
    requires 2 <= i < |LoadOrder| && LoadOrder[i] == f && ValueOf(Text(props, f)).None?
    ensures AssignFrom(c, Readings(props), i) == c
  {
  }

  lemma {:induction false} AssignFromField(c: ConfigValue, rs: seq<Option<FieldValue>>, i: nat, f: Field)
    requires Typed(rs) && i <= |rs|
    ensures var p, k := FirstFailure(rs, i), Position(f);
      Get(AssignFrom(c, rs, i), f) == if i <= k < p then rs[k].value else Get(c, f)
    decreases |rs| - i
  {
    if i < |rs| && rs[i].Some? {
      AssignFromField(Set(c, LoadOrder[i], rs[i].value), rs, i + 1, f);
    }
  }

  /** Loading, setting by setting: a setting before the first failure takes its parsed
      value, the failing setting and every later one keep their old value. */
  lemma LoadFromField(c: ConfigValue, props: Props, f: Field)
    ensures var p := FailurePoint(props);
      Get(LoadFrom(c, props), f) == if Position(f) < p then Parse(f, Text(props, f)).value else Get(c, f)
  {
    LoadFromInOrder(c, props);
    AssignFromField(c, Readings(props), 0, f);
  }

  /** A missing key never makes loading fail: it reads as its default setting. */
  lemma MissingKeyReadsDefault(props: Props, f: Field)
    requires Key(f) !in props
    ensures Parse(f, Text(props, f)) == Some(Get(Defaults, f))
  {
    assert Text(props, f) == DefaultText(f);
    DefaultTextParses(f);
  }

  /** A missing key gives its setting the default, unless an earlier setting has
      already failed to parse. */
  lemma LoadMissingKey(c: ConfigValue, props: Props, f: Field)
    requires Key(f) !in props
    requires forall g :: Position(g) < Position(f) ==> Parse(g, Text(props, g)).Some?
    ensures Get(LoadFrom(c, props), f) == Get(Defaults, f)
  {
    MissingKeyReadsDefault(props, f);
    assert Position(f) < FailurePoint(props) by {
      var p := FailurePoint(props);
      assert p < |LoadOrder| ==> Position(LoadOrder[p]) == p;
    }
    LoadFromField(c, props, f);
  }

  /** Each default text parses to the corresponding field initialiser. */
  lemma DefaultTextParses(f: Field)
    ensures Parse(f, DefaultText(f)) == Some(Get(Defaults, f))
  {
    match f
    case Enabled =>
    case UpdateIntervalTicks =>
      IntRoundTrip(10);
      assert IntToString(10) == "10";
    case CloseColor => DefaultColorParses(f, Green);
    case MidColor => DefaultColorParses(f, Yellow);
    case FarColor => DefaultColorParses(f, Red);
    case UnloadedColor => DefaultColorParses(f, Gray);
  }

  lemma DefaultColorParses(f: Field, c: Formatting)
    requires f != Enabled && f != UpdateIntervalTicks
    requires DefaultText(f) == Name(c) && Get(Defaults, f) == ColorValue(c)
    ensures Parse(f, DefaultText(f)) == Some(Get(Defaults, f))
  {
    ValueOfName(c);
  }

  /** Loading a file that names none of the keys yields the defaults, whatever the
      settings were before. */
  lemma LoadEmptyGivesDefaults(c: ConfigValue, props: Props)
    requires forall f :: Key(f) !in props
    ensures LoadFrom(c, props) == Defaults
  {
    forall f ensures Parse(f, Text(props, f)).Some? {
      MissingKeyReadsDefault(props, f);
    }
    forall f ensures Get(LoadFrom(c, props), f) == Get(Defaults, f) {
      MissingKeyReadsDefault(props, f);
      LoadFromField(c, props, f);
    }
    SameSettings(LoadFrom(c, props), Defaults);
  }

  /** The six key/value pairs `saveConfig` stores. */
  function Serialize(c: ConfigValue): (props: Props)
    ensures forall f :: Key(f) in props && props[Key(f)] == Format(Get(c, f))
    ensures forall k :: k in props ==> exists f :: Key(f) == k
  {
    map[
      Key(Enabled) := BoolToString(c.enabled),
      Key(UpdateIntervalTicks) := IntToString(c.updateIntervalTicks),
      Key(CloseColor) := Name(c.closeColor),
      Key(MidColor) := Name(c.midColor),
      Key(FarColor) := Name(c.farColor),
      Key(UnloadedColor) := Name(c.unloadedColor)]
  }

  /** Every setting reads back what saving wrote for it. */
  lemma ParseFormat(c: ConfigValue, f: Field)
    ensures Parse(f, Format(Get(c, f))) == Some(Get(c, f))
  {
    match f
    case Enabled => BoolRoundTrip(c.enabled);
    case UpdateIntervalTicks => IntRoundTrip(c.updateIntervalTicks);
    case CloseColor => ValueOfName(c.closeColor);
    case MidColor => ValueOfName(c.midColor);
    case FarColor => ValueOfName(c.farColor);
    case UnloadedColor => ValueOfName(c.unloadedColor);
  }

  /** Saving and then loading reproduces all six settings, whatever they were before
      the load. */
  lemma SaveLoadRoundTrip(before: ConfigValue, c: ConfigValue)
    ensures LoadFrom(before, Serialize(c)) == c
  {
    var props := Serialize(c);
    forall f ensures Parse(f, Text(props, f)) == Some(Get(c, f)) {
      ParseFormat(c, f);
    }
    forall f ensures Get(LoadFrom(before, props), f) == Get(c, f) {
      LoadFromField(before, props, f);
    }
    SameSettings(LoadFrom(before, props), c);
  }

  /** The `CONFIG` object, whose fields loading and the settings screen assign. */
  class Config {
    var enabled: bool
    var updateIntervalTicks: Int32
    var closeColor: Formatting
    var midColor: Formatting
    var farColor: Formatting
    var unloadedColor: Formatting

    function Value(): ConfigValue
      reads this
    {
      ConfigValue(enabled, updateIntervalTicks, closeColor, midColor, farColor, unloadedColor)
    }

    constructor ()
      ensures Value() == Defaults
    {
      enabled, updateIntervalTicks := true, 10;
      closeColor, midColor, farColor, unloadedColor := Green, Yellow, Red, Gray;
    }

    /** `saveConfig`: the key/value pairs written to the file (the write itself, and
        its swallowed IOException, are outside the model). */
    method Save() returns (props: Props)
      ensures props == Serialize(Value())
    {
      props := map[];
      props := props[Key(Enabled) := BoolToString(enabled)];
      props := props[Key(UpdateIntervalTicks) := IntToString(updateIntervalTicks)];
      props := props[Key(CloseColor) := Name(closeColor)];
      props := props[Key(MidColor) := Name(midColor)];
      props := props[Key(FarColor) := Name(farColor)];
      props := props[Key(UnloadedColor) := Name(unloadedColor)];
    }

    /** `loadConfig`. A missing file is created from the current settings; a file that
        cannot be read changes nothing; otherwise the settings are assigned in order
        until the first parse failure, whose exception is swallowed. */
    method Load(file: ConfigFile) returns (written: Option<Props>)
      modifies this
      ensures file.Missing? ==> Value() == old(Value()) && written == Some(Serialize(Value()))
      ensures file.Unreadable? ==> Value() == old(Value()) && written == None
      ensures file.Present? ==> Value() == LoadFrom(old(Value()), file.props) && written == None
    {
      written := None;
      match file {
        case Missing =>
          var props := Save();
          written := Some(props);
        case Unreadable =>
        case Present(props) =>
          enabled := ParseBoolean(Text(props, Enabled));
          var interval := ParseInt(Text(props, UpdateIntervalTicks));
          if interval.None? { return; }
          updateIntervalTicks := interval.value;
          var close := ValueOf(Text(props, CloseColor));
          if close.None? { return; }
          closeColor := close.value;
          var mid := ValueOf(Text(props, MidColor));
          if mid.None? { return; }
          midColor := mid.value;
          var far := ValueOf(Text(props, FarColor));
          if far.None? { return; }
          farColor := far.value;
          var unloaded := ValueOf(Text(props, UnloadedColor));
          if unloaded.None? { return; }
          unloadedColor := unloaded.value;
      }
    }
  }
}
