/**
 * The host game's `Formatting` enum (colours and styles a text component can carry),
 * with the two enum operations the configuration file relies on: `name()` when
 * saving and `valueOf(String)` when loading.
 */
module TextFormatting {
  import opened Wrappers

  /** The constants of `Formatting`, in declaration order. */
  datatype Formatting =
    | Black
    | DarkBlue
    | DarkGreen
    | DarkAqua
    | DarkRed
    | DarkPurple
    | Gold
    | Gray
    | DarkGray
    | Blue
    | Green
    | Aqua
    | Red
    | LightPurple
    | Yellow
    | White
    | Obfuscated
    | Bold
    | Strikethrough
    | Underline
    | Italic
    | Reset

  /** `Formatting.name()`: the identifier of the constant. */
  function Name(f: Formatting): string {
    match f
    case Black => "BLACK"
    case DarkBlue => "DARK_BLUE"
    case DarkGreen => "DARK_GREEN"
    case DarkAqua => "DARK_AQUA"
    case DarkRed => "DARK_RED"
    case DarkPurple => "DARK_PURPLE"
    case Gold => "GOLD"
    case Gray => "GRAY"
    case DarkGray => "DARK_GRAY"
    case Blue => "BLUE"
    case Green => "GREEN"
    case Aqua => "AQUA"
    case Red => "RED"
    case LightPurple => "LIGHT_PURPLE"
    case Yellow => "YELLOW"
    case White => "WHITE"
    case Obfuscated => "OBFUSCATED"
    case Bold => "BOLD"
    case Strikethrough => "STRIKETHROUGH"
    case Underline => "UNDERLINE"
    case Italic => "ITALIC"
    case Reset => "RESET"
  }

  /** `Formatting.values()`: every constant, in declaration order. */
  const Values: seq<Formatting> := [
      Black, DarkBlue, DarkGreen, DarkAqua, DarkRed, DarkPurple,
      Gold, Gray, DarkGray, Blue, Green, Aqua,
      Red, LightPurple, Yellow, White, Obfuscated, Bold,
      Strikethrough, Underline, Italic, Reset]

  lemma ValuesComplete(f: Formatting)
    ensures f in Values
  {
  }

  /** Distinct constants have distinct names. */
  lemma NameInjective(f: Formatting, g: Formatting)
    requires Name(f) == Name(g)
    ensures f == g
  {
  }

  /** `Formatting.valueOf(s)`: the constant whose name is exactly `s` (case matters);
      any other string raises IllegalArgumentException, here `None`. */
  function ValueOf(s: string): (r: Option<Formatting>)
    ensures r.Some? ==> Name(r.value) == s
  {
    FindByName(s, 0)
  }

  /** `valueOf` fails exactly on the strings that name no constant. */
  lemma ValueOfFails(s: string)
    ensures ValueOf(s).None? <==> forall f :: Name(f) != s
  {
    if ValueOf(s).None? {
      FindByNameFails(s, 0);
      forall f ensures Name(f) != s {
        ValuesComplete(f);
      }
    }
  }

  /** The first constant at or after index `i` of `Values` named `s`. */
  function FindByName(s: string, i: nat): (r: Option<Formatting>)
    requires i <= |Values|
    ensures r.Some? ==> Name(r.value) == s
    decreases |Values| - i
  {
    if i == |Values| then None
    else if Name(Values[i]) == s then Some(Values[i])
    else FindByName(s, i + 1)
  }

  /** When the search fails, no constant from index `i` on is named `s`. */
  lemma {:induction false} FindByNameFails(s: string, i: nat)
    requires i <= |Values|
    requires FindByName(s, i).None?
    ensures forall j :: i <= j < |Values| ==> Name(Values[j]) != s
    decreases |Values| - i
  {
    if i < |Values| {
      FindByNameFails(s, i + 1);
    }
  }

  /** Whatever `name()` writes, `valueOf` reads back. */
  lemma ValueOfName(f: Formatting)
    ensures ValueOf(Name(f)) == Some(f)
  {
    ValueOfFails(Name(f));
    NameInjective(ValueOf(Name(f)).value, f);
  }
}
