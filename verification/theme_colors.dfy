/** The colour theme of app/composables/useThemeColors.ts: a primary and an accent colour,
    each with its "r, g, b" form for CSS variables, either drawn from a fixed palette (the
    accent eight places after the primary) or given by the caller.

    `Math.random()` is the `draw` parameter, already scaled to a palette index, and Nuxt's
    `useState` is a map from key to value in which the first value stored under a key stays. */
module ThemeColors {
  import opened Results
  import opened JsText
  import opened JsNumber
  import opened ColorCodec

  /** The seventeen palette colours, in order. */
  const Palette: seq<string> := [
    "#f87171", "#fb923c", "#fbbf24", "#facc15", "#a3e635", "#4ade80", "#34d399", "#2dd4bf",
    "#22d3ee", "#38bdf8", "#60a5fa", "#818cf8", "#a78bfa", "#c084fc", "#e879f9", "#f472b6",
    "#fb7185"]

  const DefaultColor := "#3b82f6"
  const DefaultAccentColor := "#10b981"
  const RandomColorFallbackRgb := "75, 85, 99"
  const FixedColorFallbackRgb := "59, 130, 246"
  const AccentFallbackRgb := "16, 185, 129"

  /** How far along the palette the accent sits from the primary colour. */
  const AccentOffset := 8

  /** The caller's options; an absent field takes its default. */
  datatype ThemeOptions = ThemeOptions(
    useRandomColors: Option<bool>,
    fixedColor: Option<string>,
    fixedAccentColor: Option<string>)

  /** The four values the composable exposes. */
  datatype Theme = Theme(color: string, colorRgb: string, accentColor: string, accentColorRgb: string)

  /** The index of the accent colour for a primary index. */
  function AccentIndex(i: nat): (j: nat)
    requires i < |Palette|
    ensures j < |Palette| && j != i
  {
    (i + AccentOffset) % |Palette|
  }

  /** The theme computed before it is handed to useState. */
  function ChooseTheme(options: ThemeOptions, draw: nat): (t: Theme)
    requires draw < |Palette|
    ensures options.useRandomColors == Some(true) ==>
      t.color == Palette[draw] && t.accentColor == Palette[AccentIndex(draw)]
    ensures options.useRandomColors != Some(true) ==>
      && t.color == (if options.fixedColor.Some? then options.fixedColor.value else DefaultColor)
      && t.accentColor == (if options.fixedAccentColor.Some? then options.fixedAccentColor.value else DefaultAccentColor)
    ensures IsHexColor(t.color) ==> Some(t.colorRgb) == HexToRgb(t.color)
    ensures !IsHexColor(t.color) ==>
      t.colorRgb == if options.useRandomColors == Some(true) then RandomColorFallbackRgb else FixedColorFallbackRgb
    ensures IsHexColor(t.accentColor) ==> Some(t.accentColorRgb) == HexToRgb(t.accentColor)
    ensures !IsHexColor(t.accentColor) ==> t.accentColorRgb == AccentFallbackRgb
  {
    if options.useRandomColors == Some(true) then
      var primary := Palette[draw];
      var accent := Palette[AccentIndex(draw)];
      Theme(primary, OrElse(HexToRgb(primary), RandomColorFallbackRgb),
            accent, OrElse(HexToRgb(accent), AccentFallbackRgb))
    else
      var primary := if options.fixedColor.Some? then options.fixedColor.value else DefaultColor;
      var accent := if options.fixedAccentColor.Some? then options.fixedAccentColor.value else DefaultAccentColor;
      Theme(primary, OrElse(HexToRgb(primary), FixedColorFallbackRgb),
            accent, OrElse(HexToRgb(accent), AccentFallbackRgb))
  }

  /** `x || fallback` for a string-or-null: the value when it is a non-empty string, else
      the fallback. */
  function OrElse(x: Option<string>, fallback: string): (r: string)
    ensures r == fallback || x == Some(r)
    ensures x.Some? && x.value != "" ==> r == x.value
    ensures r == "" ==> fallback == ""
  {
    if x.Some? && x.value != "" then x.value else fallback
  }

  /** useState(key, init): the value already stored under the key, else `init`, which is
      then stored. Each of the four keys the composable uses is one slot. */
  function UseState(slot: Option<string>, init: string): (r: (Option<string>, string))
    ensures r.0 == Some(r.1)
    ensures slot.Some? ==> r.1 == slot.value
    ensures slot.None? ==> r.1 == init
  {
    match slot
    case Some(v) => (slot, v)
    case None => (Some(init), init)
  }

  /** The shared state under the keys "color", "colorRgb", "accentColor" and "accentColorRgb". */
  datatype ThemeState = ThemeState(
    color: Option<string>,
    colorRgb: Option<string>,
    accentColor: Option<string>,
    accentColorRgb: Option<string>)

  /** useThemeColors: choose a theme and publish it through useState. A value already in the
      shared state wins over the one chosen now; afterwards the state holds the theme returned. */
  function UseThemeColors(states: ThemeState, options: ThemeOptions, draw: nat)
    : (r: (ThemeState, Theme))
    requires draw < |Palette|
    ensures r.0 == ThemeState(Some(r.1.color), Some(r.1.colorRgb), Some(r.1.accentColor), Some(r.1.accentColorRgb))
    ensures states.color.Some? ==> r.1.color == states.color.value
    ensures states.colorRgb.Some? ==> r.1.colorRgb == states.colorRgb.value
    ensures states.accentColor.Some? ==> r.1.accentColor == states.accentColor.value
    ensures states.accentColorRgb.Some? ==> r.1.accentColorRgb == states.accentColorRgb.value
    ensures states.color.None? ==> r.1.color == ChooseTheme(options, draw).color
    ensures states.colorRgb.None? ==> r.1.colorRgb == ChooseTheme(options, draw).colorRgb
    ensures states.accentColor.None? ==> r.1.accentColor == ChooseTheme(options, draw).accentColor
    ensures states.accentColorRgb.None? ==> r.1.accentColorRgb == ChooseTheme(options, draw).accentColorRgb
    ensures states == ThemeState(None, None, None, None) ==> r.1 == ChooseTheme(options, draw)
  {
    var chosen := ChooseTheme(options, draw);
    var (s1, color) := UseState(states.color, chosen.color);
    var (s2, colorRgb) := UseState(states.colorRgb, chosen.colorRgb);
    var (s3, accentColor) := UseState(states.accentColor, chosen.accentColor);
    var (s4, accentColorRgb) := UseState(states.accentColorRgb, chosen.accentColorRgb);
    (ThemeState(s1, s2, s3, s4), Theme(color, colorRgb, accentColor, accentColorRgb))
  }

  /** Every palette entry is a colour hexToRgb reads. */
  lemma PaletteIsHex(i: nat)
    requires i < |Palette|
    ensures IsHexColor(Palette[i])
  {
    var s := Palette[i];
    assert |s| == 7 && s[0] == '#';
    assert forall k :: 1 <= k < 7 ==> IsHexDigit(s[k]);
  }

  /** In random mode the fallbacks are never used: both "r, g, b" texts are read from the
      palette colours, and the accent is a different palette colour. */
  lemma RandomThemeFromPalette(options: ThemeOptions, draw: nat)
    requires draw < |Palette| && options.useRandomColors == Some(true)
    ensures var t := ChooseTheme(options, draw);
      && Some(t.colorRgb) == HexToRgb(t.color)
      && Some(t.accentColorRgb) == HexToRgb(t.accentColor)
      && t.color != t.accentColor
  {
    PaletteIsHex(draw);
    PaletteIsHex(AccentIndex(draw));
    PaletteDistinct(draw, AccentIndex(draw));
  }

  /** No colour appears twice in the palette. */
  lemma PaletteDistinct(i: nat, j: nat)
    requires i < |Palette| && j < |Palette| && i != j
    ensures Palette[i] != Palette[j]
  {
    assert forall a, b :: 0 <= a < b < |Palette| ==> Palette[a][1..4] != Palette[b][1..4] || Palette[a][4..] != Palette[b][4..];
    if i < j {
      assert Palette[i][1..4] != Palette[j][1..4] || Palette[i][4..] != Palette[j][4..];
    } else {
      assert Palette[j][1..4] != Palette[i][1..4] || Palette[j][4..] != Palette[i][4..];
    }
  }

  /** Without options the theme is medium blue with an emerald accent, and an unreadable
      fixed colour gets the same "r, g, b" as the default one. */
  lemma DefaultTheme(draw: nat, options: ThemeOptions)
    requires draw < |Palette|
    requires options.useRandomColors != Some(true)
    ensures ChooseTheme(ThemeOptions(None, None, None), draw)
      == Theme(DefaultColor, FixedColorFallbackRgb, DefaultAccentColor, AccentFallbackRgb)
    ensures !IsHexColor(ChooseTheme(options, draw).color) ==>
      ChooseTheme(options, draw).colorRgb == OrElse(HexToRgb(DefaultColor), "")
    ensures !IsHexColor(ChooseTheme(options, draw).accentColor) ==>
      ChooseTheme(options, draw).accentColorRgb == OrElse(HexToRgb(DefaultAccentColor), "")
  {
    BlueRgb();
    EmeraldRgb();
  }
}

