/** The tray's preferences (settings.c): seven colours, one boolean, one bounded
    integer and one command string, loaded from a key file with per-kind fallback
    rules, the 100-step colour gradients derived from them, and the rule that an
    emptied text entry reverts to its default. */
module Settings {
  import opened Wrappers
  import opened Machine
  import opened Text

  /** A colour with 16-bit channels, as the toolkit stores it. */
  type uint16 = x: int | 0 <= x < 0x1_0000
  datatype Color = Color(red: uint16, green: uint16, blue: uint16)

  const BLACK: Color := Color(0, 0, 0)
  const WHITE: Color := Color(0xffff, 0xffff, 0xffff)
  const BLUE: Color := Color(0, 0, 0xffff)
  /** The X11 colour named "green" is #00FF00. */
  const GREEN: Color := Color(0, 0xffff, 0)
  const RED: Color := Color(0xffff, 0, 0)

  // ---------------------------------------------------------------- gradients

  const STEPS: nat := 100

  /** Step `i` of 0..99 between two channel values: `(lo*(99-i) + hi*i) / 99`. */
  function MixChannel(lo: uint16, hi: uint16, i: nat): (c: uint16)
    requires i < STEPS
    ensures lo <= hi ==> lo <= c <= hi
    ensures hi <= lo ==> hi <= c <= lo
    ensures i == 0 ==> c == lo
    ensures i == 99 ==> c == hi
  {
    var n := lo * (99 - i) + hi * i;
    MixBounds(lo, hi, i);
    n / 99
  }

  lemma MixBounds(lo: int, hi: int, i: int)
    requires 0 <= i <= 99
    ensures lo <= hi ==> 99 * lo <= lo * (99 - i) + hi * i <= 99 * hi
    ensures hi <= lo ==> 99 * hi <= lo * (99 - i) + hi * i <= 99 * lo
    ensures i == 0 ==> lo * (99 - i) + hi * i == 99 * lo
    ensures i == 99 ==> lo * (99 - i) + hi * i == 99 * hi
  {
    var n := lo * (99 - i) + hi * i;
    assert n - 99 * lo == i * (hi - lo);
    assert 99 * hi - n == (99 - i) * (hi - lo);
    if lo <= hi {
      MulLeMono(i, lo, hi);
      MulLeMono(99 - i, lo, hi);
    } else {
      MulLeMono(i, hi, lo);
      MulLeMono(99 - i, hi, lo);
    }
  }

  function Mix(lo: Color, hi: Color, i: nat): Color
    requires i < STEPS
  {
    Color(MixChannel(lo.red, hi.red, i), MixChannel(lo.green, hi.green, i), MixChannel(lo.blue, hi.blue, i))
  }

  /** Every channel of `c` lies between the same channels of `lo` and `hi`. */
  predicate Between(lo: Color, hi: Color, c: Color) {
    && (lo.red <= c.red <= hi.red || hi.red <= c.red <= lo.red)
    && (lo.green <= c.green <= hi.green || hi.green <= c.green <= lo.green)
    && (lo.blue <= c.blue <= hi.blue || hi.blue <= c.blue <= lo.blue)
  }

  /** The 100 steps from `lo` to `hi`. */
  function GradientOf(lo: Color, hi: Color): (g: seq<Color>)
    ensures |g| == STEPS
    ensures g[0] == lo && g[99] == hi
    ensures forall i :: 0 <= i < STEPS ==> Between(lo, hi, g[i])
  {
    seq(STEPS, i requires 0 <= i < STEPS => Mix(lo, hi, i))
  }

  /** The gradient loop of `preferences_changed` for one colour pair. */
  method Gradient(lo: Color, hi: Color) returns (g: seq<Color>)
    ensures g == GradientOf(lo, hi)
  {
    g := [];
    for i := 0 to STEPS
      invariant |g| == i
      invariant forall j :: 0 <= j < i ==> g[j] == Mix(lo, hi, j)
    {
      g := g + [Mix(lo, hi, i)];
    }
  }

  /** With the lower colour's channels below the upper's, the gradient darkens or
      brightens steadily: channels never step back. */
  lemma MixMonotone(lo: uint16, hi: uint16, i: nat, j: nat)
    requires lo <= hi && i <= j < STEPS
    ensures MixChannel(lo, hi, i) <= MixChannel(lo, hi, j)
  {
    var ni, nj := lo * (99 - i) + hi * i, lo * (99 - j) + hi * j;
    assert nj - ni == (j - i) * (hi - lo);
    MulLeMono(j - i, 0, hi - lo);
  }

  // ---------------------------------------------------------------- text entries

  function Chug(s: string): (r: string)
    ensures |r| <= |s| && r == s[|s| - |r|..]
    ensures AllAsciiSpace(s[..|s| - |r|])
    ensures |r| > 0 ==> !IsAsciiSpace(r[0])
    decreases |s|
  {
    if |s| > 0 && IsAsciiSpace(s[0]) then
      var r := Chug(s[1..]);
      assert s[1..][..|s| - 1 - |r|] == s[1..|s| - |r|];
      r
    else s
  }

  function Chomp(s: string): (r: string)
    ensures |r| <= |s| && r == s[..|r|]
    ensures AllAsciiSpace(s[|r|..])
    ensures |r| > 0 ==> !IsAsciiSpace(r[|r| - 1])
    decreases |s|
  {
    if |s| > 0 && IsAsciiSpace(s[|s| - 1]) then
      var r := Chomp(s[..|s| - 1]);
      assert s[..|s| - 1][|r|..] == s[|r|..|s| - 1];
      r
    else s
  }

  /** `g_strstrip`: the text without leading and trailing whitespace. */
  function Strip(s: string): (r: string)
    ensures exists a, b :: 0 <= a <= b <= |s| && r == s[a..b] && AllAsciiSpace(s[..a]) && AllAsciiSpace(s[b..])
    ensures |r| > 0 ==> !IsAsciiSpace(r[0]) && !IsAsciiSpace(r[|r| - 1])
  {
    var t := Chug(s);
    var r := Chomp(t);
    var a := |s| - |t|;
    SuffixSplit(s, a, |r|);
    assert r == s[a..a + |r|] && AllAsciiSpace(s[..a]) && AllAsciiSpace(s[a + |r|..]);
    r
  }

  /** Cutting the suffix from `a` at `n` is cutting `s` at `a + n`. */
  lemma SuffixSplit<T>(s: seq<T>, a: nat, n: nat)
    requires a + n <= |s|
    ensures s[a..][..n] == s[a..a + n] && s[a..][n..] == s[a + n..]
  {
  }

  /** Stripping twice is stripping once. */
  lemma StripIdempotent(s: string)
    ensures Strip(Strip(s)) == Strip(s)
  {
    var r := Strip(s);
    if |r| > 0 {
      assert Chug(r) == r;
      assert Chomp(r) == r;
    }
  }

  /** A text of whitespace only strips to nothing. */
  lemma StripAllSpace(s: string)
    requires AllAsciiSpace(s)
    ensures Strip(s) == ""
  {
  }

  /** `on_string_changed`: the stripped entry, or the default when nothing is left. */
  function EntryValue(text: string, default: string): (v: string)
    ensures Strip(text) != "" ==> v == Strip(text) && v != ""
    ensures Strip(text) == "" ==> v == default
    ensures default != "" ==> v != ""
  {
    var v := Strip(text);
    if v == "" then default else v
  }

  /** Text that neither starts nor ends with GLib whitespace is left as it is. */
  lemma StripKeepsTrimmed(s: string)
    requires |s| > 0 ==> !IsAsciiSpace(s[0]) && !IsAsciiSpace(s[|s| - 1])
    ensures Strip(s) == s
  {
    assert Chug(s) == s;
    assert Chomp(s) == s;
  }

  /** A vertical tab is not GLib whitespace: an entry holding only one is kept as
      the command and does not revert to the default. */
  lemma VerticalTabEntryKept(default: string)
    ensures EntryValue([11 as char], default) == [11 as char]
  {
    StripKeepsTrimmed([11 as char]);
  }

  // ---------------------------------------------------------------- loading

  /** What the key file yields: a colour key present maps to its parse result
      (`None` when it does not parse); the other maps hold exactly the keys whose
      typed read succeeds, with the value read. */
  datatype KeyFile = KeyFile(colors: map<string, Option<Color>>, booleans: map<string, bool>,
                             integers: map<string, int32>, strings: map<string, string>)

  datatype Colors = Colors(fg: Color, bg: Color, iow: Color, freqMin: Color, freqMax: Color,
                           tempMin: Color, tempMax: Color)
  datatype Options = Options(transparent: bool, tempAlarm: int32, customCommand: string)
  datatype Prefs = Prefs(colors: Colors, options: Options, freqGradient: seq<Color>, tempGradient: seq<Color>)

  /** The colour variables start zeroed, which is black. */
  const UNSET_COLOR: Color := Color(0, 0, 0)
  const DEFAULT_TRANSPARENT: bool := true
  const DEFAULT_TEMP_ALARM: int32 := 85
  const TEMP_ALARM_MIN: int32 := 30
  const TEMP_ALARM_MAX: int32 := 100
  const DEFAULT_COMMAND: string := "xterm -geometry 75x13{position} -e top"

  /** The keys `pref_init` reads, in the order of its tables. */
  const COLOR_KEYS: seq<string> := ["Foreground", "Background", "I/O wait", "Min frequency",
                                    "Max frequency", "Min temperature", "Max temperature"]
  const TRANSPARENT_KEY: string := "Transparent background"
  const ALARM_KEY: string := "High temperature alarm"
  const COMMAND_KEY: string := "Custom command"

  /** One colour: the preset when the key is absent, the parsed colour when it
      parses, and the untouched variable when it does not. */
  function LoadColor(kf: KeyFile, key: string, preset: Color): (c: Color)
    ensures key !in kf.colors ==> c == preset
    ensures key in kf.colors && kf.colors[key].Some? ==> c == kf.colors[key].value
    ensures key in kf.colors && kf.colors[key].None? ==> c == UNSET_COLOR
  {
    if key !in kf.colors then preset
    else match kf.colors[key]
      case Some(c) => c
      case None => UNSET_COLOR
  }

  /** The colour loop of `pref_init`, with each colour's preset. */
  function LoadColors(kf: KeyFile): (c: Colors)
    ensures c.fg == LoadColor(kf, COLOR_KEYS[0], BLACK) && c.bg == LoadColor(kf, COLOR_KEYS[1], WHITE)
    ensures c.iow == LoadColor(kf, COLOR_KEYS[2], BLUE)
    ensures c.freqMin == LoadColor(kf, COLOR_KEYS[3], GREEN) && c.freqMax == LoadColor(kf, COLOR_KEYS[4], RED)
    ensures c.tempMin == LoadColor(kf, COLOR_KEYS[5], BLUE) && c.tempMax == LoadColor(kf, COLOR_KEYS[6], RED)
  {
    Colors(LoadColor(kf, COLOR_KEYS[0], BLACK), LoadColor(kf, COLOR_KEYS[1], WHITE), LoadColor(kf, COLOR_KEYS[2], BLUE),
           LoadColor(kf, COLOR_KEYS[3], GREEN), LoadColor(kf, COLOR_KEYS[4], RED),
           LoadColor(kf, COLOR_KEYS[5], BLUE), LoadColor(kf, COLOR_KEYS[6], RED))
  }

  /** The boolean, integer and string loops of `pref_init`: each keeps its default
      unless its read succeeds, and a loaded integer is not clamped to its range. */
  function LoadOptions(kf: KeyFile): (o: Options)
    ensures TRANSPARENT_KEY in kf.booleans ==> o.transparent == kf.booleans[TRANSPARENT_KEY]
    ensures TRANSPARENT_KEY !in kf.booleans ==> o.transparent == DEFAULT_TRANSPARENT
    ensures ALARM_KEY in kf.integers ==> o.tempAlarm == kf.integers[ALARM_KEY]
    ensures ALARM_KEY !in kf.integers ==> o.tempAlarm == DEFAULT_TEMP_ALARM
    ensures COMMAND_KEY in kf.strings ==> o.customCommand == kf.strings[COMMAND_KEY]
    ensures COMMAND_KEY !in kf.strings ==> o.customCommand == DEFAULT_COMMAND
  {
    Options(
      if TRANSPARENT_KEY in kf.booleans then kf.booleans[TRANSPARENT_KEY] else DEFAULT_TRANSPARENT,
      if ALARM_KEY in kf.integers then kf.integers[ALARM_KEY] else DEFAULT_TEMP_ALARM,
      if COMMAND_KEY in kf.strings then kf.strings[COMMAND_KEY] else DEFAULT_COMMAND)
  }

  /** `preferences_changed`: both gradients from the colours. */
  function WithGradients(colors: Colors, options: Options): (p: Prefs)
    ensures p.colors == colors && p.options == options
    ensures |p.freqGradient| == STEPS && |p.tempGradient| == STEPS
    ensures p.freqGradient[0] == colors.freqMin && p.freqGradient[99] == colors.freqMax
    ensures p.tempGradient[0] == colors.tempMin && p.tempGradient[99] == colors.tempMax
    ensures forall i :: 0 <= i < STEPS ==> Between(colors.freqMin, colors.freqMax, p.freqGradient[i])
    ensures forall i :: 0 <= i < STEPS ==> Between(colors.tempMin, colors.tempMax, p.tempGradient[i])
  {
    Prefs(colors, options, GradientOf(colors.freqMin, colors.freqMax), GradientOf(colors.tempMin, colors.tempMax))
  }

  /** `pref_init` followed by `preferences_changed`. */
  function PrefInit(kf: KeyFile): (p: Prefs)
    ensures p.colors == LoadColors(kf) && p.options == LoadOptions(kf)
    ensures p.freqGradient == GradientOf(p.colors.freqMin, p.colors.freqMax)
    ensures p.tempGradient == GradientOf(p.colors.tempMin, p.colors.tempMax)
  {
    WithGradients(LoadColors(kf), LoadOptions(kf))
  }

  /** With an empty key file every preference takes its default. */
  lemma DefaultsFromEmptyFile()
    ensures var kf := KeyFile(map[], map[], map[], map[]);
      && LoadColors(kf) == Colors(BLACK, WHITE, BLUE, GREEN, RED, BLUE, RED)
      && LoadOptions(kf) == Options(true, 85, DEFAULT_COMMAND)
  {
  }

  /** Unlike an edited entry, a loaded command string is taken as it is: a
      blank string from the file does not revert to the default. */
  lemma LoadedBlankCommandKept(kf: KeyFile)
    requires COMMAND_KEY in kf.strings && AllAsciiSpace(kf.strings[COMMAND_KEY])
    ensures LoadOptions(kf).customCommand == kf.strings[COMMAND_KEY]
    ensures EntryValue(kf.strings[COMMAND_KEY], DEFAULT_COMMAND) == DEFAULT_COMMAND
  {
    StripAllSpace(kf.strings[COMMAND_KEY]);
  }

  /** A loaded alarm is taken as it is: one outside the dialog's range stays
      outside it. */
  lemma LoadedAlarmNotClamped(kf: KeyFile)
    requires ALARM_KEY in kf.integers
    requires !(TEMP_ALARM_MIN <= kf.integers[ALARM_KEY] <= TEMP_ALARM_MAX)
    ensures !(TEMP_ALARM_MIN <= LoadOptions(kf).tempAlarm <= TEMP_ALARM_MAX)
    ensures LoadOptions(kf).tempAlarm == kf.integers[ALARM_KEY]
  {
  }

  /** What a key file holds under a colour key: nothing, or the parse result. */
  function ColorEntry(kf: KeyFile, key: string): Option<Option<Color>> {
    if key in kf.colors then Some(kf.colors[key]) else None
  }

  /** Two key files that agree on every key `pref_init` reads. */
  predicate AgreeOnPrefKeys(a: KeyFile, b: KeyFile) {
    && (forall i :: 0 <= i < |COLOR_KEYS| ==> ColorEntry(a, COLOR_KEYS[i]) == ColorEntry(b, COLOR_KEYS[i]))
    && (TRANSPARENT_KEY in a.booleans <==> TRANSPARENT_KEY in b.booleans)
    && (TRANSPARENT_KEY in a.booleans ==> a.booleans[TRANSPARENT_KEY] == b.booleans[TRANSPARENT_KEY])
    && (ALARM_KEY in a.integers <==> ALARM_KEY in b.integers)
    && (ALARM_KEY in a.integers ==> a.integers[ALARM_KEY] == b.integers[ALARM_KEY])
    && (COMMAND_KEY in a.strings <==> COMMAND_KEY in b.strings)
    && (COMMAND_KEY in a.strings ==> a.strings[COMMAND_KEY] == b.strings[COMMAND_KEY])
  }

  lemma LoadColorOfEntry(a: KeyFile, b: KeyFile, key: string, preset: Color)
    requires ColorEntry(a, key) == ColorEntry(b, key)
    ensures LoadColor(a, key, preset) == LoadColor(b, key, preset)
  {
  }

  /** Each preference depends on its own key only: any other key of the file,
      in any group, changes nothing. */
  lemma LoadReadsOnlyPrefKeys(a: KeyFile, b: KeyFile)
    requires AgreeOnPrefKeys(a, b)
    ensures PrefInit(a) == PrefInit(b)
  {
    forall i | 0 <= i < |COLOR_KEYS|
      ensures LoadColor(a, COLOR_KEYS[i], UNSET_COLOR) == LoadColor(b, COLOR_KEYS[i], UNSET_COLOR)
    {
      LoadColorOfEntry(a, b, COLOR_KEYS[i], UNSET_COLOR);
    }
    LoadColorOfEntry(a, b, COLOR_KEYS[0], BLACK);
    LoadColorOfEntry(a, b, COLOR_KEYS[1], WHITE);
    LoadColorOfEntry(a, b, COLOR_KEYS[2], BLUE);
    LoadColorOfEntry(a, b, COLOR_KEYS[3], GREEN);
    LoadColorOfEntry(a, b, COLOR_KEYS[4], RED);
    LoadColorOfEntry(a, b, COLOR_KEYS[5], BLUE);
    LoadColorOfEntry(a, b, COLOR_KEYS[6], RED);
    assert LoadColors(a) == LoadColors(b);
    assert LoadOptions(a) == LoadOptions(b);
  }

  /** `pref_save`: every preference written back under its key, the colours as
      `gdk_color_to_string` text (which parses back to the same colour); the
      file's other keys are kept. */
  function Saved(kf: KeyFile, c: Colors, o: Options): (s: KeyFile)
    ensures forall k :: k in kf.colors && k !in COLOR_KEYS ==> k in s.colors && s.colors[k] == kf.colors[k]
    ensures forall k :: k in kf.booleans && k != TRANSPARENT_KEY ==> k in s.booleans && s.booleans[k] == kf.booleans[k]
    ensures forall k :: k in kf.integers && k != ALARM_KEY ==> k in s.integers && s.integers[k] == kf.integers[k]
    ensures forall k :: k in kf.strings && k != COMMAND_KEY ==> k in s.strings && s.strings[k] == kf.strings[k]
  {
    KeyFile(
      kf.colors[COLOR_KEYS[0] := Some(c.fg)][COLOR_KEYS[1] := Some(c.bg)][COLOR_KEYS[2] := Some(c.iow)]
               [COLOR_KEYS[3] := Some(c.freqMin)][COLOR_KEYS[4] := Some(c.freqMax)]
               [COLOR_KEYS[5] := Some(c.tempMin)][COLOR_KEYS[6] := Some(c.tempMax)],
      kf.booleans[TRANSPARENT_KEY := o.transparent],
      kf.integers[ALARM_KEY := o.tempAlarm],
      kf.strings[COMMAND_KEY := o.customCommand])
  }

  /** Saving and loading again gives back every preference. */
  lemma SaveThenLoad(kf: KeyFile, c: Colors, o: Options)
    ensures LoadColors(Saved(kf, c, o)) == c
    ensures LoadOptions(Saved(kf, c, o)) == o
  {
    var s := Saved(kf, c, o);
    assert s.colors[COLOR_KEYS[0]] == Some(c.fg);
    assert s.colors[COLOR_KEYS[1]] == Some(c.bg);
    assert s.colors[COLOR_KEYS[2]] == Some(c.iow);
    assert s.colors[COLOR_KEYS[3]] == Some(c.freqMin);
    assert s.colors[COLOR_KEYS[4]] == Some(c.freqMax);
    assert s.colors[COLOR_KEYS[5]] == Some(c.tempMin);
    assert s.colors[COLOR_KEYS[6]] == Some(c.tempMax);
  }
}
