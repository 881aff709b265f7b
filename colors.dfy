/**
 * The SGR parameter tables of color.go: display options, the foreground and
 * background color codes, and the two name tables the markup rewriter looks
 * names up in.
 */
module Colors {

  // Display options (color.go:4-14).
  const RESET: nat := 0
  const BOLD: nat := 1
  const FAINT: nat := 2
  const UNDERLINED: nat := 4
  const SLOW_BLINK: nat := 5

  // Foreground colors (color.go:17-26): consecutive codes from 30.
  const FOREGROUND_BLACK: nat := 30
  const FOREGROUND_RED: nat := 31
  const FOREGROUND_GREEN: nat := 32
  const FOREGROUND_YELLOW: nat := 33
  const FOREGROUND_BLUE: nat := 34
  const FOREGROUND_MAGENTA: nat := 35
  const FOREGROUND_CYAN: nat := 36
  const FOREGROUND_WHITE: nat := 37

  // Background colors (color.go:29-38): consecutive codes from 40.
  const BACKGROUND_BLACK: nat := 40
  const BACKGROUND_RED: nat := 41
  const BACKGROUND_GREEN: nat := 42
  const BACKGROUND_YELLOW: nat := 43
  const BACKGROUND_BLUE: nat := 44
  const BACKGROUND_MAGENTA: nat := 45
  const BACKGROUND_CYAN: nat := 46
  const BACKGROUND_WHITE: nat := 47

  /** The eight color names in the order of their codes. */
  const COLOR_NAMES: seq<string> :=
    ["black", "red", "green", "yellow", "blue", "magenta", "cyan", "white"]

  const FOREGROUNDS: seq<nat> :=
    [FOREGROUND_BLACK, FOREGROUND_RED, FOREGROUND_GREEN, FOREGROUND_YELLOW,
     FOREGROUND_BLUE, FOREGROUND_MAGENTA, FOREGROUND_CYAN, FOREGROUND_WHITE]

  const BACKGROUNDS: seq<nat> :=
    [BACKGROUND_BLACK, BACKGROUND_RED, BACKGROUND_GREEN, BACKGROUND_YELLOW,
     BACKGROUND_BLUE, BACKGROUND_MAGENTA, BACKGROUND_CYAN, BACKGROUND_WHITE]

  /** colorValues: color name to its offset from the black code. */
  const COLOR_VALUES: map<string, nat> :=
    map["black" := 0, "red" := 1, "green" := 2, "yellow" := 3,
        "blue" := 4, "magenta" := 5, "cyan" := 6, "white" := 7]

  /** colorOptions: option name to its SGR code; note the capital B of "slowBlink". */
  const COLOR_OPTIONS: map<string, nat> :=
    map["reset" := RESET, "bold" := BOLD, "faint" := FAINT,
        "underlined" := UNDERLINED, "slowBlink" := SLOW_BLINK]

  /** colorValues numbers the eight names 0..7, one name per value. */
  lemma ColorValuesEnumerate()
    ensures forall name :: name in COLOR_VALUES <==> name in COLOR_NAMES
    ensures forall i :: 0 <= i < |COLOR_NAMES| ==> COLOR_VALUES[COLOR_NAMES[i]] == i
    ensures forall a, b :: a in COLOR_VALUES && b in COLOR_VALUES && COLOR_VALUES[a] == COLOR_VALUES[b] ==> a == b
  {
  }

  /** The named constants are the black code plus the name's colorValues entry. */
  lemma ColorCodesFromBase(name: string)
    requires name in COLOR_VALUES
    ensures COLOR_VALUES[name] < 8
    ensures FOREGROUNDS[COLOR_VALUES[name]] == FOREGROUND_BLACK + COLOR_VALUES[name]
    ensures BACKGROUNDS[COLOR_VALUES[name]] == BACKGROUND_BLACK + COLOR_VALUES[name]
  {
  }

  /** No option code coincides with a foreground or background code. */
  lemma OptionAndColorCodesDisjoint(opt: string, name: string)
    requires opt in COLOR_OPTIONS && name in COLOR_VALUES
    ensures COLOR_OPTIONS[opt] <= 5
    ensures COLOR_OPTIONS[opt] != FOREGROUND_BLACK + COLOR_VALUES[name]
    ensures COLOR_OPTIONS[opt] != BACKGROUND_BLACK + COLOR_VALUES[name]
    ensures FOREGROUND_BLACK + COLOR_VALUES[name] < BACKGROUND_BLACK
  {
  }
}
