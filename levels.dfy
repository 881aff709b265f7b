/** The severity levels of level.go. */
module Levels {

  /** Levels is a Go int; lower values are more severe. */
  type Level = int

  const ERROR: Level := 0
  const WARN: Level := 1
  const INFO: Level := 2
  const DEBUG: Level := 3

  predicate Known(l: Level) { ERROR <= l <= DEBUG }

  /** Levels.String */
  function Name(l: Level): (r: string)
    ensures r == "UNKNOWN" <==> !Known(l)
  {
    match l
    case 0 => "ERROR"
    case 1 => "WARN"
    case 2 => "INFO"
    case 3 => "DEBUG"
    case _ => "UNKNOWN"
  }

  /** Levels.GetColor: a markup token body for the level. */
  function Color(l: Level): (r: string)
    ensures |r| >= 10 && r[0] == 'F' && r[1] == '_'
    ensures r == "F_WHITE,BOLD" <==> !Known(l)
  {
    match l
    case 0 => "F_RED,BOLD"
    case 1 => "F_YELLOW,BOLD"
    case 2 => "F_GREEN,BOLD"
    case 3 => "F_BLUE,BOLD"
    case _ => "F_WHITE,BOLD"
  }

  /** The four levels are ordered by decreasing severity. */
  lemma Ordered()
    ensures ERROR < WARN < INFO < DEBUG
    ensures forall l :: Known(l) <==> l in {ERROR, WARN, INFO, DEBUG}
  {
  }

  /** Every known level has its own name. */
  lemma NameDistinguishes(a: Level, b: Level)
    ensures Known(a) && Known(b) && Name(a) == Name(b) ==> a == b
  {
  }
}
