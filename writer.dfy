/**
 * The Printer of writer.go: the line it writes for a buffer, the prefix and
 * markup of the level-gated emitters, its two output streams and its
 * copy-on-write derivations.
 */
module Writer {
  import opened Text
  import Levels
  import Flags
  import Colors
  import opened Markup

  // ---------------------------------------------------------------------------
  // The clock reading of a line (time.Time.Format with layout "15:04:05.000")

  /** A wall-clock reading; the time of day is an input of the model. */
  datatype Clock = Clock(hour: nat, minute: nat, second: nat, milli: nat)

  predicate ValidClock(c: Clock) {
    c.hour < 24 && c.minute < 60 && c.second < 60 && c.milli < 1000
  }

  /** Short numbers have short decimal forms. */
  lemma DecimalWidth(n: nat)
    ensures n < 100 ==> |Decimal(n)| <= 2
    ensures n < 1000 ==> |Decimal(n)| <= 3
  {
    if 10 <= n < 1000 {
      var q := n / 10;
      if q >= 10 {
        assert Decimal(q) == Decimal(q / 10) + [DigitChar(q % 10)];
      }
    }
  }

  /** The layout "15:04:05.000": two-digit hour, minute and second, three-digit milliseconds. */
  function FormatClock(c: Clock): (r: string)
    requires ValidClock(c)
    ensures |r| == 12 && r[2] == ':' && r[5] == ':' && r[8] == '.'
  {
    DecimalWidth(c.hour);
    DecimalWidth(c.minute);
    DecimalWidth(c.second);
    DecimalWidth(c.milli);
    PaddedDecimal(c.hour, 2) + ":" + PaddedDecimal(c.minute, 2) + ":"
      + PaddedDecimal(c.second, 2) + "." + PaddedDecimal(c.milli, 3)
  }

  /** The four groups of a clock text sit at fixed positions. */
  lemma ClockGroups(h: string, m: string, s: string, ms: string, r: string)
    requires |h| == 2 && |m| == 2 && |s| == 2 && |ms| == 3
    requires r == h + ":" + m + ":" + s + "." + ms
    ensures r[0..2] == h && r[3..5] == m && r[6..8] == s && r[9..12] == ms
  {
  }

  /** Reading the four digit groups back gives the clock. */
  lemma ClockRoundTrip(c: Clock)
    requires ValidClock(c)
    ensures var r := FormatClock(c);
      && AllDigits(r[0..2]) && AllDigits(r[3..5]) && AllDigits(r[6..8]) && AllDigits(r[9..12])
      && DigitsValue(r[0..2]) == c.hour && DigitsValue(r[3..5]) == c.minute
      && DigitsValue(r[6..8]) == c.second && DigitsValue(r[9..12]) == c.milli
  {
    DecimalWidth(c.hour);
    DecimalWidth(c.minute);
    DecimalWidth(c.second);
    DecimalWidth(c.milli);
    ClockGroups(PaddedDecimal(c.hour, 2), PaddedDecimal(c.minute, 2),
      PaddedDecimal(c.second, 2), PaddedDecimal(c.milli, 3), FormatClock(c));
  }

  /** Digits are not braces. */
  lemma DigitsBraceless(d: string)
    requires AllDigits(d)
    ensures '{' !in d
  {
  }

  /** A clock text holds no '{'. */
  lemma ClockBraceless(c: Clock)
    requires ValidClock(c)
    ensures '{' !in FormatClock(c)
  {
    DigitsBraceless(PaddedDecimal(c.hour, 2));
    DigitsBraceless(PaddedDecimal(c.minute, 2));
    DigitsBraceless(PaddedDecimal(c.second, 2));
    DigitsBraceless(PaddedDecimal(c.milli, 3));
  }

  // ---------------------------------------------------------------------------
  // formatPrefix

  const SEPARATOR: string := " | "

  /**
   * formatPrefix: "[" and the goroutine id padded to three digits, then the
   * clock, then the level name, each present part after the first preceded by
   * " | ". The goroutine id and the clock are inputs.
   */
  function FormatPrefix(flags: Flags.Flags, gid: nat, clock: Clock, level: string): (r: string)
    requires ValidClock(clock)
    ensures |r| >= |level| && r[|r| - |level|..] == level
  {
    var withId := if Flags.Has(flags, Flags.WITH_GOROUTINE_ID) then "[" + PaddedDecimal(gid, 3) else "";
    var withDate :=
      if Flags.Has(flags, Flags.WITH_DATE)
      then (if withId != "" then withId + SEPARATOR else withId) + FormatClock(clock)
      else withId;
    (if withDate != "" then withDate + SEPARATOR else withDate) + level
  }

  /** The parts a prefix is made of, in order, before the level name. */
  function PrefixParts(flags: Flags.Flags, gid: nat, clock: Clock): seq<string>
    requires ValidClock(clock)
  {
    (if Flags.Has(flags, Flags.WITH_GOROUTINE_ID) then ["[" + PaddedDecimal(gid, 3)] else [])
      + (if Flags.Has(flags, Flags.WITH_DATE) then [FormatClock(clock)] else [])
  }

  /** Parts joined by a separator text. */
  function JoinWith(parts: seq<string>, sep: string): string
    requires |parts| >= 1
  {
    if |parts| == 1 then parts[0] else parts[0] + sep + JoinWith(parts[1..], sep)
  }

  lemma JoinWithTwo(a: string, b: string, sep: string)
    ensures JoinWith([a, b], sep) == a + sep + b
  {
    assert [a, b][1..] == [b];
  }

  lemma JoinWithThree(a: string, b: string, c: string, sep: string)
    ensures JoinWith([a, b, c], sep) == a + sep + b + sep + c
  {
    assert [a, b, c][1..] == [b, c];
    JoinWithTwo(b, c, sep);
    assert a + sep + (b + sep + c) == a + sep + b + sep + c;
  }

  /** The prefix is its parts and the level name joined by " | ". */
  lemma FormatPrefixJoin(flags: Flags.Flags, gid: nat, clock: Clock, level: string)
    requires ValidClock(clock)
    ensures FormatPrefix(flags, gid, clock, level)
      == JoinWith(PrefixParts(flags, gid, clock) + [level], SEPARATOR)
  {
    var id := "[" + PaddedDecimal(gid, 3);
    var time := FormatClock(clock);
    var withId := Flags.Has(flags, Flags.WITH_GOROUTINE_ID);
    var withDate := Flags.Has(flags, Flags.WITH_DATE);
    if withId && withDate {
      assert PrefixParts(flags, gid, clock) + [level] == [id, time, level];
      JoinWithThree(id, time, level, SEPARATOR);
    } else if withId {
      assert PrefixParts(flags, gid, clock) + [level] == [id, level];
      JoinWithTwo(id, level, SEPARATOR);
    } else if withDate {
      assert PrefixParts(flags, gid, clock) + [level] == [time, level];
      JoinWithTwo(time, level, SEPARATOR);
    } else {
      assert PrefixParts(flags, gid, clock) + [level] == [level];
    }
  }

  /** With neither the id nor the date flag the prefix is the level name alone. */
  lemma PrefixWithoutFlags(flags: Flags.Flags, gid: nat, clock: Clock, level: string)
    requires ValidClock(clock)
    requires !Flags.Has(flags, Flags.WITH_GOROUTINE_ID) && !Flags.Has(flags, Flags.WITH_DATE)
    ensures FormatPrefix(flags, gid, clock, level) == level
  {
  }

  /** With the id flag the prefix opens with "[" and the id read back from three or more digits. */
  lemma PrefixWithId(flags: Flags.Flags, gid: nat, clock: Clock, level: string)
    requires ValidClock(clock) && Flags.Has(flags, Flags.WITH_GOROUTINE_ID)
    ensures var r := FormatPrefix(flags, gid, clock, level);
      var n := |PaddedDecimal(gid, 3)|;
      && n >= 3 && |r| > n && r[0] == '['
      && AllDigits(r[1..n + 1]) && DigitsValue(r[1..n + 1]) == gid
  {
    var p := PaddedDecimal(gid, 3);
    var r := FormatPrefix(flags, gid, clock, level);
    var rest := r[|p| + 1..];
    assert r == "[" + p + rest;
    assert r[1..|p| + 1] == p;
  }

  /** A prefix carries no markup: it holds no '{' when the level name holds none. */
  lemma PrefixBraceless(flags: Flags.Flags, gid: nat, clock: Clock, level: string)
    requires ValidClock(clock) && '{' !in level
    ensures '{' !in FormatPrefix(flags, gid, clock, level)
  {
    DigitsBraceless(PaddedDecimal(gid, 3));
    ClockBraceless(clock);
  }

  // ---------------------------------------------------------------------------
  // The line writeTo writes

  /** A '\n' is appended unless the text already ends with one. */
  function EnsureNewline(s: string): (r: string)
    ensures HasPrefix(r, s) && |r| >= 1 && r[|r| - 1] == '\n'
    ensures |r| == |s| <==> (|s| >= 1 && s[|s| - 1] == '\n')
    ensures |r| <= |s| + 1
  {
    if |s| >= 1 && s[|s| - 1] == '\n' then s else s + "\n"
  }

  /** Ensuring a newline twice is ensuring it once. */
  lemma EnsureNewlineIdempotent(s: string)
    ensures EnsureNewline(EnsureNewline(s)) == EnsureNewline(s)
  {
  }

  /** What writeTo writes for the buffer b under the given flags. */
  function Line(flags: Flags.Flags, b: string): (r: string)
    ensures HasPrefix(r, Colorized(flags, b)) && |r| >= 1 && r[|r| - 1] == '\n'
    ensures |r| <= |Colorized(flags, b)| + 1
  {
    EnsureNewline(Colorized(flags, b))
  }

  /** The last character of a text survives rewriting when it is not a closing brace. */
  lemma {:induction false} RewriteKeepsLast(s: string, from: nat, rep: string -> string)
    requires from < |s| && s[|s| - 1] != '}'
    ensures var r := Rewrite(s, from, rep); |r| >= 1 && r[|r| - 1] == s[|s| - 1]
    decreases |s| - from
  {
    match MatchAt(s, from)
    case Some(t) =>
      MatchCloses(s, from);
      assert Rewrite(s, from, rep) == rep(t.body) + Rewrite(s, t.end, rep);
      if t.end < |s| {
        RewriteKeepsLast(s, t.end, rep);
      }
    case None =>
      assert Rewrite(s, from, rep) == [s[from]] + Rewrite(s, from + 1, rep);
      if from + 1 < |s| {
        RewriteKeepsLast(s, from + 1, rep);
      }
  }

  /**
   * A buffer with a token that already ends in '\n' is colorized to a text
   * ending in '\n', then gets the reset sequence and one more '\n': the line
   * ends with '\n', ESC "[0m" and '\n'.
   */
  lemma NewlineAfterReset(flags: Flags.Flags, b: string)
    requires Flags.Has(flags, Flags.WITH_COLOR) && Scan(b, 0) != []
    requires |b| >= 1 && b[|b| - 1] == '\n'
    ensures var r := Render(b, 0);
      && |r| >= 1 && r[|r| - 1] == '\n'
      && Line(flags, b) == r + RESET_SEQUENCE + "\n"
  {
    RewriteKeepsLast(b, 0, Sgr);
  }

  /** Without the color flag the line is the buffer, with '\n' ensured. */
  lemma LineWithoutColor(flags: Flags.Flags, b: string)
    requires !Flags.Has(flags, Flags.WITH_COLOR)
    ensures Line(flags, b) == EnsureNewline(b)
  {
  }

  // ---------------------------------------------------------------------------
  // The emitters' messages

  /** The colors writer.go's emitters hard-code for each level. */
  function EmitterColor(l: Levels.Level): (r: string)
    requires Levels.Known(l)
    ensures forall k :: 0 <= k < |r| ==> IsBodyChar(r[k])
    ensures |r| > 7 && r[..2] == "F_" && r[|r| - 5..] == ",BOLD"
  {
    match l
    case 0 => "F_RED,BOLD"
    case 1 => "F_YELLOW,BOLD"
    case 2 => "F_BLUE,BOLD"
    case 3 => "F_CYAN,BOLD"
  }

  /** The color.go foreground each emitter color names. */
  function EmitterCode(l: Levels.Level): nat
    requires Levels.Known(l)
  {
    match l
    case 0 => Colors.FOREGROUND_RED
    case 1 => Colors.FOREGROUND_YELLOW
    case 2 => Colors.FOREGROUND_BLUE
    case 3 => Colors.FOREGROUND_CYAN
  }

  /**
   * The message an emitter writes: its color token, the prefix, a space, the
   * reset token, then the formatted message (the formatting is an input).
   */
  function Entry(color: string, prefix: string, msg: string): string {
    "{{{-" + color + "}}}" + prefix + " " + "{{{-RESET}}}" + msg
  }

  /** The message an emitter of level l writes. */
  function Message(l: Levels.Level, flags: Flags.Flags, gid: nat, clock: Clock, msg: string): (r: string)
    requires Levels.Known(l) && ValidClock(clock)
    ensures HasPrefix(r, "{{{-" + EmitterColor(l) + "}}}")
    ensures |r| >= |msg| && r[|r| - |msg|..] == msg
  {
    Entry(EmitterColor(l), FormatPrefix(flags, gid, clock, Levels.Name(l)), msg)
  }

  /** Two separator-free pieces joined by the separator split back into the two. */
  lemma SplitPair(a: string, b: string, sep: char)
    requires sep !in a && sep !in b
    ensures Split(a + [sep] + b, sep) == [a, b]
  {
    SplitAfterPiece(a, b, sep);
    SplitNoSep(b, sep);
  }

  /** Two components that resolve write their two codes, each followed by ';'. */
  lemma CodesPair(a: string, b: string, x: nat, y: nat)
    requires Resolve(a) == Some(x) && Resolve(b) == Some(y)
    ensures Codes([a, b]) == (Decimal(x) + ";") + (Decimal(y) + ";")
  {
    var one := [a];
    var two := one + [b];
    assert one == [] + [a];
    CodesSnoc([], a);
    CodesSnoc(one, b);
    var ta := ComponentText(a);
    var tb := ComponentText(b);
    assert Codes(one) == ta;
    assert Codes(two) == ta + tb;
    assert two == [a, b];
  }

  /** Closing two codes that each end with ';' joins them with ';'. */
  lemma FinishPair(p: string, q: string)
    ensures Finish((p + ";") + (q + ";")) == [ESC, '['] + p + ";" + q + "m"
  {
    DropLast(p + ";", q + ";");
    assert (q + ";")[..|q + ";"| - 1] == q;
  }

  /** Two components that resolve give their two codes joined by ';'. */
  lemma SgrOfTwo(a: string, b: string, x: nat, y: nat)
    requires ',' !in a && ',' !in b
    requires Resolve(a) == Some(x) && Resolve(b) == Some(y)
    ensures Sgr(a + [','] + b) == [ESC, '['] + Decimal(x) + ";" + Decimal(y) + "m"
  {
    SplitPair(a, b, ',');
    CodesPair(a, b, x, y);
    FinishPair(Decimal(x), Decimal(y));
  }

  /** BOLD, in capitals, is the bold option. */
  lemma BoldResolves(o: string)
    requires o == "BOLD"
    ensures ',' !in o && Resolve(o) == Some(Colors.BOLD)
  {
    assert o[1] == 'O';
    assert Lower(o) == "bold";
  }

  /**
   * A color name as foreground, then an option: both components resolve, and
   * the sequence carries the foreground code and the option code.
   */
  lemma ForegroundWithOption(body: string, n: string, k: nat, o: string, opt: nat)
    requires k < |Colors.COLOR_NAMES| && Lower(n) == Colors.COLOR_NAMES[k] && ',' !in n
    requires ',' !in o && Resolve(o) == Some(opt)
    requires body == ("F_" + n) + [','] + o
    ensures var parts := Split(body, ',');
      forall j :: 0 <= j < |parts| ==> Resolve(parts[j]).Some?
    ensures Sgr(body) == [ESC, '['] + Decimal(Colors.FOREGROUNDS[k]) + ";" + Decimal(opt) + "m"
  {
    ResolveForegroundName(n, k);
    SplitPair("F_" + n, o, ',');
    SgrOfTwo("F_" + n, o, Colors.FOREGROUNDS[k], opt);
  }

  /** The bold foreground "F_<n>,BOLD" of color k. */
  lemma BoldForeground(body: string, n: string, k: nat)
    requires k < |Colors.COLOR_NAMES| && Lower(n) == Colors.COLOR_NAMES[k] && ',' !in n
    requires body == "F_" + n + ",BOLD"
    ensures var parts := Split(body, ',');
      forall j :: 0 <= j < |parts| ==> Resolve(parts[j]).Some?
    ensures Sgr(body) == [ESC, '['] + Decimal(Colors.FOREGROUNDS[k]) + ";" + Decimal(Colors.BOLD) + "m"
  {
    var o := "BOLD";
    BoldResolves(o);
    assert body == ("F_" + n) + [','] + o;
    ForegroundWithOption(body, n, k, o, Colors.BOLD);
  }

  /** A single component that resolves gives its code alone. */
  lemma SgrOfOne(c: string, x: nat)
    requires ',' !in c && Resolve(c) == Some(x)
    ensures Sgr(c) == [ESC, '['] + Decimal(x) + "m"
  {
    SplitNoSep(c, ',');
    CodesOfOne(c, x);
    FinishOne(Decimal(x));
  }

  lemma CodesOfOne(c: string, x: nat)
    requires Resolve(c) == Some(x)
    ensures Codes([c]) == Decimal(x) + ";"
  {
    CodesSnoc([], c);
    assert [] + [c] == [c];
  }

  lemma FinishOne(d: string)
    ensures Finish(d + ";") == [ESC, '['] + d + "m"
  {
    DropLast(d, ";");
  }

  /** The reset token's body gives the reset sequence. */
  lemma ResetToken()
    ensures Sgr("RESET") == RESET_SEQUENCE
  {
    var r := "RESET";
    assert r[1] == 'E';
    assert Lower(r) == "reset";
    SgrOfOne(r, Colors.RESET);
    assert Decimal(Colors.RESET) == "0";
  }

  /**
   * Every component of the token body resolves, and the body renders as the
   * foreground `code` followed by bold.
   */
  predicate BoldSequence(body: string, code: nat) {
    && (forall k :: 0 <= k < |Split(body, ',')| ==> Resolve(Split(body, ',')[k]).Some?)
    && Sgr(body) == [ESC, '['] + Decimal(code) + ";" + Decimal(Colors.BOLD) + "m"
  }

  /**
   * Every emitter color is a bold foreground whose components resolve: red
   * for errors, yellow for warnings, blue for information and cyan for debug.
   */
  lemma EmitterColorSequences(l: Levels.Level)
    requires Levels.Known(l)
    ensures BoldSequence(EmitterColor(l), EmitterCode(l))
  {
    var body := EmitterColor(l);
    if l == Levels.ERROR {
      RedBold(body);
    } else if l == Levels.WARN {
      YellowBold(body);
    } else if l == Levels.INFO {
      BlueBold(body);
    } else {
      CyanBold(body);
    }
  }

  /** The color.go foreground each GetColor result names. */
  function LevelColorCode(l: Levels.Level): nat {
    match l
    case 0 => Colors.FOREGROUND_RED
    case 1 => Colors.FOREGROUND_YELLOW
    case 2 => Colors.FOREGROUND_GREEN
    case 3 => Colors.FOREGROUND_BLUE
    case _ => Colors.FOREGROUND_WHITE
  }

  /**
   * Every GetColor result is a token body whose components all resolve: a
   * bold foreground, red, yellow, green, blue, or white for unknown levels.
   */
  lemma LevelColorSequences(l: Levels.Level)
    ensures BoldSequence(Levels.Color(l), LevelColorCode(l))
  {
    var body := Levels.Color(l);
    if l == Levels.ERROR {
      RedBold(body);
    } else if l == Levels.WARN {
      YellowBold(body);
    } else if l == Levels.INFO {
      GreenBold(body);
    } else if l == Levels.DEBUG {
      BlueBold(body);
    } else {
      WhiteBold(body);
    }
  }

  /**
   * The emitters agree with GetColor for errors and warnings only: Infof is
   * blue where GetColor says green, Debugf cyan where GetColor says blue.
   */
  lemma EmitterColorsAgainstGetColor(l: Levels.Level)
    requires Levels.Known(l)
    ensures EmitterColor(l) == Levels.Color(l) <==> l == Levels.ERROR || l == Levels.WARN
    ensures EmitterCode(l) == LevelColorCode(l) <==> l == Levels.ERROR || l == Levels.WARN
  {
  }

  lemma RedBold(body: string)
    requires body == "F_RED,BOLD"
    ensures BoldSequence(body, Colors.FOREGROUND_RED)
  {
    assert Lower("RED") == "red";
    BoldForeground(body, "RED", 1);
  }

  lemma YellowBold(body: string)
    requires body == "F_YELLOW,BOLD"
    ensures BoldSequence(body, Colors.FOREGROUND_YELLOW)
  {
    assert Lower("YELLOW") == "yellow";
    BoldForeground(body, "YELLOW", 3);
  }

  lemma GreenBold(body: string)
    requires body == "F_GREEN,BOLD"
    ensures BoldSequence(body, Colors.FOREGROUND_GREEN)
  {
    assert Lower("GREEN") == "green";
    BoldForeground(body, "GREEN", 2);
  }

  lemma BlueBold(body: string)
    requires body == "F_BLUE,BOLD"
    ensures BoldSequence(body, Colors.FOREGROUND_BLUE)
  {
    assert Lower("BLUE") == "blue";
    BoldForeground(body, "BLUE", 4);
  }

  lemma CyanBold(body: string)
    requires body == "F_CYAN,BOLD"
    ensures BoldSequence(body, Colors.FOREGROUND_CYAN)
  {
    assert Lower("CYAN") == "cyan";
    BoldForeground(body, "CYAN", 6);
  }

  lemma WhiteBold(body: string)
    requires body == "F_WHITE,BOLD"
    ensures BoldSequence(body, Colors.FOREGROUND_WHITE)
  {
    assert Lower("WHITE") == "white";
    BoldForeground(body, "WHITE", 7);
  }

  // ---------------------------------------------------------------------------
  // How an emitter's message is colorized

  /** A token text at the front is replaced, and what follows it is rewritten on its own. */
  lemma RewriteTokenFront(x: string, rest: string, rep: string -> string)
    requires IsTokenText(x)
    ensures Rewrite(x + rest, 0, rep) == rep(BodyOf(x)) + Rewrite(rest, 0, rep)
  {
    assert (x + rest)[0..|x|] == x;
    TokenTextMatches(x, x + rest, 0);
    RewriteAtMatch(x + rest, 0, Token(0, |x|, BodyOf(x)), rep);
    RewriteShift(x, rest, rep);
  }

  /** A stretch without '{' at the front is copied, and what follows it is rewritten on its own. */
  lemma RewritePlainFront(a: string, rest: string, rep: string -> string)
    requires '{' !in a
    ensures Rewrite(a + rest, 0, rep) == a + Rewrite(rest, 0, rep)
  {
    assert (a + rest)[0..|a|] == a;
    RewritePlain(a + rest, 0, a, rep);
    RewriteShift(a, rest, rep);
  }

  /** The reset token of the emitters' messages. */
  lemma ResetTokenText(reset: string)
    requires reset == "{{{-RESET}}}"
    ensures IsTokenText(reset) && BodyOf(reset) == "RESET"
  {
    var b := "RESET";
    assert forall k :: 0 <= k < |b| ==> IsBodyChar(b[k]);
    TokenOfBody("{{{-", b);
    assert reset == "{{{-" + b + "}}}";
  }

  /** A token, a stretch without '{', a token, then the rest: each rewritten in turn. */
  lemma RewriteTokenPlainToken(open: string, plain: string, reset: string, msg: string,
                               rep: string -> string)
    requires IsTokenText(open) && IsTokenText(reset) && '{' !in plain
    ensures Rewrite(open + (plain + (reset + msg)), 0, rep)
      == rep(BodyOf(open)) + plain + rep(BodyOf(reset)) + Rewrite(msg, 0, rep)
  {
    var m := Rewrite(msg, 0, rep);
    var r1 := Rewrite(reset + msg, 0, rep);
    RewriteTokenFront(reset, msg, rep);
    var r2 := Rewrite(plain + (reset + msg), 0, rep);
    RewritePlainFront(plain, reset + msg, rep);
    RewriteTokenFront(open, plain + (reset + msg), rep);
    AppendAssoc(plain, rep(BodyOf(reset)), m);
    AppendAssoc(rep(BodyOf(open)), plain, rep(BodyOf(reset)) + m);
    AppendAssoc(rep(BodyOf(open)) + plain, rep(BodyOf(reset)), m);
  }

  /** An emitter's message taken apart: color token, prefix and space, reset token, message. */
  lemma EntryParts(color: string, prefix: string, msg: string)
    ensures Entry(color, prefix, msg)
      == ("{{{-" + color + "}}}") + ((prefix + " ") + ("{{{-RESET}}}" + msg))
  {
  }

  /**
   * An emitter's message is rewritten to the color's replacement, the prefix
   * and a space as they are, the reset token's replacement, then the message
   * rewritten on its own: nothing in the message can merge with the markup
   * around the prefix.
   */
  lemma RewriteEntry(color: string, prefix: string, msg: string, rep: string -> string)
    requires forall k :: 0 <= k < |color| ==> IsBodyChar(color[k])
    requires '{' !in prefix
    ensures Rewrite(Entry(color, prefix, msg), 0, rep)
      == rep(color) + (prefix + " ") + rep("RESET") + Rewrite(msg, 0, rep)
  {
    var reset := "{{{-RESET}}}";
    TokenOfBody("{{{-", color);
    ResetTokenText(reset);
    EntryParts(color, prefix, msg);
    RewriteTokenPlainToken("{{{-" + color + "}}}", prefix + " ", reset, msg, rep);
  }

  /** A text opening with a token text holds a token. */
  lemma TokenFrontScanned(x: string, rest: string)
    requires IsTokenText(x)
    ensures Scan(x + rest, 0) != []
  {
    assert (x + rest)[0..|x|] == x;
    TokenTextMatches(x, x + rest, 0);
    ScanEmpty(x + rest, 0);
  }

  /** With the color flag, a text holding a token is written rendered, reset, and ended with '\n'. */
  lemma LineOfTokens(flags: Flags.Flags, s: string)
    requires Flags.Has(flags, Flags.WITH_COLOR) && Scan(s, 0) != []
    ensures Line(flags, s) == Render(s, 0) + RESET_SEQUENCE + "\n"
  {
  }

  /** An emitter's message holds a token: its color token. */
  lemma EntryScanned(color: string, prefix: string, msg: string)
    requires forall k :: 0 <= k < |color| ==> IsBodyChar(color[k])
    ensures Scan(Entry(color, prefix, msg), 0) != []
  {
    var open := "{{{-" + color + "}}}";
    TokenOfBody("{{{-", color);
    assert Entry(color, prefix, msg) == open + (prefix + " " + "{{{-RESET}}}" + msg);
    TokenFrontScanned(open, prefix + " " + "{{{-RESET}}}" + msg);
  }

  /** With the color flag, the line of an emitter's message, for any color and prefix. */
  lemma EntryLine(flags: Flags.Flags, color: string, prefix: string, msg: string)
    requires Flags.Has(flags, Flags.WITH_COLOR)
    requires forall k :: 0 <= k < |color| ==> IsBodyChar(color[k])
    requires '{' !in prefix
    ensures Line(flags, Entry(color, prefix, msg))
      == Sgr(color) + (prefix + " ") + RESET_SEQUENCE + Render(msg, 0) + RESET_SEQUENCE + "\n"
  {
    RewriteEntry(color, prefix, msg, Sgr);
    ResetToken();
    EntryScanned(color, prefix, msg);
    LineOfTokens(flags, Entry(color, prefix, msg));
  }

  /**
   * The line an emitter writes with the color flag set: its bold foreground
   * sequence, the prefix and a space, the reset sequence, the message with its
   * own markup rendered, a final reset sequence and '\n'.
   */
  lemma MessageLine(l: Levels.Level, flags: Flags.Flags, gid: nat, clock: Clock, msg: string)
    requires Levels.Known(l) && ValidClock(clock) && Flags.Has(flags, Flags.WITH_COLOR)
    ensures var prefix := FormatPrefix(flags, gid, clock, Levels.Name(l));
      Line(flags, Message(l, flags, gid, clock, msg))
        == [ESC, '['] + Decimal(EmitterCode(l)) + ";" + Decimal(Colors.BOLD) + "m"
           + (prefix + " ") + RESET_SEQUENCE + Render(msg, 0) + RESET_SEQUENCE + "\n"
  {
    var prefix := FormatPrefix(flags, gid, clock, Levels.Name(l));
    PrefixBraceless(flags, gid, clock, Levels.Name(l));
    EntryLine(flags, EmitterColor(l), prefix, msg);
    EmitterColorSequences(l);
  }

  /**
   * With no flag set a line is the buffer as written, markup included, and a
   * prefix is the level name alone.
   */
  lemma NoFlags(gid: nat, clock: Clock, level: string, b: string)
    requires ValidClock(clock)
    ensures FormatPrefix(0, gid, clock, level) == level
    ensures Colorized(0, b) == b && Line(0, b) == EnsureNewline(b)
  {
    PrefixWithoutFlags(0, gid, clock, level);
  }

  // ---------------------------------------------------------------------------
  // Output streams

  /** What a write did: nothing (gated out), wrote n bytes, returned an error, or panicked. */
  datatype WriteOutcome = Skipped | Wrote(n: nat) | Failed | Panicked

  /**
   * An io.WriteCloser held by the printer: the bytes written to it and whether
   * it was closed. Writing to a closed stream is an error; whether a close
   * fails is up to the stream and is an input.
   */
  class Sink {
    var data: string
    var closed: bool

    constructor ()
      ensures data == [] && !closed
    {
      data := [];
      closed := false;
    }

    /** Write: the whole text is appended, unless the stream is closed. */
    method Write(b: string) returns (n: nat, ok: bool)
      modifies this
      ensures ok == !old(closed) && closed == old(closed)
      ensures ok ==> n == |b| && data == old(data) + b
      ensures !ok ==> n == 0 && data == old(data)
    {
      if closed {
        return 0, false;
      }
      data := data + b;
      return |b|, true;
    }

    /** Close: the stream is closed unless closing fails. */
    method Close(fails: bool) returns (ok: bool)
      modifies this
      ensures ok == !fails && data == old(data)
      ensures closed == (old(closed) || ok)
    {
      if fails {
        return false;
      }
      closed := true;
      return true;
    }
  }

  /**
   * A write of line to w and its outcome: a nil stream panics; an open one
   * takes the whole line; a closed one reports an error, turned into a panic
   * when panics is set.
   */
  twostate predicate Delivered(w: Sink?, new line: string, panics: bool, new o: WriteOutcome)
    reads w
  {
    if w == null then o == Panicked
    else if old(w.closed) then
      o == (if panics then Panicked else Failed) && w.data == old(w.data) && w.closed
    else o == Wrote(|line|) && w.data == old(w.data) + line && !w.closed
  }

  /** The entries of m whose keys are in ks. */
  function Restrict<V>(m: map<string, V>, ks: set<string>): (r: map<string, V>)
    requires ks <= m.Keys
    ensures r.Keys == ks && forall k :: k in ks ==> r[k] == m[k]
  {
    map k | k in ks :: m[k]
  }

  /** Overriding with one more entry of given. */
  lemma OverrideStep<V>(m: map<string, V>, given: map<string, V>, done: set<string>, key: string)
    requires done <= given.Keys && key in given
    ensures (m + Restrict(given, done))[key := given[key]] == m + Restrict(given, done + {key})
  {
    var a := (m + Restrict(given, done))[key := given[key]];
    var b := m + Restrict(given, done + {key});
    assert a.Keys == b.Keys;
    forall k | k in a.Keys ensures a[k] == b[k] {
    }
  }

  /** The loop of WithFields: every entry of given inserted into m, one key at a time. */
  method InsertAll<V>(m: map<string, V>, given: map<string, V>) returns (merged: map<string, V>)
    ensures merged == m + given
    ensures merged.Keys == m.Keys + given.Keys
    ensures forall k :: k in given ==> merged[k] == given[k]
    ensures forall k :: k in m && k !in given ==> merged[k] == m[k]
  {
    merged := m;
    var keys := given.Keys;
    ghost var done: set<string> := {};
    while keys != {}
      invariant done <= given.Keys && keys == given.Keys - done
      invariant merged == m + Restrict(given, done)
      decreases keys
    {
      var key :| key in keys;
      OverrideStep(m, given, done, key);
      merged := merged[key := given[key]];
      keys := keys - {key};
      done := done + {key};
    }
    assert done == given.Keys;
    RestrictAll(given);
  }

  /** Restricting to every key changes nothing. */
  lemma RestrictAll<V>(m: map<string, V>)
    ensures Restrict(m, m.Keys) == m
  {
  }

  // ---------------------------------------------------------------------------
  // The printer

  /** A Printer: two streams, the level threshold, the flags and the structured fields. */
  class Printer<V> {
    var out: Sink?
    var err: Sink?
    var logLevel: Levels.Level
    var flags: Flags.Flags
    var fields: map<string, V>

    /** NewPrint: the given configuration and no fields. */
    constructor (logLevel: Levels.Level, flags: Flags.Flags, out: Sink?, err: Sink?)
      ensures this.out == out && this.err == err
      ensures this.logLevel == logLevel && this.flags == flags && this.fields == map[]
    {
      this.out := out;
      this.err := err;
      this.logLevel := logLevel;
      this.flags := flags;
      this.fields := map[];
    }

    /** writeTo: the buffer colorized, with '\n' ensured, written to w. */
    method WriteTo(b: string, w: Sink?) returns (o: WriteOutcome)
      modifies w
      ensures Delivered(w, Line(flags, b), false, o)
    {
      if w == null {
        return Panicked;
      }
      var line := FormatColor(flags, b);
      if !(|line| >= 1 && line[|line| - 1] == '\n') {
        line := line + "\n";
      }
      var n, ok := w.Write(line);
      o := if ok then Wrote(n) else Failed;
    }

    /** WriteToStd: writeTo on out; an error panics. */
    method WriteToStd(b: string) returns (o: WriteOutcome)
      modifies out
      ensures Delivered(out, Line(flags, b), true, o)
    {
      o := WriteTo(b, out);
      if o == Failed {
        o := Panicked;
      }
    }

    /** WriteToErr: writeTo on err; an error panics. */
    method WriteToErr(b: string) returns (o: WriteOutcome)
      modifies err
      ensures Delivered(err, Line(flags, b), true, o)
    {
      o := WriteTo(b, err);
      if o == Failed {
        o := Panicked;
      }
    }

    /** Write: writeTo on out, the error returned. */
    method Write(b: string) returns (o: WriteOutcome)
      modifies out
      ensures Delivered(out, Line(flags, b), false, o)
    {
      o := WriteTo(b, out);
    }

    /** GetLogLevel */
    function GetLogLevel(): (r: Levels.Level)
      reads this
      ensures r == logLevel
    {
      logLevel
    }

    /** SetLogLevel: the level GetLogLevel reports from now on; nothing else changes. */
    method SetLogLevel(level: Levels.Level)
      modifies this
      ensures GetLogLevel() == level
      ensures out == old(out) && err == old(err) && flags == old(flags) && fields == old(fields)
    {
      logLevel := level;
    }

    /** Errorf: when the level admits errors, the error message is written to err. */
    method Errorf(msg: string, gid: nat, clock: Clock) returns (o: WriteOutcome)
      requires ValidClock(clock)
      modifies err
      ensures o == Skipped <==> logLevel < Levels.ERROR
      ensures o == Skipped ==> err == null || (err.data == old(err.data) && err.closed == old(err.closed))
      ensures o != Skipped ==> Delivered(err, Line(flags, Message(Levels.ERROR, flags, gid, clock, msg)), true, o)
    {
      if logLevel >= Levels.ERROR {
        o := WriteToErr(Message(Levels.ERROR, flags, gid, clock, msg));
      } else {
        o := Skipped;
      }
    }

    /** Warnf: when the level admits warnings, the warning is written to out. */
    method Warnf(msg: string, gid: nat, clock: Clock) returns (o: WriteOutcome)
      requires ValidClock(clock)
      modifies out
      ensures o == Skipped <==> logLevel < Levels.WARN
      ensures o == Skipped ==> out == null || (out.data == old(out.data) && out.closed == old(out.closed))
      ensures o != Skipped ==> Delivered(out, Line(flags, Message(Levels.WARN, flags, gid, clock, msg)), true, o)
    {
      if logLevel >= Levels.WARN {
        o := WriteToStd(Message(Levels.WARN, flags, gid, clock, msg));
      } else {
        o := Skipped;
      }
    }

    /** Infof: when the level admits information, the message is written to out. */
    method Infof(msg: string, gid: nat, clock: Clock) returns (o: WriteOutcome)
      requires ValidClock(clock)
      modifies out
      ensures o == Skipped <==> logLevel < Levels.INFO
      ensures o == Skipped ==> out == null || (out.data == old(out.data) && out.closed == old(out.closed))
      ensures o != Skipped ==> Delivered(out, Line(flags, Message(Levels.INFO, flags, gid, clock, msg)), true, o)
    {
      if logLevel >= Levels.INFO {
        o := WriteToStd(Message(Levels.INFO, flags, gid, clock, msg));
      } else {
        o := Skipped;
      }
    }

    /** Debugf: when the level admits debugging, the message is written to out. */
    method Debugf(msg: string, gid: nat, clock: Clock) returns (o: WriteOutcome)
      requires ValidClock(clock)
      modifies out
      ensures o == Skipped <==> logLevel < Levels.DEBUG
      ensures o == Skipped ==> out == null || (out.data == old(out.data) && out.closed == old(out.closed))
      ensures o != Skipped ==> Delivered(out, Line(flags, Message(Levels.DEBUG, flags, gid, clock, msg)), true, o)
    {
      if logLevel >= Levels.DEBUG {
        o := WriteToStd(Message(Levels.DEBUG, flags, gid, clock, msg));
      } else {
        o := Skipped;
      }
    }

    /**
     * Close: out, then err, each closed and dropped; the first failure is
     * returned at once, leaving that stream and the ones after it in place.
     * Whether each close fails is an input. Once both are dropped, Close does
     * nothing and succeeds.
     */
    method Close(outFails: bool, errFails: bool) returns (ok: bool)
      modifies this, out, err
      ensures logLevel == old(logLevel) && flags == old(flags) && fields == old(fields)
      ensures var outClosed := old(out) != null && !outFails;
        var reachErr := old(out) == null || !outFails;
        var errClosed := reachErr && old(err) != null && !errFails;
        && ok == (reachErr && (old(err) == null || !errFails))
        && out == (if outClosed then null else old(out))
        && err == (if errClosed then null else old(err))
        && (outClosed ==> old(out).closed)
        && (errClosed ==> old(err).closed)
        && (old(err) != null && !errClosed && old(err) != old(out) ==> old(err).closed == old(err.closed))
        && (old(out) != null && !outClosed ==> old(out).closed == old(out.closed))
      ensures old(out) != null ==> old(out).data == old(out.data)
      ensures old(err) != null ==> old(err).data == old(err.data)
      ensures ok ==> out == null && err == null
    {
      if out != null {
        var closedOk := out.Close(outFails);
        if !closedOk {
          return false;
        }
        out := null;
      }
      if err != null {
        var closedOk := err.Close(errFails);
        if !closedOk {
          return false;
        }
        err := null;
      }
      return true;
    }

    /** Copy: a new printer with the same streams, level, flags and fields. */
    method Copy() returns (c: Printer<V>)
      ensures fresh(c)
      ensures c.out == out && c.err == err && c.logLevel == logLevel
      ensures c.flags == flags && c.fields == fields
    {
      c := new Printer(logLevel, flags, out, err);
      c.fields := fields;
    }

    /**
     * DisableColor: a copy without the color flag, whose lines carry the
     * buffers as they are; every other flag is kept.
     */
    method DisableColor() returns (c: Printer<V>)
      ensures fresh(c)
      ensures c.out == out && c.err == err && c.logLevel == logLevel && c.fields == fields
      ensures c.flags == Flags.Without(flags, Flags.WITH_COLOR)
      ensures !Flags.Has(c.flags, Flags.WITH_COLOR)
      ensures Flags.Has(c.flags, Flags.WITH_DATE) == Flags.Has(flags, Flags.WITH_DATE)
      ensures Flags.Has(c.flags, Flags.WITH_GOROUTINE_ID) == Flags.Has(flags, Flags.WITH_GOROUTINE_ID)
      ensures forall b :: Line(c.flags, b) == EnsureNewline(b)
    {
      c := Copy();
      c.flags := Flags.Without(c.flags, Flags.WITH_COLOR);
      Flags.WithoutClears(flags, Flags.WITH_COLOR);
      Flags.WithoutKeepsOthers(flags, Flags.WITH_COLOR, Flags.WITH_DATE);
      Flags.WithoutKeepsOthers(flags, Flags.WITH_COLOR, Flags.WITH_GOROUTINE_ID);
    }

    /** WithField: a copy whose fields also map key to value. */
    method WithField(key: string, value: V) returns (c: Printer<V>)
      ensures fresh(c)
      ensures c.out == out && c.err == err && c.logLevel == logLevel && c.flags == flags
      ensures c.fields == fields[key := value]
    {
      c := Copy();
      c.fields := c.fields[key := value];
    }

    /** WithFields: a copy whose fields are the receiver's overridden by the given ones. */
    method WithFields(given: map<string, V>) returns (c: Printer<V>)
      ensures fresh(c)
      ensures c.out == out && c.err == err && c.logLevel == logLevel && c.flags == flags
      ensures c.fields == fields + given
    {
      c := Copy();
      var merged := InsertAll(c.fields, given);
      c.fields := merged;
    }
  }

  /**
   * A printer closed without failure stays closed: closing again succeeds and
   * changes nothing, and writing to its standard stream panics.
   */
  method CloseThenWrite<V>(p: Printer<V>, outFails: bool, errFails: bool, b: string)
    returns (first: bool, second: bool, o: WriteOutcome)
    modifies p, p.out, p.err
    ensures first ==> second && p.out == null && p.err == null && o == Panicked
  {
    first := p.Close(outFails, errFails);
    second := p.Close(outFails, errFails);
    o := p.WriteToStd(b);
  }
}
