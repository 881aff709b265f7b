/**
 * The color-markup rewriter of writer.go (formatColor, writer.go:50-122).
 *
 * A token is three opening braces, an optional hyphen, a body of word
 * characters and commas, and three closing braces. Every token becomes one
 * SGR escape sequence (ESC '[' parameters 'm', the "select graphic rendition"
 * control function of ECMA-48 section 8.3.117) and one reset sequence is
 * appended after the last rewrite.
 *
 * The specification is `Colorized`: rewrite every scanned token in place
 * (`Render`). The method `FormatColor` follows the Go code: it scans, builds
 * each escape sequence component by component, and substitutes it with
 * `ReplaceAll`, one token text at a time; it is proved equal to `Colorized`.
 */
module Markup {
  import opened Text
  import Colors
  import Flags

  datatype Option<T> = None | Some(value: T)

  const ESC: char := 27 as char

  /** The trailing "reset all attributes" sequence. */
  const RESET_SEQUENCE: string := [ESC, '[', '0', 'm']

  // ---------------------------------------------------------------------------
  // The token scanner: a hand-written matcher for `\{{3}-?([\w,_]*)}{3}`

  /** Go's `\w` is ASCII only. */
  predicate IsWordChar(c: char) {
    'a' <= c <= 'z' || 'A' <= c <= 'Z' || IsDigit(c) || c == '_'
  }

  predicate IsBodyChar(c: char) { IsWordChar(c) || c == ',' }

  /** The characters a token can contain. */
  predicate IsTokenChar(c: char) { IsBodyChar(c) || c == '{' || c == '}' || c == '-' }

  /** The end of the longest run of body characters starting at i. */
  function RunEnd(s: string, i: nat): (e: nat)
    requires i <= |s|
    ensures i <= e <= |s|
    decreases |s| - i
  {
    if i < |s| && IsBodyChar(s[i]) then RunEnd(s, i + 1) else i
  }

  /** The run is made of body characters and stops at the first other one. */
  lemma {:induction false} RunEndRun(s: string, i: nat)
    requires i <= |s|
    ensures forall k :: i <= k < RunEnd(s, i) ==> IsBodyChar(s[k])
    ensures RunEnd(s, i) == |s| || !IsBodyChar(s[RunEnd(s, i)])
    decreases |s| - i
  {
    if i < |s| && IsBodyChar(s[i]) {
      RunEndRun(s, i + 1);
    }
  }

  lemma {:induction false} RunEndUnique(s: string, i: nat, e: nat)
    requires i <= e <= |s|
    requires forall k :: i <= k < e ==> IsBodyChar(s[k])
    requires e == |s| || !IsBodyChar(s[e])
    ensures RunEnd(s, i) == e
    decreases e - i
  {
    if i < e {
      RunEndUnique(s, i + 1, e);
    }
  }

  predicate Triple(s: string, i: nat, c: char) {
    i + 3 <= |s| && s[i] == c && s[i + 1] == c && s[i + 2] == c
  }

  /** A match: `start`..`end` is the token text, `body` the submatch. */
  datatype Token = Token(start: nat, end: nat, body: string)

  /**
   * The match of the pattern that starts exactly at i, if any. The hyphen is
   * taken when present; backtracking over it could never succeed, since a body
   * cannot start with a hyphen and neither can the closing braces.
   */
  function MatchAt(s: string, i: nat): (m: Option<Token>)
    ensures m.Some? ==> m.value.start == i && i + 6 <= m.value.end <= |s|
    ensures m.Some? ==> s[i] == '{'
  {
    if Triple(s, i, '{') then
      var b := BodyStart(s, i);
      var e := RunEnd(s, b);
      if Triple(s, e, '}') then Some(Token(i, e + 3, s[b..e])) else None
    else None
  }

  /** Where the body starts after three opening braces at i: past the hyphen, if any. */
  function BodyStart(s: string, i: nat): nat {
    if i + 3 < |s| && s[i + 3] == '-' then i + 4 else i + 3
  }

  /** A match taken apart: braces, body run, braces. */
  lemma MatchParts(s: string, i: nat)
    requires MatchAt(s, i).Some?
    ensures Triple(s, i, '{') && BodyStart(s, i) <= |s|
    ensures var e := RunEnd(s, BodyStart(s, i));
      Triple(s, e, '}') && MatchAt(s, i).value == Token(i, e + 3, s[BodyStart(s, i)..e])
  {
  }

  /** A match put together: braces, body run, braces. */
  lemma MatchFromParts(s: string, i: nat, e: nat)
    requires Triple(s, i, '{') && e == RunEnd(s, BodyStart(s, i)) && Triple(s, e, '}')
    ensures MatchAt(s, i) == Some(Token(i, e + 3, s[BodyStart(s, i)..e]))
  {
  }

  /** What a match looks like, character by character. */
  lemma MatchShape(s: string, i: nat)
    requires MatchAt(s, i).Some?
    ensures var t := MatchAt(s, i).value;
      && s[i] == '{' && s[i + 1] == '{' && s[i + 2] == '{'
      && s[t.end - 3] == '}' && s[t.end - 2] == '}' && s[t.end - 1] == '}'
      && (forall k :: i + 3 <= k < t.end ==> s[k] != '{' && IsTokenChar(s[k]))
      && (forall k :: i + 3 <= k < t.end - 3 ==> s[k] != '}')
      && (forall k :: i <= k < t.end ==> IsTokenChar(s[k]))
      && (forall k :: 0 <= k < |t.body| ==> IsBodyChar(t.body[k]))
  {
    RunEndRun(s, BodyStart(s, i));
  }

  /** A match ends with a closing brace. */
  lemma MatchCloses(s: string, i: nat)
    requires MatchAt(s, i).Some?
    ensures s[MatchAt(s, i).value.end - 1] == '}'
  {
    MatchShape(s, i);
  }

  /** A match spells "{{{" or "{{{-", then its body, then "}}}". */
  lemma MatchSpelling(s: string, i: nat)
    requires MatchAt(s, i).Some?
    ensures var t := MatchAt(s, i).value;
      s[i..t.end] == "{{{" + t.body + "}}}" || s[i..t.end] == "{{{-" + t.body + "}}}"
  {
    var b := BodyStart(s, i);
    MatchParts(s, i);
    var t := MatchAt(s, i).value;
    var e := t.end - 3;
    assert s[i..t.end] == s[i..b] + s[b..e] + s[e..t.end];
    assert s[e..t.end] == "}}}";
    if b == i + 3 {
      assert s[i..b] == "{{{";
    } else {
      assert s[i..b] == "{{{-";
    }
  }

  /** Equal stretches agree character by character. */
  lemma SliceAgree(s: string, i: nat, s': string, j: nat, n: nat)
    requires i + n <= |s| && j + n <= |s'| && s'[j..j + n] == s[i..i + n]
    ensures forall k :: j <= k < j + n ==> s'[k] == s[i + (k - j)]
  {
    forall k | j <= k < j + n ensures s'[k] == s[i + (k - j)] {
      assert s'[j..j + n][k - j] == s[i..i + n][k - j];
    }
  }

  /** Equal stretches have equal sub-stretches. */
  lemma SliceOfSlice(s: string, i: nat, s': string, j: nat, n: nat, a: nat, b: nat)
    requires i + n <= |s| && j + n <= |s'| && s'[j..j + n] == s[i..i + n]
    requires a <= b <= n
    ensures s'[j + a..j + b] == s[i + a..i + b]
  {
    var u := s'[j + a..j + b];
    var v := s[i + a..i + b];
    forall k | 0 <= k < |u| ensures u[k] == v[k] {
      assert s'[j..j + n][a + k] == s[i..i + n][a + k];
    }
  }

  /** A stretch of a suffix is a stretch of the whole text, shifted. */
  lemma SuffixSlice(y: string, d: nat, m: string, a: nat, b: nat)
    requires d <= |y| && y[d..] == m && a <= b <= |m|
    ensures y[d + a..d + b] == m[a..b]
  {
    var u := y[d + a..d + b];
    var v := m[a..b];
    forall k | 0 <= k < |u| ensures u[k] == v[k] {
      assert y[d..][a + k] == m[a + k];
    }
  }

  /** A match depends only on the characters of its own text. */
  lemma MatchAtLocal(s: string, i: nat, s': string, j: nat)
    requires MatchAt(s, i).Some?
    requires var n := MatchAt(s, i).value.end - i;
      j + n <= |s'| && s'[j..j + n] == s[i..i + n]
    ensures var t := MatchAt(s, i).value;
      MatchAt(s', j) == Some(Token(j, j + (t.end - i), t.body))
  {
    var t := MatchAt(s, i).value;
    var n := t.end - i;
    MatchParts(s, i);
    var b := BodyStart(s, i);
    var e := RunEnd(s, b);
    OpenLocal(s, i, s', j, n);
    var b', f' := Shifted(s, i, s', j, n, b, e + 1);
    RunEndShift(s, b, e, s', b', f');
    var e' := f' - 1;
    CloseLocal(s, i, s', j, n, e);
    var b2, e2 := Shifted(s, i, s', j, n, b, e);
    assert b' == BodyStart(s', j) && e' == e2 == j + (e - i);
    MatchFromParts(s', j, e');
    assert t == Token(i, e + 3, s[b..e]);
  }

  /** Equal stretches agree at offset a. */
  lemma SameChar(s: string, i: nat, s': string, j: nat, n: nat, a: nat)
    requires i + n <= |s| && j + n <= |s'| && s'[j..j + n] == s[i..i + n] && a < n
    ensures s'[j + a] == s[i + a]
  {
    assert s'[j..j + n][a] == s[i..i + n][a];
  }

  /** The opening of a match, copied: three braces, and a hyphen where there was one. */
  lemma OpenLocal(s: string, i: nat, s': string, j: nat, n: nat)
    requires n >= 6 && i + n <= |s| && j + n <= |s'| && s'[j..j + n] == s[i..i + n]
    requires Triple(s, i, '{')
    ensures Triple(s', j, '{') && BodyStart(s', j) == j + (BodyStart(s, i) - i)
  {
    SameChar(s, i, s', j, n, 0);
    SameChar(s, i, s', j, n, 1);
    SameChar(s, i, s', j, n, 2);
    SameChar(s, i, s', j, n, 3);
  }

  /** The closing braces of a match, copied. */
  lemma CloseLocal(s: string, i: nat, s': string, j: nat, n: nat, e: nat)
    requires i + n <= |s| && j + n <= |s'| && s'[j..j + n] == s[i..i + n]
    requires i <= e && e + 3 <= i + n && Triple(s, e, '}')
    ensures Triple(s', j + (e - i), '}')
  {
    SameChar(s, i, s', j, n, e - i);
    SameChar(s, i, s', j, n, e - i + 1);
    SameChar(s, i, s', j, n, e - i + 2);
  }

  /** A run of body characters ends at the same offset wherever it is copied. */
  lemma RunEndShift(s: string, b: nat, e: nat, s': string, b': nat, f': nat)
    requires b <= e < |s| && RunEnd(s, b) == e
    requires b' <= f' <= |s'| && f' - b' == e + 1 - b && s'[b'..f'] == s[b..e + 1]
    ensures RunEnd(s', b') == f' - 1
  {
    RunEndRun(s, b);
    SliceAgree(s, b, s', b', e + 1 - b);
    RunEndUnique(s', b', f' - 1);
  }

  /** Where a stretch p..q of s lies in a copy s' of s[i..i + n] placed at j. */
  lemma Shifted(s: string, i: nat, s': string, j: nat, n: nat, p: nat, q: nat) returns (p': nat, q': nat)
    requires i + n <= |s| && j + n <= |s'| && s'[j..j + n] == s[i..i + n]
    requires i <= p <= q <= i + n
    ensures p' == j + (p - i) && q' == j + (q - i) && q' <= |s'|
    ensures s'[p'..q'] == s[p..q]
  {
    p' := j + (p - i);
    q' := j + (q - i);
    SliceOfSlice(s, i, s', j, n, p - i, q - i);
  }

  /** A token text: a string that is exactly one match. */
  predicate IsTokenText(x: string) {
    MatchAt(x, 0).Some? && MatchAt(x, 0).value.end == |x|
  }

  /** The body of a token text. */
  function BodyOf(x: string): string
    requires IsTokenText(x)
  {
    MatchAt(x, 0).value.body
  }

  /** The text of a match is a token text with the match's body. */
  lemma MatchText(s: string, i: nat)
    requires MatchAt(s, i).Some?
    ensures var t := MatchAt(s, i).value;
      IsTokenText(s[i..t.end]) && BodyOf(s[i..t.end]) == t.body
  {
    var t := MatchAt(s, i).value;
    MatchAtLocal(s, i, s[i..t.end], 0);
  }

  /** A token text occurring at position j is matched there. */
  lemma TokenTextMatches(x: string, s: string, j: nat)
    requires IsTokenText(x)
    requires j + |x| <= |s| && s[j..j + |x|] == x
    ensures MatchAt(s, j) == Some(Token(j, j + |x|, BodyOf(x)))
  {
    assert x[0..|x|] == x;
    MatchAtLocal(x, 0, s, j);
  }

  /** Neither of two different token texts is a prefix of the other. */
  lemma TokenTextsNotNested(x: string, y: string)
    requires IsTokenText(x) && IsTokenText(y)
    requires |x| <= |y| && y[..|x|] == x
    ensures x == y
  {
    MatchShape(x, 0);
    MatchShape(y, 0);
  }

  /**
   * FindAllSubmatch(s, -1) from position `from`: the leftmost match, then the
   * leftmost match after its end, and so on.
   */
  function Scan(s: string, from: nat): (toks: seq<Token>)
    ensures forall k :: 0 <= k < |toks| ==>
      from <= toks[k].start && MatchAt(s, toks[k].start) == Some(toks[k])
    ensures forall k :: 0 < k < |toks| ==> toks[k - 1].end <= toks[k].start
    decreases |s| - from
  {
    if from >= |s| then []
    else
      match MatchAt(s, from)
      case Some(t) => [t] + Scan(s, t.end)
      case None => Scan(s, from + 1)
  }

  /**
   * The scan is leftmost: no match starts between `from` and the first token
   * found, and after the first token the scan resumes at its end.
   */
  lemma {:induction false} ScanLeftmost(s: string, from: nat)
    ensures var toks := Scan(s, from);
      forall p :: from <= p && (toks == [] || p < toks[0].start) ==> MatchAt(s, p).None?
    ensures var toks := Scan(s, from);
      toks != [] ==> toks[1..] == Scan(s, toks[0].end)
    decreases |s| - from
  {
    if from < |s| {
      match MatchAt(s, from)
      case Some(t) =>
        assert Scan(s, from) == [t] + Scan(s, t.end);
      case None =>
        ScanLeftmost(s, from + 1);
    }
  }

  /** The scan finds nothing exactly when no match starts at or after `from`. */
  lemma {:induction false} ScanEmpty(s: string, from: nat)
    ensures Scan(s, from) == [] <==> forall k :: from <= k ==> MatchAt(s, k).None?
    decreases |s| - from
  {
    if from < |s| {
      ScanEmpty(s, from + 1);
    }
  }

  // ---------------------------------------------------------------------------
  // From a token body to an SGR sequence

  /** The SGR parameter a component stands for, if it resolves (writer.go:90-110). */
  function Resolve(c: string): (r: Option<nat>)
    ensures r.Some? ==> r.value <= Colors.BACKGROUND_WHITE
  {
    if HasPrefix(c, "B_") then
      var name := Lower(c[2..]);
      if name in Colors.COLOR_VALUES
      then Some(Colors.COLOR_VALUES[name] + Colors.BACKGROUND_BLACK) else None
    else if HasPrefix(c, "F_") then
      var name := Lower(c[2..]);
      if name in Colors.COLOR_VALUES
      then Some(Colors.COLOR_VALUES[name] + Colors.FOREGROUND_BLACK) else None
    else
      var name := Lower(c);
      if name in Colors.COLOR_OPTIONS then Some(Colors.COLOR_OPTIONS[name]) else None
  }

  /**
   * A "B_" component resolves to a background code, an "F_" component to a
   * foreground code, and a bare component to one of the attribute codes.
   */
  lemma ResolveRange(c: string)
    ensures Resolve(c).Some? && HasPrefix(c, "B_") ==>
      Colors.BACKGROUND_BLACK <= Resolve(c).value <= Colors.BACKGROUND_WHITE
    ensures Resolve(c).Some? && HasPrefix(c, "F_") ==>
      Colors.FOREGROUND_BLACK <= Resolve(c).value <= Colors.FOREGROUND_WHITE
    ensures Resolve(c).Some? && !HasPrefix(c, "B_") && !HasPrefix(c, "F_") ==>
      Resolve(c).value <= Colors.SLOW_BLINK
  {
  }

  /** The inline diagnostic written for a component that does not resolve. */
  function Diagnostic(c: string): (r: string)
    ensures |r| >= |c| + 2 && r[0] == '%' && r[|r| - 1] == '%'
  {
    if HasPrefix(c, "B_") then "%B_COLOR_NOT_FOUND%" + c + "%"
    else if HasPrefix(c, "F_") then "%F_COLOR_NOT_FOUND%" + c + "%"
    else "%NOT_FOUND%" + c + "%"
  }

  /** What one component writes into the sequence: "<code>;" or the diagnostic. */
  function ComponentText(c: string): (r: string)
    ensures |r| >= 2
  {
    match Resolve(c)
    case Some(n) => Decimal(n) + ";"
    case None => Diagnostic(c)
  }

  /** The diagnostic names the component, just before its closing '%'. */
  lemma DiagnosticNames(c: string)
    ensures var d := Diagnostic(c); d[|d| - 1 - |c|..|d| - 1] == c
  {
  }

  /** A component's text ends in ';' exactly when the component resolves. */
  lemma ComponentTextEnd(c: string)
    ensures var r := ComponentText(c); r[|r| - 1] == ';' <==> Resolve(c).Some?
  {
  }

  /** The components' texts, one after the other. */
  function Codes(comps: seq<string>): (r: string)
    ensures |r| >= 2 * |comps|
  {
    if comps == [] then []
    else Codes(comps[..|comps| - 1]) + ComponentText(comps[|comps| - 1])
  }

  /** A component without '{' writes no '{'. */
  lemma ComponentTextBraceless(c: string)
    requires '{' !in c
    ensures '{' !in ComponentText(c)
  {
    match Resolve(c)
    case Some(n) =>
    case None =>
  }

  /** Components without '{' write no '{'. */
  lemma {:induction false} CodesBraceless(comps: seq<string>)
    requires forall k :: 0 <= k < |comps| ==> '{' !in comps[k]
    ensures '{' !in Codes(comps)
  {
    if comps != [] {
      CodesBraceless(comps[..|comps| - 1]);
      ComponentTextBraceless(comps[|comps| - 1]);
    }
  }

  /** Codes grows by one component's text. */
  lemma CodesSnoc(comps: seq<string>, c: string)
    ensures Codes(comps + [c]) == Codes(comps) + ComponentText(c)
  {
    assert (comps + [c])[..|comps|] == comps;
  }

  /** One pass of formatColor's inner loop appends one component's text. */
  lemma CodesStep(comps: seq<string>, j: nat, output: string)
    requires j < |comps| && output == [ESC, '['] + Codes(comps[..j])
    ensures output + ComponentText(comps[j]) == [ESC, '['] + Codes(comps[..j + 1])
  {
    CodesPrefixStep(comps, j);
    AppendAssoc([ESC, '['], Codes(comps[..j]), ComponentText(comps[j]));
  }

  /** The codes of one more component of comps. */
  lemma CodesPrefixStep(comps: seq<string>, j: nat)
    requires j < |comps|
    ensures Codes(comps[..j + 1]) == Codes(comps[..j]) + ComponentText(comps[j])
  {
    var front := comps[..j + 1];
    assert front[..|front| - 1] == comps[..j];
  }

  /** The sequence closed over what was written: the last character is dropped, then 'm'. */
  function Finish(codes: string): string
    requires |codes| >= 1
  {
    [ESC, '['] + codes[..|codes| - 1] + "m"
  }

  /** The SGR sequence for a token body. */
  function Sgr(body: string): (r: string)
    ensures |r| >= 4 && r[0] == ESC && r[1] == '[' && r[|r| - 1] == 'm'
  {
    Finish(Codes(Split(body, ',')))
  }

  /** A body without '{' yields a sequence without '{'. */
  lemma SgrBraceless(body: string)
    requires '{' !in body
    ensures '{' !in Sgr(body)
  {
    var parts := Split(body, ',');
    JoinSplit(body, ',');
    forall k | 0 <= k < |parts| ensures '{' !in parts[k] {
      JoinContains(parts, ',', k);
    }
    CodesBraceless(parts);
    FinishBraceless(Codes(parts));
  }

  /** Closing codes without '{' adds no '{'. */
  lemma FinishBraceless(codes: string)
    requires |codes| >= 1 && '{' !in codes
    ensures '{' !in Finish(codes)
  {
    var kept := codes[..|codes| - 1];
    assert forall k :: 0 <= k < |kept| ==> kept[k] == codes[k];
  }

  lemma {:induction false} JoinContains(parts: seq<string>, sep: char, k: nat)
    requires |parts| >= 1 && k < |parts|
    ensures forall c :: c in parts[k] ==> c in Join(parts, sep)
  {
    if k > 0 {
      JoinContains(parts[1..], sep, k - 1);
    }
  }

  // ---------------------------------------------------------------------------
  // Properties of the component mapping

  /** `F_` and `B_` with a color name, in any letter case, give the color.go codes. */
  lemma ResolveColorName(n: string, k: nat)
    requires k < |Colors.COLOR_NAMES| && Lower(n) == Colors.COLOR_NAMES[k]
    ensures Resolve("F_" + n) == Some(Colors.FOREGROUNDS[k])
    ensures Resolve("B_" + n) == Some(Colors.BACKGROUNDS[k])
  {
    ResolveForegroundName(n, k);
    ResolveBackgroundName(n, k);
  }

  lemma ResolveForegroundName(n: string, k: nat)
    requires k < |Colors.COLOR_NAMES| && Lower(n) == Colors.COLOR_NAMES[k]
    ensures Resolve("F_" + n) == Some(Colors.FOREGROUNDS[k])
  {
    Colors.ColorValuesEnumerate();
    Colors.ColorCodesFromBase(Lower(n));
    assert ("F_" + n)[..2] == "F_" && ("F_" + n)[2..] == n;
  }

  lemma ResolveBackgroundName(n: string, k: nat)
    requires k < |Colors.COLOR_NAMES| && Lower(n) == Colors.COLOR_NAMES[k]
    ensures Resolve("B_" + n) == Some(Colors.BACKGROUNDS[k])
  {
    Colors.ColorValuesEnumerate();
    Colors.ColorCodesFromBase(Lower(n));
    assert ("B_" + n)[..2] == "B_" && ("B_" + n)[2..] == n;
  }

  /** `F_` with any other name gives its diagnostic. */
  lemma ResolveUnknownForeground(n: string)
    requires Lower(n) !in Colors.COLOR_VALUES
    ensures Resolve("F_" + n) == None
    ensures ComponentText("F_" + n) == "%F_COLOR_NOT_FOUND%" + ("F_" + n) + "%"
  {
    assert ("F_" + n)[..2] == "F_" && ("F_" + n)[2..] == n;
  }

  /** `B_` with any other name gives its diagnostic. */
  lemma ResolveUnknownBackground(n: string)
    requires Lower(n) !in Colors.COLOR_VALUES
    ensures Resolve("B_" + n) == None
    ensures ComponentText("B_" + n) == "%B_COLOR_NOT_FOUND%" + ("B_" + n) + "%"
  {
    assert ("B_" + n)[..2] == "B_" && ("B_" + n)[2..] == n;
  }

  /**
   * A component without a color prefix resolves exactly when it spells one of
   * reset, bold, faint or underlined, in any letter case, to that option's code;
   * otherwise it gives the NOT_FOUND diagnostic.
   */
  lemma ResolveOption(c: string)
    requires !HasPrefix(c, "B_") && !HasPrefix(c, "F_")
    ensures Resolve(c).Some? <==> Lower(c) in ["reset", "bold", "faint", "underlined"]
    ensures Lower(c) == "reset" ==> Resolve(c) == Some(Colors.RESET)
    ensures Lower(c) == "bold" ==> Resolve(c) == Some(Colors.BOLD)
    ensures Lower(c) == "faint" ==> Resolve(c) == Some(Colors.FAINT)
    ensures Lower(c) == "underlined" ==> Resolve(c) == Some(Colors.UNDERLINED)
    ensures Resolve(c).None? ==> ComponentText(c) == "%NOT_FOUND%" + c + "%"
  {
    SlowBlinkKeyUnreachable(c);
  }

  /** No lower-cased text is the option key "slowBlink". */
  lemma SlowBlinkKeyUnreachable(c: string)
    ensures Lower(c) != "slowBlink"
  {
    if |c| == 9 {
      assert !IsUpper(Lower(c)[4]);
      assert IsUpper("slowBlink"[4]);
    }
  }

  /** slowBlink's code 5 is never produced: its table key has a capital letter. */
  lemma SlowBlinkUnreachable(c: string)
    ensures Resolve(c) != Some(Colors.SLOW_BLINK)
    ensures ComponentText(c) != "5;"
  {
    if !HasPrefix(c, "B_") && !HasPrefix(c, "F_") {
      ResolveOption(c);
    }
    match Resolve(c)
    case Some(n) =>
      AppendCancel(Decimal(n), "5", ";");
      DecimalInjective(n, 5);
      assert Decimal(5) == "5";
    case None =>
  }

  /** The prefixes are case-sensitive: `f_` and `b_` make an unknown option. */
  lemma PrefixCaseSensitive(n: string)
    ensures Resolve("f_" + n) == None && Resolve("b_" + n) == None
  {
    assert ("f_" + n)[..2] == "f_";
    UnderscoreNotOption("f_" + n);
    assert ("b_" + n)[..2] == "b_";
    UnderscoreNotOption("b_" + n);
  }

  /** No option name has '_' as its second character. */
  lemma UnderscoreNotOption(c: string)
    requires |c| >= 2 && c[1] == '_' && !HasPrefix(c, "B_") && !HasPrefix(c, "F_")
    ensures Resolve(c) == None
  {
    assert Lower(c)[1] == '_';
    ResolveOption(c);
  }

  /** The text of a token with the given opening (three braces, with or without '-'). */
  lemma TokenOfBody(open: string, b: string)
    requires open == "{{{" || open == "{{{-"
    requires forall k :: 0 <= k < |b| ==> IsBodyChar(b[k])
    ensures IsTokenText(open + b + "}}}") && BodyOf(open + b + "}}}") == b
  {
    var x := open + b + "}}}";
    var s := |open|;
    var e := s + |b|;
    assert x[..3] == "{{{";
    assert Triple(x, 0, '{');
    assert x[e] == '}';
    forall k | s <= k < e ensures IsBodyChar(x[k]) {
      assert x[k] == b[k - s];
    }
    if open == "{{{" {
      assert 3 < |x| && x[3] != '-';
    }
    RunEndUnique(x, s, e);
    assert Triple(x, e, '}');
    assert x[s..e] == b;
  }

  /** `{{{-X}}}` and `{{{X}}}` are tokens with the same body, rewritten alike. */
  lemma DashOptional(b: string)
    requires forall k :: 0 <= k < |b| ==> IsBodyChar(b[k])
    ensures IsTokenText("{{{" + b + "}}}") && IsTokenText("{{{-" + b + "}}}")
    ensures BodyOf("{{{" + b + "}}}") == BodyOf("{{{-" + b + "}}}") == b
  {
    TokenOfBody("{{{", b);
    TokenOfBody("{{{-", b);
  }

  /** The decimal codes of components that all resolve. */
  function Params(comps: seq<string>): (ps: seq<string>)
    requires forall k :: 0 <= k < |comps| ==> Resolve(comps[k]).Some?
    ensures |ps| == |comps|
  {
    if comps == [] then []
    else Params(comps[..|comps| - 1]) + [Decimal(Resolve(comps[|comps| - 1]).value)]
  }

  /** Resolved components write their codes, each followed by ';'. */
  lemma {:induction false} CodesResolved(comps: seq<string>)
    requires |comps| >= 1
    requires forall k :: 0 <= k < |comps| ==> Resolve(comps[k]).Some?
    ensures Codes(comps) == Join(Params(comps), ';') + ";"
  {
    var init := comps[..|comps| - 1];
    var d := Decimal(Resolve(comps[|comps| - 1]).value);
    if |init| == 0 {
      assert Params(comps) == [d];
    } else {
      CodesResolved(init);
      JoinSnoc(Params(init), d, ';');
    }
  }

  /**
   * A token whose components all resolve becomes ESC '[', the codes joined by
   * ';', and 'm'.
   */
  lemma SgrResolved(body: string)
    requires forall k :: 0 <= k < |Split(body, ',')| ==> Resolve(Split(body, ',')[k]).Some?
    ensures Sgr(body) == [ESC, '['] + Join(Params(Split(body, ',')), ';') + "m"
  {
    var parts := Split(body, ',');
    CodesResolved(parts);
    DropLast(Join(Params(parts), ';'), ";");
  }

  /** An unresolved component is written as its diagnostic. */
  lemma UnresolvedText(c: string)
    requires Resolve(c).None?
    ensures ComponentText(c) == Diagnostic(c)
  {
  }

  /** Finishing codes whose last piece is d truncates d. */
  lemma FinishLastPiece(init: string, d: string)
    requires d != []
    ensures Finish(init + d) == [ESC, '['] + init + d[..|d| - 1] + "m"
  {
    DropLast(init, d);
    AppendAssoc([ESC, '['], init, d[..|d| - 1]);
  }

  /**
   * When the last component does not resolve, its diagnostic loses the final
   * '%' to the truncation before 'm'.
   */
  lemma SgrLastUnresolved(body: string)
    requires Resolve(Split(body, ',')[|Split(body, ',')| - 1]).None?
    ensures var parts := Split(body, ',');
      var d := Diagnostic(parts[|parts| - 1]);
      d[|d| - 1] == '%' && Sgr(body) == [ESC, '['] + Codes(parts[..|parts| - 1]) + d[..|d| - 1] + "m"
  {
    var parts := Split(body, ',');
    var init := parts[..|parts| - 1];
    var last := parts[|parts| - 1];
    UnresolvedText(last);
    FrontLast(parts);
    CodesSnoc(init, last);
    var codes := Codes(init) + Diagnostic(last);
    assert Sgr(body) == Finish(codes);
    FinishLastPiece(Codes(init), Diagnostic(last));
  }

  /** An empty token body gives ESC "[%NOT_FOUND%m". */
  lemma SgrEmptyBody()
    ensures Sgr([]) == [ESC, '['] + "%NOT_FOUND%" + "m"
  {
    var none: seq<string> := [];
    var d := Diagnostic([]);
    assert Split([], ',') == none + [[]];
    assert Resolve([]) == None by {
      assert Lower([]) == [];
    }
    UnresolvedText([]);
    CodesSnoc(none, []);
    FinishLastPiece([], d);
    assert d == "%NOT_FOUND%" + "%";
    assert d[..|d| - 1] == "%NOT_FOUND%";
  }

  // ---------------------------------------------------------------------------
  // The specification: every token rewritten in place

  /** s from `from` on, with every scanned token replaced by rep of its body. */
  function Rewrite(s: string, from: nat, rep: string -> string): string
    decreases |s| - from
  {
    if from >= |s| then []
    else
      match MatchAt(s, from)
      case Some(t) => rep(t.body) + Rewrite(s, t.end, rep)
      case None => [s[from]] + Rewrite(s, from + 1, rep)
  }

  /** s from `from` on, with every scanned token replaced by its SGR sequence. */
  function Render(s: string, from: nat): string {
    Rewrite(s, from, Sgr)
  }

  /** What formatColor returns for the printer's flags and the given text. */
  function Colorized(flags: Flags.Flags, s: string): (r: string)
    ensures !Flags.Has(flags, Flags.WITH_COLOR) || Scan(s, 0) == [] ==> r == s
    ensures Flags.Has(flags, Flags.WITH_COLOR) && Scan(s, 0) != [] ==>
      |r| >= |RESET_SEQUENCE| && r[|r| - |RESET_SEQUENCE|..] == RESET_SEQUENCE
  {
    if !Flags.Has(flags, Flags.WITH_COLOR) || Scan(s, 0) == [] then s
    else Render(s, 0) + RESET_SEQUENCE
  }

  /** A match in p + z that starts within z is a match of z. */
  lemma MatchShiftRight(p: string, z: string, i: nat)
    requires |p| <= i
    ensures MatchAt(p + z, i).Some? ==> MatchAt(z, i - |p|).Some?
  {
    var y := p + z;
    if MatchAt(y, i).Some? {
      var n := MatchAt(y, i).value.end - i;
      assert y[|p|..] == z;
      SuffixSlice(y, |p|, z, i - |p|, i - |p| + n);
      MatchAtLocal(y, i, z, i - |p|);
    }
  }

  /** Rewrite at a match: the replacement, then the rest. */
  lemma RewriteAtMatch(s: string, from: nat, t: Token, rep: string -> string)
    requires from < |s| && MatchAt(s, from) == Some(t)
    ensures Rewrite(s, from, rep) == rep(t.body) + Rewrite(s, t.end, rep)
  {
  }

  /** Rewrite at a plain position: the character, then the rest. */
  lemma RewriteAtPlain(s: string, from: nat, rep: string -> string)
    requires from < |s| && MatchAt(s, from).None?
    ensures Rewrite(s, from, rep) == [s[from]] + Rewrite(s, from + 1, rep)
  {
  }

  /** A match of a suffix is a match of the whole text, shifted. */
  lemma MatchInSuffix(y: string, d: nat, m: string, i: nat, t: Token)
    requires d <= |y| && y[d..] == m && MatchAt(m, i) == Some(t)
    ensures MatchAt(y, d + i) == Some(Token(d + i, d + t.end, t.body))
  {
    SuffixSlice(y, d, m, i, t.end);
    MatchAtLocal(m, i, y, d + i);
  }

  /** A match of the whole text at d + i is a match of its suffix from d. */
  lemma MatchOfSuffix(y: string, d: nat, m: string, i: nat)
    requires d <= |y| && y[d..] == m && i < |m|
    ensures MatchAt(y, d + i).Some? ==> MatchAt(m, i).Some?
    ensures y[d + i] == m[i]
  {
    if MatchAt(y, d + i).Some? {
      var n := MatchAt(y, d + i).value.end - (d + i);
      SuffixSlice(y, d, m, i, i + n);
      MatchAtLocal(y, d + i, m, i);
    }
  }

  /** Two texts with matches of the same body rewrite alike if what follows does. */
  lemma RewriteAtMatches(y: string, a: nat, e: nat, m: string, i: nat, t: Token, rep: string -> string)
    requires a < |y| && MatchAt(y, a) == Some(Token(a, e, t.body))
    requires i < |m| && MatchAt(m, i) == Some(t)
    requires Rewrite(y, e, rep) == Rewrite(m, t.end, rep)
    ensures Rewrite(y, a, rep) == Rewrite(m, i, rep)
  {
    RewriteAtMatch(m, i, t, rep);
    RewriteAtMatch(y, a, Token(a, e, t.body), rep);
  }

  /** The match step of RewriteSuffix. */
  lemma RewriteSuffixAtMatch(y: string, d: nat, m: string, i: nat, t: Token, rep: string -> string)
    requires d <= |y| && y[d..] == m && i < |m| && MatchAt(m, i) == Some(t)
    requires Rewrite(y, d + t.end, rep) == Rewrite(m, t.end, rep)
    ensures Rewrite(y, d + i, rep) == Rewrite(m, i, rep)
  {
    MatchInSuffix(y, d, m, i, t);
    RewriteAtMatches(y, d + i, d + t.end, m, i, t, rep);
  }

  /** The plain step of RewriteSuffix. */
  lemma RewriteSuffixAtPlain(y: string, d: nat, m: string, i: nat, rep: string -> string)
    requires d <= |y| && y[d..] == m && i < |m| && MatchAt(m, i).None?
    requires Rewrite(y, d + i + 1, rep) == Rewrite(m, i + 1, rep)
    ensures Rewrite(y, d + i, rep) == Rewrite(m, i, rep)
  {
    MatchOfSuffix(y, d, m, i);
    RewriteAtPlain(m, i, rep);
    RewriteAtPlain(y, d + i, rep);
  }

  /** Where Rewrite goes on after position i: past the match there, or past one character. */
  function Next(s: string, i: nat): (j: nat)
    requires i < |s|
    ensures i < j <= |s|
  {
    match MatchAt(s, i)
    case Some(t) => t.end
    case None => i + 1
  }

  /** One step of RewriteSuffix. */
  lemma RewriteSuffixStep(y: string, d: nat, m: string, i: nat, rep: string -> string)
    requires d <= |y| && y[d..] == m && i < |m|
    requires Rewrite(y, d + Next(m, i), rep) == Rewrite(m, Next(m, i), rep)
    ensures Rewrite(y, d + i, rep) == Rewrite(m, i, rep)
  {
    var n := Next(m, i);
    if MatchAt(m, i).Some? {
      var t := MatchAt(m, i).value;
      assert d + n == d + t.end && n == t.end;
      RewriteSuffixAtMatch(y, d, m, i, t, rep);
    } else {
      assert d + n == d + i + 1 && n == i + 1;
      RewriteSuffixAtPlain(y, d, m, i, rep);
    }
  }

  /** Rewriting from inside a text is rewriting its suffix. */
  lemma {:induction false} RewriteSuffix(y: string, d: nat, m: string, i: nat, rep: string -> string)
    requires d <= |y| && y[d..] == m
    ensures Rewrite(y, d + i, rep) == Rewrite(m, i, rep)
    decreases |m| - i
  {
    if i < |m| {
      RewriteSuffix(y, d, m, Next(m, i), rep);
      RewriteSuffixStep(y, d, m, i, rep);
    }
  }

  /** Rewriting after a prefix is rewriting what follows it. */
  lemma RewriteShift(p: string, m: string, rep: string -> string)
    ensures Rewrite(p + m, |p|, rep) == Rewrite(m, 0, rep)
  {
    assert (p + m)[|p|..] == m;
    RewriteSuffix(p + m, |p|, m, 0, rep);
  }

  /** Rendering after a prefix is rendering what follows it. */
  lemma RenderShift(p: string, m: string)
    ensures Render(p + m, |p|) == Render(m, 0)
  {
    RewriteShift(p, m, Sgr);
  }

  /** A stretch without '{' is copied as it is. */
  lemma {:induction false} RewritePlain(s: string, from: nat, a: string, rep: string -> string)
    requires from + |a| <= |s| && s[from..from + |a|] == a && '{' !in a
    ensures Rewrite(s, from, rep) == a + Rewrite(s, from + |a|, rep)
    decreases |a|
  {
    if a != [] {
      assert s[from] == a[0];
      RewriteAtPlain(s, from, rep);
      assert s[from + 1..from + |a|] == a[1..];
      RewritePlain(s, from + 1, a[1..], rep);
      AppendAssoc([a[0]], a[1..], Rewrite(s, from + |a|, rep));
      assert [a[0]] + a[1..] == a;
    } else {
      assert a + Rewrite(s, from, rep) == Rewrite(s, from, rep);
    }
  }

  /** Every text: the set of texts a rendering has done. */
  ghost const EVERY_TEXT: iset<string> := iset x: string | true

  /** The rendering is Partial with every text done. */
  lemma RenderIsPartial(s: string, from: nat)
    ensures Partial(s, from, EVERY_TEXT) == Render(s, from)
  {
    PartialAllDone(s, from, EVERY_TEXT);
  }

  /** The head of a rendering plus the reset at a plain position is not a match. */
  lemma RenderHeadNoMatch(s: string, from: nat)
    requires from < |s| && MatchAt(s, from).None?
    ensures MatchAt(Render(s, from) + RESET_SEQUENCE, 0).None?
  {
    var r := Render(s, from);
    var y := r + RESET_SEQUENCE;
    if MatchAt(y, 0).Some? {
      var n := MatchAt(y, 0).value.end;
      var x := y[0..n];
      MatchText(y, 0);
      TokenTextHead(x);
      assert x == r[..n];
      RenderIsPartial(s, from);
      PartialHeadNoToken(s, from, EVERY_TEXT, x);
    }
  }

  /** Within a replacement free of '{' no match starts; past it, a match would be one of what follows. */
  lemma NoMatchAtToken(s: string, from: nat, t: Token, i: nat, rep: string -> string, tail: string)
    requires from < |s| && MatchAt(s, from) == Some(t)
    requires '{' !in rep(t.body)
    requires i >= |rep(t.body)| ==> MatchAt(Rewrite(s, t.end, rep) + tail, i - |rep(t.body)|).None?
    ensures MatchAt(Rewrite(s, from, rep) + tail, i).None?
  {
    var piece := rep(t.body);
    var rest := Rewrite(s, t.end, rep) + tail;
    assert Rewrite(s, from, rep) + tail == piece + rest by {
      RewriteAtMatch(s, from, t, rep);
      AppendAssoc(piece, Rewrite(s, t.end, rep), tail);
    }
    if i < |piece| {
      assert (piece + rest)[i] == piece[i];
    } else {
      MatchShiftRight(piece, rest, i);
    }
  }

  /** Past a copied character, a match would be a match of what follows it. */
  lemma NoMatchAfterPlain(s: string, from: nat, i: nat, rep: string -> string, tail: string)
    requires from < |s| && MatchAt(s, from).None? && i >= 1
    requires MatchAt(Rewrite(s, from + 1, rep) + tail, i - 1).None?
    ensures MatchAt(Rewrite(s, from, rep) + tail, i).None?
  {
    var rest := Rewrite(s, from + 1, rep) + tail;
    assert Rewrite(s, from, rep) + tail == [s[from]] + rest by {
      RewriteAtPlain(s, from, rep);
      AppendAssoc([s[from]], Rewrite(s, from + 1, rep), tail);
    }
    MatchShiftRight([s[from]], rest, i);
  }

  /**
   * A rewriting followed by tail holds no match, when the replacements of
   * bodies hold no '{', the tail holds none, and no match starts where a
   * plain character is copied.
   */
  lemma {:induction false} RewriteNoMatch(s: string, from: nat, i: nat, rep: string -> string, tail: string)
    requires forall b :: '{' !in b ==> '{' !in rep(b)
    requires '{' !in tail
    requires forall f :: from <= f < |s| && MatchAt(s, f).None? ==> MatchAt(Rewrite(s, f, rep) + tail, 0).None?
    ensures MatchAt(Rewrite(s, from, rep) + tail, i).None?
    decreases |s| - from
  {
    if from >= |s| {
      assert Rewrite(s, from, rep) + tail == tail;
      if i < |tail| {
        assert tail[i] in tail;
      }
    } else if MatchAt(s, from).Some? {
      var t := MatchAt(s, from).value;
      if i >= |rep(t.body)| {
        RewriteNoMatch(s, t.end, i - |rep(t.body)|, rep, tail);
      }
      MatchShape(s, from);
      assert '{' !in t.body;
      NoMatchAtToken(s, from, t, i, rep, tail);
    } else if i >= 1 {
      RewriteNoMatch(s, from + 1, i - 1, rep, tail);
      NoMatchAfterPlain(s, from, i, rep, tail);
    }
  }

  /** No match starts anywhere in a rendering followed by the reset sequence. */
  lemma RenderNoMatch(s: string, from: nat, i: nat)
    ensures MatchAt(Render(s, from) + RESET_SEQUENCE, i).None?
  {
    forall b | '{' !in b ensures '{' !in Sgr(b) {
      SgrBraceless(b);
    }
    forall f | from <= f < |s| && MatchAt(s, f).None?
      ensures MatchAt(Rewrite(s, f, Sgr) + RESET_SEQUENCE, 0).None?
    {
      RenderHeadNoMatch(s, f);
    }
    RewriteNoMatch(s, from, i, Sgr, RESET_SEQUENCE);
  }

  /** With the color flag set, the result holds no token left to rewrite. */
  lemma ColorizedLeavesNoToken(flags: Flags.Flags, s: string)
    requires Flags.Has(flags, Flags.WITH_COLOR)
    ensures Scan(Colorized(flags, s), 0) == []
  {
    if Scan(s, 0) != [] {
      forall k: nat ensures MatchAt(Render(s, 0) + RESET_SEQUENCE, k).None? {
        RenderNoMatch(s, 0, k);
      }
      ScanEmpty(Render(s, 0) + RESET_SEQUENCE, 0);
    }
  }

  /** Rewriting twice is rewriting once. */
  lemma ColorizedIdempotent(flags: Flags.Flags, s: string)
    ensures Colorized(flags, Colorized(flags, s)) == Colorized(flags, s)
  {
    if Flags.Has(flags, Flags.WITH_COLOR) {
      ColorizedLeavesNoToken(flags, s);
    }
  }

  /** Text without '{' holds no token and is returned as it is, without a reset. */
  lemma ColorizedBraceless(flags: Flags.Flags, s: string)
    requires '{' !in s
    ensures Scan(s, 0) == [] && Colorized(flags, s) == s
  {
    forall k: nat ensures MatchAt(s, k).None? {
    }
    ScanEmpty(s, 0);
  }

  // ---------------------------------------------------------------------------
  // bytes.ReplaceAll, and the intermediate states of formatColor's loop

  /** bytes.ReplaceAll(x, pat, rep) for a non-empty pattern: leftmost, non-overlapping. */
  function ReplaceAll(x: string, pat: string, rep: string): (r: string)
    requires pat != []
    ensures |x| < |pat| ==> r == x
    ensures rep == pat ==> r == x
    decreases |x|
  {
    if |x| < |pat| then x
    else if x[..|pat|] == pat then
      assert rep == pat ==> rep + x[|pat|..] == x;
      rep + ReplaceAll(x[|pat|..], pat, rep)
    else [x[0]] + ReplaceAll(x[1..], pat, rep)
  }

  /** A text in which the pattern occurs nowhere comes back unchanged. */
  lemma {:induction false} ReplaceAllAbsent(x: string, pat: string, rep: string)
    requires pat != []
    requires forall k :: 0 <= k <= |x| ==> !HasPrefix(x[k..], pat)
    ensures ReplaceAll(x, pat, rep) == x
    decreases |x|
  {
    if |x| >= |pat| {
      assert x[0..] == x;
      forall k | 0 <= k <= |x| - 1
        ensures !HasPrefix(x[1..][k..], pat)
      {
        assert x[1..][k..] == x[k + 1..];
      }
      ReplaceAllAbsent(x[1..], pat, rep);
    }
  }

  /**
   * s from `from` on with the scanned tokens whose text is in `done` replaced
   * by their SGR sequences and the others left as they are.
   */
  ghost function Partial(s: string, from: nat, done: iset<string>): string
    decreases |s| - from
  {
    if from >= |s| then []
    else
      match MatchAt(s, from)
      case Some(t) =>
        (if s[from..t.end] in done then Sgr(t.body) else s[from..t.end]) + Partial(s, t.end, done)
      case None => [s[from]] + Partial(s, from + 1, done)
  }

  lemma {:induction false} PartialNoneDone(s: string, from: nat)
    requires from <= |s|
    ensures Partial(s, from, iset{}) == s[from..]
    decreases |s| - from
  {
    if from < |s| {
      match MatchAt(s, from)
      case Some(t) =>
        PartialNoneDone(s, t.end);
        assert s[from..t.end] + s[t.end..] == s[from..];
      case None =>
        PartialNoneDone(s, from + 1);
        assert [s[from]] + s[from + 1..] == s[from..];
    }
  }

  lemma {:induction false} PartialAllDone(s: string, from: nat, done: iset<string>)
    requires forall t :: t in Scan(s, from) ==> s[t.start..t.end] in done
    ensures Partial(s, from, done) == Render(s, from)
    decreases |s| - from
  {
    if from < |s| {
      match MatchAt(s, from)
      case Some(t) =>
        assert Scan(s, from) == [t] + Scan(s, t.end);
        assert t in Scan(s, from);
        PartialAllDone(s, t.end, done);
      case None =>
        PartialAllDone(s, from + 1, done);
    }
  }

  /** ReplaceAll copies a character that does not start the pattern. */
  lemma ReplaceAllSkip(x: string, pat: string, rep: string)
    requires pat != [] && x != []
    requires !(|pat| <= |x| && x[..|pat|] == pat)
    ensures ReplaceAll(x, pat, rep) == [x[0]] + ReplaceAll(x[1..], pat, rep)
  {
  }

  /** ReplaceAll copies a stretch without '{' when the pattern starts with '{'. */
  lemma {:induction false} ReplaceAllBraceless(a: string, b: string, pat: string, rep: string)
    requires pat != [] && pat[0] == '{' && '{' !in a
    ensures ReplaceAll(a + b, pat, rep) == a + ReplaceAll(b, pat, rep)
  {
    if a != [] {
      assert (a + b)[0] == a[0] != '{';
      ReplaceAllSkip(a + b, pat, rep);
      assert (a + b)[1..] == a[1..] + b;
      ReplaceAllBraceless(a[1..], b, pat, rep);
      calc {
        ReplaceAll(a + b, pat, rep);
        [a[0]] + ReplaceAll(a[1..] + b, pat, rep);
        [a[0]] + (a[1..] + ReplaceAll(b, pat, rep));
        ([a[0]] + a[1..]) + ReplaceAll(b, pat, rep);
        { assert [a[0]] + a[1..] == a; }
        a + ReplaceAll(b, pat, rep);
      }
    } else {
      assert a + b == b;
    }
  }

  /** A token text opens with exactly three braces and has no other '{'. */
  lemma TokenTextHead(x: string)
    requires IsTokenText(x)
    ensures |x| >= 6 && x[0] == '{' && x[1] == '{' && x[2] == '{'
    ensures '{' !in x[3..]
    ensures forall k :: 3 <= k < |x| ==> x[k] != '{' && x[k] != ESC
  {
    MatchShape(x, 0);
    forall k | 0 <= k < |x| - 3 ensures x[3..][k] != '{' {
      assert x[3..][k] == x[3 + k];
    }
  }

  /** A token text starts a text that begins with a token text only if the two are the same. */
  lemma OtherTokenNotPrefix(x: string, b: string, pat: string)
    requires IsTokenText(x) && IsTokenText(pat)
    ensures HasPrefix(x + b, pat) ==> x == pat
  {
    var y := x + b;
    if HasPrefix(y, pat) {
      if |x| < |pat| {
        assert pat[..|x|] == x;
        TokenTextsNotNested(x, pat);
      } else {
        assert x[..|pat|] == pat;
        TokenTextsNotNested(pat, x);
      }
    }
  }

  /** ReplaceAll copies a first character that differs from the pattern's k-th. */
  lemma ReplaceAllCons(c: char, t: string, pat: string, rep: string, k: nat)
    requires k < |pat| && (k == 0 ==> c != pat[0]) && (0 < k <= |t| ==> t[k - 1] != pat[k])
    ensures ReplaceAll([c] + t, pat, rep) == [c] + ReplaceAll(t, pat, rep)
  {
    var y := [c] + t;
    if |pat| <= |y| {
      assert y[..|pat|][k] == y[k];
    }
    assert y[1..] == t;
  }

  /**
   * ReplaceAll copies a head of three braces followed by a brace-free stretch,
   * when the pattern opens with three braces but does not start the text.
   */
  lemma ReplaceAllBraceHead(x: string, b: string, pat: string, rep: string)
    requires |x| >= 4 && x[3] != '{' && '{' !in x[3..]
    requires |pat| >= 3 && pat[0] == '{' && pat[1] == '{' && pat[2] == '{'
    requires !HasPrefix(x + b, pat)
    ensures ReplaceAll(x + b, pat, rep) == x + ReplaceAll(b, pat, rep)
  {
    ReplaceAllBraceless(x[3..], b, pat, rep);
    assert x[2..][1..] == x[3..];
    ReplaceAllCopyHead(x[2..], b, pat, rep, 1);
    assert x[1..][1..] == x[2..];
    ReplaceAllCopyHead(x[1..], b, pat, rep, 2);
    ReplaceAllSkip(x + b, pat, rep);
    assert (x + b)[1..] == x[1..] + b;
    AppendAssoc([x[0]], x[1..], ReplaceAll(b, pat, rep));
    assert [x[0]] + x[1..] == x;
  }

  /**
   * ReplaceAll copies the head of y when its k-th character already differs
   * from the pattern's and the rest of y is copied.
   */
  lemma ReplaceAllCopyHead(y: string, b: string, pat: string, rep: string, k: nat)
    requires k < |y| && k < |pat| && y[k] != pat[k]
    requires ReplaceAll(y[1..] + b, pat, rep) == y[1..] + ReplaceAll(b, pat, rep)
    ensures ReplaceAll(y + b, pat, rep) == y + ReplaceAll(b, pat, rep)
  {
    assert y + b == [y[0]] + (y[1..] + b);
    ReplaceAllCons(y[0], y[1..] + b, pat, rep, k);
    AppendAssoc([y[0]], y[1..], ReplaceAll(b, pat, rep));
    assert [y[0]] + y[1..] == y;
  }

  /** ReplaceAll copies a token text different from the pattern. */
  lemma ReplaceAllOtherToken(x: string, b: string, pat: string, rep: string)
    requires IsTokenText(x) && IsTokenText(pat) && x != pat
    ensures ReplaceAll(x + b, pat, rep) == x + ReplaceAll(b, pat, rep)
  {
    TokenTextHead(x);
    TokenTextHead(pat);
    OtherTokenNotPrefix(x, b, pat);
    assert x[3] != '{' by { assert x[3..][0] == x[3]; }
    ReplaceAllBraceHead(x, b, pat, rep);
  }

  /** A prefix of a text with a known first character. */
  lemma PrefixCons(c: char, t: string, w: string)
    requires w != [] && HasPrefix([c] + t, w)
    ensures c == w[0] && HasPrefix(t, w[1..])
  {
    assert ([c] + t)[..|w|][0] == c;
    assert ([c] + t)[..|w|][1..] == t[..|w| - 1];
  }

  /** A slice known from its first three characters and the rest. */
  lemma SliceFromHead(s: string, q: nat, x: string)
    requires |x| >= 3 && q + |x| <= |s|
    requires s[q] == x[0] && s[q + 1] == x[1] && s[q + 2] == x[2]
    requires s[q + 3..q + |x|] == x[3..]
    ensures s[q..q + |x|] == x
  {
    forall k | 3 <= k < |x| ensures s[q..q + |x|][k] == x[k] {
      assert s[q + 3..q + |x|][k - 3] == x[3..][k - 3];
    }
  }

  /** Where a match starts, Partial starts with ESC or with exactly three braces. */
  lemma PartialPieceHead(s: string, q: nat, done: iset<string>)
    requires q < |s| && MatchAt(s, q).Some?
    ensures var p := Partial(s, q, done);
      |p| >= 4 && (p[0] == ESC || (p[0] == '{' && p[1] == '{' && p[2] == '{' && p[3] != '{'))
  {
    MatchShape(s, q);
  }

  /**
   * If Partial at q starts with a character that cannot start a piece, that
   * character is plain text of s at q.
   */
  lemma PlainStep(s: string, q: nat, done: iset<string>, w: string)
    requires |w| >= 3 && HasPrefix(Partial(s, q, done), w)
    requires w[0] != ESC && !(w[0] == '{' && w[1] == '{' && w[2] == '{')
    ensures q < |s| && MatchAt(s, q).None? && s[q] == w[0]
    ensures HasPrefix(Partial(s, q + 1, done), w[1..])
  {
    var p := Partial(s, q, done);
    assert p[..|w|][0] == p[0] && p[..|w|][1] == p[1] && p[..|w|][2] == p[2];
    if MatchAt(s, q).Some? {
      PartialPieceHead(s, q, done);
      assert false;
    }
    PrefixCons(s[q], Partial(s, q + 1, done), w);
  }

  /**
   * If Partial starts with a stretch free of '{' and ESC, that stretch is
   * plain text of s.
   */
  lemma {:induction false} PlainPrefix(s: string, q: nat, done: iset<string>, w: string)
    requires q <= |s|
    requires forall k :: 0 <= k < |w| ==> w[k] != '{' && w[k] != ESC
    requires HasPrefix(Partial(s, q, done), w)
    ensures q + |w| <= |s| && s[q..q + |w|] == w
    decreases |w|
  {
    if w != [] {
      var p := Partial(s, q, done);
      assert p[..|w|][0] == p[0];
      if MatchAt(s, q).Some? {
        PartialPieceHead(s, q, done);
        assert false;
      }
      PrefixCons(s[q], Partial(s, q + 1, done), w);
      PlainPrefix(s, q + 1, done, w[1..]);
      assert s[q..q + |w|] == [s[q]] + s[q + 1..q + |w|];
    }
  }

  /**
   * Where s has no match, a text of three braces and then neither '{' nor ESC
   * that starts Partial is plain text of s.
   */
  lemma PartialHeadPlain(s: string, q: nat, done: iset<string>, x: string)
    requires MatchAt(s, q).None?
    requires |x| >= 6 && x[0] == '{' && x[1] == '{' && x[2] == '{'
    requires forall k :: 3 <= k < |x| ==> x[k] != '{' && x[k] != ESC
    requires HasPrefix(Partial(s, q, done), x)
    ensures q + |x| <= |s| && s[q..q + |x|] == x
  {
    PartialHeadBraces(s, q, done, x);
    PlainPrefix(s, q + 3, done, x[3..]);
    SliceFromHead(s, q, x);
  }

  /** The three braces that start Partial where s has no match are plain text of s. */
  lemma PartialHeadBraces(s: string, q: nat, done: iset<string>, x: string)
    requires MatchAt(s, q).None?
    requires |x| >= 6 && x[0] == '{' && x[1] == '{' && x[2] == '{' && x[3] != '{' && x[3] != ESC
    requires HasPrefix(Partial(s, q, done), x)
    ensures q + 3 <= |s| && s[q] == x[0] && s[q + 1] == x[1] && s[q + 2] == x[2]
    ensures HasPrefix(Partial(s, q + 3, done), x[3..])
  {
    PrefixCons(s[q], Partial(s, q + 1, done), x);
    PlainStep(s, q + 1, done, x[1..]);
    assert x[1..][1..] == x[2..];
    PlainStep(s, q + 2, done, x[2..]);
    assert x[2..][1..] == x[3..];
  }

  /** Where s has no match, Partial does not start with a token text. */
  lemma PartialHeadNoToken(s: string, q: nat, done: iset<string>, x: string)
    requires MatchAt(s, q).None? && IsTokenText(x)
    ensures !HasPrefix(Partial(s, q, done), x)
  {
    if HasPrefix(Partial(s, q, done), x) {
      TokenTextHead(x);
      PartialHeadPlain(s, q, done, x);
      TokenTextMatches(x, s, q);
    }
  }

  /**
   * One pass of formatColor's loop: ReplaceAll of a token text by its SGR
   * sequence marks that text done and changes nothing else.
   */
  lemma {:induction false} ReplaceStep(s: string, from: nat, done: iset<string>, x: string)
    requires IsTokenText(x)
    ensures ReplaceAll(Partial(s, from, done), x, Sgr(BodyOf(x))) == Partial(s, from, done + iset{x})
    decreases |s| - from
  {
    if from < |s| {
      ReplaceStep(s, Next(s, from), done, x);
      if MatchAt(s, from).Some? {
        ReplaceStepToken(s, from, done, x);
      } else {
        ReplaceStepPlain(s, from, done, x);
      }
    }
  }

  /** ReplaceStep where no token starts at `from`, given the step for the rest. */
  lemma ReplaceStepPlain(s: string, from: nat, done: iset<string>, x: string)
    requires IsTokenText(x) && from < |s| && MatchAt(s, from).None?
    requires ReplaceAll(Partial(s, from + 1, done), x, Sgr(BodyOf(x))) == Partial(s, from + 1, done + iset{x})
    ensures ReplaceAll(Partial(s, from, done), x, Sgr(BodyOf(x))) == Partial(s, from, done + iset{x})
  {
    PartialHeadNoToken(s, from, done, x);
    TokenTextHead(x);
    ReplaceAllSkip(Partial(s, from, done), x, Sgr(BodyOf(x)));
  }

  /** ReplaceStep where a token starts at `from`, given the step for the rest. */
  lemma ReplaceStepToken(s: string, from: nat, done: iset<string>, x: string)
    requires IsTokenText(x) && from < |s| && MatchAt(s, from).Some?
    requires var t := MatchAt(s, from).value;
      ReplaceAll(Partial(s, t.end, done), x, Sgr(BodyOf(x))) == Partial(s, t.end, done + iset{x})
    ensures ReplaceAll(Partial(s, from, done), x, Sgr(BodyOf(x))) == Partial(s, from, done + iset{x})
  {
    var rep := Sgr(BodyOf(x));
    var t := MatchAt(s, from).value;
    var tx := s[from..t.end];
    MatchText(s, from);
    if tx in done {
      SgrOfMatchSkipped(s, from, Partial(s, t.end, done), x, rep);
    } else if tx == x {
      assert (tx + Partial(s, t.end, done))[..|x|] == x;
      assert (tx + Partial(s, t.end, done))[|x|..] == Partial(s, t.end, done);
    } else {
      ReplaceAllOtherToken(tx, Partial(s, t.end, done), x, rep);
    }
  }

  /** The SGR sequence of a matched body holds no token text to replace. */
  lemma SgrOfMatchSkipped(s: string, i: nat, b: string, x: string, rep: string)
    requires MatchAt(s, i).Some? && IsTokenText(x)
    ensures var body := MatchAt(s, i).value.body;
      ReplaceAll(Sgr(body) + b, x, rep) == Sgr(body) + ReplaceAll(b, x, rep)
  {
    var body := MatchAt(s, i).value.body;
    MatchShape(s, i);
    assert '{' !in body;
    SgrBraceless(body);
    ReplaceAllBraceless(Sgr(body), b, x, rep);
  }

  /** The text of a token of s, or nothing for a token that is not within s. */
  function TextOf(s: string, t: Token): string {
    if t.start <= t.end <= |s| then s[t.start..t.end] else []
  }

  /** The texts of the given tokens of s. */
  ghost function Texts(s: string, toks: seq<Token>): iset<string> {
    if toks == [] then iset{}
    else Texts(s, toks[..|toks| - 1]) + iset{TextOf(s, toks[|toks| - 1])}
  }

  lemma {:induction false} TextsHas(s: string, toks: seq<Token>, k: nat)
    requires k < |toks|
    ensures TextOf(s, toks[k]) in Texts(s, toks)
  {
    if k < |toks| - 1 {
      TextsHas(s, toks[..|toks| - 1], k);
    }
  }

  /** After all scanned tokens are done, Partial is the rendering. */
  lemma AllTextsDone(s: string)
    ensures Partial(s, 0, Texts(s, Scan(s, 0))) == Render(s, 0)
  {
    var toks := Scan(s, 0);
    forall t | t in toks ensures s[t.start..t.end] in Texts(s, toks) {
      var k :| 0 <= k < |toks| && toks[k] == t;
      TextsHas(s, toks, k);
    }
    PartialAllDone(s, 0, Texts(s, toks));
  }

  /**
   * formatColor's replacement for the k-th scanned match: its text joins the
   * texts already done.
   */
  lemma ReplaceMatch(s: string, toks: seq<Token>, k: nat)
    requires k < |toks| && MatchAt(s, toks[k].start) == Some(toks[k])
    ensures var t := toks[k];
      ReplaceAll(Partial(s, 0, Texts(s, toks[..k])), s[t.start..t.end], Sgr(t.body))
        == Partial(s, 0, Texts(s, toks[..k + 1]))
  {
    var t := toks[k];
    assert toks[..k + 1][..k] == toks[..k];
    assert TextOf(s, t) == s[t.start..t.end];
    MatchText(s, t.start);
    ReplaceStep(s, 0, Texts(s, toks[..k]), s[t.start..t.end]);
  }

  /** ReplaceMatch for the k-th scanned token. */
  lemma ReplaceScanned(s: string, k: nat)
    requires k < |Scan(s, 0)|
    ensures var f := Scan(s, 0);
      var t := f[k];
      ReplaceAll(Partial(s, 0, Texts(s, f[..k])), TextOf(s, t), Sgr(t.body))
        == Partial(s, 0, Texts(s, f[..k + 1]))
  {
    ReplaceMatch(s, Scan(s, 0), k);
  }

  // ---------------------------------------------------------------------------
  // formatColor

  /**
   * The inner loop of formatColor: write each component's code or diagnostic
   * after "ESC[", drop the last character written and close with 'm'.
   */
  method BuildSgr(body: string) returns (output: string)
    ensures output == Sgr(body)
  {
    output := [ESC, '['];
    var composed := Split(body, ',');
    for j := 0 to |composed|
      invariant output == [ESC, '['] + Codes(composed[..j])
    {
      CodesStep(composed, j, output);
      output := output + ComponentText(composed[j]);
    }
    assert composed[..|composed|] == composed;
    DropLast([ESC, '['], Codes(composed));
    output := output[..|output| - 1] + "m";
  }

  /**
   * formatColor: with the color flag clear, or without any token, the text is
   * returned as it is; otherwise each scanned token text is replaced by its
   * SGR sequence and one reset sequence is appended.
   */
  method FormatColor(flags: Flags.Flags, buffer: string) returns (r: string)
    ensures r == Colorized(flags, buffer)
  {
    if flags & Flags.WITH_COLOR == 0 {
      return buffer;
    }
    var f := Scan(buffer, 0);
    if |f| == 0 {
      return buffer;
    }
    r := ReplaceTokens(buffer, f);
    r := r + RESET_SEQUENCE;
  }

  /**
   * formatColor's outer loop: each scanned token text, in turn, is replaced
   * everywhere by the SGR sequence its body builds.
   */
  method ReplaceTokens(buffer: string, f: seq<Token>) returns (r: string)
    requires f == Scan(buffer, 0)
    ensures r == Render(buffer, 0)
  {
    r := buffer;
    PartialNoneDone(buffer, 0);
    assert f[..0] == [];
    for k := 0 to |f|
      invariant r == Partial(buffer, 0, Texts(buffer, f[..k]))
    {
      var output := BuildSgr(f[k].body);
      var text := TextOf(buffer, f[k]);
      ReplaceScanned(buffer, k);
      r := ReplaceAll(r, text, output);
    }
    assert f[..|f|] == f;
    AllTextsDone(buffer);
  }
}
