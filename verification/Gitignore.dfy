/** The session-state line that `ward init` adds to `.gitignore` (crates/ward-cli/src/init.rs). */
module Gitignore {
  import opened Text
  import opened Utf8

  const SESSIONS_IGNORE := ".ward/sessions/"
  const SESSIONS_COMMENT := "# WardOS session state, never committed (ward init)"

  function TrimStartSlashes(s: string): string {
    if s != [] && s[0] == '/' then TrimStartSlashes(s[1..]) else s
  }

  function TrimEndSlashes(s: string): string {
    if s != [] && s[|s| - 1] == '/' then TrimEndSlashes(s[..|s| - 1]) else s
  }

  function TrimEndStars(s: string): string {
    if EndsWith(s, "/**") then TrimEndStars(s[..|s| - 3]) else s
  }

  /** Whether one line already covers the session state. */
  predicate IgnoresSessions(line: string) {
    var pattern := TrimEndStars(TrimEndSlashes(TrimStartSlashes(Trim(line))));
    pattern == ".ward/sessions" || pattern == ".ward"
  }

  predicate AlreadyIgnored(text: string) {
    exists i | 0 <= i < |Lines(text)| :: IgnoresSessions(Lines(text)[i])
  }

  function Terminated(text: string): string {
    if text != [] && !EndsWith(text, "\n") then text + "\n" else text
  }

  function WithSessions(text: string): string {
    Terminated(text) + SESSIONS_COMMENT + "\n" + SESSIONS_IGNORE + "\n"
  }

  // -------------------------------------------------------------------------------------------
  // The lines recognised

  function Slashes(n: nat): string {
    seq(n, _ => '/')
  }

  function Stars(n: nat): string {
    if n == 0 then [] else Stars(n - 1) + "/**"
  }

  /** `core` behind any slashes, before any number of slash-and-two-stars, then any slashes. */
  predicate Spells(s: string, core: string, a: nat, b: nat, c: nat) {
    s == Slashes(a) + (core + Stars(b) + Slashes(c))
  }

  lemma {:induction false} SplitStart(s: string) returns (a: nat)
    ensures s == Slashes(a) + TrimStartSlashes(s)
  {
    if s != [] && s[0] == '/' {
      a := SplitStart(s[1..]);
      assert s == [s[0]] + s[1..];
      assert Slashes(a + 1) == ['/'] + Slashes(a);
      a := a + 1;
    } else {
      a := 0;
    }
  }

  lemma {:induction false} SplitEnd(s: string) returns (c: nat)
    ensures s == TrimEndSlashes(s) + Slashes(c)
  {
    if s != [] && s[|s| - 1] == '/' {
      c := SplitEnd(s[..|s| - 1]);
      assert s == s[..|s| - 1] + [s[|s| - 1]];
      assert Slashes(c + 1) == Slashes(c) + ['/'];
      c := c + 1;
    } else {
      c := 0;
    }
  }

  lemma {:induction false} SplitStars(s: string) returns (b: nat)
    ensures s == TrimEndStars(s) + Stars(b)
  {
    if EndsWith(s, "/**") {
      b := SplitStars(s[..|s| - 3]);
      assert s == s[..|s| - 3] + "/**";
      Reassociate(TrimEndStars(s), Stars(b), "/**");
      b := b + 1;
    } else {
      b := 0;
    }
  }

  lemma {:induction false} JoinStart(a: nat, t: string)
    requires t == [] || t[0] != '/'
    ensures TrimStartSlashes(Slashes(a) + t) == t
  {
    if a == 0 {
      assert Slashes(0) + t == t;
    } else {
      JoinStart(a - 1, t);
      assert (Slashes(a) + t)[1..] == Slashes(a - 1) + t;
    }
  }

  lemma {:induction false} JoinEnd(t: string, c: nat)
    requires t == [] || t[|t| - 1] != '/'
    ensures TrimEndSlashes(t + Slashes(c)) == t
  {
    var s := t + Slashes(c);
    if c == 0 {
      assert s == t;
    } else {
      JoinEnd(t, c - 1);
      assert s[..|s| - 1] == t + Slashes(c - 1);
    }
  }

  lemma {:induction false} JoinStars(t: string, b: nat)
    requires !EndsWith(t, "/**")
    ensures TrimEndStars(t + Stars(b)) == t
  {
    var s := t + Stars(b);
    if b == 0 {
      assert s == t;
    } else {
      JoinStars(t, b - 1);
      assert s == (t + Stars(b - 1)) + "/**";
      assert s[..|s| - 3] == t + Stars(b - 1);
      assert s[|s| - 3..] == "/**";
    }
  }

  lemma StarsEnd(core: string, b: nat)
    requires core != [] && core[|core| - 1] != '/'
    ensures core + Stars(b) != []
    ensures (core + Stars(b))[|core + Stars(b)| - 1] != '/'
  {
    if b > 0 {
      assert Stars(b) == Stars(b - 1) + "/**";
    }
  }

  lemma SpelledIsTrimmed(s: string, core: string, a: nat, b: nat, c: nat)
    requires Spells(s, core, a, b, c)
    requires core != [] && core[0] != '/' && core[|core| - 1] != '/' && core[|core| - 1] != '*'
    ensures TrimEndStars(TrimEndSlashes(TrimStartSlashes(s))) == core
  {
    StarsEnd(core, b);
    JoinStart(a, core + Stars(b) + Slashes(c));
    JoinEnd(core + Stars(b), c);
    JoinStars(core, b);
  }

  lemma TrimmedIsSpelled(s: string) returns (a: nat, b: nat, c: nat)
    ensures Spells(s, TrimEndStars(TrimEndSlashes(TrimStartSlashes(s))), a, b, c)
  {
    a := SplitStart(s);
    c := SplitEnd(TrimStartSlashes(s));
    b := SplitStars(TrimEndSlashes(TrimStartSlashes(s)));
  }

  ghost predicate Covers(s: string, core: string) {
    exists a: nat, b: nat, c: nat :: Spells(s, core, a, b, c)
  }

  /** The lines recognised are exactly `.ward` and `.ward/sessions`, behind any number of slashes
      and followed by any number of slash-and-two-stars and then of slashes, between blanks. */
  lemma RecognisedExactly(line: string)
    ensures IgnoresSessions(line) <==> Covers(Trim(line), ".ward/sessions") || Covers(Trim(line), ".ward")
  {
    var s := Trim(line);
    if IgnoresSessions(line) {
      var a, b, c := TrimmedIsSpelled(s);
    }
    if Covers(s, ".ward/sessions") {
      var a: nat, b: nat, c: nat :| Spells(s, ".ward/sessions", a, b, c);
      SpelledIsTrimmed(s, ".ward/sessions", a, b, c);
    }
    if Covers(s, ".ward") {
      var a: nat, b: nat, c: nat :| Spells(s, ".ward", a, b, c);
      SpelledIsTrimmed(s, ".ward", a, b, c);
    }
  }

  // -------------------------------------------------------------------------------------------
  // The appended text

  lemma OwnLineIsRecognised()
    ensures IgnoresSessions(SESSIONS_IGNORE)
    ensures NoBreak(SESSIONS_IGNORE) && SESSIONS_IGNORE != [] && SESSIONS_IGNORE[|SESSIONS_IGNORE| - 1] != '\r'
  {
    var s := SESSIONS_IGNORE;
    assert TrimStart(s) == s && TrimEnd(s) == s;
    assert s == Slashes(0) + (".ward/sessions" + Stars(0) + Slashes(1));
    assert Spells(s, ".ward/sessions", 0, 0, 1);
    RecognisedExactly(s);
  }

  lemma LastLine(before: string, line: string)
    requires WholeLines(before) && NoBreak(line) && (line == [] || line[|line| - 1] != '\r')
    ensures Lines(before + line + "\n") == Lines(before) + [line]
  {
    LinesOfSingleEntry(line);
    LinesConcat(before, line + "\n");
    Reassociate(before, line, "\n");
  }

  lemma GrowsAfter(text: string, comment: string, line: string)
    ensures text < Terminated(text) + comment + "\n" + line + "\n"
  {
  }

  lemma EndsRecognised(before: string, line: string)
    requires WholeLines(before) && NoBreak(line) && line != [] && line[|line| - 1] != '\r'
    requires IgnoresSessions(line)
    ensures AlreadyIgnored(before + line + "\n")
  {
    LastLine(before, line);
    var lines := Lines(before + line + "\n");
    assert lines[|lines| - 1] == line;
  }

  lemma AddsRecognised(text: string, comment: string, line: string)
    requires NoBreak(line) && line != [] && line[|line| - 1] != '\r'
    requires IgnoresSessions(line)
    ensures AlreadyIgnored(Terminated(text) + comment + "\n" + line + "\n")
  {
    EndsRecognised(Terminated(text) + comment + "\n", line);
  }

  /** The old text is a proper prefix of the new one, and a line of the new one is recognised. */
  lemma AddsToTheText(text: string)
    ensures text < WithSessions(text)
    ensures AlreadyIgnored(WithSessions(text))
  {
    OwnLineIsRecognised();
    AddsRecognised(text, SESSIONS_COMMENT, SESSIONS_IGNORE);
    GrowsAfter(text, SESSIONS_COMMENT, SESSIONS_IGNORE);
  }

  function Last<T>(s: seq<T>): T
    requires s != []
  {
    s[|s| - 1]
  }

  function StripLast(lines: seq<string>): seq<string>
    requires lines != []
  {
    lines[..|lines| - 1] + [StripReturn(Last(lines))]
  }

  lemma StripLastAfter(first: string, lines: seq<string>)
    requires lines != []
    ensures StripLast([first] + lines) == [first] + StripLast(lines)
  {
  }

  lemma StripLastKeepsExactly(lines: seq<string>)
    requires lines != []
    ensures StripLast(lines) == lines <==> StripReturn(Last(lines)) == Last(lines)
  {
    assert lines == lines[..|lines| - 1] + [Last(lines)];
    assert Last(StripLast(lines)) == StripReturn(Last(lines));
  }

  lemma LinesAtBreak(s: string, first: string, rest: string)
    requires FirstBreak(s) == |first| < |s| && s[..|first|] == first && s[|first| + 1..] == rest
    ensures Lines(s) == [StripReturn(first)] + Lines(rest)
  {
  }

  lemma LinesAfterBreak(text: string, first: string, rest: string)
    requires FirstBreak(text) == |first| < |text| && text[..|first|] == first && text[|first| + 1..] == rest
    ensures Lines(text) == [StripReturn(first)] + Lines(rest)
    ensures Lines(text + "\n") == [StripReturn(first)] + Lines(rest + "\n")
  {
    FirstBreakConcat(text, "\n");
    var longer := text + "\n";
    assert longer[..|first|] == first && longer[|first| + 1..] == rest + "\n";
    LinesAtBreak(text, first, rest);
    LinesAtBreak(longer, first, rest + "\n");
  }

  /** The break added to an unfinished last line only strips that line's carriage return. */
  lemma {:induction false} BreakStripsLast(text: string)
    requires text != [] && Last(text) != '\n'
    ensures Lines(text) != [] && Last(Lines(text)) != [] && Last(Last(Lines(text))) == Last(text)
    ensures Lines(text + "\n") == StripLast(Lines(text))
    decreases |text|
  {
    var i := FirstBreak(text);
    if i == |text| {
      LinesOfSingleEntry(text);
    } else {
      var first, rest := text[..i], text[i + 1..];
      LinesAfterBreak(text, first, rest);
      assert rest != [] && Last(rest) == Last(text);
      BreakStripsLast(rest);
      StripLastAfter(StripReturn(first), Lines(rest));
    }
  }

  lemma AddedBehind(text: string, rest: string)
    ensures Lines(Terminated(text)) <= Lines(Terminated(text) + rest)
  {
    LinesConcat(Terminated(text), rest);
  }

  lemma TerminatedKeepsLinesExactly(text: string)
    ensures Lines(Terminated(text)) == Lines(text) <==> text == [] || Last(text) != '\r'
  {
    if text != [] {
      assert text[|text| - 1..] == [Last(text)];
      if Last(text) != '\n' {
        BreakStripsLast(text);
        StripLastKeepsExactly(Lines(text));
      }
    }
  }

  /** No line of the old text is lost, and none is changed unless the text ends in a bare carriage
      return. */
  lemma KeepsTheLines(text: string)
    ensures Lines(Terminated(text)) <= Lines(WithSessions(text))
    ensures Lines(Terminated(text)) == Lines(text) <==> text == [] || Last(text) != '\r'
  {
    var rest := SESSIONS_COMMENT + "\n" + SESSIONS_IGNORE + "\n";
    assert WithSessions(text) == Terminated(text) + rest;
    AddedBehind(text, rest);
    TerminatedKeepsLinesExactly(text);
  }

  // -------------------------------------------------------------------------------------------
  // Writing without truncating

  /** What a file holds after bytes are written from its start. */
  function Overwritten(before: seq<Byte>, written: seq<Byte>): seq<Byte> {
    written + (if |written| < |before| then before[|written|..] else [])
  }

  /** Writing the new text over the old one needs no truncation. */
  lemma OverwriteIsExact(text: string)
    ensures Overwritten(Encode(text), Encode(WithSessions(text))) == Encode(WithSessions(text))
  {
    var full := WithSessions(text);
    AddsToTheText(text);
    PrefixesGrow(full, |text|, |full|);
    assert full[..|text|] == text && full[..|full|] == full;
  }
}
