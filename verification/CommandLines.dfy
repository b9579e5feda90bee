/** Active `command:` lines in a text (crates/ward-cli/src/init.rs), as lines and as positions. */
module CommandLines {
  import opened Text

  predicate ActiveLine(line: string) {
    StartsWith(TrimStart(line), "command:")
  }

  predicate AnyActive(lines: seq<string>) {
    exists i | 0 <= i < |lines| :: ActiveLine(lines[i])
  }

  /** Whether a YAML text has an active (uncommented) `command:` key. */
  predicate HasActiveCommand(text: string) {
    AnyActive(Lines(text))
  }

  // -------------------------------------------------------------------------------------------
  // The same by position

  const KEY := "command:"

  predicate Blank(s: string, i: int, j: int) {
    forall k | i <= k < j && 0 <= k < |s| :: IsWhitespace(s[k])
  }

  /** Only blanks stand before the key at `j`. */
  predicate Leads(s: string, j: nat) {
    OccursAt(s, KEY, j) && Blank(s, 0, j)
  }

  predicate LeadsSomewhere(s: string) {
    exists j | 0 <= j <= |s| :: Leads(s, j)
  }

  /** A line break at `i`, then only blanks, then the key at `j`. */
  predicate BreaksInto(s: string, i: nat, j: nat) {
    i < j && OccursAt(s, KEY, j) && s[i] == '\n' && Blank(s, i + 1, j)
  }

  /** The text carries a line break with the key on a line after it. */
  predicate Introduces(s: string) {
    exists i, j | 0 <= i < |s| && 0 <= j <= |s| :: BreaksInto(s, i, j)
  }

  lemma KeyAt(s: string, j: nat)
    requires OccursAt(s, KEY, j)
    ensures s[j] == 'c' && s[j + 7] == ':'
    ensures forall k | j <= k < j + 8 :: s[k] in KEY && s[k] != '\n' && !IsWhitespace(s[k])
  {
    assert |KEY| == 8;
    assert forall k | j <= k < j + 8 :: s[k] == s[j..j + 8][k - j] == KEY[k - j];
  }

  lemma {:induction false} ActiveLineLeads(line: string)
    ensures ActiveLine(line) <==> LeadsSomewhere(line)
  {
    if line != [] && IsWhitespace(line[0]) {
      ActiveLineLeads(line[1..]);
      LeadsAfterBlank(line);
    } else if LeadsSomewhere(line) {
      var j :| 0 <= j <= |line| && Leads(line, j);
      KeyAt(line, j);
      assert j == 0;
      assert KEY <= line;
    } else if KEY <= line {
      assert Leads(line, 0);
    }
  }

  lemma LeadsEarlier(s: string, j: nat)
    requires s != [] && IsWhitespace(s[0]) && Leads(s, j)
    ensures j > 0 && Leads(s[1..], j - 1)
  {
    KeyAt(s, j);
    assert s[1..][j - 1..j + 7] == s[j..j + 8];
  }

  lemma LeadsLater(s: string, j: nat)
    requires s != [] && IsWhitespace(s[0]) && Leads(s[1..], j)
    ensures Leads(s, j + 1)
  {
    assert s[j + 1..j + 9] == s[1..][j..j + 8];
    assert forall k | 0 < k < |s| :: s[k] == s[1..][k - 1];
  }

  lemma LeadsAfterBlank(s: string)
    requires s != [] && IsWhitespace(s[0])
    ensures LeadsSomewhere(s) <==> LeadsSomewhere(s[1..])
  {
    if j :| 0 <= j <= |s| && Leads(s, j) {
      LeadsEarlier(s, j);
    }
    if j :| 0 <= j <= |s[1..]| && Leads(s[1..], j) {
      LeadsLater(s, j);
    }
  }

  lemma LeadsInPrefix(line: string, n: nat, j: nat)
    requires n <= |line|
    ensures Leads(line[..n], j) ==> Leads(line, j)
    ensures Leads(line, j) && j + 8 <= n ==> Leads(line[..n], j)
  {
    assert j + 8 <= n ==> line[..n][j..j + 8] == line[j..j + 8];
  }

  lemma StripReturnLeads(line: string)
    ensures LeadsSomewhere(StripReturn(line)) <==> LeadsSomewhere(line)
  {
    var n := |StripReturn(line)|;
    assert StripReturn(line) == line[..n];
    if j :| 0 <= j <= |line| && Leads(line, j) {
      KeyAt(line, j);
      LeadsInPrefix(line, n, j);
    }
    if j :| 0 <= j <= n && Leads(line[..n], j) {
      LeadsInPrefix(line, n, j);
    }
  }

  /** Behind a line break a text is judged by its beginning, too. */
  lemma BehindBreak(s: string)
    ensures Introduces("\n" + s) <==> LeadsSomewhere(s) || Introduces(s)
  {
    IntroducesStays("\n", s);
    var t := "\n" + s;
    if i, j :| 0 <= i < |t| && 0 <= j <= |t| && BreaksInto(t, i, j) {
      assert forall k | 0 <= k < |s| :: s[k] == t[k + 1];
      assert s[j - 1..j + 7] == t[j..j + 8];
      assert if i == 0 then Leads(s, j - 1) else BreaksInto(s, i - 1, j - 1);
    }
    if j :| 0 <= j <= |s| && Leads(s, j) {
      assert s[j..j + 8] == t[j + 1..j + 9];
      assert BreaksInto(t, 0, j + 1);
    }
  }

  lemma IntroducesStays(a: string, b: string)
    ensures Introduces(a) || Introduces(b) ==> Introduces(a + b)
  {
    var s := a + b;
    if i, j :| 0 <= i < |a| && 0 <= j <= |a| && BreaksInto(a, i, j) {
      assert s[j..j + 8] == a[j..j + 8];
      assert BreaksInto(s, i, j);
    }
    if i, j :| 0 <= i < |b| && 0 <= j <= |b| && BreaksInto(b, i, j) {
      assert s[|a| + j..|a| + j + 8] == b[j..j + 8];
      assert BreaksInto(s, |a| + i, |a| + j);
    }
  }

  /** A text that cannot go on with a key begun before it, nor begin one after blanks. */
  predicate Fence(b: string) {
    b != [] && b[0] !in KEY && (b[0] == '\n' || !LeadsSomewhere(b))
  }

  /** Such a text separates: what is before it and it itself can be judged alone. */
  lemma FenceSeparates(a: string, b: string)
    requires Fence(b)
    ensures Introduces(a + b) <==> Introduces(a) || Introduces(b)
  {
    IntroducesStays(a, b);
    var s := a + b;
    if i, j :| 0 <= i < |s| && 0 <= j <= |s| && BreaksInto(s, i, j) {
      if j < |a| {
        BeforeTheSeam(a, b, i, j);
      } else {
        AfterTheSeam(a, b, i, j);
      }
    }
  }

  lemma BeforeTheSeam(a: string, b: string, i: nat, j: nat)
    requires b != [] && b[0] !in KEY && BreaksInto(a + b, i, j) && j < |a|
    ensures Introduces(a)
  {
    var s := a + b;
    KeyAt(s, j);
    assert s[|a|] == b[0];
    assert forall k | 0 <= k < |a| :: a[k] == s[k];
    assert a[j..j + 8] == s[j..j + 8];
    assert BreaksInto(a, i, j);
  }

  lemma AfterTheSeam(a: string, b: string, i: nat, j: nat)
    requires Fence(b) && BreaksInto(a + b, i, j) && j >= |a|
    ensures Introduces(b)
  {
    var s := a + b;
    var m := j - |a|;
    assert b[m..m + 8] == s[j..j + 8];
    assert forall k | 0 <= k < |b| :: b[k] == s[|a| + k];
    KeyAt(b, m);
    if i >= |a| {
      assert BreaksInto(b, i - |a|, m);
    } else if b[0] == '\n' {
      assert BreaksInto(b, 0, m);
    } else {
      assert Leads(b, m);
    }
  }

  lemma PrefixIsNothing(prefix: string, rest: string)
    requires NoBreak(prefix)
    ensures Introduces(prefix + rest) <==> Introduces(rest)
  {
    IntroducesStays(prefix, rest);
    var s := prefix + rest;
    if i, j :| 0 <= i < |s| && 0 <= j <= |s| && BreaksInto(s, i, j) {
      var m, n := i - |prefix|, j - |prefix|;
      assert forall k | 0 <= k < |prefix| :: prefix[k] == s[k];
      assert forall k | 0 <= k < |rest| :: rest[k] == s[|prefix| + k];
      assert rest[n..n + 8] == s[j..j + 8];
      assert BreaksInto(rest, m, n);
    }
  }

  lemma UnbrokenIntroducesNothing(s: string)
    requires NoBreak(s)
    ensures !Introduces(s)
  {
  }

  /** Blanks and then a character that is neither blank nor the key's first. */
  lemma BlanksThen(b: string, n: nat)
    requires n < |b| && Blank(b, 0, n) && !IsWhitespace(b[n]) && b[n] != 'c'
    ensures !LeadsSomewhere(b)
  {
    forall j | 0 <= j <= |b| ensures !Leads(b, j) {
      if OccursAt(b, KEY, j) {
        KeyAt(b, j);
      }
    }
  }

  /** A line break at `i`, then only blanks, then `command` at the very end. */
  predicate EndsInKey(s: string, i: nat) {
    i + 7 < |s| && s[i] == '\n' && Blank(s, i + 1, |s| - 7) && s[|s| - 7..] == "command"
  }

  predicate EndsInCommand(s: string) {
    exists i | 0 <= i < |s| :: EndsInKey(s, i)
  }

  lemma ColonCompletes(s: string, i: nat, j: nat)
    requires BreaksInto(s + ":", i, j)
    ensures BreaksInto(s, i, j) || EndsInKey(s, i)
  {
    var t := s + ":";
    assert forall k | 0 <= k < |s| :: t[k] == s[k];
    if j + 8 <= |s| {
      assert s[j..j + 8] == t[j..j + 8];
    } else {
      assert s[|s| - 7..] == t[j..j + 8][..7] == KEY[..7];
    }
  }

  lemma CompletedByColon(s: string, i: nat)
    requires EndsInKey(s, i)
    ensures BreaksInto(s + ":", i, |s| - 7)
  {
    var t := s + ":";
    assert forall k | 0 <= k < |s| :: t[k] == s[k];
    assert t[|s| - 7..|s| + 1] == s[|s| - 7..] + ":";
  }

  /** A colon behind a text completes a key only at its very end. */
  lemma ColonIntroduces(s: string)
    ensures Introduces(s + ":") <==> Introduces(s) || EndsInCommand(s)
  {
    IntroducesStays(s, ":");
    if i, j :| 0 <= i < |s + ":"| && 0 <= j <= |s + ":"| && BreaksInto(s + ":", i, j) {
      ColonCompletes(s, i, j);
    }
    if i :| 0 <= i < |s| && EndsInKey(s, i) {
      CompletedByColon(s, i);
    }
  }

  lemma EndsStays(front: string, b: string, i: nat)
    requires EndsInKey(b, i)
    ensures EndsInKey(front + b, |front| + i)
  {
    var s := front + b;
    assert s[|s| - 7..] == b[|b| - 7..];
    assert forall k | |front| <= k < |s| :: s[k] == b[k - |front|];
  }

  lemma LastWord(s: string, i: nat)
    requires EndsInKey(s, i)
    ensures forall k | i < k < |s| :: s[k] != ',' && (IsWhitespace(s[k]) || k >= |s| - 7)
  {
    var word := s[|s| - 7..];
    assert forall k | |s| - 7 <= k < |s| :: s[k] == word[k - (|s| - 7)];
    assert forall k | 0 <= k < 7 :: "command"[k] != ',';
  }

  lemma EndsBehindComma(front: string, b: string, i: nat)
    requires |front| >= 2 && front[|front| - 2] == ',' && front[|front| - 1] == ' '
    requires EndsInKey(front + b, i)
    ensures i >= |front| && EndsInKey(b, i - |front|)
  {
    var s := front + b;
    LastWord(s, i);
    assert s[|front| - 2] == ',' && s[|front| - 1] == ' ';
    assert i >= |front|;
    assert s[|s| - 7..] == b[|b| - 7..];
    assert forall k | 0 <= k < |b| :: b[k] == s[|front| + k];
  }

  lemma EndsAfterComma(a: string, b: string)
    ensures EndsInCommand(a + ", " + b) <==> EndsInCommand(b)
  {
    var s := a + ", " + b;
    if i :| 0 <= i < |s| && EndsInKey(s, i) {
      EndsBehindComma(a + ", ", b, i);
    }
    if i :| 0 <= i < |b| && EndsInKey(b, i) {
      EndsStays(a + ", ", b, i);
    }
  }

  lemma OneActive(line: string)
    ensures AnyActive([line]) <==> ActiveLine(line)
  {
    assert [line][0] == line;
  }

  lemma LineActiveByPosition(line: string)
    requires NoBreak(line)
    ensures ActiveLine(line) <==> Introduces("\n" + line)
    ensures ActiveLine(StripReturn(line)) <==> Introduces("\n" + line)
  {
    BehindBreak(line);
    UnbrokenIntroducesNothing(line);
    ActiveLineLeads(line);
    ActiveLineLeads(StripReturn(line));
    StripReturnLeads(line);
  }

  lemma ActiveAcrossBreak(text: string, first: string, rest: string)
    requires FirstBreak(text) == |first| < |text| && text[..|first|] == first && text[|first| + 1..] == rest
    ensures HasActiveCommand(text) <==> ActiveLine(StripReturn(first)) || HasActiveCommand(rest)
  {
    assert Lines(text) == [StripReturn(first)] + Lines(rest);
    AnyActiveConcat([StripReturn(first)], Lines(rest));
    OneActive(StripReturn(first));
  }

  lemma SingleLineByPosition(text: string)
    requires text != [] && FirstBreak(text) == |text|
    ensures HasActiveCommand(text) <==> Introduces("\n" + text)
  {
    LineActiveByPosition(text);
    OneActive(text);
    assert Lines(text) == [text];
  }

  lemma BreakRejoins(text: string, first: string, rest: string)
    requires |first| < |text| && text[..|first|] == first && text[|first| + 1..] == rest && text[|first|] == '\n'
    ensures text == first + ("\n" + rest)
  {
  }

  lemma BrokenByPosition(text: string, first: string, rest: string)
    requires FirstBreak(text) == |first| < |text| && text[..|first|] == first && text[|first| + 1..] == rest
    requires HasActiveCommand(rest) <==> Introduces("\n" + rest)
    ensures HasActiveCommand(text) <==> Introduces("\n" + text)
  {
    LineActiveByPosition(first);
    ActiveAcrossBreak(text, first, rest);
    BreakIntroduces(first, rest);
    BreakRejoins(text, first, rest);
  }

  /** A text has an active command exactly when, put behind a line break, it introduces one. */
  lemma {:induction false} ActiveByPosition(text: string)
    ensures HasActiveCommand(text) <==> Introduces("\n" + text)
    decreases |text|
  {
    var i := FirstBreak(text);
    if text == [] {
      UnbrokenLines(text);
    } else if i == |text| {
      SingleLineByPosition(text);
    } else {
      ActiveByPosition(text[i + 1..]);
      BrokenByPosition(text, text[..i], text[i + 1..]);
    }
  }

  lemma UnbrokenLines(text: string)
    requires text == []
    ensures !HasActiveCommand(text) && !Introduces("\n" + text)
  {
    assert |"\n" + text| == 1;
  }

  lemma BreakIntroduces(first: string, rest: string)
    ensures Introduces("\n" + (first + ("\n" + rest))) <==> Introduces("\n" + first) || Introduces("\n" + rest)
  {
    Reassociate("\n", first, "\n" + rest);
    FenceSeparates("\n" + first, "\n" + rest);
  }

  /** Every entry behind a line break of its own. */
  function Opened(entries: seq<string>): string {
    if entries == [] then [] else Opened(entries[..|entries| - 1]) + ("\n" + entries[|entries| - 1])
  }

  lemma {:induction false} OpenedIsRendered(entries: seq<string>)
    ensures "\n" + Rendered(entries) == Opened(entries) + "\n"
  {
    if entries != [] {
      var front, last := entries[..|entries| - 1], entries[|entries| - 1];
      OpenedIsRendered(front);
      Reassociate("\n", Rendered(front), last + "\n");
      Reassociate(Rendered(front), last, "\n");
      Reassociate(Opened(front), "\n", last + "\n");
      Reassociate("\n", last, "\n");
      Reassociate(Opened(front), "\n" + last, "\n");
    }
  }

  predicate EntryActive(e: string) {
    LeadsSomewhere(e) || Introduces(e)
  }

  predicate AnyEntryActive(entries: seq<string>) {
    exists i | 0 <= i < |entries| :: EntryActive(entries[i])
  }

  lemma {:induction false} OpenedIntroduces(entries: seq<string>)
    ensures Introduces(Opened(entries)) <==> AnyEntryActive(entries)
  {
    if entries != [] {
      var n := |entries| - 1;
      OpenedIntroduces(entries[..n]);
      FenceSeparates(Opened(entries[..n]), "\n" + entries[n]);
      BehindBreak(entries[n]);
      if i :| 0 <= i <= n && EntryActive(entries[i]) {
        assert i == n || EntryActive(entries[..n][i]);
      }
    }
  }

  /** A rendered text is active exactly when one of its entries begins with the key or introduces
      it behind a line break of its own. */
  lemma ActiveByEntry(entries: seq<string>)
    ensures HasActiveCommand(Rendered(entries)) <==> AnyEntryActive(entries)
  {
    ActiveByPosition(Rendered(entries));
    OpenedIsRendered(entries);
    FenceSeparates(Opened(entries), "\n");
    UnbrokenLines([]);
    assert "\n" + "" == "\n";
    OpenedIntroduces(entries);
  }

  lemma AnyActiveConcat(a: seq<string>, b: seq<string>)
    ensures AnyActive(a + b) <==> AnyActive(a) || AnyActive(b)
  {
    assert forall i | 0 <= i < |a| :: (a + b)[i] == a[i];
    assert forall i | 0 <= i < |b| :: (a + b)[|a| + i] == b[i];
    if i :| 0 <= i < |a + b| && ActiveLine((a + b)[i]) {
      assert i < |a| || ActiveLine(b[i - |a|]);
    }
    if i :| 0 <= i < |b| && ActiveLine(b[i]) {
      assert ActiveLine((a + b)[|a| + i]);
    }
  }
}
