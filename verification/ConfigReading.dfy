/** Reading the verifier config back (crates/ward-cli/src/init.rs): what its lines say, found without
    looking at how they were put together. */
module ConfigReading {
  import opened Wrappers
  import opened Text
  import opened CommandLines
  import opened VerifierConfig

  // -------------------------------------------------------------------------------------------
  // Reading

  /** One line is active, and behind its key and one blank stands the command. */
  predicate RunsOnly(text: string, command: string) {
    exists k | 0 <= k < |Lines(text)| ::
      OnlyActive(Lines(text), k) && TrimStart(Lines(text)[k]) == "command: " + command
  }

  predicate OnlyActive(lines: seq<string>, k: nat) {
    k < |lines| && forall j | 0 <= j < |lines| :: ActiveLine(lines[j]) <==> j == k
  }

  /** What stands before the first blank followed by a number sign. */
  function BeforeComment(s: string): string {
    if |s| < 2 then s
    else if s[0] == ' ' && s[1] == '#' then []
    else [s[0]] + BeforeComment(s[1..])
  }

  function TrimBlanks(s: string): string {
    if s != [] && s[|s| - 1] == ' ' then TrimBlanks(s[..|s| - 1]) else s
  }

  /** The value of a list item at four blanks, without its trailing comment. */
  function ItemPath(line: string): Option<string> {
    if StartsWith(line, "    - ") then Some(TrimBlanks(BeforeComment(line[6..]))) else None
  }

  /** The `tests:` entry on line `a` lists just these paths, up to the `verify:` line. */
  predicate Lists(lines: seq<string>, a: nat, paths: seq<string>) {
    && a + |paths| + 1 < |lines|
    && lines[a] == (if paths == [] then "  tests: []" else "  tests:")
    && (forall i | 0 <= i < |paths| :: ItemPath(lines[a + 1 + i]) == Some(paths[i]))
    && lines[a + |paths| + 1] == "verify:"
  }

  predicate Protects(text: string, paths: seq<string>) {
    exists a | 0 <= a < |Lines(text)| :: Lists(Lines(text), a, paths)
  }

  function Paths(inputs: seq<Input>): seq<string> {
    seq(|inputs|, i requires 0 <= i < |inputs| => inputs[i].path)
  }

  // -------------------------------------------------------------------------------------------
  // One list item

  predicate NoComment(s: string) {
    forall i | 0 <= i < |s| - 1 :: !(s[i] == ' ' && s[i + 1] == '#')
  }

  /** A path that a list item can carry as it is. */
  predicate PlainPath(path: string) {
    NoComment(path) && (path == [] || path[|path| - 1] != ' ')
  }

  function Blanks(n: nat): string {
    seq(n, _ => ' ')
  }

  lemma {:induction false} BlanksBeforeComment(n: nat, rest: string)
    requires n > 0
    ensures BeforeComment(Blanks(n) + ("#" + rest)) == Blanks(n - 1)
  {
    var s := Blanks(n) + ("#" + rest);
    if n > 1 {
      BlanksBeforeComment(n - 1, rest);
      assert s[1..] == Blanks(n - 1) + ("#" + rest);
      assert [' '] + Blanks(n - 2) == Blanks(n - 1);
    }
  }

  lemma {:induction false} PathBeforeComment(path: string, n: nat, rest: string)
    requires n > 0 && NoComment(path)
    ensures BeforeComment(path + (Blanks(n) + ("#" + rest))) == path + Blanks(n - 1)
  {
    var s := path + (Blanks(n) + ("#" + rest));
    if path == [] {
      assert s == Blanks(n) + ("#" + rest);
      BlanksBeforeComment(n, rest);
      assert path + Blanks(n - 1) == Blanks(n - 1);
    } else {
      PathBeforeComment(path[1..], n, rest);
      assert s[0] == path[0] && s[1] == (if |path| > 1 then path[1] else ' ');
      assert s[1..] == path[1..] + (Blanks(n) + ("#" + rest));
      assert [path[0]] + (path[1..] + Blanks(n - 1)) == path + Blanks(n - 1);
    }
  }

  lemma {:induction false} CommentedPathIsCut(path: string, rest: string)
    requires !NoComment(path)
    ensures |BeforeComment(path + rest)| < |path|
  {
    var s := path + rest;
    if !(path[0] == ' ' && path[1] == '#') {
      assert path == [path[0]] + path[1..];
      assert forall i | 0 <= i < |path| - 1 :: path[1..][i] == path[i + 1];
      CommentedPathIsCut(path[1..], rest);
      assert s[1..] == path[1..] + rest;
    }
  }

  lemma {:induction false} TrimmedBlanks(path: string, n: nat)
    ensures TrimBlanks(path + Blanks(n)) == TrimBlanks(path)
  {
    var s := path + Blanks(n);
    if n == 0 {
      assert s == path;
    } else {
      TrimmedBlanks(path, n - 1);
      assert s[..|s| - 1] == path + Blanks(n - 1);
    }
  }

  lemma {:induction false} TrimBlanksShortens(s: string)
    ensures |TrimBlanks(s)| <= |s|
    ensures TrimBlanks(s) == s <==> s == [] || s[|s| - 1] != ' '
  {
    if s != [] && s[|s| - 1] == ' ' {
      TrimBlanksShortens(s[..|s| - 1]);
    }
  }

  /** A path reads back from its item exactly when it is plain. */
  lemma ItemReadsBackExactlyWhen(path: string, n: nat, rest: string)
    requires n > 0
    ensures ItemPath("    - " + (path + (Blanks(n) + ("#" + rest)))) == Some(path) <==> PlainPath(path)
  {
    var value := path + (Blanks(n) + ("#" + rest));
    var line := "    - " + value;
    assert line[6..] == value;
    if NoComment(path) {
      PathBeforeComment(path, n, rest);
      TrimmedBlanks(path, n - 1);
      TrimBlanksShortens(path);
    } else {
      CommentedPathIsCut(path, Blanks(n) + ("#" + rest));
      TrimBlanksShortens(BeforeComment(value));
    }
  }

  lemma ItemEntryShape(input: Input, width: nat) returns (n: nat)
    ensures n > 0
    ensures ItemEntry(input, "    ", width) == "    - " + (input.path + (Blanks(n) + ("# " + input.why)))
  {
    n := 2 + (if |input.path| >= width then 0 else width - |input.path|);
  }

  lemma StripReturnOf(front: string, rest: string)
    requires front != [] && front[|front| - 1] != '\r'
    ensures StripReturn(front + rest) == front + StripReturn(rest)
  {
  }

  lemma ItemLineShape(input: Input, width: nat) returns (n: nat)
    ensures n > 0
    ensures StripReturn(ItemEntry(input, "    ", width)) ==
              "    - " + (input.path + (Blanks(n) + ("# " + StripReturn(input.why))))
  {
    n := ItemEntryShape(input, width);
    var front := "    - " + (input.path + (Blanks(n) + "# "));
    assert ItemEntry(input, "    ", width) == front + input.why;
    StripReturnOf(front, input.why);
    assert front + StripReturn(input.why) == "    - " + (input.path + (Blanks(n) + ("# " + StripReturn(input.why))));
  }

  lemma ItemLineReadsBackExactlyWhen(input: Input, width: nat)
    ensures ItemPath(StripReturn(ItemEntry(input, "    ", width))) == Some(input.path) <==> PlainPath(input.path)
  {
    var n := ItemLineShape(input, width);
    var rest := StripReturn(input.why);
    assert "# " + rest == "#" + (" " + rest);
    ItemReadsBackExactlyWhen(input.path, n, " " + rest);
  }

  // -------------------------------------------------------------------------------------------
  // The lines of a rendered text

  function Stripped(entries: seq<string>): seq<string> {
    seq(|entries|, i requires 0 <= i < |entries| => StripReturn(entries[i]))
  }

  lemma LinesOneMore(text: string, line: string)
    requires WholeLines(text) && NoBreak(line)
    ensures Lines(text + line + "\n") == Lines(text) + [StripReturn(line)]
  {
    UnbrokenEndsLast(line);
    LinesOfSingleEntry(line);
    LinesConcat(text, line + "\n");
    Reassociate(text, line, "\n");
  }

  lemma StrippedOneMore(entries: seq<string>, n: nat)
    requires n + 1 == |entries|
    ensures Stripped(entries) == Stripped(entries[..n]) + [StripReturn(entries[n])]
  {
  }

  lemma {:induction false} LinesOfRendered(entries: seq<string>)
    requires AllUnbroken(entries)
    ensures Lines(Rendered(entries)) == Stripped(entries)
  {
    if entries != [] {
      var n := |entries| - 1;
      LinesOfRendered(entries[..n]);
      RenderedIsWholeLines(entries[..n]);
      LinesOneMore(Rendered(entries[..n]), entries[n]);
      StrippedOneMore(entries, n);
    }
  }

  lemma LineShown(entries: seq<string>, e: string)
    requires AllUnbroken(entries) && e in entries
    ensures StripReturn(e) in Lines(Rendered(entries))
  {
    LinesOfRendered(entries);
    var i :| 0 <= i < |entries| && entries[i] == e;
    assert Stripped(entries)[i] == StripReturn(e);
  }

  // -------------------------------------------------------------------------------------------
  // Unbroken proposals make unbroken entries

  lemma UnbrokenConcat(a: seq<string>, b: seq<string>)
    requires AllUnbroken(a) && AllUnbroken(b)
    ensures AllUnbroken(a + b)
  {
  }

  lemma {:induction false} JoinedUnbroken(parts: seq<string>)
    requires AllUnbroken(parts)
    ensures NoBreak(Joined(parts))
  {
    if |parts| == 1 {
      assert NoBreak(parts[0]);
    } else if |parts| > 1 {
      assert NoBreak(parts[0]);
      JoinedUnbroken(parts[1..]);
    }
  }

  lemma ItemsUnbroken(inputs: seq<Input>, indent: string, width: nat)
    requires UnbrokenInputs(inputs) && NoBreak(indent)
    ensures AllUnbroken(Items(inputs, indent, width))
  {
    forall i | 0 <= i < |inputs| ensures NoBreak(ItemEntry(inputs[i], indent, width)) {
      ItemUnbroken(inputs[i], indent, width);
    }
  }

  lemma ItemUnbroken(input: Input, indent: string, width: nat)
    requires NoBreak(input.path) && NoBreak(input.why) && NoBreak(indent)
    ensures NoBreak(ItemEntry(input, indent, width))
  {
    assert NoBreak(PadRight(input.path, width));
    assert NoBreak(indent + "- " + PadRight(input.path, width));
  }

  lemma PrefixedUnbroken(prefix: string, texts: seq<string>)
    requires NoBreak(prefix) && AllUnbroken(texts)
    ensures AllUnbroken(Prefixed(prefix, texts))
  {
    forall i | 0 <= i < |texts| ensures NoBreak(prefix + texts[i]) {
      assert NoBreak(texts[i]);
    }
  }

  lemma InputsCommentUnbroken(p: Proposal, prose: Prose)
    requires UnbrokenProposal(p) && IsProse(prose)
    ensures AllUnbroken(InputsComment(p, prose))
  {
    PrefixedUnbroken("  # Gap: ", p.gaps);
    forall i | 0 <= i < |p.readOnly| ensures NoBreak(ReadOnlyEntries(p.readOnly)[i]) {
      assert NoBreak("  #   " + p.readOnly[i].path + "  (");
    }
  }

  lemma TestsUnbroken(guarded: seq<Input>)
    requires UnbrokenInputs(guarded)
    ensures AllUnbroken(TestsEntries(guarded))
  {
    if guarded == [] {
      OneUnbroken("  tests: []");
    } else {
      OneUnbroken("  tests:");
      ItemsUnbroken(guarded, "    ", Width(guarded));
      UnbrokenConcat(["  tests:"], Items(guarded, "    ", Width(guarded)));
    }
  }

  lemma OneUnbroken(e: string)
    requires NoBreak(e)
    ensures AllUnbroken([e])
  {
  }

  lemma AcceptedNoteUnbroken(p: Proposal)
    requires UnbrokenProposal(p)
    ensures NoBreak(AcceptedNote(p))
  {
    JoinedUnbroken(p.evidence);
    assert NoBreak("  # Accepted from " + Joined(p.evidence));
  }

  lemma AcceptedUnbroken(p: Proposal, prose: Prose)
    requires UnbrokenProposal(p) && IsProse(prose)
    ensures AllUnbroken(AcceptedEntries(p, prose))
  {
    TestsUnbroken(p.guarded);
    AcceptedNoteUnbroken(p);
    InputsCommentUnbroken(p, prose);
    var middle := ["verify:", AcceptedNote(p), "  command: " + p.command];
    assert NoBreak("  command: " + p.command);
    UnbrokenConcat(TestsEntries(p.guarded), middle);
    UnbrokenConcat(TestsEntries(p.guarded) + middle, InputsComment(p, prose));
  }

  lemma FramedUnbroken(header: seq<string>, body: seq<string>)
    requires AllUnbroken(header) && AllUnbroken(body)
    ensures AllUnbroken(header + ["protected:"] + body + FOOTER)
  {
    UnbrokenConcat(header, ["protected:"]);
    UnbrokenConcat(header + ["protected:"], body);
    UnbrokenConcat(header + ["protected:"] + body, FOOTER);
  }

  // -------------------------------------------------------------------------------------------
  // An accepted boundary

  /** The entries around the command, by position. */
  lemma AcceptedAt(p: Proposal, prose: Prose)
    ensures var es, n := AcceptedEntries(p, prose), |p.guarded|;
            && |es| >= n + 4
            && es[0] == (if n == 0 then "  tests: []" else "  tests:")
            && (forall i | 0 <= i < n :: es[1 + i] == ItemEntry(p.guarded[i], "    ", Width(p.guarded)))
            && es[n + 1] == "verify:"
            && es[n + 2] == AcceptedNote(p)
            && es[n + 3] == "  command: " + p.command
            && es[n + 4..] == InputsComment(p, prose)
  {
    var tests := TestsEntries(p.guarded);
    assert |tests| == |p.guarded| + 1;
    assert AcceptedEntries(p, prose)[|p.guarded| + 4..] == InputsComment(p, prose);
  }

  lemma ItemDoesNotLead(input: Input, width: nat)
    ensures !LeadsSomewhere(ItemEntry(input, "    ", width))
  {
    var n := ItemEntryShape(input, width);
    BlanksThen(ItemEntry(input, "    ", width), 4);
  }

  lemma QuietLine(e: string)
    requires !LeadsSomewhere(e)
    ensures !ActiveLine(StripReturn(e))
  {
    StripReturnLeads(e);
    ActiveLineLeads(StripReturn(e));
  }

  predicate OnlyLeads(entries: seq<string>, k: nat) {
    k < |entries| && forall j | 0 <= j < |entries| && j != k :: !LeadsSomewhere(entries[j])
  }

  predicate NoneLeads(entries: seq<string>) {
    forall j | 0 <= j < |entries| :: !LeadsSomewhere(entries[j])
  }

  lemma InertNoneLeads(entries: seq<string>)
    requires AllInert(entries)
    ensures NoneLeads(entries)
  {
    forall j | 0 <= j < |entries| ensures !LeadsSomewhere(entries[j]) {
      InertDoesNotLead(entries[j]);
    }
  }

  lemma OnlyLeadsBetween(a: seq<string>, b: seq<string>, c: seq<string>, k: nat)
    requires NoneLeads(a) && OnlyLeads(b, k) && NoneLeads(c)
    ensures OnlyLeads(a + b + c, |a| + k)
  {
    var es := a + b + c;
    forall j | 0 <= j < |es| && j != |a| + k ensures !LeadsSomewhere(es[j]) {
      assert es[j] == if j < |a| then a[j] else if j < |a| + |b| then b[j - |a|] else c[j - |a| - |b|];
    }
  }

  lemma TestsDoNotLead(guarded: seq<Input>)
    ensures NoneLeads(TestsEntries(guarded))
  {
    var es := TestsEntries(guarded);
    forall j | 0 <= j < |es| ensures !LeadsSomewhere(es[j]) {
      if j == 0 {
        InertDoesNotLead(es[0]);
      } else {
        ItemDoesNotLead(guarded[j - 1], Width(guarded));
      }
    }
  }

  lemma NoteDoesNotLead(p: Proposal)
    ensures !LeadsSomewhere(AcceptedNote(p))
  {
    InertDoesNotLead(AcceptedNote(p));
  }

  lemma MiddleLeads(note: string, command: string)
    requires !LeadsSomewhere(note)
    ensures OnlyLeads(["verify:", note, command], 2)
  {
    InertDoesNotLead("verify:");
  }

  lemma AcceptedLeads(p: Proposal, prose: Prose)
    requires IsProse(prose)
    ensures OnlyLeads(AcceptedEntries(p, prose), |TestsEntries(p.guarded)| + 2)
  {
    TestsDoNotLead(p.guarded);
    NoteDoesNotLead(p);
    MiddleLeads(AcceptedNote(p), "  command: " + p.command);
    InputsCommentInert(p, prose);
    InertNoneLeads(InputsComment(p, prose));
    OnlyLeadsBetween(TestsEntries(p.guarded), ["verify:", AcceptedNote(p), "  command: " + p.command],
                     InputsComment(p, prose), 2);
  }

  lemma FramedLeads(header: seq<string>, body: seq<string>, k: nat)
    requires AllInert(header) && OnlyLeads(body, k)
    ensures OnlyLeads(header + ["protected:"] + body + FOOTER, |header| + 1 + k)
  {
    InertNoneLeads(header + ["protected:"]);
    InertNoneLeads(FOOTER);
    OnlyLeadsBetween(header + ["protected:"], body, FOOTER, k);
  }

  lemma CommandLineReads(command: string)
    ensures var line := StripReturn("  command: " + command);
            TrimStart(line) == "command: " + StripReturn(command) && ActiveLine(line)
  {
    StripReturnOf("  command: ", command);
    var line := "  command: " + StripReturn(command);
    assert line[1..][1..] == "command: " + StripReturn(command);
    assert TrimStart(line[2..]) == line[2..];
    assert line[2..] == "command: " + StripReturn(command);
  }

  lemma OnlyLeadsMeansOnlyActive(entries: seq<string>, k: nat, command: string)
    requires AllUnbroken(entries) && OnlyLeads(entries, k) && entries[k] == "  command: " + command
    ensures RunsOnly(Rendered(entries), StripReturn(command))
  {
    LinesOfRendered(entries);
    CommandLineReads(command);
    var lines := Lines(Rendered(entries));
    forall j | 0 <= j < |lines| ensures ActiveLine(lines[j]) <==> j == k {
      if j != k {
        QuietLine(entries[j]);
      }
    }
    assert OnlyActive(lines, k);
  }

  /** The accepted text has one active line, and it runs the accepted command. */
  lemma AcceptedRunsItsCommand(survey: Survey, p: Proposal, prose: Prose)
    requires UnbrokenProposal(p) && IsProse(prose)
    ensures RunsOnly(ConfigText(survey, Some(p), prose), StripReturn(p.command))
  {
    var body, k := AcceptedEntries(p, prose), |TestsEntries(p.guarded)| + 2;
    AcceptedAt(p, prose);
    AcceptedUnbroken(p, prose);
    FramedUnbroken(prose.header, body);
    AcceptedLeads(p, prose);
    FramedLeads(prose.header, body, k);
    var entries := prose.header + ["protected:"] + body + FOOTER;
    assert entries[|prose.header| + 1 + k] == body[k];
    OnlyLeadsMeansOnlyActive(entries, |prose.header| + 1 + k, p.command);
  }

  lemma ShapeLists(es: seq<string>, inputs: seq<Input>, width: nat)
    requires |es| > |inputs| + 1 && es[0] == (if inputs == [] then "  tests: []" else "  tests:")
    requires forall i | 0 <= i < |inputs| :: es[1 + i] == ItemEntry(inputs[i], "    ", width)
    requires es[|inputs| + 1] == "verify:"
    requires forall i | 0 <= i < |inputs| :: PlainPath(inputs[i].path)
    ensures Lists(Stripped(es), 0, Paths(inputs))
  {
    var lines := Stripped(es);
    forall i | 0 <= i < |inputs| ensures ItemPath(lines[0 + 1 + i]) == Some(inputs[i].path) {
      assert lines[1 + i] == StripReturn(es[1 + i]);
      ItemLineReadsBackExactlyWhen(inputs[i], width);
    }
    assert lines[0] == es[0] && lines[|inputs| + 1] == es[|inputs| + 1];
  }

  lemma AcceptedLists(p: Proposal, prose: Prose)
    requires forall i | 0 <= i < |p.guarded| :: PlainPath(p.guarded[i].path)
    ensures Lists(Stripped(AcceptedEntries(p, prose)), 0, Paths(p.guarded))
  {
    AcceptedAt(p, prose);
    ShapeLists(AcceptedEntries(p, prose), p.guarded, Width(p.guarded));
  }

  lemma ListsWithin(front: seq<string>, lines: seq<string>, back: seq<string>, paths: seq<string>)
    requires Lists(lines, 0, paths)
    ensures Lists(front + lines + back, |front|, paths)
  {
    var all := front + lines + back;
    assert forall j | 0 <= j < |lines| :: all[|front| + j] == lines[j];
    forall i | 0 <= i < |paths| ensures ItemPath(all[|front| + 1 + i]) == Some(paths[i]) {
      assert all[|front| + (1 + i)] == lines[0 + 1 + i];
    }
    assert all[|front| + 0] == lines[0] && all[|front| + (|paths| + 1)] == lines[|paths| + 1];
  }

  lemma StrippedBetween(a: seq<string>, b: seq<string>, c: seq<string>)
    ensures Stripped(a + b + c) == Stripped(a) + Stripped(b) + Stripped(c)
  {
  }

  /** The accepted text protects exactly the proposal's paths, in order. */
  lemma AcceptedProtectsItsPaths(survey: Survey, p: Proposal, prose: Prose)
    requires UnbrokenProposal(p) && IsProse(prose)
    requires forall i | 0 <= i < |p.guarded| :: PlainPath(p.guarded[i].path)
    ensures Protects(ConfigText(survey, Some(p), prose), Paths(p.guarded))
  {
    AcceptedUnbroken(p, prose);
    FramedUnbroken(prose.header, AcceptedEntries(p, prose));
    LinesOfRendered(Entries(survey, Some(p), prose));
    var front, body := prose.header + ["protected:"], AcceptedEntries(p, prose);
    AcceptedLists(p, prose);
    StrippedBetween(front, body, FOOTER);
    ListsWithin(Stripped(front), Stripped(body), Stripped(FOOTER), Paths(p.guarded));
  }

  lemma AcceptedLineShown(survey: Survey, p: Proposal, prose: Prose, e: string)
    requires UnbrokenProposal(p) && IsProse(prose) && e in AcceptedEntries(p, prose)
    ensures StripReturn(e) in Lines(ConfigText(survey, Some(p), prose))
  {
    AcceptedUnbroken(p, prose);
    FramedUnbroken(prose.header, AcceptedEntries(p, prose));
    assert e in Entries(survey, Some(p), prose);
    LineShown(Entries(survey, Some(p), prose), e);
  }

  /** Each protected path stands beside the reason for it. */
  lemma AcceptedShowsReasons(survey: Survey, p: Proposal, prose: Prose, i: nat) returns (n: nat)
    requires UnbrokenProposal(p) && IsProse(prose) && i < |p.guarded|
    ensures "    - " + (p.guarded[i].path + (Blanks(n) + ("# " + StripReturn(p.guarded[i].why))))
            in Lines(ConfigText(survey, Some(p), prose))
  {
    n := ItemLineShape(p.guarded[i], Width(p.guarded));
    ItemIsAccepted(p, prose, i);
    AcceptedLineShown(survey, p, prose, ItemEntry(p.guarded[i], "    ", Width(p.guarded)));
  }

  lemma ItemIsAccepted(p: Proposal, prose: Prose, i: nat)
    requires i < |p.guarded|
    ensures ItemEntry(p.guarded[i], "    ", Width(p.guarded)) in AcceptedEntries(p, prose)
  {
    AcceptedAt(p, prose);
    assert AcceptedEntries(p, prose)[1 + i] == ItemEntry(p.guarded[i], "    ", Width(p.guarded));
  }

  lemma {:induction false} JoinedContains(parts: seq<string>, i: nat)
    requires i < |parts|
    ensures Contains(Joined(parts), parts[i])
  {
    if |parts| == 1 {
      ContainsMiddle([], parts[0], []);
      assert [] + parts[0] + [] == parts[0];
    } else if i == 0 {
      ContainsMiddle([], parts[0], ", " + Joined(parts[1..]));
      assert [] + parts[0] + (", " + Joined(parts[1..])) == Joined(parts);
    } else {
      JoinedContains(parts[1..], i - 1);
      OccursStays(parts[0] + ", ", Joined(parts[1..]), parts[i]);
    }
  }

  /** The evidence for the accepted command is named. */
  lemma AcceptedNamesItsEvidence(survey: Survey, p: Proposal, prose: Prose, i: nat)
    requires UnbrokenProposal(p) && IsProse(prose) && i < |p.evidence|
    ensures exists line | line in Lines(ConfigText(survey, Some(p), prose)) :: Contains(line, p.evidence[i])
  {
    var note := AcceptedNote(p);
    AcceptedAt(p, prose);
    AcceptedLineShown(survey, p, prose, note);
    assert StripReturn(note) == note;
    JoinedContains(p.evidence, i);
    OccursStays("  # Accepted from ", Joined(p.evidence), p.evidence[i]);
    OccursStays("  # Accepted from " + Joined(p.evidence), " (ward init --accept-verify).", p.evidence[i]);
  }

  /** Its gaps and its read-only inputs are shown beside it. */
  lemma AcceptedShowsGapsAndInputs(survey: Survey, p: Proposal, prose: Prose, i: nat)
    requires UnbrokenProposal(p) && IsProse(prose)
    ensures i < |p.gaps| ==> StripReturn("  # Gap: " + p.gaps[i]) in Lines(ConfigText(survey, Some(p), prose))
    ensures i < |p.readOnly| ==>
              "  #   " + p.readOnly[i].path + "  (" + p.readOnly[i].why + ")"
              in Lines(ConfigText(survey, Some(p), prose))
  {
    if i < |p.gaps| {
      assert "  # Gap: " + p.gaps[i] == Prefixed("  # Gap: ", p.gaps)[i];
      assert "  # Gap: " + p.gaps[i] in InputsComment(p, prose);
      AcceptedLineShown(survey, p, prose, "  # Gap: " + p.gaps[i]);
    }
    if i < |p.readOnly| {
      var e := "  #   " + p.readOnly[i].path + "  (" + p.readOnly[i].why + ")";
      assert e == ReadOnlyEntries(p.readOnly)[i];
      assert e in InputsComment(p, prose);
      AcceptedLineShown(survey, p, prose, e);
    }
  }

  /** Every config ends by setting the budget. */
  lemma EndsWithTheBudget(survey: Survey, accepted: Option<Proposal>, prose: Prose)
    ensures EndsWith(ConfigText(survey, accepted, prose), "  budget_secs: 600\n")
  {
    var front := prose.header + ["protected:"] + BodyEntries(survey, accepted, prose);
    RenderedConcat(front, FOOTER);
    RenderedOne("  budget_secs: 600");
    assert "  budget_secs: 600" + "\n" == "  budget_secs: 600\n";
  }

  // -------------------------------------------------------------------------------------------
  // A proposal nobody accepted

  lemma ProposedUnbroken(p: Proposal, prose: Prose)
    requires UnbrokenProposal(p) && IsProse(prose)
    ensures AllUnbroken(ProposedEntries(p, prose))
  {
    var items, marked := Items(p.guarded, "  #   ", Width(p.guarded)), ["  " + PROPOSED_MARKER];
    ItemsUnbroken(p.guarded, "  #   ", Width(p.guarded));
    assert AllUnbroken(marked) by {
      MarkedUnbroken("");
      assert "  " + PROPOSED_MARKER + "" == "  " + PROPOSED_MARKER;
    }
    UnbrokenConcat(["  tests: []"], marked);
    UnbrokenConcat(["  tests: []"] + marked, items);
    ProposedNoteUnbroken(p);
    var noted := ["verify:", ProposedNote(p), prose.byHand];
    UnbrokenConcat(["  tests: []"] + marked + items, noted);
    var command := ["  # command: " + p.command];
    UnbrokenConcat(["  tests: []"] + marked + items + noted, command);
    InputsCommentUnbroken(p, prose);
    UnbrokenConcat(["  tests: []"] + marked + items + noted + command, InputsComment(p, prose));
  }

  lemma ProposedNoteUnbroken(p: Proposal)
    requires UnbrokenProposal(p)
    ensures NoBreak(ProposedNote(p))
  {
    JoinedUnbroken(p.evidence);
    MarkedUnbroken(" From ");
  }

  lemma CandidateUnbroken(p: Proposal)
    requires UnbrokenProposal(p)
    ensures AllUnbroken(CandidateEntries(p))
  {
    JoinedUnbroken(p.evidence);
    ItemsUnbroken(p.guarded, "  #   protect: ", Width(p.guarded));
  }

  lemma {:induction false} AllCandidatesUnbroken(ps: seq<Proposal>)
    requires forall i | 0 <= i < |ps| :: UnbrokenProposal(ps[i])
    ensures AllUnbroken(AllCandidates(ps))
  {
    if ps != [] {
      AllCandidatesUnbroken(ps[..|ps| - 1]);
      CandidateUnbroken(ps[|ps| - 1]);
    }
  }

  lemma BodyUnbroken(survey: Survey, prose: Prose)
    requires UnbrokenSurvey(survey) && IsProse(prose)
    ensures AllUnbroken(BodyEntries(survey, None, prose))
  {
    if survey.proposals == [] {
      PrefixedUnbroken("  # Cannot propose: ", survey.declined);
    } else if |survey.proposals| == 1 {
      ProposedUnbroken(survey.proposals[0], prose);
    } else {
      SeveralUnbroken(survey.proposals, prose);
    }
  }

  lemma SeveralUnbroken(ps: seq<Proposal>, prose: Prose)
    requires (forall i | 0 <= i < |ps| :: UnbrokenProposal(ps[i])) && IsProse(prose)
    ensures AllUnbroken(SeveralEntries(ps, prose))
  {
    AllCandidatesUnbroken(ps);
    MarkedUnbroken(prose.several);
  }

  lemma BodyLineShown(survey: Survey, prose: Prose, e: string)
    requires UnbrokenSurvey(survey) && IsProse(prose) && e in BodyEntries(survey, None, prose)
    ensures StripReturn(e) in Lines(ConfigText(survey, None, prose))
  {
    BodyUnbroken(survey, prose);
    FramedUnbroken(prose.header, BodyEntries(survey, None, prose));
    LineShown(Entries(survey, None, prose), e);
  }

  lemma {:induction false} CandidateIsListed(ps: seq<Proposal>, k: nat, e: string)
    requires k < |ps| && e in CandidateEntries(ps[k])
    ensures e in AllCandidates(ps)
  {
    var n := |ps| - 1;
    if k < n {
      CandidateIsListed(ps[..n], k, e);
    }
  }

  /** A command nobody accepted is shown, commented out, for every proposal. */
  lemma SuggestedCommandsAreShown(survey: Survey, prose: Prose, k: nat)
    requires UnbrokenSurvey(survey) && IsProse(prose) && k < |survey.proposals|
    ensures StripReturn("  # command: " + survey.proposals[k].command) in Lines(ConfigText(survey, None, prose))
  {
    var p := survey.proposals[k];
    var e := "  # command: " + p.command;
    if |survey.proposals| == 1 {
      assert e in ["  # command: " + p.command];
      assert e in ProposedEntries(p, prose);
    } else {
      assert e in CandidateEntries(p);
      CandidateIsListed(survey.proposals, k, e);
    }
    BodyLineShown(survey, prose, e);
  }

  predicate SomeLineStarts(text: string, opening: string) {
    exists line | line in Lines(text) :: StartsWith(line, opening)
  }

  lemma ItemShown(survey: Survey, prose: Prose, k: nat, i: nat, indent: string)
    requires UnbrokenSurvey(survey) && IsProse(prose)
    requires k < |survey.proposals| && i < |survey.proposals[k].guarded|
    requires indent == if |survey.proposals| == 1 then "  #   " else "  #   protect: "
    ensures SomeLineStarts(ConfigText(survey, None, prose), indent + "- " + survey.proposals[k].guarded[i].path)
  {
    var inputs := survey.proposals[k].guarded;
    ItemIsListed(inputs, indent, Width(inputs), i);
    ItemsAreInBody(survey, prose, k, indent, ItemEntry(inputs[i], indent, Width(inputs)));
    BodyLineShown(survey, prose, ItemEntry(inputs[i], indent, Width(inputs)));
    ItemStarts(inputs[i], indent, Width(inputs));
  }

  /** And so is every path it would protect. */
  lemma SuggestedPathsAreShown(survey: Survey, prose: Prose, k: nat, i: nat)
    requires UnbrokenSurvey(survey) && IsProse(prose)
    requires k < |survey.proposals| && i < |survey.proposals[k].guarded|
    ensures |survey.proposals| == 1 ==>
              SomeLineStarts(ConfigText(survey, None, prose), "  #   - " + survey.proposals[k].guarded[i].path)
    ensures |survey.proposals| > 1 ==>
              SomeLineStarts(ConfigText(survey, None, prose), "  #   protect: - " + survey.proposals[k].guarded[i].path)
  {
    if |survey.proposals| == 1 {
      ItemShown(survey, prose, k, i, "  #   ");
      assert "  #   " + "- " == "  #   - ";
    } else {
      ItemShown(survey, prose, k, i, "  #   protect: ");
      assert "  #   protect: " + "- " == "  #   protect: - ";
    }
  }

  lemma ItemIsListed(inputs: seq<Input>, indent: string, width: nat, i: nat)
    requires i < |inputs|
    ensures ItemEntry(inputs[i], indent, width) in Items(inputs, indent, width)
  {
    assert Items(inputs, indent, width)[i] == ItemEntry(inputs[i], indent, width);
  }

  lemma ItemsAreInBody(survey: Survey, prose: Prose, k: nat, indent: string, e: string)
    requires k < |survey.proposals|
    requires indent == if |survey.proposals| == 1 then "  #   " else "  #   protect: "
    requires var p := survey.proposals[k]; e in Items(p.guarded, indent, Width(p.guarded))
    ensures e in BodyEntries(survey, None, prose)
  {
    var p := survey.proposals[k];
    if |survey.proposals| == 1 {
      assert e in ProposedEntries(p, prose);
    } else {
      assert e in CandidateEntries(p);
      CandidateIsListed(survey.proposals, k, e);
    }
  }

  lemma ItemStarts(input: Input, indent: string, width: nat)
    ensures StartsWith(StripReturn(ItemEntry(input, indent, width)), indent + "- " + input.path)
  {
    var pad := if |input.path| >= width then [] else Blanks(width - |input.path|);
    var front := indent + "- " + input.path + pad + "  # ";
    assert ItemEntry(input, indent, width) == front + input.why;
    StripReturnOf(front, input.why);
  }

  /** When nothing can be proposed, every reason is shown. */
  lemma ReasonsAreShown(survey: Survey, prose: Prose, k: nat)
    requires UnbrokenSurvey(survey) && IsProse(prose) && survey.proposals == [] && k < |survey.declined|
    ensures StripReturn("  # Cannot propose: " + survey.declined[k]) in Lines(ConfigText(survey, None, prose))
  {
    var e := "  # Cannot propose: " + survey.declined[k];
    assert e == Prefixed("  # Cannot propose: ", survey.declined)[k];
    assert e in BlankEntries(survey.declined, prose);
    BodyLineShown(survey, prose, e);
  }
}
