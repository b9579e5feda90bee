/** The text of `.tamperward/config.yml` (crates/ward-cli/src/init.rs). */
module VerifierConfig {
  import opened Wrappers
  import opened Text
  import opened Utf8
  import opened CommandLines

  // In pieces short enough for the solver to look into.
  const PROPOSED_MARKER := "# " + "Proposed by `ward " + "init`, not accepted."

  datatype Input = Input(path: string, why: string)

  datatype Proposal = Proposal(
    command: string, evidence: seq<string>, guarded: seq<Input>, readOnly: seq<Input>, gaps: seq<string>)

  datatype Survey = Survey(proposals: seq<Proposal>, declined: seq<string>)

  // -------------------------------------------------------------------------------------------
  // The entries, one per line the code writes

  /** The widest path in bytes, as the code measures it. */
  function Width(inputs: seq<Input>): nat {
    if inputs == [] then 0 else
    var rest := Width(inputs[..|inputs| - 1]);
    var last := ByteLen(inputs[|inputs| - 1].path);
    if last > rest then last else rest
  }

  /** `{:<width$}`: padded with blanks on the right, counted in characters. */
  function PadRight(s: string, width: nat): string {
    if |s| >= width then s else s + seq(width - |s|, _ => ' ')
  }

  function ItemEntry(input: Input, indent: string, width: nat): string {
    indent + "- " + PadRight(input.path, width) + "  # " + input.why
  }

  function Items(inputs: seq<Input>, indent: string, width: nat): seq<string> {
    seq(|inputs|, i requires 0 <= i < |inputs| => ItemEntry(inputs[i], indent, width))
  }

  function Prefixed(prefix: string, texts: seq<string>): seq<string> {
    seq(|texts|, i requires 0 <= i < |texts| => prefix + texts[i])
  }

  function ReadOnlyEntries(inputs: seq<Input>): seq<string> {
    seq(|inputs|, i requires 0 <= i < |inputs| => "  #   " + inputs[i].path + "  (" + inputs[i].why + ")")
  }

  function InputsComment(p: Proposal, prose: Prose): seq<string> {
    (if p.readOnly == [] then [] else [prose.readOnly] + ReadOnlyEntries(p.readOnly))
    + Prefixed("  # Gap: ", p.gaps)
  }

  function Joined(parts: seq<string>): string {
    if parts == [] then [] else if |parts| == 1 then parts[0] else parts[0] + ", " + Joined(parts[1..])
  }

  /** The wording of the file's own comment lines, which has no effect on what is active. */
  datatype Prose = Prose(
    header: seq<string>, readOnly: string, nameIt: string, template: string, byHand: string, several: string)

  const FOOTER: seq<string> := ["  budget_secs: 600"]

  function TestsEntries(guarded: seq<Input>): seq<string> {
    if guarded == [] then ["  tests: []"] else ["  tests:"] + Items(guarded, "    ", Width(guarded))
  }

  function AcceptedNote(p: Proposal): string {
    "  # Accepted from " + Joined(p.evidence) + " (ward init --accept-verify)."
  }

  function AcceptedEntries(p: Proposal, prose: Prose): seq<string> {
    TestsEntries(p.guarded) + ["verify:", AcceptedNote(p), "  command: " + p.command] + InputsComment(p, prose)
  }

  function BlankEntries(declined: seq<string>, prose: Prose): seq<string> {
    ["  tests: []"] + Prefixed("  # Cannot propose: ", declined) + ["verify:", prose.nameIt, prose.template]
  }

  function ProposedNote(p: Proposal): string {
    "  " + PROPOSED_MARKER + " From " + Joined(p.evidence) + "."
  }

  function ProposedEntries(p: Proposal, prose: Prose): seq<string> {
    ["  tests: []"] + ["  " + PROPOSED_MARKER]
    + Items(p.guarded, "  #   ", Width(p.guarded))
    + ["verify:", ProposedNote(p), prose.byHand]
    + ["  # command: " + p.command]
    + InputsComment(p, prose)
  }

  function CandidateNote(p: Proposal): string {
    "  # From " + Joined(p.evidence) + ":"
  }

  function CandidateEntries(p: Proposal): seq<string> {
    [CandidateNote(p)] + ["  # command: " + p.command] + Items(p.guarded, "  #   protect: ", Width(p.guarded))
  }

  function AllCandidates(ps: seq<Proposal>): seq<string> {
    if ps == [] then [] else AllCandidates(ps[..|ps| - 1]) + CandidateEntries(ps[|ps| - 1])
  }

  function SeveralEntries(ps: seq<Proposal>, prose: Prose): seq<string> {
    ["  tests: []", "verify:",
     "  " + PROPOSED_MARKER + prose.several]
    + AllCandidates(ps)
  }

  function BodyEntries(survey: Survey, accepted: Option<Proposal>, prose: Prose): seq<string> {
    if accepted.Some? then AcceptedEntries(accepted.value, prose)
    else if survey.proposals == [] then BlankEntries(survey.declined, prose)
    else if |survey.proposals| == 1 then ProposedEntries(survey.proposals[0], prose)
    else SeveralEntries(survey.proposals, prose)
  }

  function Entries(survey: Survey, accepted: Option<Proposal>, prose: Prose): seq<string> {
    prose.header + ["protected:"] + BodyEntries(survey, accepted, prose) + FOOTER
  }

  function ConfigText(survey: Survey, accepted: Option<Proposal>, prose: Prose): string {
    Rendered(Entries(survey, accepted, prose))
  }

  /** What the proofs ask of a comment line: it is one line, begins like a comment, and is not the
      marker. */
  predicate IsComment(line: string) {
    OpensInert(line) && NoBreak(line) && !Contains(line, PROPOSED_MARKER)
  }

  predicate IsProse(prose: Prose) {
    && (forall i | 0 <= i < |prose.header| :: IsComment(prose.header[i]))
    && IsComment(prose.readOnly) && IsComment(prose.nameIt) && IsComment(prose.template) && IsComment(prose.byHand)
    && NoBreak(prose.several)
  }

  // -------------------------------------------------------------------------------------------
  // Active commands, entry by entry

  /** The entry's first visible character, at once or after two blanks, cannot begin `command:`. */
  predicate OpensInert(e: string) {
    || (|e| >= 1 && !IsWhitespace(e[0]) && e[0] != 'c')
    || (|e| >= 3 && e[0] == ' ' && e[1] == ' ' && !IsWhitespace(e[2]) && e[2] != 'c')
  }

  lemma InertDoesNotLead(e: string)
    requires OpensInert(e)
    ensures !LeadsSomewhere(e)
  {
    BlanksThen(e, if IsWhitespace(e[0]) then 2 else 0);
  }

  /** An accepted command is active, whatever text it is. */
  lemma CommandEntryIsActive(command: string)
    ensures EntryActive("  command: " + command)
  {
    var e := "  command: " + command;
    assert e[2..10] == KEY;
    assert Leads(e, 2);
  }

  // -------------------------------------------------------------------------------------------
  // What an unaccepted run writes

  predicate AllInert(entries: seq<string>) {
    forall i | 0 <= i < |entries| :: OpensInert(entries[i])
  }

  predicate AllUnbroken(entries: seq<string>) {
    forall i | 0 <= i < |entries| :: NoBreak(entries[i])
  }

  lemma InertConcat(a: seq<string>, b: seq<string>)
    requires AllInert(a) && AllInert(b)
    ensures AllInert(a + b)
  {
  }

  lemma ItemsInert(inputs: seq<Input>, indent: string, width: nat)
    requires OpensInert(indent)
    ensures AllInert(Items(inputs, indent, width))
  {
    forall i | 0 <= i < |inputs| ensures OpensInert(ItemEntry(inputs[i], indent, width)) {
      var rest := "- " + PadRight(inputs[i].path, width) + "  # " + inputs[i].why;
      assert ItemEntry(inputs[i], indent, width) == indent + rest;
    }
  }

  lemma PrefixedInert(prefix: string, texts: seq<string>)
    requires OpensInert(prefix)
    ensures AllInert(Prefixed(prefix, texts))
  {
  }

  lemma InputsCommentInert(p: Proposal, prose: Prose)
    requires IsProse(prose)
    ensures AllInert(InputsComment(p, prose))
  {
    PrefixedInert("  # Gap: ", p.gaps);
    forall i | 0 <= i < |p.readOnly| ensures OpensInert(ReadOnlyEntries(p.readOnly)[i]) {
      var rest := p.readOnly[i].path + "  (" + p.readOnly[i].why + ")";
      assert ReadOnlyEntries(p.readOnly)[i] == "  #   " + rest;
    }
  }

  lemma ProposedInert(p: Proposal, prose: Prose)
    requires IsProse(prose)
    ensures AllInert(ProposedEntries(p, prose))
  {
    ItemsInert(p.guarded, "  #   ", Width(p.guarded));
    InputsCommentInert(p, prose);
    var marked := "  " + PROPOSED_MARKER;
    assert marked[2] == '#';
    assert OpensInert(marked + " From " + Joined(p.evidence) + ".");
    assert OpensInert("  # command: " + p.command);
  }

  lemma CandidateInert(p: Proposal)
    ensures AllInert(CandidateEntries(p))
  {
    ItemsInert(p.guarded, "  #   protect: ", Width(p.guarded));
    assert OpensInert("  # From " + Joined(p.evidence) + ":");
  }

  lemma {:induction false} AllCandidatesInert(ps: seq<Proposal>)
    ensures AllInert(AllCandidates(ps))
  {
    if ps != [] {
      AllCandidatesInert(ps[..|ps| - 1]);
      CandidateInert(ps[|ps| - 1]);
    }
  }

  lemma SeveralInert(ps: seq<Proposal>, prose: Prose)
    ensures AllInert(SeveralEntries(ps, prose))
  {
    AllCandidatesInert(ps);
    assert ("  " + PROPOSED_MARKER)[2] == '#';
  }

  lemma BodyInert(survey: Survey, prose: Prose)
    requires IsProse(prose)
    ensures AllInert(BodyEntries(survey, None, prose))
  {
    if survey.proposals == [] {
      PrefixedInert("  # Cannot propose: ", survey.declined);
    } else if |survey.proposals| == 1 {
      ProposedInert(survey.proposals[0], prose);
    } else {
      SeveralInert(survey.proposals, prose);
    }
  }

  lemma UnacceptedInert(survey: Survey, prose: Prose)
    requires IsProse(prose)
    ensures AllInert(Entries(survey, None, prose))
  {
    BodyInert(survey, prose);
    InertConcat(prose.header, ["protected:"]);
    InertConcat(prose.header + ["protected:"], BodyEntries(survey, None, prose));
    InertConcat(prose.header + ["protected:"] + BodyEntries(survey, None, prose), FOOTER);
  }

  /** Without acceptance the text is active exactly when some entry introduces a command behind a
      line break of its own. */
  lemma UnacceptedActiveByEntry(survey: Survey, prose: Prose)
    requires IsProse(prose)
    ensures HasActiveCommand(ConfigText(survey, None, prose)) <==> AnyIntroduces(Entries(survey, None, prose))
  {
    var entries := Entries(survey, None, prose);
    UnacceptedInert(survey, prose);
    ActiveByEntry(entries);
    forall i | 0 <= i < |entries| ensures EntryActive(entries[i]) <==> Introduces(entries[i]) {
      InertDoesNotLead(entries[i]);
    }
  }

  /** An accepted boundary always has an active command. */
  lemma AcceptedIsActive(survey: Survey, p: Proposal, prose: Prose)
    ensures HasActiveCommand(ConfigText(survey, Some(p), prose))
  {
    CommandEntryIsActive(p.command);
    var entries := Entries(survey, Some(p), prose);
    var e := "  command: " + p.command;
    assert e in AcceptedEntries(p, prose);
    assert e in entries;
    var i :| 0 <= i < |entries| && entries[i] == e;
    ActiveByEntry(entries);
  }

  // -------------------------------------------------------------------------------------------
  // Which surveys make an unaccepted text active

  predicate AnyIntroduces(texts: seq<string>) {
    exists i | 0 <= i < |texts| :: Introduces(texts[i])
  }

  predicate InputsIntroduce(inputs: seq<Input>) {
    exists i | 0 <= i < |inputs| :: Introduces(inputs[i].path) || Introduces(inputs[i].why)
  }

  predicate ProposalIntroduces(p: Proposal) {
    || AnyIntroduces(p.evidence) || Introduces(p.command) || InputsIntroduce(p.guarded)
    || InputsIntroduce(p.readOnly) || AnyIntroduces(p.gaps)
  }

  /** Among several candidates the evidence is followed by a colon of the text's own. */
  predicate CandidateIntroduces(p: Proposal) {
    || AnyIntroduces(p.evidence) || (p.evidence != [] && EndsInCommand(p.evidence[|p.evidence| - 1]))
    || Introduces(p.command) || InputsIntroduce(p.guarded)
  }

  /** Some string that the text will quote carries a command line behind a line break. */
  predicate SurveyIntroduces(survey: Survey) {
    if survey.proposals == [] then AnyIntroduces(survey.declined)
    else if |survey.proposals| == 1 then ProposalIntroduces(survey.proposals[0])
    else exists i | 0 <= i < |survey.proposals| :: CandidateIntroduces(survey.proposals[i])
  }

  lemma AnyIntroducesConcat(a: seq<string>, b: seq<string>)
    ensures AnyIntroduces(a + b) <==> AnyIntroduces(a) || AnyIntroduces(b)
  {
    assert forall i | 0 <= i < |a| :: (a + b)[i] == a[i];
    assert forall i | 0 <= i < |b| :: (a + b)[|a| + i] == b[i];
    if i :| 0 <= i < |a + b| && Introduces((a + b)[i]) {
      assert i < |a| || Introduces(b[i - |a|]);
    }
    if i :| 0 <= i < |b| && Introduces(b[i]) {
      assert Introduces((a + b)[|a| + i]);
    }
  }

  lemma UnbrokenEntriesIntroduceNothing(entries: seq<string>)
    requires AllUnbroken(entries)
    ensures !AnyIntroduces(entries)
  {
    forall i | 0 <= i < |entries| ensures !Introduces(entries[i]) {
      UnbrokenIntroducesNothing(entries[i]);
    }
  }

  lemma PrefixedIntroduces(prefix: string, texts: seq<string>)
    requires NoBreak(prefix)
    ensures AnyIntroduces(Prefixed(prefix, texts)) <==> AnyIntroduces(texts)
  {
    forall i | 0 <= i < |texts| ensures Introduces(Prefixed(prefix, texts)[i]) <==> Introduces(texts[i]) {
      PrefixIsNothing(prefix, texts[i]);
    }
  }

  /** Two strings with a fence between them, behind a prefix. */
  lemma PairIntroduces(prefix: string, a: string, fence: string, b: string, n: nat)
    requires NoBreak(prefix) && NoBreak(fence)
    requires n < |fence| && fence[0] !in KEY && Blank(fence, 0, n) && !IsWhitespace(fence[n]) && fence[n] != 'c'
    ensures Introduces((prefix + a) + (fence + b)) <==> Introduces(a) || Introduces(b)
  {
    var tail := fence + b;
    assert forall k | 0 <= k < |fence| :: tail[k] == fence[k];
    BlanksThen(tail, n);
    FenceSeparates(prefix + a, tail);
    PrefixIsNothing(prefix, a);
    PrefixIsNothing(fence, b);
  }

  lemma ItemIntroduces(input: Input, indent: string, width: nat)
    requires NoBreak(indent)
    ensures Introduces(ItemEntry(input, indent, width)) <==> Introduces(input.path) || Introduces(input.why)
  {
    var pad := if |input.path| >= width then [] else seq(width - |input.path|, _ => ' ');
    var fence := pad + "  # ";
    assert ItemEntry(input, indent, width) == ((indent + "- ") + input.path) + (fence + input.why);
    PairIntroduces(indent + "- ", input.path, fence, input.why, |pad| + 2);
  }

  lemma ItemsIntroduce(inputs: seq<Input>, indent: string, width: nat)
    requires NoBreak(indent)
    ensures AnyIntroduces(Items(inputs, indent, width)) <==> InputsIntroduce(inputs)
  {
    forall i | 0 <= i < |inputs|
      ensures Introduces(Items(inputs, indent, width)[i]) <==> Introduces(inputs[i].path) || Introduces(inputs[i].why)
    {
      ItemIntroduces(inputs[i], indent, width);
    }
  }

  lemma ReadOnlyIntroduces(input: Input)
    ensures Introduces("  #   " + input.path + "  (" + input.why + ")") <==>
              Introduces(input.path) || Introduces(input.why)
  {
    var front := "  #   " + input.path;
    assert "  #   " + input.path + "  (" + input.why + ")" == (front + ("  (" + input.why)) + ")";
    CloserIntroduces(front + ("  (" + input.why), ")");
    PairIntroduces("  #   ", input.path, "  (", input.why, 2);
  }

  /** One closing character, not the key's colon. */
  lemma CloserIntroduces(s: string, closer: string)
    requires |closer| == 1 && closer[0] !in KEY && !IsWhitespace(closer[0])
    ensures Introduces(s + closer) <==> Introduces(s)
  {
    BlanksThen(closer, 0);
    FenceSeparates(s, closer);
    UnbrokenIntroducesNothing(closer);
  }

  lemma InputsCommentIntroduces(p: Proposal, prose: Prose)
    requires IsProse(prose)
    ensures AnyIntroduces(InputsComment(p, prose)) <==> InputsIntroduce(p.readOnly) || AnyIntroduces(p.gaps)
  {
    var lines := ReadOnlyEntries(p.readOnly);
    forall i | 0 <= i < |p.readOnly|
      ensures Introduces(lines[i]) <==> Introduces(p.readOnly[i].path) || Introduces(p.readOnly[i].why)
    {
      ReadOnlyIntroduces(p.readOnly[i]);
    }
    UnbrokenEntriesIntroduceNothing([prose.readOnly]);
    AnyIntroducesConcat([prose.readOnly], lines);
    PrefixedIntroduces("  # Gap: ", p.gaps);
    var first := if p.readOnly == [] then [] else [prose.readOnly] + lines;
    AnyIntroducesConcat(first, Prefixed("  # Gap: ", p.gaps));
  }

  lemma {:induction false} JoinedIntroduces(parts: seq<string>)
    ensures Introduces(Joined(parts)) <==> AnyIntroduces(parts)
  {
    if |parts| <= 1 {
      UnbrokenIntroducesNothing([]);
    } else {
      JoinedIntroduces(parts[1..]);
      PairIntroduces("", parts[0], ", ", Joined(parts[1..]), 0);
      assert Joined(parts) == ("" + parts[0]) + (", " + Joined(parts[1..]));
      assert parts == [parts[0]] + parts[1..];
      AnyIntroducesConcat([parts[0]], parts[1..]);
      assert AnyIntroduces([parts[0]]) <==> Introduces(parts[0]) by {
        assert [parts[0]][0] == parts[0];
      }
    }
  }

  lemma {:induction false} JoinedEndsInCommand(parts: seq<string>)
    ensures EndsInCommand(Joined(parts)) <==> parts != [] && EndsInCommand(parts[|parts| - 1])
  {
    if |parts| > 1 {
      JoinedEndsInCommand(parts[1..]);
      EndsAfterComma(parts[0], Joined(parts[1..]));
    }
  }

  lemma CandidateNoteIntroduces(p: Proposal)
    ensures Introduces(CandidateNote(p)) <==>
              AnyIntroduces(p.evidence) || (p.evidence != [] && EndsInCommand(p.evidence[|p.evidence| - 1]))
  {
    var joined := Joined(p.evidence);
    Reassociate("  # From ", joined, ":");
    PrefixIsNothing("  # From ", joined + ":");
    ColonIntroduces(joined);
    JoinedIntroduces(p.evidence);
    JoinedEndsInCommand(p.evidence);
  }

  lemma MarkerUnbroken()
    ensures NoBreak(PROPOSED_MARKER) && |PROPOSED_MARKER| == 40
    ensures PROPOSED_MARKER[0] == '#' && PROPOSED_MARKER[2] == 'P'
  {
  }

  lemma MarkedUnbroken(tail: string)
    requires NoBreak(tail)
    ensures NoBreak("  " + PROPOSED_MARKER + tail)
  {
    MarkerUnbroken();
  }

  lemma ProposedNoteIntroduces(p: Proposal)
    ensures Introduces(ProposedNote(p)) <==> AnyIntroduces(p.evidence)
  {
    var opening := "  " + PROPOSED_MARKER + " From ";
    MarkedUnbroken(" From ");
    CloserIntroduces(opening + Joined(p.evidence), ".");
    PrefixIsNothing(opening, Joined(p.evidence));
    JoinedIntroduces(p.evidence);
  }

  lemma OneIntroduces(e: string)
    ensures AnyIntroduces([e]) <==> Introduces(e)
  {
    assert [e][0] == e;
  }

  lemma MiddleIntroduces(a: string, b: string, c: string)
    requires NoBreak(a) && NoBreak(c)
    ensures AnyIntroduces([a, b, c]) <==> Introduces(b)
  {
    UnbrokenIntroducesNothing(a);
    UnbrokenIntroducesNothing(c);
    assert [a, b, c][1] == b;
  }

  lemma ProposedIntroduces(p: Proposal, prose: Prose)
    requires IsProse(prose)
    ensures AnyIntroduces(ProposedEntries(p, prose)) <==> ProposalIntroduces(p)
  {
    var items := Items(p.guarded, "  #   ", Width(p.guarded));
    var opening, marked := ["  tests: []"], ["  " + PROPOSED_MARKER];
    assert AllUnbroken(opening + marked) by {
      MarkedUnbroken("");
      assert "  " + PROPOSED_MARKER + "" == "  " + PROPOSED_MARKER;
    }
    UnbrokenEntriesIntroduceNothing(opening + marked);
    ItemsIntroduce(p.guarded, "  #   ", Width(p.guarded));
    AnyIntroducesConcat(opening + marked, items);
    var noted := ["verify:", ProposedNote(p), prose.byHand];
    MiddleIntroduces("verify:", ProposedNote(p), prose.byHand);
    ProposedNoteIntroduces(p);
    AnyIntroducesConcat(opening + marked + items, noted);
    var command := ["  # command: " + p.command];
    PrefixIsNothing("  # command: ", p.command);
    OneIntroduces("  # command: " + p.command);
    AnyIntroducesConcat(opening + marked + items + noted, command);
    InputsCommentIntroduces(p, prose);
    AnyIntroducesConcat(opening + marked + items + noted + command, InputsComment(p, prose));
  }

  lemma CandidateEntriesIntroduce(p: Proposal)
    ensures AnyIntroduces(CandidateEntries(p)) <==> CandidateIntroduces(p)
  {
    var command := "  # command: " + p.command;
    OneIntroduces(CandidateNote(p));
    CandidateNoteIntroduces(p);
    OneIntroduces(command);
    PrefixIsNothing("  # command: ", p.command);
    AnyIntroducesConcat([CandidateNote(p)], [command]);
    ItemsIntroduce(p.guarded, "  #   protect: ", Width(p.guarded));
    AnyIntroducesConcat([CandidateNote(p)] + [command], Items(p.guarded, "  #   protect: ", Width(p.guarded)));
  }

  lemma {:induction false} AllCandidatesIntroduce(ps: seq<Proposal>)
    ensures AnyIntroduces(AllCandidates(ps)) <==> exists i | 0 <= i < |ps| :: CandidateIntroduces(ps[i])
  {
    if ps != [] {
      var n := |ps| - 1;
      AllCandidatesIntroduce(ps[..n]);
      CandidateEntriesIntroduce(ps[n]);
      AnyIntroducesConcat(AllCandidates(ps[..n]), CandidateEntries(ps[n]));
      assert forall i | 0 <= i < n :: ps[..n][i] == ps[i];
    }
  }

  lemma BlankIntroduces(declined: seq<string>, prose: Prose)
    requires IsProse(prose)
    ensures AnyIntroduces(BlankEntries(declined, prose)) <==> AnyIntroduces(declined)
  {
    var quoted := Prefixed("  # Cannot propose: ", declined);
    PrefixedIntroduces("  # Cannot propose: ", declined);
    UnbrokenEntriesIntroduceNothing(["  tests: []"]);
    AnyIntroducesConcat(["  tests: []"], quoted);
    UnbrokenEntriesIntroduceNothing(["verify:", prose.nameIt, prose.template]);
    AnyIntroducesConcat(["  tests: []"] + quoted, ["verify:", prose.nameIt, prose.template]);
  }

  lemma SeveralIntroduce(ps: seq<Proposal>, prose: Prose)
    requires IsProse(prose)
    ensures AnyIntroduces(SeveralEntries(ps, prose)) <==> exists i | 0 <= i < |ps| :: CandidateIntroduces(ps[i])
  {
    var opening := ["  tests: []", "verify:", "  " + PROPOSED_MARKER + prose.several];
    MarkedUnbroken(prose.several);
    UnbrokenEntriesIntroduceNothing(opening);
    AllCandidatesIntroduce(ps);
    AnyIntroducesConcat(opening, AllCandidates(ps));
  }

  lemma BodyIntroduces(survey: Survey, prose: Prose)
    requires IsProse(prose)
    ensures AnyIntroduces(BodyEntries(survey, None, prose)) <==> SurveyIntroduces(survey)
  {
    if survey.proposals == [] {
      BlankIntroduces(survey.declined, prose);
    } else if |survey.proposals| == 1 {
      ProposedIntroduces(survey.proposals[0], prose);
    } else {
      SeveralIntroduce(survey.proposals, prose);
    }
  }

  /** What the project's files merely suggest is written as an active command exactly when a string
      the text quotes carries such a command behind a line break. */
  lemma SuggestionsAreActiveExactlyWhen(survey: Survey, prose: Prose)
    requires IsProse(prose)
    ensures HasActiveCommand(ConfigText(survey, None, prose)) <==> SurveyIntroduces(survey)
  {
    UnacceptedActiveByEntry(survey, prose);
    BodyIntroduces(survey, prose);
    FrameIntroducesNothing(prose.header, BodyEntries(survey, None, prose));
  }

  lemma FrameIntroducesNothing(header: seq<string>, body: seq<string>)
    requires AllUnbroken(header)
    ensures AnyIntroduces(header + ["protected:"] + body + FOOTER) <==> AnyIntroduces(body)
  {
    var top := header + ["protected:"];
    UnbrokenEntriesIntroduceNothing(top);
    UnbrokenEntriesIntroduceNothing(FOOTER);
    AnyIntroducesConcat(top, body);
    AnyIntroducesConcat(top + body, FOOTER);
  }

  /** A protected path with a line break in it, taken verbatim from a project's own files, is such a
      string: nobody has to accept anything. */
  lemma BrokenPathBecomesActive(p: Proposal, name: string, rest: string, declined: seq<string>, prose: Prose)
    requires IsProse(prose) && p.guarded != [] && p.guarded[0].path == name + ("\n" + (KEY + rest))
    ensures HasActiveCommand(ConfigText(Survey([p], declined), None, prose))
  {
    var tail := "\n" + (KEY + rest);
    assert tail[1..9] == KEY;
    assert BreaksInto(tail, 0, 1);
    IntroducesStays(name, tail);
    SuggestionsAreActiveExactlyWhen(Survey([p], declined), prose);
  }

  predicate UnbrokenInputs(inputs: seq<Input>) {
    forall i | 0 <= i < |inputs| :: NoBreak(inputs[i].path) && NoBreak(inputs[i].why)
  }

  predicate UnbrokenProposal(p: Proposal) {
    && NoBreak(p.command) && AllUnbroken(p.evidence) && AllUnbroken(p.gaps)
    && UnbrokenInputs(p.guarded) && UnbrokenInputs(p.readOnly)
  }

  predicate UnbrokenSurvey(survey: Survey) {
    && (forall i | 0 <= i < |survey.proposals| :: UnbrokenProposal(survey.proposals[i]))
    && AllUnbroken(survey.declined)
  }

  /** A survey without line breaks has no such string. */
  lemma UnbrokenSurveysAreInert(survey: Survey)
    requires UnbrokenSurvey(survey)
    ensures !SurveyIntroduces(survey)
  {
  }

  // -------------------------------------------------------------------------------------------
  // The marker

  /** A proposal, one or several, carries the marker by which a later run recognises it. */
  lemma ProposalsAreMarked(survey: Survey, prose: Prose)
    requires survey.proposals != []
    ensures Contains(ConfigText(survey, None, prose), PROPOSED_MARKER)
  {
    MarkerUnbroken();
    var tail := if |survey.proposals| == 1 then "" else prose.several;
    var e := "  " + PROPOSED_MARKER + tail;
    var body := BodyEntries(survey, None, prose);
    assert e in body by {
      if |survey.proposals| == 1 {
        assert e == "  " + PROPOSED_MARKER == body[1];
      } else {
        assert e == body[2];
      }
    }
    assert e in Entries(survey, None, prose);
    ContainsMiddle("  ", PROPOSED_MARKER, tail);
    OccursInOneEntry(Entries(survey, None, prose), PROPOSED_MARKER);
  }

  /** The marker's first and third characters limit where it can start. */
  predicate LikeMarker(m: string) {
    |m| == 40 && m[0] == '#' && m[2] == 'P'
  }

  lemma StartsLikeMarker(s: string, m: string, i: nat)
    requires LikeMarker(m) && OccursAt(s, m, i)
    ensures i + 2 < |s| && s[i] == '#' && s[i + 2] == 'P'
  {
    var here := s[i..i + |m|];
    assert here[0] == s[i] && here[2] == s[i + 2];
  }

  /** A fixed beginning without the third character, and without the first near its end, neither
      holds the marker nor starts it. */
  lemma MarkerAfterPrefix(prefix: string, rest: string, m: string)
    requires LikeMarker(m) && 'P' !in prefix
    requires |prefix| >= 2 && prefix[|prefix| - 1] != '#' && prefix[|prefix| - 2] != '#'
    ensures Contains(prefix + rest, m) <==> Contains(rest, m)
  {
    var s := prefix + rest;
    if Contains(s, m) {
      var i :| 0 <= i <= |s| && OccursAt(s, m, i);
      StartsLikeMarker(s, m, i);
      assert forall k | 0 <= k < |prefix| :: s[k] == prefix[k] && prefix[k] in prefix;
      assert s[i..i + |m|] == rest[i - |prefix|..i - |prefix| + |m|];
      assert OccursAt(rest, m, i - |prefix|);
    }
    if Contains(rest, m) {
      var i :| 0 <= i <= |rest| && OccursAt(rest, m, i);
      assert s[|prefix| + i..|prefix| + i + |m|] == rest[i..i + |m|];
      assert OccursAt(s, m, |prefix| + i);
    }
  }

  predicate AnyMarked(entries: seq<string>, m: string) {
    exists i | 0 <= i < |entries| :: Contains(entries[i], m)
  }

  lemma AnyMarkedConcat(a: seq<string>, b: seq<string>, m: string)
    ensures AnyMarked(a + b, m) <==> AnyMarked(a, m) || AnyMarked(b, m)
  {
    assert forall i | 0 <= i < |a| :: (a + b)[i] == a[i];
    assert forall i | 0 <= i < |b| :: (a + b)[|a| + i] == b[i];
    if i :| 0 <= i < |a + b| && Contains((a + b)[i], m) {
      assert i < |a| || Contains(b[i - |a|], m);
    }
    if i :| 0 <= i < |b| && Contains(b[i], m) {
      assert Contains((a + b)[|a| + i], m);
    }
  }

  lemma QuotedMarked(prefix: string, texts: seq<string>, m: string)
    requires LikeMarker(m) && 'P' !in prefix
    requires |prefix| >= 2 && prefix[|prefix| - 1] != '#' && prefix[|prefix| - 2] != '#'
    ensures AnyMarked(Prefixed(prefix, texts), m) <==> AnyMarked(texts, m)
  {
    forall i | 0 <= i < |texts| ensures Contains(Prefixed(prefix, texts)[i], m) <==> Contains(texts[i], m) {
      MarkerAfterPrefix(prefix, texts[i], m);
    }
  }

  lemma ShortUnmarked(e: string, m: string)
    requires LikeMarker(m) && |e| < 40
    ensures !AnyMarked([e], m)
  {
  }

  lemma TailUnmarked(nameIt: string, template: string, m: string)
    requires LikeMarker(m) && !Contains(nameIt, m) && !Contains(template, m)
    ensures !AnyMarked(["verify:", nameIt, template], m)
  {
    assert !Contains("verify:", m);
  }

  lemma BlankBodyMarked(declined: seq<string>, prose: Prose, m: string)
    requires LikeMarker(m) && !Contains(prose.nameIt, m) && !Contains(prose.template, m)
    ensures AnyMarked(BlankEntries(declined, prose), m) <==> AnyMarked(declined, m)
  {
    var prefix := "  # Cannot propose: ";
    var quoted := Prefixed(prefix, declined);
    QuotedMarked(prefix, declined, m);
    ShortUnmarked("  tests: []", m);
    AnyMarkedConcat(["  tests: []"], quoted, m);
    TailUnmarked(prose.nameIt, prose.template, m);
    AnyMarkedConcat(["  tests: []"] + quoted, ["verify:", prose.nameIt, prose.template], m);
  }

  lemma FramedMarked(header: seq<string>, body: seq<string>, m: string)
    requires LikeMarker(m) && !AnyMarked(header, m)
    ensures AnyMarked(header + ["protected:"] + body + FOOTER, m) <==> AnyMarked(body, m)
  {
    ShortUnmarked("protected:", m);
    ShortUnmarked("  budget_secs: 600", m);
    AnyMarkedConcat(header, ["protected:"], m);
    AnyMarkedConcat(header + ["protected:"], body, m);
    AnyMarkedConcat(header + ["protected:"] + body, FOOTER, m);
  }

  /** The blank written when nothing can be proposed is mistaken for a proposal exactly when a
      reason it quotes contains the marker itself. */
  lemma BlankIsMarkedExactlyWhen(survey: Survey, prose: Prose)
    requires survey.proposals == [] && IsProse(prose)
    ensures Contains(ConfigText(survey, None, prose), PROPOSED_MARKER) <==> AnyMarked(survey.declined, PROPOSED_MARKER)
  {
    MarkerUnbroken();
    BlankBodyMarked(survey.declined, prose, PROPOSED_MARKER);
    FramedMarked(prose.header, BlankEntries(survey.declined, prose), PROPOSED_MARKER);
    OccursInOneEntry(Entries(survey, None, prose), PROPOSED_MARKER);
  }
}
