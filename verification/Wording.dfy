/** The wording `ward init` uses in the verifier config (crates/ward-cli/src/init.rs). */
module Wording {
  import opened Text
  import opened CommandLines
  import opened VerifierConfig

  // The lines, in pieces short enough for the solver to look into.
  const FILE_LINE :=
    "# .tamperward" + "/config.yml \U{2014} what `ward" + " verify` runs (written" + " by `ward init`)."
  const TAKES_LINE :=
    "# The verifier takes" + " this file and every" + " protected path from" + " the session's entry"
  const SNAPSHOT_LINE :=
    "# snapshot, so an" + " agent that edits a test" + " listed here only changes" + " what the verifier"
  const RESTORES_LINE :=
    "# restores. The command" + " runs offline, in a" + " disposable sandbox, at" + " the root of the tree."
  const REFERENCE_LINE := "# Reference: docs" + "/tamperward-integration.md" + " \U{00A7}5."
  const READ_ONLY_LINE := "  # Read-only inputs," + " read by the verifier" + " and never rewritten:"
  const NAME_IT_LINE := "  # No test command" + " could be proposed" + " from this project's" + " files: name it."
  const TEMPLATE_LINE := "  # command: <the" + " command that runs" + " this project's tests>"
  const BY_HAND_LINE := "  # `ward" + " init --accept-verify`" + " writes it, or uncomment" + " it to accept by hand."
  const SEVERAL_NOTE := " Several test commands" + " match this project:" + " uncomment the one to run."

  const WORDING := Prose(
    [FILE_LINE, "#", TAKES_LINE, SNAPSHOT_LINE, RESTORES_LINE, REFERENCE_LINE],
    READ_ONLY_LINE, NAME_IT_LINE, TEMPLATE_LINE, BY_HAND_LINE, SEVERAL_NOTE)

  /** Neither a line break nor the marker's third character. */
  predicate Plain(s: string) {
    forall i | 0 <= i < |s| :: s[i] != '\n' && s[i] != 'P'
  }

  lemma PlainIsComment(line: string)
    requires Plain(line) && OpensInert(line)
    ensures IsComment(line)
  {
    MarkerUnbroken();
    forall i | 0 <= i <= |line| ensures !OccursAt(line, PROPOSED_MARKER, i) {
      if OccursAt(line, PROPOSED_MARKER, i) {
        StartsLikeMarker(line, PROPOSED_MARKER, i);
      }
    }
  }

  lemma FourPlain(a: string, b: string, c: string, d: string)
    requires Plain(a) && Plain(b) && Plain(c) && Plain(d) && OpensInert(a)
    ensures IsComment(a + b + c + d)
  {
    PlainIsComment(a + b + c + d);
  }

  lemma ThreePlain(a: string, b: string, c: string)
    requires Plain(a) && Plain(b) && Plain(c) && OpensInert(a)
    ensures IsComment(a + b + c)
  {
    PlainIsComment(a + b + c);
  }

  lemma FileLineIsComment()
    ensures IsComment(FILE_LINE)
  {
    FourPlain("# .tamperward", "/config.yml \U{2014} what `ward", " verify` runs (written", " by `ward init`).");
  }

  lemma TakesLineIsComment()
    ensures IsComment(TAKES_LINE)
  {
    FourPlain("# The verifier takes", " this file and every", " protected path from", " the session's entry");
  }

  lemma SnapshotLineIsComment()
    ensures IsComment(SNAPSHOT_LINE)
  {
    FourPlain("# snapshot, so an", " agent that edits a test", " listed here only changes", " what the verifier");
  }

  lemma RestoresLineIsComment()
    ensures IsComment(RESTORES_LINE)
  {
    FourPlain("# restores. The command", " runs offline, in a", " disposable sandbox, at", " the root of the tree.");
  }

  lemma ReferenceLineIsComment()
    ensures IsComment(REFERENCE_LINE)
  {
    ThreePlain("# Reference: docs", "/tamperward-integration.md", " \U{00A7}5.");
  }

  lemma ReadOnlyLineIsComment()
    ensures IsComment(READ_ONLY_LINE)
  {
    ThreePlain("  # Read-only inputs,", " read by the verifier", " and never rewritten:");
  }

  lemma NameItLineIsComment()
    ensures IsComment(NAME_IT_LINE)
  {
    FourPlain("  # No test command", " could be proposed", " from this project's", " files: name it.");
  }

  lemma TemplateLineIsComment()
    ensures IsComment(TEMPLATE_LINE)
  {
    ThreePlain("  # command: <the", " command that runs", " this project's tests>");
  }

  lemma ByHandLineIsComment()
    ensures IsComment(BY_HAND_LINE)
  {
    FourPlain("  # `ward", " init --accept-verify`", " writes it, or uncomment", " it to accept by hand.");
  }

  lemma SeveralNoteIsUnbroken()
    ensures NoBreak(SEVERAL_NOTE)
  {
    assert Plain(" Several test commands");
    assert Plain(" match this project:");
    assert Plain(" uncomment the one to run.");
  }

  /** The wording meets what the theorems ask of it. */
  lemma WordingIsProse()
    ensures IsProse(WORDING)
  {
    FileLineIsComment();
    PlainIsComment("#");
    TakesLineIsComment();
    SnapshotLineIsComment();
    RestoresLineIsComment();
    ReferenceLineIsComment();
    ReadOnlyLineIsComment();
    NameItLineIsComment();
    TemplateLineIsComment();
    ByHandLineIsComment();
    SeveralNoteIsUnbroken();
  }
}
