/** How `ward init` puts the verifier config together (crates/ward-cli/src/init.rs): one string,
    appended to line by line. */
module ConfigWriter {
  import opened Wrappers
  import opened Text
  import opened Utf8
  import opened VerifierConfig

  lemma AddOne(w: seq<string>, a: seq<string>, e: string)
    ensures w + a + [e] == w + (a + [e])
  {
  }

  lemma AddThree(w: seq<string>, a: string, b: string, c: string)
    ensures w + [a] + [b] + [c] == w + [a, b, c]
  {
  }

  lemma AddAll(w: seq<string>, a: seq<string>, b: seq<string>)
    ensures w + a + b == w + (a + b)
  {
  }

  lemma ItemsGrow(inputs: seq<Input>, indent: string, width: nat, i: nat, item: string)
    requires i < |inputs| && item == ItemEntry(inputs[i], indent, width)
    ensures Items(inputs[..i + 1], indent, width) == Items(inputs[..i], indent, width) + [item]
  {
    assert forall k | 0 <= k < i :: inputs[..i + 1][k] == inputs[..i][k];
  }

  lemma AppendLine(entries: seq<string>, e: string)
    ensures Rendered(entries + [e]) == Rendered(entries) + e + "\n"
  {
    RenderedConcat(entries, [e]);
    RenderedOne(e);
    Reassociate(Rendered(entries), e, "\n");
  }

  /** The width is the greatest byte length of a path. */
  lemma {:induction false} WidthIsWidest(inputs: seq<Input>)
    ensures forall i | 0 <= i < |inputs| :: ByteLen(inputs[i].path) <= Width(inputs)
    ensures inputs != [] ==> exists i | 0 <= i < |inputs| :: ByteLen(inputs[i].path) == Width(inputs)
  {
    if inputs != [] {
      var n := |inputs| - 1;
      WidthIsWidest(inputs[..n]);
      assert forall i | 0 <= i < n :: inputs[..n][i] == inputs[i];
      assert ByteLen(inputs[n].path) <= Width(inputs) && Width(inputs[..n]) <= Width(inputs);
    }
  }

  method WidestPath(inputs: seq<Input>) returns (width: nat)
    ensures width == Width(inputs)
  {
    width := 0;
    for i := 0 to |inputs|
      invariant width == Width(inputs[..i])
    {
      assert inputs[..i + 1][..i] == inputs[..i];
      var n := ByteLen(inputs[i].path);
      if n > width {
        width := n;
      }
    }
    assert inputs[..|inputs|] == inputs;
  }

  /** The string being appended to, and the lines it consists of so far. */
  class Writer {
    var text: string
    ghost var lines: seq<string>

    ghost predicate Valid()
      reads this
    {
      text == Rendered(lines)
    }

    constructor ()
      ensures Valid() && lines == []
    {
      text, lines := "", [];
    }

    method Line(e: string)
      requires Valid()
      modifies this
      ensures Valid() && lines == old(lines) + [e]
    {
      AppendLine(lines, e);
      text := text + e + "\n";
      lines := lines + [e];
    }

    method AllOf(entries: seq<string>)
      requires Valid()
      modifies this
      ensures Valid() && lines == old(lines) + entries
    {
      for i := 0 to |entries|
        invariant Valid() && lines == old(lines) + entries[..i]
      {
        Line(entries[i]);
        assert entries[..i + 1] == entries[..i] + [entries[i]];
        AddOne(old(lines), entries[..i], entries[i]);
      }
      assert entries[..|entries|] == entries;
    }

    method ItemLines(inputs: seq<Input>, indent: string, width: nat)
      requires Valid()
      modifies this
      ensures Valid() && lines == old(lines) + Items(inputs, indent, width)
    {
      assert lines == lines + [];
      for i := 0 to |inputs|
        invariant Valid() && lines == old(lines) + Items(inputs[..i], indent, width)
      {
        var item := ItemEntry(inputs[i], indent, width);
        ItemsGrow(inputs, indent, width, i, item);
        AddOne(old(lines), Items(inputs[..i], indent, width), item);
        Line(item);
      }
      assert inputs[..|inputs|] == inputs;
    }

    method ProtectedItems(inputs: seq<Input>, indent: string)
      requires Valid()
      modifies this
      ensures Valid() && lines == old(lines) + Items(inputs, indent, Width(inputs))
    {
      var width := WidestPath(inputs);
      ItemLines(inputs, indent, width);
    }

    method Quoted(prefix: string, texts: seq<string>)
      requires Valid()
      modifies this
      ensures Valid() && lines == old(lines) + Prefixed(prefix, texts)
    {
      ghost var entries := Prefixed(prefix, texts);
      for i := 0 to |texts|
        invariant Valid() && lines == old(lines) + entries[..i]
      {
        Line(prefix + texts[i]);
        assert entries[..i + 1] == entries[..i] + [entries[i]];
        AddOne(old(lines), entries[..i], entries[i]);
      }
      assert entries[..|entries|] == entries;
    }

    method ReadOnly(inputs: seq<Input>)
      requires Valid()
      modifies this
      ensures Valid() && lines == old(lines) + ReadOnlyEntries(inputs)
    {
      ghost var entries := ReadOnlyEntries(inputs);
      for i := 0 to |inputs|
        invariant Valid() && lines == old(lines) + entries[..i]
      {
        Line("  #   " + inputs[i].path + "  (" + inputs[i].why + ")");
        assert entries[..i + 1] == entries[..i] + [entries[i]];
        AddOne(old(lines), entries[..i], entries[i]);
      }
      assert entries[..|entries|] == entries;
    }

    method Inputs(p: Proposal, prose: Prose)
      requires Valid()
      modifies this
      ensures Valid() && lines == old(lines) + InputsComment(p, prose)
    {
      ghost var before := lines;
      ghost var first: seq<string> := [];
      if p.readOnly != [] {
        Line(prose.readOnly);
        ReadOnly(p.readOnly);
        first := [prose.readOnly] + ReadOnlyEntries(p.readOnly);
        AddAll(before, [prose.readOnly], ReadOnlyEntries(p.readOnly));
      }
      assert lines == before + first;
      Quoted("  # Gap: ", p.gaps);
      AddAll(before, first, Prefixed("  # Gap: ", p.gaps));
    }

    method Tests(guarded: seq<Input>)
      requires Valid()
      modifies this
      ensures Valid() && lines == old(lines) + TestsEntries(guarded)
    {
      if guarded == [] {
        Line("  tests: []");
      } else {
        Line("  tests:");
        ProtectedItems(guarded, "    ");
        AddAll(old(lines), ["  tests:"], Items(guarded, "    ", Width(guarded)));
      }
    }

    method Three(a: string, b: string, c: string)
      requires Valid()
      modifies this
      ensures Valid() && lines == old(lines) + [a, b, c]
    {
      AddThree(lines, a, b, c);
      Line(a);
      Line(b);
      Line(c);
    }

    method Accepted(p: Proposal, prose: Prose)
      requires Valid()
      modifies this
      ensures Valid() && lines == old(lines) + AcceptedEntries(p, prose)
    {
      ghost var before := lines;
      Tests(p.guarded);
      ghost var done := TestsEntries(p.guarded);
      var note, command := AcceptedNote(p), "  command: " + p.command;
      Three("verify:", note, command);
      AddAll(before, done, ["verify:", note, command]);
      done := done + ["verify:", note, command];
      Inputs(p, prose);
      AddAll(before, done, InputsComment(p, prose));
    }

    method Blank(declined: seq<string>, prose: Prose)
      requires Valid()
      modifies this
      ensures Valid() && lines == old(lines) + BlankEntries(declined, prose)
    {
      ghost var before := lines;
      var prefix := "  # Cannot propose: ";
      Line("  tests: []");
      ghost var done := ["  tests: []"];
      Quoted(prefix, declined);
      AddAll(before, done, Prefixed(prefix, declined));
      done := done + Prefixed(prefix, declined);
      Three("verify:", prose.nameIt, prose.template);
      AddAll(before, done, ["verify:", prose.nameIt, prose.template]);
    }

    method Proposed(p: Proposal, prose: Prose)
      requires Valid()
      modifies this
      ensures Valid() && lines == old(lines) + ProposedEntries(p, prose)
    {
      ghost var before := lines;
      Line("  tests: []");
      ghost var done := ["  tests: []"];
      Line("  " + PROPOSED_MARKER);
      AddAll(before, done, ["  " + PROPOSED_MARKER]);
      done := done + ["  " + PROPOSED_MARKER];
      ProtectedItems(p.guarded, "  #   ");
      AddAll(before, done, Items(p.guarded, "  #   ", Width(p.guarded)));
      done := done + Items(p.guarded, "  #   ", Width(p.guarded));
      var from := ProposedNote(p);
      Three("verify:", from, prose.byHand);
      AddAll(before, done, ["verify:", from, prose.byHand]);
      done := done + ["verify:", from, prose.byHand];
      Line("  # command: " + p.command);
      AddAll(before, done, ["  # command: " + p.command]);
      done := done + ["  # command: " + p.command];
      Inputs(p, prose);
      AddAll(before, done, InputsComment(p, prose));
    }

    method Candidate(p: Proposal)
      requires Valid()
      modifies this
      ensures Valid() && lines == old(lines) + CandidateEntries(p)
    {
      ghost var before := lines;
      var from, command := CandidateNote(p), "  # command: " + p.command;
      Line(from);
      Line(command);
      AddAll(before, [from], [command]);
      ProtectedItems(p.guarded, "  #   protect: ");
      AddAll(before, [from] + [command], Items(p.guarded, "  #   protect: ", Width(p.guarded)));
    }

    method Several(ps: seq<Proposal>, prose: Prose)
      requires Valid()
      modifies this
      ensures Valid() && lines == old(lines) + SeveralEntries(ps, prose)
    {
      ghost var before := lines;
      var several := "  " + PROPOSED_MARKER + prose.several;
      Three("  tests: []", "verify:", several);
      ghost var opening := ["  tests: []", "verify:", several];
      assert before + opening + [] == before + opening;
      for i := 0 to |ps|
        invariant Valid() && lines == before + opening + AllCandidates(ps[..i])
      {
        Candidate(ps[i]);
        assert ps[..i + 1][..i] == ps[..i];
        AddAll(before + opening, AllCandidates(ps[..i]), CandidateEntries(ps[i]));
      }
      assert ps[..|ps|] == ps;
      AddAll(before, opening, AllCandidates(ps));
    }
  }

  /** The appended text is the rendered list of entries the theorems are about. */
  method BuildConfig(survey: Survey, accepted: Option<Proposal>, prose: Prose) returns (text: string)
    ensures text == ConfigText(survey, accepted, prose)
  {
    var w := new Writer();
    w.AllOf(prose.header);
    assert [] + prose.header == prose.header;
    w.Line("protected:");
    if accepted.Some? {
      w.Accepted(accepted.value, prose);
    } else if survey.proposals == [] {
      w.Blank(survey.declined, prose);
    } else if |survey.proposals| == 1 {
      w.Proposed(survey.proposals[0], prose);
    } else {
      w.Several(survey.proposals, prose);
    }
    w.Line("  budget_secs: 600");
    text := w.text;
  }
}
