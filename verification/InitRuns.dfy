/** Sequences of `ward init` runs over one project's files (crates/ward-cli/src/init.rs). */
module InitRuns {
  import opened Wrappers
  import opened Text
  import opened CommandLines
  import opened VerifierConfig
  import opened ConfigReading
  import opened Gitignore

  /** What a path names. A regular file either holds a text or not (`Garbled`); `Unreadable` cannot
      be opened at all; `Special` opens but is not a regular file. */
  datatype Node =
    | Absent
    | Regular(text: string, links: nat, writable: bool)
    | Garbled(links: nat)
    | Unreadable
    | Symlink
    | Special

  /** The directory a file would be created in. `NotADirectory` is a symlink or any other node in
      its place; `Unopenable` fails in any other way. */
  datatype Dir = Missing(creatable: bool) | RealDir(writable: bool) | NotADirectory | Unopenable

  datatype Place = Place(dir: Dir, node: Node)

  datatype Part = PolicyFile | IgnoreFile | ConfigFile

  datatype Fault = ThroughSymlink | NotOwnFile | NotRealDirectory | Io

  datatype InitError = At(part: Part, fault: Fault) | NothingToAccept | SeveralToAccept

  datatype Outcome = Written | Replaced | Kept | Skipped | Added

  datatype Acceptance = AcceptedCommand(command: string) | ProposedOne | ProposedSeveral | NothingProposed | UsersOwn

  datatype Accept = Flag | Ask(yes: bool) | Nobody

  datatype Attempt = Attempt(accept: Accept, dry: bool, survey: Survey)

  /** The fixed texts: the policy template and the wording of the config's comments. */
  datatype Templates = Templates(policy: string, prose: Prose)

  /** `gitignore.dir` is the project directory itself. */
  datatype Disk = Disk(policy: Place, gitignore: Place, config: Place, git: bool)

  datatype Report = Report(policy: Outcome, gitignore: Outcome, config: Outcome, acceptance: Acceptance)

  datatype FileStep = FileStep(place: Place, outcome: Result<Outcome, InitError>)

  datatype RunStep = RunStep(disk: Disk, report: Result<Report, InitError>)

  /** Opened for reading and writing without following links, checked and read; `None` when there
      is nothing to open. */
  function OpenText(n: Node): Result<Option<string>, Fault> {
    match n
    case Absent => Ok(None)
    case Regular(text, links, writable) =>
      if !writable then Err(Io) else if links != 1 then Err(NotOwnFile) else Ok(Some(text))
    case Garbled(links) => Err(if links != 1 then NotOwnFile else Io)
    case Unreadable => Err(Io)
    case Symlink => Err(ThroughSymlink)
    case Special => Err(NotOwnFile)
  }

  /** Why no file can be created there: `open_real_dir`, then the exclusive create. */
  function CreateFault(dir: Dir): Option<Fault> {
    match dir
    case Missing(creatable) => if creatable then None else Some(Io)
    case RealDir(writable) => if writable then None else Some(Io)
    case NotADirectory => Some(NotRealDirectory)
    case Unopenable => Some(Io)
  }

  /** Init's own unaccepted proposal: the only text acceptance may replace. */
  predicate OwnProposal(text: string) {
    Contains(text, PROPOSED_MARKER) && !HasActiveCommand(text)
  }

  predicate Awaiting(n: Node) {
    n.Absent? || (n.Regular? && OwnProposal(n.text))
  }

  function Choose(at: Attempt, awaiting: bool): Result<Option<Proposal>, InitError> {
    var proposals := at.survey.proposals;
    if !awaiting then Ok(None)
    else if at.accept.Flag? then
      if |proposals| == 1 then Ok(Some(proposals[0]))
      else if proposals == [] then Err(NothingToAccept)
      else Err(SeveralToAccept)
    else if at.accept.Ask? && |proposals| == 1 && !at.dry then
      Ok(if at.accept.yes then Some(proposals[0]) else None)
    else Ok(None)
  }

  function CreateNew(p: Place, part: Part, text: string, dry: bool): FileStep {
    if !p.node.Absent? then FileStep(p, Ok(Kept))
    else if dry then FileStep(p, Ok(Written))
    else if CreateFault(p.dir).Some? then FileStep(p, Err(At(part, CreateFault(p.dir).value)))
    else FileStep(Place(RealDir(true), Regular(text, 1, true)), Ok(Written))
  }

  function ReplaceProposal(p: Place, text: string, dry: bool): FileStep {
    match OpenText(p.node)
    case Err(fault) => FileStep(p, Err(At(ConfigFile, fault)))
    case Ok(None) => FileStep(p, Err(At(ConfigFile, Io)))
    case Ok(Some(existing)) =>
      if !OwnProposal(existing) then FileStep(p, Ok(Kept))
      else FileStep(if dry then p else p.(node := Regular(text, 1, true)), Ok(Replaced))
  }

  function WriteBoundary(p: Place, text: string, accept: bool, dry: bool): FileStep {
    if accept && !p.node.Absent? then ReplaceProposal(p, text, dry) else CreateNew(p, ConfigFile, text, dry)
  }

  function AddSessions(p: Place, git: bool, dry: bool): FileStep {
    if !git then FileStep(p, Ok(Skipped)) else
    match OpenText(p.node)
    case Err(fault) => FileStep(p, Err(At(IgnoreFile, fault)))
    case Ok(existing) =>
      var text := if existing.Some? then existing.value else [];
      if AlreadyIgnored(text) then FileStep(p, Ok(Kept))
      else if dry then FileStep(p, Ok(Added))
      else if existing.None? && p.dir != RealDir(true) then FileStep(p, Err(At(IgnoreFile, Io)))
      else FileStep(p.(node := Regular(WithSessions(text), 1, true)), Ok(Added))
  }

  function AcceptanceOf(outcome: Outcome, choice: Option<Proposal>, proposals: seq<Proposal>): Acceptance {
    if outcome.Kept? || outcome.Skipped? || outcome.Added? then UsersOwn
    else if choice.Some? then AcceptedCommand(choice.value.command)
    else if proposals == [] then NothingProposed
    else if |proposals| == 1 then ProposedOne
    else ProposedSeveral
  }

  function Run(d: Disk, at: Attempt, t: Templates): RunStep {
    match Choose(at, Awaiting(d.config.node))
    case Err(e) => RunStep(d, Err(e))
    case Ok(choice) =>
      var policy := CreateNew(d.policy, PolicyFile, t.policy, at.dry);
      if policy.outcome.Err? then RunStep(d, Err(policy.outcome.error)) else
      var ignore := AddSessions(d.gitignore, d.git, at.dry);
      if ignore.outcome.Err? then RunStep(d.(policy := policy.place), Err(ignore.outcome.error)) else
      var text := ConfigText(at.survey, choice, t.prose);
      var config := WriteBoundary(d.config, text, choice.Some?, at.dry);
      var after := Disk(policy.place, ignore.place, config.place, d.git);
      if config.outcome.Err? then RunStep(after, Err(config.outcome.error)) else
      RunStep(after, Ok(Report(policy.outcome.value, ignore.outcome.value, config.outcome.value,
                               AcceptanceOf(config.outcome.value, choice, at.survey.proposals))))
  }

  function Exec(d: Disk, runs: seq<Attempt>, t: Templates): Disk {
    if runs == [] then d else Run(Exec(d, runs[..|runs| - 1], t), runs[|runs| - 1], t).disk
  }

  // -------------------------------------------------------------------------------------------
  // One run

  /** A user's yes to the only proposal. */
  predicate Accepts(at: Attempt) {
    !at.dry && |at.survey.proposals| == 1 && (at.accept.Flag? || at.accept == Ask(true))
  }

  /** `--accept-verify` with nothing, or with too much, to accept. */
  predicate Overreaches(at: Attempt) {
    at.accept.Flag? && |at.survey.proposals| != 1
  }

  predicate Uncreatable(p: Place) {
    p.node.Absent? && CreateFault(p.dir).Some?
  }

  predicate IgnoreUnopened(d: Disk) {
    d.git && OpenText(d.gitignore.node).Err?
  }

  predicate IgnoreUncreatable(d: Disk) {
    d.git && d.gitignore.node.Absent? && d.gitignore.dir != RealDir(true)
  }

  /** A run that writes gets as far as the boundary. */
  predicate ReachesConfig(d: Disk) {
    !Uncreatable(d.policy) && !IgnoreUnopened(d) && !IgnoreUncreatable(d)
  }

  /** The text this attempt would write. */
  function NewText(at: Attempt, t: Templates): string {
    ConfigText(at.survey, if Accepts(at) then Some(at.survey.proposals[0]) else None, t.prose)
  }

  predicate WritesConfig(d: Disk, at: Attempt) {
    var n := d.config.node;
    && !at.dry && ReachesConfig(d)
    && (if n.Absent? then !Overreaches(at) && CreateFault(d.config.dir).None?
        else Awaiting(n) && n.links == 1 && n.writable && Accepts(at))
  }

  lemma SessionsFailExactlyWhen(d: Disk)
    ensures AddSessions(d.gitignore, d.git, true).outcome.Err? <==> IgnoreUnopened(d)
    ensures AddSessions(d.gitignore, d.git, false).outcome.Err? <==> IgnoreUnopened(d) || IgnoreUncreatable(d)
  {
    assert Lines([]) == [];
  }

  lemma PolicyFailsExactlyWhen(d: Disk, text: string, dry: bool)
    ensures CreateNew(d.policy, PolicyFile, text, dry).outcome.Err? <==> !dry && Uncreatable(d.policy)
  {
  }

  lemma RunWritesBoundary(d: Disk, at: Attempt, t: Templates, choice: Option<Proposal>)
    requires Choose(at, Awaiting(d.config.node)) == Ok(choice) && !at.dry
    ensures Run(d, at, t).disk.config ==
              if ReachesConfig(d)
              then WriteBoundary(d.config, ConfigText(at.survey, choice, t.prose), choice.Some?, false).place
              else d.config
  {
    SessionsFailExactlyWhen(d);
    PolicyFailsExactlyWhen(d, t.policy, at.dry);
  }

  lemma RunBoundaryOrNot(d: Disk, at: Attempt, t: Templates)
    ensures var choice, after := Choose(at, Awaiting(d.config.node)), Run(d, at, t).disk.config;
            after == d.config || (choice.Ok? && after == WriteBoundary(
              d.config, ConfigText(at.survey, choice.value, t.prose), choice.value.Some?, at.dry).place)
  {
  }

  lemma BoundaryKeptWhenDry(p: Place, text: string, accept: bool)
    ensures WriteBoundary(p, text, accept, true).place == p
  {
  }

  lemma DryRunKeepsBoundary(d: Disk, at: Attempt, t: Templates)
    requires at.dry
    ensures Run(d, at, t).disk.config == d.config
  {
    RunBoundaryOrNot(d, at, t);
    var choice := Choose(at, Awaiting(d.config.node));
    if choice.Ok? {
      BoundaryKeptWhenDry(d.config, ConfigText(at.survey, choice.value, t.prose), choice.value.Some?);
    }
  }

  lemma ChoiceIsAcceptance(at: Attempt)
    requires !at.dry && !Overreaches(at)
    ensures Choose(at, true) == Ok(if Accepts(at) then Some(at.survey.proposals[0]) else None)
  {
  }

  lemma BoundaryChangesExactlyWhen(p: Place, text: string, accept: bool)
    requires Awaiting(p.node) && (accept ==> HasActiveCommand(text))
    ensures WriteBoundary(p, text, accept, false).place.node != p.node <==>
              if p.node.Absent? then CreateFault(p.dir).None? else accept && p.node.links == 1 && p.node.writable
    ensures WriteBoundary(p, text, accept, false).place == p
            || WriteBoundary(p, text, accept, false).place.node == Regular(text, 1, true)
  {
  }

  lemma OverreachStops(d: Disk, at: Attempt, t: Templates)
    requires Awaiting(d.config.node) && Overreaches(at)
    ensures Run(d, at, t) == RunStep(d, Err(if at.survey.proposals == [] then NothingToAccept else SeveralToAccept))
  {
  }

  /** The boundary changes exactly when nothing before it is refused and it is absent and can be
      created, or it is init's own unaccepted proposal and the user accepts the only proposal. */
  lemma ConfigChangesExactlyWhen(d: Disk, at: Attempt, t: Templates)
    ensures Run(d, at, t).disk.config.node != d.config.node <==> WritesConfig(d, at)
    ensures WritesConfig(d, at) ==> Run(d, at, t).disk.config.node == Regular(NewText(at, t), 1, true)
    ensures !WritesConfig(d, at) ==> Run(d, at, t).disk.config == d.config
  {
    var n := d.config.node;
    if Awaiting(n) && Overreaches(at) {
      OverreachStops(d, at, t);
    } else if at.dry {
      DryRunKeepsBoundary(d, at, t);
    } else {
      var choice := Choose(at, Awaiting(n)).value;
      RunWritesBoundary(d, at, t, choice);
      if Awaiting(n) {
        ChoiceIsAcceptance(at);
        if choice.Some? {
          AcceptedIsActive(at.survey, choice.value, t.prose);
        }
        BoundaryChangesExactlyWhen(d.config, ConfigText(at.survey, choice, t.prose), choice.Some?);
      }
    }
  }

  lemma RunAddsSessions(d: Disk, at: Attempt, t: Templates)
    ensures var after := Run(d, at, t).disk;
            after.gitignore == d.gitignore || after.gitignore == AddSessions(d.gitignore, d.git, at.dry).place
  {
  }

  lemma RunCreatesPolicy(d: Disk, at: Attempt, t: Templates)
    ensures var after := Run(d, at, t).disk;
            after.policy == d.policy || after.policy == CreateNew(d.policy, PolicyFile, t.policy, at.dry).place
    ensures Run(d, at, t).disk.git == d.git
  {
  }

  lemma DryRunWritesNothing(d: Disk, at: Attempt, t: Templates)
    requires at.dry
    ensures Run(d, at, t).disk == d
  {
    RunAddsSessions(d, at, t);
    RunCreatesPolicy(d, at, t);
    DryRunKeepsBoundary(d, at, t);
    assert AddSessions(d.gitignore, d.git, true).place == d.gitignore;
  }

  /** A successful run's report says what happened to each file, and how the boundary ended up. */
  predicate Tells(report: Report, d: Disk, at: Attempt) {
    var n, proposals := d.config.node, at.survey.proposals;
    var accepted := Awaiting(n) && |proposals| == 1 && (at.accept.Flag? || (at.accept == Ask(true) && !at.dry));
    && report.policy == (if d.policy.node.Absent? then Written else Kept)
    && report.gitignore == (if !d.git then Skipped else if Covered(d.gitignore.node) then Kept else Added)
    && report.config == (if n.Absent? then Written else if accepted then Replaced else Kept)
    && report.acceptance == (if report.config == Kept then UsersOwn
                             else if accepted then AcceptedCommand(proposals[0].command)
                             else if proposals == [] then NothingProposed
                             else if |proposals| == 1 then ProposedOne
                             else ProposedSeveral)
  }

  lemma ReportTells(d: Disk, at: Attempt, t: Templates)
    requires Run(d, at, t).report.Ok?
    ensures Tells(Run(d, at, t).report.value, d, at)
  {
    var choice := Choose(at, Awaiting(d.config.node)).value;
    RunReports(d, at, t, choice);
    IgnoreTells(d, at.dry);
    BoundaryTells(d.config, choice.Some?, at.dry);
    ChoiceTells(at, Awaiting(d.config.node), choice);
  }

  lemma ChoiceTells(at: Attempt, awaiting: bool, choice: Option<Proposal>)
    requires Choose(at, awaiting) == Ok(choice)
    ensures choice ==
              if awaiting && |at.survey.proposals| == 1 && (at.accept.Flag? || (at.accept == Ask(true) && !at.dry))
              then Some(at.survey.proposals[0]) else None
  {
  }

  lemma BoundaryTells(p: Place, accept: bool, dry: bool)
    requires WriteBoundary(p, [], accept, dry).outcome.Ok? && (accept ==> Awaiting(p.node))
    ensures WriteBoundary(p, [], accept, dry).outcome.value ==
              if p.node.Absent? then Written else if accept then Replaced else Kept
  {
  }

  lemma IgnoreTells(d: Disk, dry: bool)
    requires AddSessions(d.gitignore, d.git, dry).outcome.Ok?
    ensures AddSessions(d.gitignore, d.git, dry).outcome.value ==
              if !d.git then Skipped else if Covered(d.gitignore.node) then Kept else Added
  {
    assert Lines([]) == [];
  }

  // -------------------------------------------------------------------------------------------
  // What a dry run predicts

  /** The report of a run that got the choice `choice`; the texts do not matter. */
  function ReportFor(d: Disk, choice: Option<Proposal>, proposals: seq<Proposal>, dry: bool)
    : Result<Report, InitError>
  {
    var policy := CreateNew(d.policy, PolicyFile, [], dry).outcome;
    var ignore := AddSessions(d.gitignore, d.git, dry).outcome;
    var config := WriteBoundary(d.config, [], choice.Some?, dry).outcome;
    if policy.Err? then Err(policy.error)
    else if ignore.Err? then Err(ignore.error)
    else if config.Err? then Err(config.error)
    else Ok(Report(policy.value, ignore.value, config.value, AcceptanceOf(config.value, choice, proposals)))
  }

  lemma RunReports(d: Disk, at: Attempt, t: Templates, choice: Option<Proposal>)
    requires Choose(at, Awaiting(d.config.node)) == Ok(choice)
    ensures Run(d, at, t).report == ReportFor(d, choice, at.survey.proposals, at.dry)
  {
    OutcomeIgnoresText(d.policy, PolicyFile, t.policy, at.dry);
    BoundaryIgnoresText(d.config, ConfigText(at.survey, choice, t.prose), choice.Some?, at.dry);
  }

  lemma OutcomeIgnoresText(p: Place, part: Part, text: string, dry: bool)
    ensures CreateNew(p, part, text, dry).outcome == CreateNew(p, part, [], dry).outcome
  {
  }

  lemma BoundaryIgnoresText(p: Place, text: string, accept: bool, dry: bool)
    ensures WriteBoundary(p, text, accept, dry).outcome == WriteBoundary(p, [], accept, dry).outcome
  {
  }

  /** The dry run has nothing to create, and nobody to ask. */
  predicate Foreseen(d: Disk, at: Attempt) {
    || (Awaiting(d.config.node) && Overreaches(at))
    || (!Uncreatable(d.policy)
        && (|| IgnoreUnopened(d)
            || (&& !IgnoreUncreatable(d)
                && !Uncreatable(d.config)
                && !(Awaiting(d.config.node) && at.accept == Ask(true) && |at.survey.proposals| == 1))))
  }

  lemma PolicyForeseenExactlyWhen(d: Disk, choice: Option<Proposal>, other: Option<Proposal>, proposals: seq<Proposal>)
    requires Uncreatable(d.policy)
    ensures ReportFor(d, choice, proposals, true) != ReportFor(d, other, proposals, false)
  {
    SessionsFailExactlyWhen(d);
  }

  lemma IgnoreForeseenExactlyWhen(d: Disk, choice: Option<Proposal>, other: Option<Proposal>, proposals: seq<Proposal>)
    requires !Uncreatable(d.policy) && (IgnoreUnopened(d) || IgnoreUncreatable(d))
    ensures ReportFor(d, choice, proposals, true) == ReportFor(d, other, proposals, false) <==> IgnoreUnopened(d)
  {
    SessionsFailExactlyWhen(d);
  }

  lemma SessionsOutcome(d: Disk)
    requires !IgnoreUncreatable(d)
    ensures AddSessions(d.gitignore, d.git, true).outcome == AddSessions(d.gitignore, d.git, false).outcome
  {
    assert Lines([]) == [];
  }

  lemma BoundaryOutcome(p: Place, accept: bool)
    ensures WriteBoundary(p, [], accept, true).outcome == WriteBoundary(p, [], accept, false).outcome <==>
              !Uncreatable(p)
  {
  }

  lemma SameChoiceForeseenExactlyWhen(d: Disk, choice: Option<Proposal>, proposals: seq<Proposal>)
    requires ReachesConfig(d)
    ensures ReportFor(d, choice, proposals, true) == ReportFor(d, choice, proposals, false) <==> !Uncreatable(d.config)
  {
    SessionsFailExactlyWhen(d);
    SessionsOutcome(d);
    BoundaryOutcome(d.config, choice.Some?);
  }

  lemma ChoiceShows(d: Disk, p: Proposal)
    requires Awaiting(d.config.node) && ReachesConfig(d)
    ensures ReportFor(d, None, [p], true) != ReportFor(d, Some(p), [p], false)
  {
    SessionsFailExactlyWhen(d);
  }

  lemma ChoicesCompared(at: Attempt, awaiting: bool) returns (choice: Option<Proposal>, choiceWhenDry: Option<Proposal>)
    requires !at.dry && !(awaiting && Overreaches(at))
    ensures Choose(at, awaiting) == Ok(choice) && Choose(at.(dry := true), awaiting) == Ok(choiceWhenDry)
    ensures choice != choiceWhenDry <==> awaiting && at.accept == Ask(true) && |at.survey.proposals| == 1
    ensures choice != choiceWhenDry ==> choiceWhenDry == None && choice.Some? && at.survey.proposals == [choice.value]
  {
    choice, choiceWhenDry := Choose(at, awaiting).value, Choose(at.(dry := true), awaiting).value;
  }

  /** A dry run reports what the real run would, except when a directory refuses a file that has to
      be created and no earlier refusal is common to both, or when the real run would ask and be
      told yes. */
  lemma DryRunPredictsExactlyWhen(d: Disk, at: Attempt, t: Templates)
    requires !at.dry
    ensures Run(d, at.(dry := true), t).report == Run(d, at, t).report <==> Foreseen(d, at)
  {
    var dry := at.(dry := true);
    var proposals := at.survey.proposals;
    if Awaiting(d.config.node) && Overreaches(at) {
      OverreachStops(d, at, t);
      OverreachStops(d, dry, t);
    } else {
      var choice, choiceWhenDry := ChoicesCompared(at, Awaiting(d.config.node));
      RunReports(d, at, t, choice);
      RunReports(d, dry, t, choiceWhenDry);
      if Uncreatable(d.policy) {
        PolicyForeseenExactlyWhen(d, choiceWhenDry, choice, proposals);
      } else if IgnoreUnopened(d) || IgnoreUncreatable(d) {
        IgnoreForeseenExactlyWhen(d, choiceWhenDry, choice, proposals);
      } else if choice == choiceWhenDry {
        SameChoiceForeseenExactlyWhen(d, choice, proposals);
      } else {
        ChoiceShows(d, choice.value);
      }
    }
  }

  /** A symlink, or anything else, in the place of `.ward` with no policy behind it: the dry run
      announces the policy, the real run is refused before it writes anything. */
  lemma RefusedDirectoryIsNotForeseen(d: Disk, at: Attempt, t: Templates)
    requires d.policy == Place(NotADirectory, Absent) && !at.dry && !(Awaiting(d.config.node) && Overreaches(at))
    ensures Run(d, at, t) == RunStep(d, Err(At(PolicyFile, NotRealDirectory)))
    ensures var dry := Run(d, at.(dry := true), t).report;
            if dry.Ok? then dry.value.policy == Written else dry.error.At? && dry.error.part != PolicyFile
  {
    var choice, choiceWhenDry := ChoicesCompared(at, Awaiting(d.config.node));
    RunReports(d, at.(dry := true), t, choiceWhenDry);
    DryPolicyIsWritten(d, choiceWhenDry, at.survey.proposals);
    RunStopsAtPolicy(d, at, t, choice);
  }

  lemma DryPolicyIsWritten(d: Disk, choice: Option<Proposal>, proposals: seq<Proposal>)
    requires d.policy.node.Absent?
    ensures var dry := ReportFor(d, choice, proposals, true);
            if dry.Ok? then dry.value.policy == Written else dry.error.At? && dry.error.part != PolicyFile
  {
  }

  lemma RunStopsAtPolicy(d: Disk, at: Attempt, t: Templates, choice: Option<Proposal>)
    requires Choose(at, Awaiting(d.config.node)) == Ok(choice) && !at.dry && Uncreatable(d.policy)
    ensures Run(d, at, t) == RunStep(d, Err(At(PolicyFile, CreateFault(d.policy.dir).value)))
  {
  }

  // -------------------------------------------------------------------------------------------
  // Whole histories

  /** A boundary that is the user's own, or accepted, or not a plain file, never changes again. */
  lemma {:induction false} SettledForever(d: Disk, runs: seq<Attempt>, t: Templates)
    requires !Awaiting(d.config.node)
    ensures Exec(d, runs, t).config == d.config
  {
    if runs != [] {
      var front, last := runs[..|runs| - 1], runs[|runs| - 1];
      SettledForever(d, front, t);
      ConfigChangesExactlyWhen(Exec(d, front, t), last, t);
    }
  }

  /** Absent, waiting for acceptance, settled. */
  function Stage(n: Node): nat {
    if n.Absent? then 0 else if Awaiting(n) then 1 else 2
  }

  lemma ChangeAdvances(d: Disk, at: Attempt, t: Templates)
    ensures var before, after := d.config.node, Run(d, at, t).disk.config.node;
            after == before || Stage(after) > Stage(before)
  {
    ConfigChangesExactlyWhen(d, at, t);
    if Accepts(at) {
      AcceptedIsActive(at.survey, at.survey.proposals[0], t.prose);
    }
  }

  function Changes(d: Disk, runs: seq<Attempt>, t: Templates): nat {
    if runs == [] then 0 else
    var before := Exec(d, runs[..|runs| - 1], t);
    Changes(d, runs[..|runs| - 1], t)
    + if Run(before, runs[|runs| - 1], t).disk.config.node == before.config.node then 0 else 1
  }

  /** However often it runs, init changes the boundary at most twice: each change moves it on, from
      absent to proposed to settled. */
  lemma {:induction false} AtMostTwoChanges(d: Disk, runs: seq<Attempt>, t: Templates)
    ensures Stage(d.config.node) + Changes(d, runs, t) <= Stage(Exec(d, runs, t).config.node) <= 2
  {
    if runs != [] {
      var front, last := runs[..|runs| - 1], runs[|runs| - 1];
      AtMostTwoChanges(d, front, t);
      ChangeAdvances(Exec(d, front, t), last, t);
    }
  }

  /** The k-th run writes the boundary. */
  predicate WrittenAt(d: Disk, runs: seq<Attempt>, k: nat, t: Templates) {
    k < |runs| && WritesConfig(Exec(d, runs[..k], t), runs[k])
  }

  lemma WrittenAtPrefix(d: Disk, runs: seq<Attempt>, k: nat, t: Templates)
    requires k + 1 < |runs|
    ensures WrittenAt(d, runs[..|runs| - 1], k, t) <==> WrittenAt(d, runs, k, t)
  {
    assert runs[..|runs| - 1][..k] == runs[..k];
  }

  /** The boundary is what it was, or the whole text of the run that wrote it last. */
  lemma {:induction false} WrittenByOneRun(d: Disk, runs: seq<Attempt>, t: Templates)
    ensures var final := Exec(d, runs, t).config.node;
            || final == d.config.node
            || exists k | 0 <= k < |runs| :: WrittenAt(d, runs, k, t) && final == Regular(NewText(runs[k], t), 1, true)
  {
    if runs != [] {
      var n := |runs| - 1;
      var front := runs[..n];
      WrittenByOneRun(d, front, t);
      var s := Exec(d, front, t);
      ConfigChangesExactlyWhen(s, runs[n], t);
      if WritesConfig(s, runs[n]) {
        assert WrittenAt(d, runs, n, t);
      } else if s.config.node != d.config.node {
        var k :| 0 <= k < n && WrittenAt(d, front, k, t) && s.config.node == Regular(NewText(front[k], t), 1, true);
        WrittenAtPrefix(d, runs, k, t);
      }
    }
  }

  predicate HasCommand(n: Node) {
    n.Regular? && HasActiveCommand(n.text)
  }

  /** What a run must bring to make a command active: acceptance, or a survey string that carries a
      command line behind a line break. */
  predicate Activates(at: Attempt) {
    Accepts(at) || SurveyIntroduces(at.survey)
  }

  lemma NewTextActiveExactlyWhen(at: Attempt, t: Templates)
    requires IsProse(t.prose)
    ensures HasActiveCommand(NewText(at, t)) <==> Activates(at)
  {
    if Accepts(at) {
      AcceptedIsActive(at.survey, at.survey.proposals[0], t.prose);
    } else {
      SuggestionsAreActiveExactlyWhen(at.survey, t.prose);
    }
  }

  lemma RunActiveExactlyWhen(s: Disk, at: Attempt, t: Templates)
    requires IsProse(t.prose)
    ensures HasCommand(Run(s, at, t).disk.config.node) <==>
              HasCommand(s.config.node) || (WritesConfig(s, at) && Activates(at))
  {
    ConfigChangesExactlyWhen(s, at, t);
    NewTextActiveExactlyWhen(at, t);
  }

  /** Some run wrote the boundary and was accepted, or had a survey string that carries a command
      line behind a line break. */
  predicate Activated(d: Disk, runs: seq<Attempt>, t: Templates) {
    exists k | 0 <= k < |runs| :: ActivatedAt(d, runs, k, t)
  }

  predicate ActivatedAt(d: Disk, runs: seq<Attempt>, k: nat, t: Templates) {
    WrittenAt(d, runs, k, t) && Activates(runs[k])
  }

  lemma ActivatedAtPrefix(d: Disk, runs: seq<Attempt>, k: nat, t: Templates)
    requires k + 1 < |runs|
    ensures ActivatedAt(d, runs[..|runs| - 1], k, t) <==> ActivatedAt(d, runs, k, t)
  {
    WrittenAtPrefix(d, runs, k, t);
  }

  lemma ActivatedStep(d: Disk, runs: seq<Attempt>, t: Templates)
    requires runs != []
    ensures var n := |runs| - 1;
            Activated(d, runs, t) <==>
              Activated(d, runs[..n], t) || (WritesConfig(Exec(d, runs[..n], t), runs[n]) && Activates(runs[n]))
  {
    var n := |runs| - 1;
    var front := runs[..n];
    if k :| 0 <= k < |runs| && ActivatedAt(d, runs, k, t) {
      if k < n {
        ActivatedAtPrefix(d, runs, k, t);
      }
    }
    if k :| 0 <= k < |front| && ActivatedAt(d, front, k, t) {
      ActivatedAtPrefix(d, runs, k, t);
    }
    if WritesConfig(Exec(d, front, t), runs[n]) && Activates(runs[n]) {
      assert ActivatedAt(d, runs, n, t);
    }
  }

  /** Over any history a command becomes active exactly by such a run. */
  lemma {:induction false} ActiveExactlyWhen(d: Disk, runs: seq<Attempt>, t: Templates)
    requires IsProse(t.prose) && !HasCommand(d.config.node)
    ensures HasCommand(Exec(d, runs, t).config.node) <==> Activated(d, runs, t)
  {
    if runs != [] {
      var n := |runs| - 1;
      ActiveExactlyWhen(d, runs[..n], t);
      RunActiveExactlyWhen(Exec(d, runs[..n], t), runs[n], t);
      ActivatedStep(d, runs, t);
    }
  }

  predicate AcceptedIn(n: Node, at: Attempt, t: Templates) {
    Accepts(at) && n == Regular(ConfigText(at.survey, Some(at.survey.proposals[0]), t.prose), 1, true)
  }

  /** Without such strings, an active command is the accepted boundary of one of the runs. */
  lemma ActiveOnlyByAcceptance(d: Disk, runs: seq<Attempt>, t: Templates)
    requires IsProse(t.prose) && forall k | 0 <= k < |runs| :: !SurveyIntroduces(runs[k].survey)
    requires !HasCommand(d.config.node) && HasCommand(Exec(d, runs, t).config.node)
    ensures exists k | 0 <= k < |runs| :: AcceptedIn(Exec(d, runs, t).config.node, runs[k], t)
  {
    WrittenByOneRun(d, runs, t);
    var final := Exec(d, runs, t).config.node;
    var k :| 0 <= k < |runs| && WrittenAt(d, runs, k, t) && final == Regular(NewText(runs[k], t), 1, true);
    NewTextActiveExactlyWhen(runs[k], t);
    assert AcceptedIn(final, runs[k], t);
  }

  /** A path with a line break and a command line in it: one run nobody accepts anything in writes
      that command active, and no later run changes it. */
  lemma BrokenPathSettlesUnaccepted(d: Disk, p: Proposal, name: string, rest: string, later: seq<Attempt>, t: Templates)
    requires IsProse(t.prose) && p.guarded != [] && p.guarded[0].path == name + ("\n" + (KEY + rest))
    requires ReachesConfig(d) && d.config.node.Absent? && CreateFault(d.config.dir).None?
    ensures var once := Run(d, Attempt(Nobody, false, Survey([p], [])), t).disk;
            HasCommand(once.config.node) && Exec(once, later, t).config == once.config
  {
    var at := Attempt(Nobody, false, Survey([p], []));
    ConfigChangesExactlyWhen(d, at, t);
    BrokenPathBecomesActive(p, name, rest, [], t.prose);
    SettledForever(Run(d, at, t).disk, later, t);
  }

  /** The file runs the command of the proposal, and no other, and protects its paths, and no
      others. */
  predicate Enacts(n: Node, p: Proposal) {
    && n.Regular?
    && RunsOnly(n.text, StripReturn(p.command))
    && ((forall i | 0 <= i < |p.guarded| :: PlainPath(p.guarded[i].path)) ==> Protects(n.text, Paths(p.guarded)))
  }

  lemma AcceptedEnacts(n: Node, at: Attempt, t: Templates)
    requires AcceptedIn(n, at, t) && IsProse(t.prose) && UnbrokenProposal(at.survey.proposals[0])
    ensures Enacts(n, at.survey.proposals[0])
  {
    var p := at.survey.proposals[0];
    AcceptedRunsItsCommand(at.survey, p, t.prose);
    if forall i | 0 <= i < |p.guarded| :: PlainPath(p.guarded[i].path) {
      AcceptedProtectsItsPaths(at.survey, p, t.prose);
    }
  }

  /** An accepted boundary is what every later run leaves there, and it enacts what was accepted. */
  lemma AcceptedForever(d: Disk, at: Attempt, later: seq<Attempt>, t: Templates)
    requires Accepts(at) && WritesConfig(d, at)
    ensures AcceptedIn(Exec(Run(d, at, t).disk, later, t).config.node, at, t)
    ensures IsProse(t.prose) && UnbrokenProposal(at.survey.proposals[0]) ==>
              Enacts(Exec(Run(d, at, t).disk, later, t).config.node, at.survey.proposals[0])
  {
    ConfigChangesExactlyWhen(d, at, t);
    AcceptedIsActive(at.survey, at.survey.proposals[0], t.prose);
    SettledForever(Run(d, at, t).disk, later, t);
    if IsProse(t.prose) && UnbrokenProposal(at.survey.proposals[0]) {
      AcceptedEnacts(Run(d, at, t).disk.config.node, at, t);
    }
  }

  /** A proposal keeps waiting, unchanged, for as long as nobody accepts. */
  lemma {:induction false} ProposalWaits(d: Disk, runs: seq<Attempt>, t: Templates)
    requires !d.config.node.Absent? && forall k | 0 <= k < |runs| :: !Accepts(runs[k])
    ensures Exec(d, runs, t).config == d.config
  {
    if runs != [] {
      var n := |runs| - 1;
      ProposalWaits(d, runs[..n], t);
      ConfigChangesExactlyWhen(Exec(d, runs[..n], t), runs[n], t);
    }
  }

  /** The blank, too, is final, unless a reason it quotes carries the proposal marker and none
      carries a command line. */
  lemma BlankSettlesExactlyWhen(d: Disk, at: Attempt, t: Templates)
    requires IsProse(t.prose)
    requires d.config.node.Absent? && WritesConfig(d, at) && at.survey.proposals == []
    ensures Stage(Run(d, at, t).disk.config.node) == 2 <==>
              AnyMarked(at.survey.declined, PROPOSED_MARKER) ==> AnyIntroduces(at.survey.declined)
  {
    ConfigChangesExactlyWhen(d, at, t);
    BlankIsMarkedExactlyWhen(at.survey, t.prose);
    SuggestionsAreActiveExactlyWhen(at.survey, t.prose);
  }

  /** A proposal just written waits for acceptance, unless it is active already. */
  lemma ProposalAwaitsExactlyWhen(d: Disk, at: Attempt, t: Templates)
    requires IsProse(t.prose)
    requires d.config.node.Absent? && WritesConfig(d, at) && at.survey.proposals != [] && !Accepts(at)
    ensures Stage(Run(d, at, t).disk.config.node) == 1 <==> !SurveyIntroduces(at.survey)
  {
    ConfigChangesExactlyWhen(d, at, t);
    ProposalsAreMarked(at.survey, t.prose);
    SuggestionsAreActiveExactlyWhen(at.survey, t.prose);
  }

  // -------------------------------------------------------------------------------------------
  // The other two files

  lemma {:induction false} PolicyWrittenOnce(d: Disk, runs: seq<Attempt>, t: Templates)
    ensures var before, after := d.policy, Exec(d, runs, t).policy;
            after == before || (before.node.Absent? && after == Place(RealDir(true), Regular(t.policy, 1, true)))
  {
    if runs != [] {
      var front := runs[..|runs| - 1];
      PolicyWrittenOnce(d, front, t);
      RunCreatesPolicy(Exec(d, front, t), runs[|runs| - 1], t);
    }
  }

  predicate Covered(n: Node) {
    n.Regular? && AlreadyIgnored(n.text)
  }

  function Existing(n: Node): string {
    if n.Regular? then n.text else []
  }

  lemma AddSessionsWhat(p: Place, git: bool, dry: bool)
    ensures var after := AddSessions(p, git, dry).place;
            || after == p
            || (!dry && (p.node.Absent? || p.node.Regular?) && !AlreadyIgnored(Existing(p.node))
                && after == p.(node := Regular(WithSessions(Existing(p.node)), 1, true)))
  {
  }

  lemma AddedMeansCovered(p: Place, git: bool)
    requires AddSessions(p, git, false).outcome.Ok? && git
    ensures var after := AddSessions(p, git, false).place;
            Covered(after.node) && OpenText(after.node) == Ok(Some(after.node.text))
  {
    var text := Existing(p.node);
    AddsToTheText(text);
    assert p.node.Absent? ==> !AlreadyIgnored(text) by {
      assert Lines([]) == [];
    }
    AddedIs(p, text);
  }

  lemma AddedIs(p: Place, text: string)
    requires AddSessions(p, true, false).outcome.Ok? && text == Existing(p.node)
    requires p.node.Absent? ==> !AlreadyIgnored(text)
    ensures var after := AddSessions(p, true, false).place.node;
            after == Regular(if AlreadyIgnored(text) then text else WithSessions(text), 1, true)
  {
  }

  lemma CoveredIsKept(p: Place)
    requires Covered(p.node) && OpenText(p.node) == Ok(Some(p.node.text))
    ensures AddSessions(p, true, false) == FileStep(p, Ok(Kept))
  {
  }

  /** After it succeeded once, the `.gitignore` step changes nothing. */
  lemma AddSessionsIsIdempotent(p: Place, git: bool)
    requires AddSessions(p, git, false).outcome.Ok?
    ensures var once := AddSessions(p, git, false);
            AddSessions(once.place, git, false) == FileStep(once.place, Ok(if git then Kept else Skipped))
  {
    if git {
      AddedMeansCovered(p, git);
      CoveredIsKept(AddSessions(p, git, false).place);
    }
  }

  /** Left alone, or grown behind what was there. */
  predicate Grown(before: Node, after: Node) {
    || after == before
    || (!Covered(before) && Covered(after) && (before.Absent? || (before.Regular? && before.text < after.text)))
  }

  lemma AddSessionsOnlyAdds(p: Place, git: bool, dry: bool)
    ensures Grown(p.node, AddSessions(p, git, dry).place.node)
  {
    AddSessionsWhat(p, git, dry);
    AddsToTheText(Existing(p.node));
  }

  /** Over any history `.gitignore` is left alone or gains its line once, behind all that was
      there. */
  lemma {:induction false} GitignoreGrowsOnce(d: Disk, runs: seq<Attempt>, t: Templates)
    ensures Grown(d.gitignore.node, Exec(d, runs, t).gitignore.node)
  {
    if runs != [] {
      var front, last := runs[..|runs| - 1], runs[|runs| - 1];
      GitignoreGrowsOnce(d, front, t);
      var s := Exec(d, front, t);
      RunAddsSessions(s, last, t);
      AddSessionsOnlyAdds(s.gitignore, s.git, last.dry);
    }
  }
}
