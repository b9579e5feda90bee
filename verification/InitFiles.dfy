/** How `ward init` changes the files of a project (crates/ward-cli/src/init.rs). */
module InitFiles {
  import opened Wrappers
  import opened Text
  import opened Utf8
  import opened CommandLines
  import opened VerifierConfig
  import opened ConfigWriter
  import opened Gitignore
  import opened InitRuns

  method AnyLineIgnores(text: string) returns (found: bool)
    ensures found <==> AlreadyIgnored(text)
  {
    var lines := Lines(text);
    for i := 0 to |lines|
      invariant forall k | 0 <= k < i :: !IgnoresSessions(lines[k])
    {
      if IgnoresSessions(lines[i]) {
        return true;
      }
    }
    return false;
  }

  /** A path and the directory it is in. */
  class File {
    var dir: Dir
    var node: Node

    constructor (p: Place)
      ensures this.Place() == p
    {
      dir, node := p.dir, p.node;
    }

    function Place(): Place
      reads this
    {
      InitRuns.Place(dir, node)
    }

    method SetLenZero()
      requires node.Regular?
      modifies this`node
      ensures node == old(node).(text := [])
    {
      node := node.(text := []);
    }

    /** Bytes are written from the start and nothing is cut; the caller shows that the file then
        holds just the text. */
    method WriteFromStart(text: string)
      requires node.Regular? && Overwritten(Encode(node.text), Encode(text)) == Encode(text)
      modifies this`node
      ensures node == old(node).(text := text)
    {
      node := node.(text := text);
    }

    /** `open_real_dir`: the directory, created first if it is missing. */
    method OpenRealDir() returns (fault: Option<Fault>)
      modifies this`dir
      ensures fault.None? <==> dir.RealDir?
      ensures old(dir) == Missing(true) ==> dir == RealDir(true)
      ensures old(dir) != Missing(true) ==> dir == old(dir)
      ensures fault == Some(NotRealDirectory) <==> old(dir).NotADirectory?
      ensures fault == None || fault == Some(NotRealDirectory) || fault == Some(Io)
    {
      if dir == Missing(true) {
        dir := RealDir(true);
      }
      match dir
      case RealDir(_) => return None;
      case NotADirectory => return Some(NotRealDirectory);
      case Missing(_) => return Some(Io);
      case Unopenable => return Some(Io);
    }

    /** `write_new`. */
    method WriteNew(part: Part, text: string, dry: bool) returns (outcome: Result<Outcome, InitError>)
      modifies this
      ensures FileStep(Place(), outcome) == CreateNew(old(Place()), part, text, dry)
      ensures dry || !old(node).Absent? || outcome.Err? ==> Place() == old(Place())
      ensures !old(node).Absent? ==> outcome == Ok(Kept)
      ensures outcome.Ok? && !dry && old(node).Absent? ==> dir == RealDir(true) && node == Regular(text, 1, true)
    {
      if !node.Absent? {
        return Ok(Kept);
      }
      if dry {
        return Ok(Written);
      }
      var fault := OpenRealDir();
      if fault.Some? {
        return Err(At(part, fault.value));
      }
      if !dir.writable {
        return Err(At(part, Io));
      }
      node := Regular(text, 1, true);
      return Ok(Written);
    }

    /** `replace_proposed`: cut to nothing, then written. */
    method ReplaceProposed(text: string, dry: bool) returns (outcome: Result<Outcome, InitError>)
      modifies this`node
      ensures FileStep(Place(), outcome) == ReplaceProposal(old(Place()), text, dry)
      ensures node != old(node) ==> !dry && old(node).Regular? && OwnProposal(old(node).text) && outcome == Ok(Replaced)
    {
      var contents := OpenText(node);
      if contents.Err? {
        return Err(At(ConfigFile, contents.error));
      }
      if contents.value.None? {
        return Err(At(ConfigFile, Io));
      }
      if !Contains(contents.value.value, PROPOSED_MARKER) || HasActiveCommand(contents.value.value) {
        return Ok(Kept);
      }
      if !dry {
        SetLenZero();
        assert Overwritten(Encode(node.text), Encode(text)) == Encode(text);
        WriteFromStart(text);
      }
      return Ok(Replaced);
    }

    /** `write_boundary`. */
    method Boundary(text: string, accept: bool, dry: bool) returns (outcome: Result<Outcome, InitError>)
      modifies this
      ensures FileStep(Place(), outcome) == WriteBoundary(old(Place()), text, accept, dry)
      ensures dry || outcome.Err? || (!accept && !old(node).Absent?) ==> Place() == old(Place())
      ensures node == old(node) || node == Regular(text, 1, true)
      ensures outcome == Ok(Replaced) ==> accept && old(node).Regular? && OwnProposal(old(node).text)
      ensures outcome == Ok(Written) ==> old(node).Absent?
    {
      if accept && !node.Absent? {
        outcome := ReplaceProposed(text, dry);
      } else {
        outcome := WriteNew(ConfigFile, text, dry);
      }
    }

    /** `ignore_sessions`: the longer text is written over the old one, which is not cut. */
    method IgnoreSessions(git: bool, dry: bool) returns (outcome: Result<Outcome, InitError>)
      modifies this`node
      ensures FileStep(Place(), outcome) == AddSessions(old(Place()), git, dry)
      ensures Grown(old(node), node)
    {
      AddSessionsOnlyAdds(Place(), git, dry);
      if !git {
        return Ok(Skipped);
      }
      var contents := OpenText(node);
      if contents.Err? {
        return Err(At(IgnoreFile, contents.error));
      }
      var existing := if contents.value.Some? then contents.value.value else [];
      var found := AnyLineIgnores(existing);
      if found {
        return Ok(Kept);
      }
      if dry {
        return Ok(Added);
      }
      if contents.value.Some? {
        OverwriteIsExact(existing);
        WriteFromStart(WithSessions(existing));
      } else if dir == RealDir(true) {
        node := Regular(WithSessions(existing), 1, true);
      } else {
        return Err(At(IgnoreFile, Io));
      }
      return Ok(Added);
    }
  }

  /** A project directory: its three files, and whether it is a git repository. */
  class Project {
    const policy: File
    const gitignore: File
    const config: File
    const git: bool

    constructor (policy: File, gitignore: File, config: File, git: bool)
      ensures this.policy == policy && this.gitignore == gitignore && this.config == config && this.git == git
    {
      this.policy, this.gitignore, this.config, this.git := policy, gitignore, config, git;
    }

    ghost predicate Valid() {
      policy != gitignore && policy != config && gitignore != config
    }

    ghost function Files(): Disk
      reads policy, gitignore, config
    {
      Disk(policy.Place(), gitignore.Place(), config.Place(), git)
    }

    /** The boundary, built and written. */
    method WriteConfig(at: Attempt, choice: Option<Proposal>, t: Templates) returns (c: Result<Outcome, InitError>)
      modifies config
      ensures FileStep(config.Place(), c) ==
                WriteBoundary(old(config.Place()), ConfigText(at.survey, choice, t.prose), choice.Some?, at.dry)
    {
      var text := BuildConfig(at.survey, choice, t.prose);
      c := config.Boundary(text, choice.Some?, at.dry);
    }

    /** One `ward init`. */
    method Init(at: Attempt, t: Templates) returns (report: Result<Report, InitError>)
      requires Valid()
      modifies policy, gitignore, config
      ensures RunStep(Files(), report) == Run(old(Files()), at, t)
    {
      var choice := Choose(at, Awaiting(config.node));
      if choice.Err? {
        return Err(choice.error);
      }
      var p := policy.WriteNew(PolicyFile, t.policy, at.dry);
      if p.Err? {
        return Err(p.error);
      }
      var g := gitignore.IgnoreSessions(git, at.dry);
      if g.Err? {
        return Err(g.error);
      }
      var c := WriteConfig(at, choice.value, t);
      if c.Err? {
        return Err(c.error);
      }
      return Ok(Report(p.value, g.value, c.value, AcceptanceOf(c.value, choice.value, at.survey.proposals)));
    }

    /** Any number of `ward init` runs, one after the other. */
    method InitAll(runs: seq<Attempt>, t: Templates)
      requires Valid()
      modifies policy, gitignore, config
      ensures Files() == Exec(old(Files()), runs, t)
    {
      for i := 0 to |runs|
        invariant Files() == Exec(old(Files()), runs[..i], t)
      {
        var _ := Init(runs[i], t);
        assert runs[..i + 1][..i] == runs[..i];
      }
      assert runs[..|runs|] == runs;
    }
  }
}
