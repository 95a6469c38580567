/** The mirror operation of one repository (mkdir, stat, then clone, or
    fetch followed by gc) and the worker that applies it to a queue of
    repositories, over an abstract filesystem and an abstract git. */
module Mirror {
  import opened GitHub
  import opened Paths

  /** One subprocess: program, arguments, working directory ("" is the
      current directory) and the variables added to the inherited
      environment (empty: the environment is inherited unchanged). */
  datatype Command = Command(name: string, args: seq<string>, dir: string, env: seq<string>)

  /** What running a command yields: whether it exited successfully, and
      its combined output. */
  datatype CmdResult = CmdResult(success: bool, output: string)

  /** git, as an oracle from the command issued to its result. */
  type Runner = Command -> CmdResult

  /** What `os.Stat` reports about a path. */
  datatype StatResult = Exists | NotExist | StatError

  /** The filesystem: the paths that exist, the paths whose stat fails with
      an error other than "does not exist", and the directories that
      `os.MkdirAll` cannot create. */
  datatype FileSystem = FileSystem(existing: set<string>, statFails: set<string>, mkdirFails: set<string>)

  /** Why processing a repository stopped: its organisation directory could
      not be created, or a git command failed. */
  datatype MirrorError = MkdirFailed(dir: string) | CommandFailed(cmd: Command)

  datatype Outcome = Ok | Err(error: MirrorError)

  /** The log lines the mirror writes. */
  datatype LogLine =
    | CloneInto(path: string)
    | FetchIn(path: string)
    | RepoOutput(fullName: string, output: string)
    | GcOutput(path: string, output: string)
    | RepoFailed(fullName: string, error: MirrorError)

  /** Everything the mirror changes: the filesystem, the commands it has
      issued so far, in order, and the log. */
  datatype Machine = Machine(fs: FileSystem, issued: seq<Command>, log: seq<LogLine>)

  /** One-shot configuration overrides given to gc only, so that it runs in
      the foreground: gc.autoDetach=false, never written to the repository. */
  const GcOverrides: seq<string> := ["GIT_CONFIG_COUNT=1", "GIT_CONFIG_KEY_0=gc.autoDetach", "GIT_CONFIG_VALUE_0=false"]

  /** `git clone --mirror <url> <path>`, run in the working directory with
      the inherited environment and nothing added to it. */
  function CloneCommand(url: string, path: string): (c: Command)
    ensures c.name == "git" && |c.args| == 4 && c.args[..2] == ["clone", "--mirror"]
    ensures c.args[2] == url && c.args[3] == path
    ensures c.dir == "" && c.env == []
  {
    Command("git", ["clone", "--mirror", url, path], "", [])
  }

  /** `git remote update -p`, run inside the mirror, nothing added to the
      environment. */
  function FetchCommand(path: string): (c: Command)
    ensures c.name == "git" && c.args == ["remote", "update", "-p"]
    ensures c.dir == path && c.env == []
  {
    Command("git", ["remote", "update", "-p"], path, [])
  }

  /** `git gc --force`, run inside the mirror, with the environment extended
      by the gc overrides. */
  function GcCommand(path: string): (c: Command)
    ensures c.name == "git" && c.args == ["gc", "--force"]
    ensures c.dir == path && c.env == GcOverrides
  {
    Command("git", ["gc", "--force"], path, GcOverrides)
  }

  /** Each issued command names its repository: the clone by URL and path,
      fetch and gc by path, and no command of one kind equals one of another. */
  lemma CommandsIdentifyRepository(url: string, path: string, url': string, path': string)
    ensures CloneCommand(url, path) == CloneCommand(url', path') ==> url == url' && path == path'
    ensures FetchCommand(path) == FetchCommand(path') ==> path == path'
    ensures GcCommand(path) == GcCommand(path') ==> path == path'
    ensures CloneCommand(url, path) != FetchCommand(path')
    ensures CloneCommand(url, path) != GcCommand(path')
    ensures FetchCommand(path) != GcCommand(path')
  {
    var c, c' := CloneCommand(url, path), CloneCommand(url', path');
    if c == c' {
      assert c.args[2] == c'.args[2] && c.args[3] == c'.args[3];
    }
  }

  /** `os.Stat` followed by `os.IsNotExist`: a path is reported missing
      exactly when it does not exist and stat does not fail on it for
      another reason. */
  function StatOf(fs: FileSystem, path: string): (s: StatResult)
    ensures s == NotExist <==> path !in fs.existing && path !in fs.statFails
    ensures s == Exists ==> path in fs.existing
  {
    if path in fs.statFails then StatError
    else if path in fs.existing then Exists
    else NotExist
  }

  /** `os.MkdirAll(dir, 0o755)`: fails without effect, or makes dir exist. */
  function MkdirStep(m: Machine, dir: string): (r: (Machine, bool))
    ensures r.1 <==> dir !in m.fs.mkdirFails
    ensures !r.1 ==> r.0 == m
    ensures r.1 ==> r.0.fs.existing == m.fs.existing + {dir}
    ensures r.0.fs.statFails == m.fs.statFails && r.0.fs.mkdirFails == m.fs.mkdirFails
    ensures r.0.issued == m.issued && r.0.log == m.log
  {
    if dir in m.fs.mkdirFails then (m, false)
    else (m.(fs := m.fs.(existing := m.fs.existing + {dir})), true)
  }

  /** Running one command appends it to the issued commands and answers
      with the oracle's result; the filesystem and the log are untouched. */
  function ExecStep(m: Machine, run: Runner, cmd: Command): (r: (Machine, CmdResult))
    ensures r.0.issued == m.issued + [cmd] && r.1 == run(cmd)
    ensures r.0.fs == m.fs && r.0.log == m.log
  {
    (m.(issued := m.issued + [cmd]), run(cmd))
  }

  /** `clone`: a mirror clone into path; a successful clone makes path
      exist, a failed one logs git's output under the repository's name. */
  function CloneStep(m: Machine, run: Runner, repo: Repo, path: string): (r: (Machine, Outcome))
    ensures r.0.issued == m.issued + [CloneCommand(repo.cloneURL, path)]
    ensures r.1 == Ok <==> run(CloneCommand(repo.cloneURL, path)).success
    ensures r.1.Err? ==> r.1.error == CommandFailed(CloneCommand(repo.cloneURL, path))
    ensures r.1 == Ok ==> path in r.0.fs.existing
    ensures m.fs.existing <= r.0.fs.existing <= m.fs.existing + {path}
    ensures r.0.fs.statFails == m.fs.statFails && r.0.fs.mkdirFails == m.fs.mkdirFails
    ensures |m.log| < |r.0.log| && r.0.log[..|m.log|] == m.log && r.0.log[|m.log|] == CloneInto(path)
  {
    var cmd := CloneCommand(repo.cloneURL, path);
    var e := ExecStep(m.(log := m.log + [CloneInto(path)]), run, cmd);
    if e.1.success then (e.0.(fs := e.0.fs.(existing := e.0.fs.existing + {path})), Ok)
    else (e.0.(log := e.0.log + [RepoOutput(repo.fullName, e.1.output)]), Err(CommandFailed(cmd)))
  }

  /** `gc`: forced gc inside path with the overrides; a failure logs git's
      output under the path. */
  function GcStep(m: Machine, run: Runner, path: string): (r: (Machine, Outcome))
    ensures r.0.issued == m.issued + [GcCommand(path)]
    ensures r.0.fs == m.fs
    ensures r.1 == Ok <==> run(GcCommand(path)).success
    ensures r.1.Err? ==> r.1.error == CommandFailed(GcCommand(path))
    ensures |m.log| <= |r.0.log| && r.0.log[..|m.log|] == m.log
  {
    var cmd := GcCommand(path);
    var e := ExecStep(m, run, cmd);
    if e.1.success then (e.0, Ok)
    else (e.0.(log := e.0.log + [GcOutput(path, e.1.output)]), Err(CommandFailed(cmd)))
  }

  /** `fetch`: `git remote update -p` inside path, then gc if it succeeded. */
  function FetchStep(m: Machine, run: Runner, repo: Repo, path: string): (r: (Machine, Outcome))
    ensures r.0.fs == m.fs
    ensures r.0.issued == m.issued +
      (if run(FetchCommand(path)).success then [FetchCommand(path), GcCommand(path)] else [FetchCommand(path)])
    ensures r.1 == Ok <==> run(FetchCommand(path)).success && run(GcCommand(path)).success
    ensures !run(FetchCommand(path)).success ==> r.1 == Err(CommandFailed(FetchCommand(path)))
    ensures |m.log| < |r.0.log| && r.0.log[..|m.log|] == m.log && r.0.log[|m.log|] == FetchIn(path)
  {
    var cmd := FetchCommand(path);
    var e := ExecStep(m.(log := m.log + [FetchIn(path)]), run, cmd);
    if !e.1.success then (e.0.(log := e.0.log + [RepoOutput(repo.fullName, e.1.output)]), Err(CommandFailed(cmd)))
    else
      var g := GcStep(e.0, run, path);
      assert g.0.log[..|m.log|] == g.0.log[..|e.0.log|][..|m.log|];
      g
  }

  /** `process`: create the organisation directory, then clone when the
      mirror directory does not exist and fetch otherwise. */
  function ProcessStep(m: Machine, run: Runner, repo: Repo): (r: (Machine, Outcome))
    ensures |m.issued| <= |r.0.issued| <= |m.issued| + 2 && r.0.issued[..|m.issued|] == m.issued
    ensures |m.log| <= |r.0.log| && r.0.log[..|m.log|] == m.log
    ensures r.1 == Err(MkdirFailed(Dir(repo.fullName))) <==> Dir(repo.fullName) in m.fs.mkdirFails
  {
    var org := Dir(repo.fullName);
    var mk := MkdirStep(m, org);
    if !mk.1 then (mk.0, Err(MkdirFailed(org)))
    else
      var path := LocalPath(repo.fullName);
      if StatOf(mk.0.fs, path) == NotExist then CloneStep(mk.0, run, repo, path)
      else FetchStep(mk.0, run, repo, path)
  }

  /** One iteration of `worker`: process the repository and log its error,
      if any, under its full name. */
  function WorkerStep(m: Machine, run: Runner, repo: Repo): (r: Machine)
    ensures var p := ProcessStep(m, run, repo);
      && r.fs == p.0.fs && r.issued == p.0.issued
      && |p.0.log| <= |r.log| <= |p.0.log| + 1 && r.log[..|p.0.log|] == p.0.log
      && (p.1.Err? <==> |r.log| == |p.0.log| + 1)
      && (p.1.Err? ==> r.log[|r.log| - 1] == RepoFailed(repo.fullName, p.1.error))
  {
    var p := ProcessStep(m, run, repo);
    if p.1.Err? then p.0.(log := p.0.log + [RepoFailed(repo.fullName, p.1.error)]) else p.0
  }

  /** `worker` over a whole queue: every repository, in queue order.
      Draining only adds: paths keep existing, the fixed failure sets stay,
      and the issued commands and the log only grow. */
  function Drain(m: Machine, run: Runner, refs: seq<Repo>): (r: Machine)
    ensures m.fs.existing <= r.fs.existing
    ensures r.fs.statFails == m.fs.statFails && r.fs.mkdirFails == m.fs.mkdirFails
    ensures |m.issued| <= |r.issued| && r.issued[..|m.issued|] == m.issued
    ensures |m.log| <= |r.log| && r.log[..|m.log|] == m.log
    decreases |refs|
  {
    if refs == [] then m
    else
      var w := WorkerStep(m, run, refs[0]);
      ProcessFootprint(m, run, refs[0]);
      var d := Drain(w, run, refs[1..]);
      assert d.issued[..|m.issued|] == d.issued[..|w.issued|][..|m.issued|];
      assert w.log[..|m.log|] == w.log[..|ProcessStep(m, run, refs[0]).0.log|][..|m.log|];
      assert d.log[..|m.log|] == d.log[..|w.log|][..|m.log|];
      d
  }

  /** The decision chain of `process`, as the commands it issues and the
      error it returns: a failed mkdir issues nothing; a missing mirror
      directory (and only that stat answer) issues exactly the clone and
      returns its result; otherwise fetch runs, and gc runs only after a
      fetch that succeeded, whose result it then returns. */
  lemma ProcessRouting(m: Machine, run: Runner, repo: Repo)
    ensures var p := ProcessStep(m, run, repo);
      var org := Dir(repo.fullName);
      var path := LocalPath(repo.fullName);
      var clone := CloneCommand(repo.cloneURL, path);
      var fetch := FetchCommand(path);
      var gc := GcCommand(path);
      if org in m.fs.mkdirFails then
        p.0 == m && p.1 == Err(MkdirFailed(org))
      else if StatOf(m.fs.(existing := m.fs.existing + {org}), path) == NotExist then
        && p.0.issued == m.issued + [clone]
        && p.1 == (if run(clone).success then Ok else Err(CommandFailed(clone)))
      else if !run(fetch).success then
        && p.0.issued == m.issued + [fetch]
        && p.1 == Err(CommandFailed(fetch))
      else
        && p.0.issued == m.issued + [fetch, gc]
        && p.1 == (if run(gc).success then Ok else Err(CommandFailed(gc)))
  {
  }

  /** `process` succeeds exactly when the directory was created and every
      command it issued succeeded; it stops at the first failure, and the
      failure it returns names the last command issued. */
  lemma ProcessStopsAtFirstFailure(m: Machine, run: Runner, repo: Repo)
    ensures var p := ProcessStep(m, run, repo);
      && |m.issued| <= |p.0.issued|
      && p.0.issued[..|m.issued|] == m.issued
      && var added := p.0.issued[|m.issued|..];
      && (forall i :: 0 <= i < |added| - 1 ==> run(added[i]).success)
      && (p.1 == Ok <==> Dir(repo.fullName) !in m.fs.mkdirFails && forall c :: c in added ==> run(c).success)
      && (p.1.Err? && p.1.error.CommandFailed? ==>
            added != [] && p.1.error.cmd == added[|added| - 1] && !run(p.1.error.cmd).success)
      && (p.1.Err? && p.1.error.MkdirFailed? ==> added == [] && p.1.error.dir == Dir(repo.fullName))
  {
    ProcessRouting(m, run, repo);
    var p := ProcessStep(m, run, repo);
    var path := LocalPath(repo.fullName);
    var added := p.0.issued[|m.issued|..];
    if Dir(repo.fullName) in m.fs.mkdirFails {
      assert added == [];
    } else if StatOf(m.fs.(existing := m.fs.existing + {Dir(repo.fullName)}), path) == NotExist {
      assert added == [CloneCommand(repo.cloneURL, path)];
    } else if !run(FetchCommand(path)).success {
      assert added == [FetchCommand(path)];
    } else {
      assert added == [FetchCommand(path), GcCommand(path)];
    }
  }

  /** Every command `process` issues is one of the repository's own three;
      clone never comes with fetch or gc; gc only follows a successful
      fetch; gc alone carries the overrides, and no command is a
      `git config` invocation (the subcommand is the first argument). */
  lemma ProcessCommandsOfRepo(m: Machine, run: Runner, repo: Repo)
    ensures var p := ProcessStep(m, run, repo);
      var path := LocalPath(repo.fullName);
      var clone := CloneCommand(repo.cloneURL, path);
      var fetch := FetchCommand(path);
      var gc := GcCommand(path);
      && |m.issued| <= |p.0.issued|
      && var added := p.0.issued[|m.issued|..];
      && (forall c :: c in added ==> c == clone || c == fetch || c == gc)
      && (clone in added ==> added == [clone])
      && (gc in added ==> added == [fetch, gc] && run(fetch).success)
      && (forall c :: c in added ==> (c.env != [] <==> c == gc))
      && (forall c :: c in added ==> c.args[0] != "config")
  {
    ProcessStopsAtFirstFailure(m, run, repo);
    ProcessRouting(m, run, repo);
    var p := ProcessStep(m, run, repo);
    var path := LocalPath(repo.fullName);
    var added := p.0.issued[|m.issued|..];
    if Dir(repo.fullName) in m.fs.mkdirFails {
      assert added == [];
    } else if StatOf(m.fs.(existing := m.fs.existing + {Dir(repo.fullName)}), path) == NotExist {
      assert added == [CloneCommand(repo.cloneURL, path)];
    } else if !run(FetchCommand(path)).success {
      assert added == [FetchCommand(path)];
    } else {
      assert added == [FetchCommand(path), GcCommand(path)];
    }
  }

  /** What `process` may change on disk: at most the organisation directory
      and the mirror directory come into existence, nothing disappears, and
      a successful clone leaves the mirror present. The log only grows. */
  lemma ProcessFootprint(m: Machine, run: Runner, repo: Repo)
    ensures var p := ProcessStep(m, run, repo);
      var org := Dir(repo.fullName);
      var path := LocalPath(repo.fullName);
      && m.fs.existing <= p.0.fs.existing <= m.fs.existing + {org, path}
      && p.0.fs.statFails == m.fs.statFails
      && p.0.fs.mkdirFails == m.fs.mkdirFails
      && |m.log| <= |p.0.log| && p.0.log[..|m.log|] == m.log
      && (org !in m.fs.mkdirFails && path !in m.fs.statFails && run(CloneCommand(repo.cloneURL, path)).success
          ==> path in p.0.fs.existing)
  {
  }

  /** A failed command's output reaches the log: under the repository's
      full name for clone and fetch, under the mirror path for gc. */
  lemma FailedOutputLogged(m: Machine, run: Runner, repo: Repo)
    requires ProcessStep(m, run, repo).1.Err?
    requires ProcessStep(m, run, repo).1.error.CommandFailed?
    ensures var p := ProcessStep(m, run, repo);
      var c := p.1.error.cmd;
      var path := LocalPath(repo.fullName);
      && p.0.log != []
      && p.0.log[|p.0.log| - 1] ==
           (if c == GcCommand(path) then GcOutput(path, run(c).output)
            else RepoOutput(repo.fullName, run(c).output))
  {
  }

  /** Draining a queue in two parts is draining it whole. */
  lemma {:induction false} DrainConcat(m: Machine, run: Runner, a: seq<Repo>, b: seq<Repo>)
    ensures Drain(m, run, a + b) == Drain(Drain(m, run, a), run, b)
    decreases |a|
  {
    if a == [] {
      assert a + b == b;
    } else {
      assert (a + b)[0] == a[0];
      assert (a + b)[1..] == a[1..] + b;
      DrainConcat(WorkerStep(m, run, a[0]), run, a[1..], b);
    }
  }

  /** The worker never drops a repository or stops early: a repository whose
      processing fails gets its error logged under its full name, and the
      rest of the queue is processed from the state it left. */
  lemma WorkerLogsFailureAndContinues(m: Machine, run: Runner, refs: seq<Repo>, i: nat)
    requires i < |refs|
    ensures var before := Drain(m, run, refs[..i]);
      var p := ProcessStep(before, run, refs[i]);
      && Drain(m, run, refs) == Drain(WorkerStep(before, run, refs[i]), run, refs[i + 1..])
      && (p.1.Err? ==> RepoFailed(refs[i].fullName, p.1.error) in Drain(m, run, refs).log)
  {
    assert refs == refs[..i] + ([refs[i]] + refs[i + 1..]);
    DrainConcat(m, run, refs[..i], [refs[i]] + refs[i + 1..]);
    var before := Drain(m, run, refs[..i]);
    var w := WorkerStep(before, run, refs[i]);
    assert Drain(before, run, [refs[i]] + refs[i + 1..]) == Drain(w, run, refs[i + 1..]) by {
      assert ([refs[i]] + refs[i + 1..])[1..] == refs[i + 1..];
    }
    var p := ProcessStep(before, run, refs[i]);
    if p.1.Err? {
      assert w.log[|w.log| - 1] == RepoFailed(refs[i].fullName, p.1.error);
      var final := Drain(w, run, refs[i + 1..]);
      assert final.log[|w.log| - 1] == w.log[|w.log| - 1];
    }
  }

  /** The repository can be mirrored by a clone: its organisation directory
      can be made, its mirror path can be inspected, and cloning it works. */
  ghost predicate Clonable(fs: FileSystem, run: Runner, r: Repo)
  {
    && Dir(r.fullName) !in fs.mkdirFails
    && LocalPath(r.fullName) !in fs.statFails
    && run(CloneCommand(r.cloneURL, LocalPath(r.fullName))).success
  }

  /** Failure isolation: after the worker drains the queue, every clonable
      repository of it has its mirror present, whatever happened to the
      others. */
  lemma {:induction false} MirrorPresentAfterDrain(m: Machine, run: Runner, refs: seq<Repo>)
    ensures forall r :: r in refs && Clonable(m.fs, run, r) ==>
      LocalPath(r.fullName) in Drain(m, run, refs).fs.existing
    decreases |refs|
  {
    if refs != [] {
      var w := WorkerStep(m, run, refs[0]);
      ProcessFootprint(m, run, refs[0]);
      MirrorPresentAfterDrain(w, run, refs[1..]);
      forall r | r in refs && Clonable(m.fs, run, r)
        ensures LocalPath(r.fullName) in Drain(m, run, refs).fs.existing
      {
        if r != refs[0] {
          assert r in refs[1..];
        }
      }
    }
  }

  /** Re-running: once the worker has drained a queue, a second pass over
      the same queue sends every clonable repository down the fetch path -
      its first command is the fetch and no clone is issued for it. */
  lemma SecondPassFetches(m: Machine, run: Runner, refs: seq<Repo>, i: nat)
    requires i < |refs|
    requires Clonable(m.fs, run, refs[i])
    ensures var first := Drain(m, run, refs);
      var before := Drain(first, run, refs[..i]);
      var p := ProcessStep(before, run, refs[i]);
      var path := LocalPath(refs[i].fullName);
      && |before.issued| < |p.0.issued|
      && p.0.issued[|before.issued|] == FetchCommand(path)
      && CloneCommand(refs[i].cloneURL, path) !in p.0.issued[|before.issued|..]
  {
    var first := Drain(m, run, refs);
    MirrorPresentAfterDrain(m, run, refs);
    var before := Drain(first, run, refs[..i]);
    ProcessRouting(before, run, refs[i]);
    ProcessCommandsOfRepo(before, run, refs[i]);
  }

    /** A repository whose mirror does not exist yet, with git succeeding, is
      cloned and nothing else: one clone command, and the organisation and
      mirror directories now exist. */
  lemma FreshRepositoryIsCloned(m: Machine, run: Runner, r: Repo)
    requires Dir(r.fullName) !in m.fs.mkdirFails
    requires LocalPath(r.fullName) !in m.fs.existing && LocalPath(r.fullName) !in m.fs.statFails
    requires LocalPath(r.fullName) != Dir(r.fullName)
    requires run(CloneCommand(r.cloneURL, LocalPath(r.fullName))).success
    ensures var w := WorkerStep(m, run, r);
      && w.issued == m.issued + [CloneCommand(r.cloneURL, LocalPath(r.fullName))]
      && w.fs == m.fs.(existing := m.fs.existing + {Dir(r.fullName), LocalPath(r.fullName)})
  {
    var mk := MkdirStep(m, Dir(r.fullName));
    assert StatOf(mk.0.fs, LocalPath(r.fullName)) == NotExist;
    assert ProcessStep(m, run, r) == CloneStep(mk.0, run, r, LocalPath(r.fullName));
  }

/** Two repositories, no mirrors yet, every command succeeds: the worker
      issues exactly their two clones, in queue order, and both mirrors end
      up present. */
  lemma TwoFreshRepositoriesAreCloned(urlOne: string, urlTwo: string)
    ensures var d := Drain(Machine(FileSystem({}, {}, {}), [], []), c => CmdResult(true, ""),
                           [Repo("a/one", urlOne), Repo("b/two", urlTwo)]);
      && d.issued == [CloneCommand(urlOne, "a/one.git"), CloneCommand(urlTwo, "b/two.git")]
      && d.fs.existing == {"a", "a/one.git", "b", "b/two.git"}
  {
    var run: Runner := c => CmdResult(true, "");
    var one := Repo("a/one", urlOne);
    var two := Repo("b/two", urlTwo);
    assert LastSlash("a/one") == 1 by {
      var s := "a/one";
      assert s[1] == '/' && forall k :: 1 < k < |s| ==> s[k] != '/';
    }
    assert LastSlash("b/two") == 1 by {
      var s := "b/two";
      assert s[1] == '/' && forall k :: 1 < k < |s| ==> s[k] != '/';
    }
    assert Dir("a/one") == "a" && Dir("b/two") == "b";
    assert LocalPath("a/one") == "a/one.git" && LocalPath("b/two") == "b/two.git";
    var m0 := Machine(FileSystem({}, {}, {}), [], []);
    FreshRepositoryIsCloned(m0, run, one);
    var m1 := WorkerStep(m0, run, one);
    assert "a/one.git" != "a" && "b/two.git" != "b";
    assert "b/two.git" !in m1.fs.existing;
    FreshRepositoryIsCloned(m1, run, two);
    var m2 := WorkerStep(m1, run, two);
    assert Drain(m0, run, [one, two]) == Drain(m1, run, [two]);
    assert Drain(m1, run, [two]) == Drain(m2, run, []);
  }
}
