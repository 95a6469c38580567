/** The machine the mirror runs on, as an object whose fields the Go code's
    side effects update: the filesystem, the git commands issued and the log.
    Each method is the Go function of the same name and is proved to do what
    the corresponding step function of Mirror says. */
module Runtime {
  import opened GitHub
  import opened Paths
  import opened Lister
  import opened Mirror

  /** The number of workers draining the queue. */
  const Workers := 8

  /** How many listed repositories can be waiting in the channel (capacity
      2*workers) or held by a worker whose `process` has not returned: the
      lister cannot send more than this ahead of the finished ones. */
  const InFlight := 2 * Workers + Workers

  /** How many of the `queued` repositories the workers had finished when a
      fatal listing error ended the process. Which number it is depends on
      the scheduler, given here as `finished`; the bounded channel rules out
      fewer than `queued - InFlight`. */
  function FinishedBeforeExit(finished: nat, queued: nat): (k: nat)
    ensures k <= queued
    ensures queued <= k + InFlight
    ensures queued - InFlight <= finished <= queued ==> k == finished
  {
    if finished > queued then queued
    else if finished + InFlight < queued then queued - InFlight
    else finished
  }

  class Host {
    /** git: what each command would return. */
    const run: Runner
    var fs: FileSystem
    var issued: seq<Command>
    var log: seq<LogLine>

    function State(): Machine
      reads this
    {
      Machine(fs, issued, log)
    }

    constructor (run: Runner, fs: FileSystem)
      ensures this.run == run
      ensures State() == Machine(fs, [], [])
    {
      this.run := run;
      this.fs := fs;
      issued := [];
      log := [];
    }

    method MkdirAll(dir: string) returns (ok: bool)
      modifies this
      ensures (State(), ok) == MkdirStep(old(State()), dir)
    {
      ok := dir !in fs.mkdirFails;
      if ok {
        fs := fs.(existing := fs.existing + {dir});
      }
    }

    method Stat(path: string) returns (s: StatResult)
      ensures s == StatOf(fs, path)
      ensures s == NotExist <==> path !in fs.existing && path !in fs.statFails
    {
      if path in fs.statFails {
        s := StatError;
      } else if path in fs.existing {
        s := Exists;
      } else {
        s := NotExist;
      }
    }

    /** Runs one command and waits for its combined output. */
    method Exec(cmd: Command) returns (res: CmdResult)
      modifies this
      ensures (State(), res) == ExecStep(old(State()), run, cmd)
    {
      issued := issued + [cmd];
      res := run(cmd);
    }

    method Clone(repo: Repo, path: string) returns (out: Outcome)
      modifies this
      ensures (State(), out) == CloneStep(old(State()), run, repo, path)
    {
      log := log + [CloneInto(path)];
      var cmd := CloneCommand(repo.cloneURL, path);
      var res := Exec(cmd);
      if res.success {
        // a successful `git clone --mirror` creates the mirror directory
        fs := fs.(existing := fs.existing + {path});
        out := Ok;
      } else {
        log := log + [RepoOutput(repo.fullName, res.output)];
        out := Err(CommandFailed(cmd));
      }
    }

    method Fetch(repo: Repo, path: string) returns (out: Outcome)
      modifies this
      ensures (State(), out) == FetchStep(old(State()), run, repo, path)
    {
      log := log + [FetchIn(path)];
      var cmd := FetchCommand(path);
      var res := Exec(cmd);
      if !res.success {
        log := log + [RepoOutput(repo.fullName, res.output)];
        out := Err(CommandFailed(cmd));
        return;
      }
      out := Gc(path);
    }

    method Gc(path: string) returns (out: Outcome)
      modifies this
      ensures (State(), out) == GcStep(old(State()), run, path)
    {
      var cmd := GcCommand(path);
      var res := Exec(cmd);
      if res.success {
        out := Ok;
      } else {
        log := log + [GcOutput(path, res.output)];
        out := Err(CommandFailed(cmd));
      }
    }

    method Process(repo: Repo) returns (out: Outcome)
      modifies this
      ensures (State(), out) == ProcessStep(old(State()), run, repo)
    {
      var name := repo.fullName;
      var org := Dir(name);
      var ok := MkdirAll(org);
      if !ok {
        return Err(MkdirFailed(org));
      }
      var path := LocalPath(name);
      var st := Stat(path);
      if st == NotExist {
        out := Clone(repo, path);
        return;
      }
      out := Fetch(repo, path);
    }

    /** The worker loop, on the queue as a sequence: process each repository
        in order; an error is logged and the loop goes on. */
    method Worker(refs: seq<Repo>)
      modifies this
      ensures State() == Drain(old(State()), run, refs)
    {
      for i := 0 to |refs|
        invariant Drain(State(), run, refs[i..]) == Drain(old(State()), run, refs)
      {
        assert refs[i..][1..] == refs[i + 1..];
        var out := Process(refs[i]);
        if out.Err? {
          log := log + [RepoFailed(refs[i].fullName, out.error)];
        }
      }
    }

    /** The whole run, sequentially: list every repository, then let the
        worker process the queue. When the listing fails, the process exits
        once the workers have finished the first `FinishedBeforeExit` queued
        repositories; `finished` is the scheduler's choice. */
    method MirrorAll(server: Server, ghost fuel: nat, finished: nat) returns (outcome: ListOutcome)
      requires Terminates(server, 0, fuel)
      modifies this
      ensures outcome == ListFrom(server, 0, fuel).outcome
      ensures State() == RunFrom(old(State()), run, server, fuel, finished)
    {
      var requested, emitted;
      requested, emitted, outcome := ListRepos(server, fuel);
      if outcome.Fatal? {
        Worker(emitted[..FinishedBeforeExit(finished, |emitted|)]);
        return;
      }
      Worker(emitted);
    }
  }

  /** The state a run leaves behind: the whole listing drained, or, after a
      fatal listing error, the repositories finished before the exit. */
  function RunFrom(m: Machine, run: Runner, server: Server, fuel: nat, finished: nat): (r: Machine)
    requires Terminates(server, 0, fuel)
    ensures m.fs.existing <= r.fs.existing
    ensures |m.issued| <= |r.issued| && r.issued[..|m.issued|] == m.issued
  {
    var l := ListFrom(server, 0, fuel);
    if l.outcome.Fatal? then Drain(m, run, l.emitted[..FinishedBeforeExit(finished, |l.emitted|)])
    else Drain(m, run, l.emitted)
  }

  /** A run whose listing completes processes exactly the items of the pages
      visited, in order. A run whose listing fails processes a prefix of the
      items of the pages before the failing one: all but at most InFlight of
      them, and none from the failing page on. An error on the first page
      means no repository is ever processed, and so does an error after
      pages that were all empty. */
  lemma RunProcessesListedItems(m: Machine, run: Runner, server: Server, fuel: nat, finished: nat)
    requires Terminates(server, 0, fuel)
    ensures var l := ListFrom(server, 0, fuel);
      && IsPageWalk(server, 0, l.pages)
      && (l.outcome.Complete? ==>
            RunFrom(m, run, server, fuel, finished) == Drain(m, run, ItemsOf(server, l.pages)))
      && (l.outcome.Fatal? ==>
            var queued := ItemsOf(server, l.pages[..|l.pages| - 1]);
            var k := FinishedBeforeExit(finished, |queued|);
            && |queued| <= k + InFlight
            && RunFrom(m, run, server, fuel, finished) == Drain(m, run, queued[..k])
            && (queued == [] ==> RunFrom(m, run, server, fuel, finished) == m))
      && (server(0).ListError? ==> l.outcome.Fatal? && RunFrom(m, run, server, fuel, finished) == m)
  {
    ListingIsPageWalk(server, 0, fuel);
    var l := ListFrom(server, 0, fuel);
    if l.outcome.Fatal? {
      FatalEmitsOnlyEarlierPages(server, 0, fuel);
    }
    if server(0).ListError? {
      assert l.emitted == [];
      assert l.emitted[..FinishedBeforeExit(finished, 0)] == [];
    }
    if l.outcome.Fatal? && ItemsOf(server, l.pages[..|l.pages| - 1]) == [] {
      assert l.emitted[..FinishedBeforeExit(finished, 0)] == [];
    }
  }

  /** Example: an empty first page pointing at a page that fails. Nothing was
      queued before the fatal error, so whatever the scheduler does the run
      processes nothing. */
  lemma EmptyPageThenErrorProcessesNothing(m: Machine, run: Runner, finished: nat)
    ensures var server: Server := p => if p == 0 then Listed([], 2) else ListError("boom");
      && Terminates(server, 0, 1)
      && ListFrom(server, 0, 1).outcome == Fatal("boom")
      && RunFrom(m, run, server, 1, finished) == m
  {
    var server: Server := p => if p == 0 then Listed([], 2) else ListError("boom");
    assert Terminates(server, 2, 0);
    RunProcessesListedItems(m, run, server, 1, finished);
    var l := ListFrom(server, 0, 1);
    assert l.pages == [0, 2];
    assert l.pages[..1] == [0];
    assert ItemsOf(server, [0]) == [] by {
      assert [0][1..] == [];
    }
  }
}
