# clonehub2 mirror core, modelled in Dafny

clonehub2 mirrors every GitHub repository a token can see. It walks the
paginated repository listing and queues each repository. A pool of workers
takes repositories off the queue. For each one a worker creates the
organisation directory, then either makes a bare mirror clone (when
`<owner>/<repo>.git` does not exist yet) or updates the existing mirror with
`git remote update -p` followed by a forced, foreground `git gc`. A failed
repository is logged and skipped. Within the pipeline, a listing error is
the only fatal error.

This project models that decision logic and proves properties of it:

- `github.dfy` (module `GitHub`): a repository reference (full name, clone
  URL). The listing API is a function from page number to either an error
  or a page of repositories with the server-reported next page.
- `paths.dfy` (module `Paths`): the organisation directory (`path.Dir` of
  the full name) and the mirror directory (the full name plus `.git`).
- `lister.dfy` (module `Lister`): `listRepos`. `ListFrom` is a
  specification function of the walk: the pages requested, the
  repositories emitted and how the walk ended. `ListRepos` is the loop,
  proved equal to it. Lemmas characterise the walk independently
  (`IsPageWalk`), both ways, and state what is emitted.
- `mirror.dfy` (module `Mirror`): `process`, `clone`, `fetch`, `gc` and
  `worker` as step functions. They act on a `Machine`: the filesystem, the
  ordered list of git commands issued (each with its arguments, working
  directory and extra environment) and the log. The filesystem is the set
  of existing paths, plus the paths whose `os.Stat` fails with an error
  other than "does not exist", plus the directories `os.MkdirAll` cannot
  create. git is an oracle `Runner` from a command to success or failure
  with output. Lemmas state the routing, where processing stops on
  failure, isolation between repositories, and what a second pass does.
- `runtime.dfy` (module `Runtime`): class `Host`, whose fields `fs`,
  `issued` and `log` are what the Go functions change. It has one method
  per Go function (`MkdirAll`, `Stat`, `Exec`, `Clone`, `Fetch`, `Gc`,
  `Process`, `Worker`), each proved to produce exactly the state and
  result of its step function. `MirrorAll` is the sequential form of
  `main`'s wiring: list, then drain the queue.

Two consequences of the code shape the model:

- `clone`, `fetch` and `gc` return the failing command's own error. The
  model therefore has one `CommandFailed(cmd)`, which names the command
  that failed.
- `log.Fatal` in the lister can run while workers are already processing
  repositories from earlier pages. The channel holds 2·workers references
  and each worker holds one more, so once more than 3·workers (24)
  references have been queued, some `process` calls must already have
  returned. `MirrorAll` therefore lets a scheduler parameter choose how
  many of the queued references were finished before the exit, never fewer
  than the queue forces. An error before any repository has been queued
  (on the first page, or after pages that were all empty) guarantees that
  nothing is processed.

## Model

| member | source | states |
|---|---|---|
| Paths.Dir | main.go:99 | the organisation directory is never empty, and is ".", "/" or a proper prefix of the name that ends just before a '/' |
| Paths.LocalPath | main.go:104 | the mirror directory is the full name followed by exactly ".git" |
| Paths.LastSlash | main.go:99 | the index returned holds a '/' and no later character is '/', or it is -1 |
| Paths.DirWithoutSlash | main.go:99 | a full name without '/' has organisation directory "." |
| Paths.DirSplitsAtLastSlash | main.go:98-104 | the organisation directory is exactly the prefix before the last '/', and the mirror directory lies inside it |
| Paths.LocalPathInjective | main.go:104 | distinct full names give distinct mirror directories |
| Paths.ResolveAcmeWidgets | main.go:98-104 | "acme/widgets" resolves to directory "acme" and mirror "acme/widgets.git" |
| Lister.ListFrom | main.go:80-95 | the walk requests at least one page, and its first request is for the cursor it starts from |
| Lister.Send | main.go:87-89 | the queue afterwards is the queue before followed by the page's repositories, all of them, in order |
| Lister.ListRepos | main.go:80-95 | the loop requests the pages, emits the repositories and ends as the specification walk does, starting from page 0 |
| Lister.ListingIsPageWalk | main.go:82-94 | each page but the last reported a larger next page, which is the next one requested; the last page failed or did not advance; the output is the concatenation of the visited pages' items in order; the walk is fatal exactly when the last page failed, keeping its message |
| Lister.PageWalkIsListing | main.go:90-93 | any sequence of pages that follows the next-page rule and stops by the guard is the listing's |
| Lister.PageWalkIncreases | main.go:90-93 | the page cursor strictly increases along the walk |
| Lister.FatalEmitsOnlyEarlierPages | main.go:83-89 | after a listing error, exactly the items of earlier pages have been emitted; an error on the first page emits nothing |
| Lister.StopsWhenNextPageDoesNotAdvance | main.go:90-92 | when page 3 reports next page 3, listing stops after page 3 even though page 5 exists |
| Mirror.CloneCommand | main.go:113 | the clone is `git clone --mirror`, then the clone URL, then the destination path; run in the working directory, nothing added to the environment |
| Mirror.FetchCommand | main.go:123-124 | the fetch is `git remote update -p`, run inside the mirror, nothing added to the environment |
| Mirror.GcCommand | main.go:134-140 | gc is `git gc --force`, run inside the mirror, with the environment extended by the three gc.autoDetach=false overrides |
| Mirror.CommandsIdentifyRepository | main.go:113-140 | clone commands with equal arguments have the same URL and path, fetch and gc commands name their mirror, and the three kinds never coincide |
| Mirror.StatOf | main.go:105 | a path counts as missing exactly when it does not exist and stat does not fail on it for another reason; an existing result means the path exists |
| Mirror.MkdirStep | main.go:100 | succeeds exactly when the directory can be created, and then adds exactly it; a failure changes nothing; commands and log are untouched |
| Mirror.ExecStep | main.go:114 | appends the command to the issued ones and returns git's answer; filesystem and log untouched |
| Mirror.CloneStep | main.go:111-119 | issues exactly `git clone --mirror <url> <path>`; succeeds exactly when git does, then the path exists; a failure names the clone; only the path can appear; the log starts with "Clone into" |
| Mirror.GcStep | main.go:133-146 | issues exactly `git gc --force` in the path; changes no file existence; succeeds exactly when git does, and a failure names the gc |
| Mirror.FetchStep | main.go:121-131 | issues the fetch and then, only if the fetch succeeded, the gc; succeeds exactly when both do; a failed fetch is the returned error; the log starts with "Fetch in" |
| Mirror.ProcessStep | main.go:97-109 | appends at most two commands and only appends to the log; the mkdir error is returned exactly when the organisation directory cannot be created |
| Mirror.WorkerStep | main.go:73-76 | the worker's step changes the filesystem and commands as `process` does, and adds one log line, under the full name, exactly when `process` failed |
| Mirror.Drain | main.go:72-78 | draining a queue never removes paths, keeps both failure sets, and only appends commands and log lines |
| Mirror.ProcessRouting | main.go:97-130 | a failed mkdir changes nothing; a missing mirror (only "does not exist") issues exactly the clone and returns its result; otherwise fetch runs, fails alone, or is followed by gc whose result is returned |
| Mirror.ProcessStopsAtFirstFailure | main.go:97-145 | process succeeds if and only if mkdir worked and every command it issued succeeded; every command but the last succeeded; a returned command failure names the last command issued |
| Mirror.ProcessCommandsOfRepo | main.go:113-140 | only the repository's own clone, fetch and gc commands are issued; clone alone; gc only after a successful fetch; only gc carries added environment; no command is a `git config` invocation |
| Mirror.ProcessFootprint | main.go:100-118 | at most the organisation and mirror directories come into existence; nothing is removed; the log only grows; a clonable repository ends with its mirror present |
| Mirror.FailedOutputLogged | main.go:114-144 | a failed command's output is logged under the full name (clone, fetch) or under the path (gc) |
| Mirror.DrainConcat | main.go:72-78 | draining a queue in two parts is the same as draining it whole |
| Mirror.WorkerLogsFailureAndContinues | main.go:72-78 | an error of one repository is logged under its full name, and the rest of the queue is still processed |
| Mirror.MirrorPresentAfterDrain | main.go:72-118 | every clonable repository in the queue has its mirror present after the drain, whatever the others did |
| Mirror.SecondPassFetches | main.go:105-108 | on a second pass over the same queue, each clonable repository first issues a fetch and never a clone |
| Mirror.FreshRepositoryIsCloned | main.go:97-118 | a repository whose mirror is missing and whose clone succeeds issues exactly its clone and adds exactly its organisation and mirror directories |
| Mirror.TwoFreshRepositoriesAreCloned | main.go:72-118 | "a/one" and "b/two" with no mirrors and a working git give exactly two clones, in order, and both mirrors present |
| Runtime.Host.MkdirAll | main.go:100 | fails without effect on an uncreatable directory, else the directory exists afterwards |
| Runtime.Host.Stat | main.go:105 | reports "does not exist" exactly for a path that neither exists nor fails to stat |
| Runtime.Host.Exec | main.go:113-114 | the command is appended to the issued commands and git's answer returned |
| Runtime.Host.Clone | main.go:111-119 | logs, issues `git clone --mirror <url> <path>`, and either makes the path exist or logs the output and fails |
| Runtime.Host.Fetch | main.go:121-131 | logs, issues `git remote update -p` in the path, and on failure logs and returns it, else runs gc |
| Runtime.Host.Gc | main.go:133-146 | issues `git gc --force` in the path with the three overrides, logging output on failure |
| Runtime.Host.Process | main.go:97-109 | mkdir, stat, then clone or fetch, with the state and result of the specification |
| Runtime.Host.Worker | main.go:72-78 | processes every queued repository in order and logs every error, as the drain specification |
| Runtime.FinishedBeforeExit | main.go:37-49 | the number of queued repositories finished before a fatal exit is at most the number queued and at least that minus 3·workers, and is the scheduler's choice within those limits |
| Runtime.Host.MirrorAll | main.go:37-52 | returns the listing's outcome; the state is the listed queue drained, or after a fatal listing the finished prefix drained |
| Runtime.RunFrom | main.go:37-52 | a run never removes paths and only appends commands |
| Runtime.RunProcessesListedItems | main.go:37-52 | a completed run drains exactly the concatenated items of the visited pages; a failed run drains a prefix of the earlier pages' items, missing at most 3·workers of them; nothing is processed when nothing was queued before the error, in particular after a first-page error |
| Runtime.EmptyPageThenErrorProcessesNothing | main.go:83-89 | an empty first page followed by a failing page ends fatally and leaves the state unchanged for every scheduler choice |

## Left out

- Lister.ListRepos: requires that the walk from page 0 stops within some number of requests, passed as a ghost argument that only the loop's termination proof uses. The Go loop has no such limit, and a server on which it never stops (a next page that keeps growing forever) is not modelled.
- Runtime.Host.MirrorAll: after a fatal listing error, the repositories finished before the exit are a prefix of the queue, processed in order. With eight workers the finished ones need not be a prefix. A `process` call still running when `log.Fatal` exits is cut off part-way, and the model does not represent that partial effect.
- Runtime.RunProcessesListedItems: states the fatal case for the same prefix schedule as `Runtime.Host.MirrorAll`, with the same two gaps.
- Goroutines, the channel of capacity `2*workers`, the eight workers and the `sync.WaitGroup` join (main.go:37-52) are concurrency. The pool is one sequential worker loop over the emitted sequence.
- The GitHub client and oauth2 token setup (main.go:29-35) are foreign library calls. They are replaced by the `Server` function.
- `setGitCredential` (main.go:55-70), flag parsing and reading `GITHUB_TOKEN` are one-time side effects and I/O with no decision logic.
- Subprocess execution and real git behaviour are external. Each command is an oracle result, so the same command always gets the same answer.
- A failed clone leaves the filesystem unchanged. The model does not represent a half-written mirror directory, so it does not model that such a directory later routes to fetch.
- `path.Dir` is modelled as the prefix before the last '/' ("." with no '/', "/" for a leading one). `path.Clean`'s normalisation of repeated slashes and of "." and ".." elements is not modelled.
- `os.MkdirAll` is modelled only for the directory requested. Its parent directories and the permission bits 0o755 are not modelled.
- The inherited environment `os.Environ()` is not modelled. A command's `env` holds only the variables added to it.
- Log lines are kept as structured values, not formatted text. The process exit done by `log.Fatal` is modelled as the `Fatal` listing outcome.
- nil-safe accessors (`GetFullName`, `GetCloneURL` returning "" for a nil pointer) are not modelled. A reference always has both fields.
