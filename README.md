# Download task registry and worker, in Dafny

A model of the task-orchestration core of a small Go download service
(`internal/service/download.go`). A client submits a batch of URLs. The
service records the batch as a *task* in an in-memory registry keyed by a UUID.
A background worker then downloads the URLs one after another. It records
every URL whose download failed and keeps a cursor (`LastUrlIndex`), so that a
task saved while unfinished can be restarted when the process starts again.

The project has three modules:

- `Paths` (`paths.dfy`) is the name of the file a download is written to:
  `"files/" + "task_" + id + "_" + path.Base(url)`. `Base` follows the
  documented behaviour of Go's `path.Base`: the empty path gives `"."`,
  trailing slashes are ignored, and a path made only of slashes gives `"/"`.
- `TaskModel` (`task_model.dfy`) is the value-level view of the service. A
  task is a `TaskRecord`; the registry is a `map<string, TaskRecord>`. There
  are functions for the effect of each registry operation (`Insert`,
  `SetStatus`) and of one worker run (`Run`, built from the loop's `Walk`).
  `Attempted` gives the indices a run tries. `RestartIds` is the restart filter
  of `cmd/main.go`. The lemmas state what these promise.
- `Service` (`service.dfy`) is the imperative model. `Task` is a class whose
  `status`, `failed` and `lastUrlIndex` fields are updated in place.
  `LoadService` holds the `tasks: map<string, Task>` field. `CreateTask`,
  `UpdateTaskStatus`, `GetTask` and `StartTask` are methods. `CreateTask`,
  `UpdateTaskStatus` and `StartTask` are proved against the `TaskModel`
  functions through `Snapshot()`, the map from id to each stored task's
  current value. `GetTask` changes nothing, and its contract speaks of the
  `tasks` map directly. `Valid()` says that every task is stored
  under its own id. That is why updating one task never changes another entry.

The worker's outside world is passed in as two oracles:

- `fails: nat -> bool` says whether `DownloadFile` returns an error for the URL
  at index i.
- `cancel: Cancellation` says when the worker's context is first seen
  cancelled. `BeforeStart` means at the `select` before anything else.
  `BeforeIndex(j)` means from the check before index j onward.

`CreateTask` takes the freshly generated UUID as the parameter `freshId`.

Places where the code behaves otherwise than one might expect:

- The status strings are `"in_queue"`, `"started"` and `"completed"`, not
  queued/running/completed. `UpdateTaskStatus` accepts any string, and nothing
  enforces forward-only transitions (`SetStatusLastWins`).
- The worker sets `LastUrlIndex` to the index it *just processed*. A restarted
  worker therefore tries that index again. If the URL fails both times, it is
  recorded in `failed` twice (`ResumeReportsRetriedFailureTwice`), where one
  might expect each failing URL to be recorded once.
- Both callers of `StartTask` (the HTTP handler and the restart loop in
  `cmd/main.go`) pass `context.Background()`, which is never cancelled, so
  shutdown does not stop a worker through its context. A worker that runs to
  its end therefore completes (`RunWithoutCancellationCompletes`). But on
  shutdown `cmd/main.go` saves the snapshot (line 51) *before* it waits for
  the workers, and a worker still downloading when the 30-second wait runs
  out is ended by `logrus.Fatalf` (lines 60-61) before it reaches its final
  status update. The record saved for such a worker is unchanged when it
  had not yet begun (still `"in_queue"` for a task created in this process),
  and otherwise `"started"` with the failures so far and
  the cursor on the last index it processed. That is exactly
  `Run(t, BeforeStart, fails)` or `Run(t, BeforeIndex(j), fails)`, where j is
  the index being downloaded when the snapshot was taken. The `cancel` oracle
  therefore also stands for the point at which the saved snapshot catches the
  worker. This is why the restart filter (`CancelledRunIsRestarted`) and the
  resume lemmas (`ResumeAfterCancel`, `ResumeReportsRetriedFailureTwice`)
  describe what happens in this repository.
- The worker writes `LastUrlIndex` and `Failed` through the task pointer
  without taking the registry lock. Only the two status updates go through
  `UpdateTaskStatus`.

## Model

| member | source | states |
|---|---|---|
| `Paths.TrimTrailingSlashes` | internal/service/download.go:51 | the result is a prefix of the path that does not end in '/', and only slashes were removed |
| `Paths.AfterLastSlash` | internal/service/download.go:51 | the last element holds no '/' |
| `Paths.AfterLastSlashIsSuffix` | internal/service/download.go:51 | the last element is the end of the path, and the character before it is a '/' |
| `Paths.Base` | internal/service/download.go:51 | `path.Base` is never empty, is "." for the empty path, is "/" for a path of slashes only, and otherwise holds no '/' |
| `Paths.BaseOfElement` | internal/service/download.go:51 | a directory part, then an element, then trailing slashes: Base is that element |
| `Paths.OutputPath` | internal/service/download.go:51-52 | defines the file name `"files/" + "task_" + id + "_" + path.Base(url)`; the name extends "files/task_<id>_" and, for an id without '/' and a URL not made only of slashes, holds no further '/' (the file sits directly in "files/"); its value on each kind of URL is stated by `Paths.Base`, `Paths.BaseOfElement` and `Paths.OutputPathOfUrl` |
| `Paths.OutputPathOfUrl` | internal/service/download.go:51-52 | a URL ending in element `name` is written to "files/task_" + id + "_" + name |
| `Paths.DistinctTasksDistinctFiles` | internal/service/download.go:51-52 | two tasks with different ids (ids hold no '_', as UUID text does not) never write the same file, whatever their URLs |
| `Paths.SameTaskSameElementCollide` | internal/service/download.go:51-52 | within one task, two URLs with the same last element write the same file |
| `TaskModel.Insert` | internal/service/download.go:62-75 | defines the registry after `CreateTask`: the keys gain the id, the id maps to the new queued task, every other entry is unchanged; see `TaskModel.InsertStoresNewTask`, `TaskModel.InsertFreshGrowsByOne` |
| `TaskModel.InsertStoresNewTask` | internal/service/download.go:62-75 | after creation the id maps to a task with those URLs, status "in_queue", empty `failed` and cursor 0 |
| `TaskModel.InsertFreshGrowsByOne` | internal/service/download.go:66-73 | with a fresh id, creation adds exactly one key and leaves every stored entry unchanged |
| `TaskModel.SetStatus` | internal/service/download.go:77-84 | defines the registry after `UpdateTaskStatus`: same keys, only the status of the task under the id changes, to the given string; see the `TaskModel.SetStatus*` lemma rows |
| `TaskModel.SetStatusPresent` | internal/service/download.go:77-84 | on a present id only that task's status changes, and it becomes exactly the given string; other tasks and that task's other fields are unchanged |
| `TaskModel.SetStatusAbsent` | internal/service/download.go:81 | on an unknown id the registry is unchanged |
| `TaskModel.SetStatusIdempotent` | internal/service/download.go:77-84 | setting a status twice equals setting it once |
| `TaskModel.SetStatusLastWins` | internal/service/download.go:77-84 | any status may replace any other; the last update wins |
| `TaskModel.Stop` | internal/service/download.go:111-115 | the loop stops at the first index from the cursor at which cancellation is seen, or runs to the end; no earlier index sees it; a cursor at or past the end stops at once |
| `TaskModel.FailedIn` | internal/service/download.go:111-122 | defines what the loop appends to `failed` over a range of indices: nothing for an empty range, otherwise at most one URL per index, each taken from that range; pinned exactly by `TaskModel.FailedInAtFailingIndices` |
| `TaskModel.Walk` | internal/service/download.go:111-124 | defines the task after the download loop: id, URLs and status kept, `failed` only extended (by at most one entry per remaining URL), the cursor never moved back and, when it starts on a valid index, kept on one; proved equal to the loop by `Service.Task.DownloadUrls` |
| `TaskModel.Run` | internal/service/download.go:94-128 | defines the task after one worker run: id and URLs kept; untouched when cancellation is seen first; otherwise "started" or "completed", "started" when cancelled before an index still to be fetched, "completed" when not cancelled; see the `TaskModel.Run*` lemma rows |
| `TaskModel.Attempted` | internal/service/download.go:111-117 | defines the indices a run tries: all at or after the cursor and below the number of URLs, and every remaining one when not cancelled; see `TaskModel.RunProgress` |
| `TaskModel.RunIn` | internal/service/download.go:94-128 | defines the registry after `StartTask`: same keys, every other task unchanged, the task under the id keeps its id and URLs and becomes `Run` of its old value |
| `TaskModel.FailingIndices` | internal/service/download.go:119-121 | the failing indices of a range, strictly increasing, exactly those in the range whose download errs |
| `TaskModel.FailedInAtFailingIndices` | internal/service/download.go:111-122 | what the loop appends to `failed` is the URL at each failing index, in index order, and nothing else |
| `TaskModel.FailedInNone` | internal/service/download.go:119-121 | no failing download in the range: nothing is appended |
| `TaskModel.FailedInAll` | internal/service/download.go:119-121 | every download in the range fails: exactly those URLs are appended, in order |
| `TaskModel.FailedInSplit` | internal/service/download.go:111-122 | walking a range in two consecutive parts appends the same as walking it at once |
| `TaskModel.RunWithoutCancellation` | internal/service/download.go:103-125 | uncancelled, from cursor k < n: the failing URLs of k..n-1 are appended, the cursor ends at n-1, status "completed", indices k..n-1 attempted |
| `TaskModel.RunWithoutCancellationCompletes` | internal/service/download.go:111-125 | an uncancelled run always ends "completed", even if every download failed |
| `TaskModel.AllSucceedNoFailures` | internal/service/download.go:111-125 | if every download succeeds, `failed` is unchanged and the task completes |
| `TaskModel.AllFailStillCompletes` | internal/service/download.go:111-125 | if every download fails, a run from 0 appends all URLs in order and still completes |
| `TaskModel.RunCancelled` | internal/service/download.go:111-118 | cancellation seen before index j: only k..j-1 are attempted, only their failures are appended, the cursor is j-1 (or stays k), status stays "started" |
| `TaskModel.RunNoUrlsLeft` | internal/service/download.go:103-125 | a run whose cursor is past the last URL (lastUrlIndex >= number of URLs; from the modelled operations, only a task with no URLs) attempts nothing and only sets the status to "completed" |
| `TaskModel.RunFromLastUrl` | internal/service/download.go:111-125 | a run whose cursor is on the last URL downloads that URL again, appends it to `failed` once more if it fails, and completes with the cursor unchanged; the cursor is there for a completed task with at least one URL (never restarted by `cmd/main.go`), for a task saved after its last download was recorded (line 118) but before line 125, and for a run that began on the last URL; a task caught while downloading its last URL after starting below it is saved with the cursor one earlier (`TaskModel.RunCancelled`) |
| `TaskModel.RunCancelledBeforeStart` | internal/service/download.go:99-101 | cancellation seen before the worker begins: the task is untouched and nothing is attempted |
| `TaskModel.RunProgress` | internal/service/download.go:111-122 | a run keeps the id and URLs, only appends to `failed`, never moves the cursor back, keeps it below n, attempts indices only from the cursor on and in increasing order, and leaves the cursor on the last one attempted |
| `TaskModel.ResumeAfterCancel` | internal/service/download.go:111-118 | after a cancellation before index j, the saved cursor is j-1; a resumed run attempts j-1..n-1, then completes with the cursor at n-1 and the failures of both runs in order |
| `TaskModel.ResumeReportsRetriedFailureTwice` | internal/service/download.go:118-120 | a URL that fails just before the cancellation and again on resumption is appended twice |
| `TaskModel.TwoUrlExample` | internal/service/download.go:103-125 | a new task with "http://x/a.txt" and "http://x/missing", where only the second fails, ends completed, with failed = ["http://x/missing"] and the cursor at 1 |
| `TaskModel.RestartIds` | cmd/main.go:26-33 | defines the ids restarted at start-up: only stored ids, none whose task is "completed", and every "in_queue" or "started" one; see the three restart lemma rows |
| `TaskModel.NewTaskIsRestarted` | cmd/main.go:26-33 | a created task that has not completed is restarted at start-up |
| `TaskModel.FinishedRunNotRestarted` | cmd/main.go:26-33 | after an uncancelled run the task is not restarted, and the restart set is otherwise unchanged |
| `TaskModel.CancelledRunIsRestarted` | cmd/main.go:26-33 | a run cancelled with URLs left keeps the task in the restart set |
| `TaskModel.RestartNeverGoesBack` | internal/service/download.go:111 | a restarted run attempts no index below the cursor saved by earlier runs |
| `Service.Task.constructor` | internal/service/download.go:68-72 | a new task holds the id and URLs, status "in_queue", nothing failed, cursor 0 |
| `Service.Task.DownloadUrls` | internal/service/download.go:111-124 | the loop updates the task to `Walk` of its old value, says whether it got past the last URL, and lists the indices it tried |
| `Service.LoadService.constructor` | internal/service/download.go:38-42 | a new service has an empty registry |
| `Service.LoadService.CreateTask` | internal/service/download.go:62-75 | returns a fresh task stored under the new id; the registry is `Insert` of the old one; with a fresh id it grows by one |
| `Service.LoadService.UpdateTaskStatus` | internal/service/download.go:77-84 | modifies at most the task under that id; the registry is `SetStatus` of the old one |
| `Service.LoadService.GetTask` | internal/service/download.go:86-92 | found exactly when the id is a key, and then returns that key's task (nil otherwise); changes nothing |
| `Service.LoadService.StartTask` | internal/service/download.go:94-128 | modifies at most the task under that id; the registry is `RunIn` of the old one; the indices tried are `Attempted` |

## Left out

- `DownloadFile`'s HTTP GET, file creation and copy (internal/service/download.go:44-60) are network and file I/O. The `fails` oracle stands for their outcome, and `Paths.OutputPath` for the file name. The `url` argument of `Paths.OutputPath` is the string the source passes to `path.Base` at line 51: the URL of the final request, after any redirects, as re-serialised by Go's net/url, which re-escapes the path (a space becomes `%20`, non-ASCII characters become `%XX` escapes). Redirects and that re-escaping are not modelled.
- `fails(i)` is true only when `DownloadFile` returns an error: no response, a file that cannot be created, or a failed copy (internal/service/download.go:45-47, 52-55, 58-59). `http.Get` returns no error for a 404 or any other non-2xx status; the error body is then written to the output file and the URL is not recorded in `failed`. HTTP status codes are not modelled, so a URL such as "http://x/missing" in `TaskModel.TwoUrlExample` fails only if its fetch errs at the transport level.
- `SaveTasks` and `LoadTasks` (internal/service/download.go:129-163) encode and decode JSON through library code, and read and write a file. `Snapshot()` is the map they would write. A missing snapshot file gives no tasks and no error (line 149-150); this is not modelled further.
- `Shutdown`, the wait group, the goroutine, the mutex and the context (internal/service/download.go:94-98, 165-181) are concurrency. Each registry operation is modelled as atomic. A worker is one sequential call, and cancellation is the `cancel` oracle. Interleavings are not modelled. That includes the unsynchronised writes the worker makes to `LastUrlIndex` and `Failed` while `GetTask` or `SaveTasks` read the same task.
- `Service.LoadService.Valid` requires every task to be stored under its own id, and `CreateTask`, `UpdateTaskStatus` and `StartTask` require it. A Go map loaded from an edited snapshot file can hold a task under a key other than its `ID`; the restart loop of `cmd/main.go` (line 30) then starts the task by its `ID`. Such registries are excluded from the model.
- UUID generation (internal/service/download.go:66) is the `freshId` parameter of `CreateTask`. If it is not fresh, the model overwrites the old entry, as the Go map assignment does.
- `Service.Task.lastUrlIndex` is a `nat`. A negative cursor can come only from an edited snapshot file, and the Go loop would then panic on the index. That case is not modelled.
- `Service.LoadService.StartTask`: the loop is the separate method `Task.DownloadUrls`, with the same statements. A cancellation seen inside the loop returns `finished = false`, and `StartTask` then skips the final status update. In Go, the loop's `return` skips it. The effect is the same, and `StartTask`'s contract states it in full.
- Logging, the HTTP handler (`internal/handler/download.go`), the process plumbing of `cmd/main.go` apart from its restart filter (lines 26-33), and the interface in `internal/service/service.go`. None of them has logic of its own beyond calls to the modelled operations.
