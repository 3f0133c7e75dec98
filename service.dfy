/**
 * The task registry and the per-task worker of internal/service/download.go:
 * Task objects whose fields are updated in place, and a LoadService holding
 * the map from task id to Task. Task.DownloadUrls is proved against
 * TaskModel.Walk through Record(); CreateTask, UpdateTaskStatus and StartTask
 * are proved against the registry functions of TaskModel through Snapshot();
 * GetTask changes nothing and speaks of the `tasks` map directly.
 */
module Service {
  import opened TaskModel

  /** One batch of URLs to download and its progress. */
  class Task {
    const id: string
    const urls: seq<string>
    var status: string
    var failed: seq<string>
    var lastUrlIndex: nat

    /** The task CreateTask builds: queued, nothing failed, cursor at 0. */
    constructor (id: string, urls: seq<string>)
      ensures Record() == NewTask(id, urls)
    {
      this.id := id;
      this.urls := urls;
      status := StatusInQueue;
      failed := [];
      lastUrlIndex := 0;
    }

    /** The task's current value. */
    ghost function Record(): TaskRecord
      reads this
    {
      TaskRecord(id, urls, status, failed, lastUrlIndex)
    }

    /**
     * The download loop of StartTask, run on the task it looked up. From the
     * cursor on, the context is checked before each URL; when it is seen
     * cancelled the loop stops (`finished` is false). Otherwise the URL is
     * downloaded, the cursor is set to its index, and the URL is appended to
     * `failed` when the download errs. `attempted` lists the indices tried.
     */
    method DownloadUrls(cancel: Cancellation, fails: nat -> bool) returns (finished: bool, ghost attempted: seq<nat>)
      modifies this
      ensures Record() == Walk(old(Record()), cancel, fails)
      ensures finished == WalkFinishes(old(Record()), cancel)
      ensures attempted == Range(old(lastUrlIndex), Stop(old(lastUrlIndex), |urls|, cancel))
    {
      attempted := [];
      var k := lastUrlIndex;
      var i := k;
      while i < |urls|
        invariant k <= i && (i == k || i <= |urls|)
        invariant forall j :: k <= j < i ==> !CancelledAt(cancel, j)
        invariant status == old(status)
        invariant failed == old(failed) + FailedIn(urls, fails, k, i)
        invariant lastUrlIndex == if k < i then i - 1 else k
        invariant attempted == Range(k, i)
      {
        if CancelledAt(cancel, i) {
          assert Stop(k, |urls|, cancel) == i;
          return false, attempted;
        }
        var err := fails(i);
        lastUrlIndex := i;
        if err {
          failed := failed + [urls[i]];
        }
        attempted := attempted + [i];
        i := i + 1;
      }
      assert Stop(k, |urls|, cancel) == i;
      finished := true;
    }
  }

  /** The registry of all tasks, keyed by id. */
  class LoadService {
    var tasks: map<string, Task>

    /**
     * Each task is stored under its own id; hence no Task object is stored
     * under two keys, and updating one task changes no other entry.
     */
    ghost predicate Valid()
      reads this
    {
      forall id :: id in tasks ==> tasks[id].id == id
    }

    /** The value of every stored task, keyed by id: what SaveTasks would write. */
    ghost function Snapshot(): Registry
      reads this, tasks.Values
    {
      map id | id in tasks :: tasks[id].Record()
    }

    /** NewLoadService: an empty registry. */
    constructor ()
      ensures Valid() && tasks == map[]
    {
      tasks := map[];
    }

    /**
     * CreateTask: stores a new queued task under `freshId`, the id the UUID
     * generator hands out, and returns it.
     */
    method CreateTask(urls: seq<string>, freshId: string) returns (task: Task)
      requires Valid()
      modifies this
      ensures Valid() && fresh(task)
      ensures tasks == old(tasks)[freshId := task]
      ensures task.Record() == NewTask(freshId, urls)
      ensures Snapshot() == Insert(old(Snapshot()), freshId, urls)
      ensures freshId !in old(tasks) ==> |tasks| == |old(tasks)| + 1
    {
      ghost var reg0 := Snapshot();
      task := new Task(freshId, urls);
      tasks := tasks[freshId := task];
      SnapshotAfterStore(reg0, freshId);
    }

    /** UpdateTaskStatus: overwrites the status of the task stored under `taskID`, if any. */
    method UpdateTaskStatus(taskID: string, status: string)
      requires Valid()
      modifies if taskID in tasks then {tasks[taskID]} else {}
      ensures Valid() && tasks == old(tasks)
      ensures Snapshot() == SetStatus(old(Snapshot()), taskID, status)
    {
      if taskID in tasks {
        var task := tasks[taskID];
        task.status := status;
      }
    }

    /**
     * A registry whose entries other than `taskID` still hold the values of
     * `reg0` is `reg0` with that one entry stored or replaced.
     */
    lemma SnapshotAfterStore(reg0: Registry, taskID: string)
      requires tasks.Keys == reg0.Keys + {taskID}
      requires forall id :: id in tasks && id != taskID ==> tasks[id].Record() == reg0[id]
      ensures Snapshot() == reg0[taskID := tasks[taskID].Record()]
    {
    }

    /** GetTask: the task stored under `taskID` and whether there is one. */
    method GetTask(taskID: string) returns (task: Task?, found: bool)
      ensures found <==> taskID in tasks
      ensures found ==> task == tasks[taskID]
      ensures !found ==> task == null
    {
      found := taskID in tasks;
      if found {
        task := tasks[taskID];
      } else {
        task := null;
      }
    }

    /**
     * The worker StartTask runs for `taskID`, as one sequential run.
     * `cancel` says when the context is first seen cancelled; `fails(i)`
     * says whether DownloadFile returns an error for the URL at index i.
     * `attempted` lists the indices whose download is attempted.
     */
    method StartTask(taskID: string, cancel: Cancellation, fails: nat -> bool) returns (ghost attempted: seq<nat>)
      requires Valid()
      modifies if taskID in tasks then {tasks[taskID]} else {}
      ensures Valid() && tasks == old(tasks)
      ensures Snapshot() == RunIn(old(Snapshot()), taskID, cancel, fails)
      ensures attempted == AttemptedIn(old(Snapshot()), taskID, cancel)
    {
      attempted := [];
      if cancel.BeforeStart? {
        RunInBeforeStart(old(Snapshot()), taskID, fails);
        return;
      }
      UpdateTaskStatus(taskID, StatusStarted);
      var task, found := GetTask(taskID);
      if !found {
        assert taskID !in old(Snapshot());
        return;
      }
      ghost var reg0 := old(Snapshot());
      ghost var t0 := reg0[taskID];
      assert task.Record() == t0.(status := StatusStarted);
      var finished;
      finished, attempted := task.DownloadUrls(cancel, fails);
      ghost var w := task.Record();
      SnapshotAfterStore(reg0, taskID);
      RunInSteps(reg0, taskID, cancel, fails, w, finished);
      if finished {
        UpdateTaskStatus(taskID, StatusCompleted);
        SetStatusOfReplaced(reg0, taskID, w, StatusCompleted);
      }
    }
  }
}
