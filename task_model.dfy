/**
 * The value-level view of the download service (internal/service/download.go):
 * a task as a record, the registry as a map from task id to record, and the
 * effect of each registry operation and of one worker run on that map. The
 * classes in module Service are proved against these functions.
 */
module TaskModel {

  /** Status of a task that has been created but whose worker has not begun. */
  const StatusInQueue: string := "in_queue"
  /** Status set by a worker when it begins. */
  const StatusStarted: string := "started"
  /** Status set by a worker that went through every URL without being cancelled. */
  const StatusCompleted: string := "completed"

  /** One task: its id, the URLs to fetch, its status, the URLs whose download failed, and its cursor. */
  datatype TaskRecord = TaskRecord(
    id: string,
    urls: seq<string>,
    status: string,
    failed: seq<string>,
    lastUrlIndex: nat)

  /** All known tasks, keyed by id. */
  type Registry = map<string, TaskRecord>

  function Max(a: nat, b: nat): nat {
    if a < b then b else a
  }

  /* ---------------------------------------------------------------------- */
  /* Registry operations                                                     */
  /* ---------------------------------------------------------------------- */

  /** The task CreateTask builds. */
  function NewTask(id: string, urls: seq<string>): TaskRecord {
    TaskRecord(id, urls, StatusInQueue, [], 0)
  }

  /** The registry after CreateTask stored a new task under `id`. */
  function Insert(reg: Registry, id: string, urls: seq<string>): (r: Registry)
    ensures r.Keys == reg.Keys + {id}
    ensures r[id] == NewTask(id, urls)
    ensures forall k :: k in reg && k != id ==> r[k] == reg[k]
  {
    reg[id := NewTask(id, urls)]
  }

  /** The registry after UpdateTaskStatus(id, status). */
  function SetStatus(reg: Registry, id: string, status: string): (r: Registry)
    ensures r.Keys == reg.Keys
    ensures forall k :: k in reg ==>
      r[k].id == reg[k].id && r[k].urls == reg[k].urls
      && r[k].failed == reg[k].failed && r[k].lastUrlIndex == reg[k].lastUrlIndex
    ensures forall k :: k in reg && k != id ==> r[k] == reg[k]
    ensures id in reg ==> r[id].status == status
  {
    if id in reg then reg[id := reg[id].(status := status)] else reg
  }

  /** A created task is found under its id, queued, with no failures and its cursor at 0. */
  lemma InsertStoresNewTask(reg: Registry, id: string, urls: seq<string>)
    ensures id in Insert(reg, id, urls)
    ensures var t := Insert(reg, id, urls)[id];
      t.id == id && t.urls == urls && t.status == StatusInQueue && t.failed == [] && t.lastUrlIndex == 0
  {
  }

  /** With a fresh id, creation keeps every stored task and adds exactly one key. */
  lemma InsertFreshGrowsByOne(reg: Registry, id: string, urls: seq<string>)
    requires id !in reg
    ensures Insert(reg, id, urls).Keys == reg.Keys + {id}
    ensures |Insert(reg, id, urls)| == |reg| + 1
    ensures forall k :: k in reg ==> k in Insert(reg, id, urls) && Insert(reg, id, urls)[k] == reg[k]
  {
  }

  /** On a present id only that task's status changes, to exactly `status`. */
  lemma SetStatusPresent(reg: Registry, id: string, status: string)
    requires id in reg
    ensures SetStatus(reg, id, status).Keys == reg.Keys
    ensures SetStatus(reg, id, status)[id].status == status
    ensures SetStatus(reg, id, status)[id] == reg[id].(status := status)
    ensures forall k :: k in reg && k != id ==> SetStatus(reg, id, status)[k] == reg[k]
  {
  }

  /** On an unknown id the registry is left as it was. */
  lemma SetStatusAbsent(reg: Registry, id: string, status: string)
    requires id !in reg
    ensures SetStatus(reg, id, status) == reg
  {
  }

  /** Setting the same status twice is the same as setting it once. */
  lemma SetStatusIdempotent(reg: Registry, id: string, status: string)
    ensures SetStatus(SetStatus(reg, id, status), id, status) == SetStatus(reg, id, status)
  {
  }

  /** Setting the status of a just-replaced entry replaces it with the new status. */
  lemma SetStatusOfReplaced(reg: Registry, id: string, t: TaskRecord, status: string)
    ensures SetStatus(reg[id := t], id, status) == reg[id := t.(status := status)]
  {
  }

  /** Any status string is accepted: the last update wins, with no forward-only rule. */
  lemma SetStatusLastWins(reg: Registry, id: string, s1: string, s2: string)
    ensures SetStatus(SetStatus(reg, id, s1), id, s2) == SetStatus(reg, id, s2)
  {
  }

  /* ---------------------------------------------------------------------- */
  /* The worker                                                              */
  /* ---------------------------------------------------------------------- */

  /**
   * When the worker's context is seen cancelled. BeforeStart: already at the
   * check made before anything else. BeforeIndex(j): from the check made
   * before the download of index j on (cancellation stays observed once it is).
   */
  datatype Cancellation = NotCancelled | BeforeStart | BeforeIndex(j: nat)

  /** The check made before the download of index `i` sees the context cancelled. */
  predicate CancelledAt(c: Cancellation, i: nat) {
    c.BeforeStart? || (c.BeforeIndex? && c.j <= i)
  }

  /**
   * The URLs at indices lo..hi-1 whose download failed, in index order; this
   * is what the worker appends to `failed` while it walks those indices.
   */
  function FailedIn(urls: seq<string>, fails: nat -> bool, lo: nat, hi: nat): (r: seq<string>)
    requires hi <= lo || hi <= |urls|
    ensures hi <= lo ==> r == []
    ensures lo < hi ==> |r| <= hi - lo && forall p :: 0 <= p < |r| ==> r[p] in urls[lo..hi]
    decreases hi
  {
    if hi <= lo then []
    else FailedIn(urls, fails, lo, hi - 1) + (if fails(hi - 1) then [urls[hi - 1]] else [])
  }

  /** The indices lo, lo+1, ..., hi-1. */
  function Range(lo: nat, hi: nat): (r: seq<nat>)
    ensures |r| == if lo <= hi then hi - lo else 0
    ensures forall p :: 0 <= p < |r| ==> r[p] == lo + p
    decreases hi
  {
    if hi <= lo then [] else Range(lo, hi - 1) + [hi - 1]
  }

  /**
   * One past the last index a worker that starts at cursor `k` over `n` URLs
   * attempts (once past the check before it starts): the first index from
   * `k` on where cancellation is seen, or `n`; `k` itself when `k >= n`.
   */
  function Stop(k: nat, n: nat, c: Cancellation): (s: nat)
    ensures k <= s
    ensures k < n ==> s <= n
    ensures n <= k ==> s == k
    ensures forall i :: k <= i < s ==> !CancelledAt(c, i)
    ensures k <= s < n ==> CancelledAt(c, s)
  {
    if n <= k then k
    else if c.BeforeStart? then k
    else if c.BeforeIndex? && c.j < n then Max(c.j, k)
    else n
  }

  /**
   * The effect of the download loop on a task: the URLs failing among the
   * indices walked are appended to `failed`, and the cursor is left on the
   * last index walked.
   */
  function Walk(t: TaskRecord, c: Cancellation, fails: nat -> bool): (w: TaskRecord)
    ensures w.id == t.id && w.urls == t.urls && w.status == t.status
    ensures t.failed <= w.failed
    ensures t.lastUrlIndex <= |t.urls| ==> |w.failed| - |t.failed| <= |t.urls| - t.lastUrlIndex
    ensures t.lastUrlIndex <= w.lastUrlIndex
    ensures t.lastUrlIndex < |t.urls| ==> w.lastUrlIndex < |t.urls|
  {
    var k := t.lastUrlIndex;
    var stop := Stop(k, |t.urls|, c);
    t.(failed := t.failed + FailedIn(t.urls, fails, k, stop),
       lastUrlIndex := if k < stop then stop - 1 else k)
  }

  /** The download loop gets past the last URL without seeing cancellation. */
  predicate WalkFinishes(t: TaskRecord, c: Cancellation) {
    |t.urls| <= Stop(t.lastUrlIndex, |t.urls|, c)
  }

  /**
   * The task after one worker run (StartTask): untouched when cancellation
   * is seen first; otherwise "started", walked, and "completed" if the walk
   * finished.
   */
  function Run(t: TaskRecord, c: Cancellation, fails: nat -> bool): (r: TaskRecord)
    ensures r.id == t.id && r.urls == t.urls
    ensures c.BeforeStart? ==> r == t
    ensures !c.BeforeStart? ==> r.status == StatusStarted || r.status == StatusCompleted
    ensures c.BeforeIndex? && c.j < |t.urls| && t.lastUrlIndex < |t.urls| ==> r.status == StatusStarted
    ensures c.NotCancelled? ==> r.status == StatusCompleted
  {
    if c.BeforeStart? then t
    else
      var w := Walk(t.(status := StatusStarted), c, fails);
      if WalkFinishes(t, c) then w.(status := StatusCompleted) else w
  }

  /** A worker that sees cancellation before it begins leaves the registry as it was. */
  lemma RunInBeforeStart(reg: Registry, id: string, fails: nat -> bool)
    ensures RunIn(reg, id, BeforeStart, fails) == reg
  {
    if id in reg {
      assert reg[id := reg[id]] == reg;
    }
  }

  /** RunIn in terms of the three steps StartTask takes on a present task. */
  lemma RunInSteps(reg: Registry, id: string, c: Cancellation, fails: nat -> bool, w: TaskRecord, finished: bool)
    requires id in reg && !c.BeforeStart?
    requires w == Walk(reg[id].(status := StatusStarted), c, fails)
    requires finished == WalkFinishes(reg[id].(status := StatusStarted), c)
    ensures RunIn(reg, id, c, fails) == reg[id := if finished then w.(status := StatusCompleted) else w]
  {
  }

  /** The indices whose download a worker run attempts, in order. */
  function Attempted(t: TaskRecord, c: Cancellation): (r: seq<nat>)
    ensures forall i :: i in r ==> t.lastUrlIndex <= i < |t.urls|
    ensures c.NotCancelled? && t.lastUrlIndex <= |t.urls| ==> |r| == |t.urls| - t.lastUrlIndex
  {
    if c.BeforeStart? then [] else Range(t.lastUrlIndex, Stop(t.lastUrlIndex, |t.urls|, c))
  }

  /** The registry after StartTask(id): only the task stored under `id` changes, if there is one. */
  function RunIn(reg: Registry, id: string, c: Cancellation, fails: nat -> bool): (r: Registry)
    ensures r.Keys == reg.Keys
    ensures forall k :: k in reg && k != id ==> r[k] == reg[k]
    ensures id in reg ==> r[id].id == reg[id].id && r[id].urls == reg[id].urls
  {
    if id in reg then reg[id := Run(reg[id], c, fails)] else reg
  }

  /** The indices StartTask(id) attempts. */
  function AttemptedIn(reg: Registry, id: string, c: Cancellation): seq<nat> {
    if id in reg then Attempted(reg[id], c) else []
  }

  /* Properties of FailedIn ------------------------------------------------- */

  /**
   * The failing indices among lo..hi-1, in increasing order: an independent
   * description of which positions FailedIn reports.
   */
  function FailingIndices(fails: nat -> bool, lo: nat, hi: nat): (r: seq<nat>)
    ensures forall p :: 0 <= p < |r| ==> lo <= r[p] < hi
    ensures forall p, q :: 0 <= p < q < |r| ==> r[p] < r[q]
    ensures forall i {:trigger i in r} :: i in r <==> lo <= i < hi && fails(i)
    decreases hi
  {
    if hi <= lo then []
    else FailingIndices(fails, lo, hi - 1) + (if fails(hi - 1) then [hi - 1] else [])
  }

  /** FailedIn lists exactly the URLs at the failing indices, in index order. */
  lemma {:induction false} FailedInAtFailingIndices(urls: seq<string>, fails: nat -> bool, lo: nat, hi: nat)
    requires hi <= |urls|
    ensures |FailedIn(urls, fails, lo, hi)| == |FailingIndices(fails, lo, hi)|
    ensures forall p :: 0 <= p < |FailingIndices(fails, lo, hi)| ==>
      FailingIndices(fails, lo, hi)[p] < |urls| &&
      FailedIn(urls, fails, lo, hi)[p] == urls[FailingIndices(fails, lo, hi)[p]]
    decreases hi
  {
    if lo < hi {
      FailedInAtFailingIndices(urls, fails, lo, hi - 1);
    }
  }

  /** No failing download among lo..hi-1: nothing is reported. */
  lemma {:induction false} FailedInNone(urls: seq<string>, fails: nat -> bool, lo: nat, hi: nat)
    requires hi <= lo || hi <= |urls|
    requires forall i :: lo <= i < hi ==> !fails(i)
    ensures FailedIn(urls, fails, lo, hi) == []
    decreases hi
  {
    if lo < hi {
      FailedInNone(urls, fails, lo, hi - 1);
    }
  }

  /** Every download among lo..hi-1 fails: all those URLs are reported, in order. */
  lemma {:induction false} FailedInAll(urls: seq<string>, fails: nat -> bool, lo: nat, hi: nat)
    requires lo <= hi <= |urls|
    requires forall i :: lo <= i < hi ==> fails(i)
    ensures FailedIn(urls, fails, lo, hi) == urls[lo..hi]
    decreases hi
  {
    if lo < hi {
      FailedInAll(urls, fails, lo, hi - 1);
      assert urls[lo..hi] == urls[lo..hi - 1] + [urls[hi - 1]];
    }
  }

  /** Walking lo..m-1 and then m..hi-1 reports the same as walking lo..hi-1. */
  lemma {:induction false} FailedInSplit(urls: seq<string>, fails: nat -> bool, lo: nat, m: nat, hi: nat)
    requires lo <= m <= hi <= |urls|
    ensures FailedIn(urls, fails, lo, hi) == FailedIn(urls, fails, lo, m) + FailedIn(urls, fails, m, hi)
    decreases hi
  {
    if m < hi {
      FailedInSplit(urls, fails, lo, m, hi - 1);
    }
  }

  /* Properties of one worker run ------------------------------------------- */

  /**
   * Without cancellation a run from cursor k < n appends the URLs failing at
   * k..n-1, leaves the cursor at n-1 and completes the task.
   */
  lemma RunWithoutCancellation(t: TaskRecord, fails: nat -> bool)
    requires t.lastUrlIndex < |t.urls|
    ensures Run(t, NotCancelled, fails).failed == t.failed + FailedIn(t.urls, fails, t.lastUrlIndex, |t.urls|)
    ensures Run(t, NotCancelled, fails).lastUrlIndex == |t.urls| - 1
    ensures Run(t, NotCancelled, fails).status == StatusCompleted
    ensures Attempted(t, NotCancelled) == Range(t.lastUrlIndex, |t.urls|)
  {
  }

  /** Without cancellation every run completes, even when every download fails. */
  lemma RunWithoutCancellationCompletes(t: TaskRecord, fails: nat -> bool)
    ensures Run(t, NotCancelled, fails).status == StatusCompleted
  {
  }

  /** A run in which every download succeeds adds no failures. */
  lemma {:induction false} AllSucceedNoFailures(t: TaskRecord, fails: nat -> bool)
    requires forall i :: !fails(i)
    ensures Run(t, NotCancelled, fails).failed == t.failed
    ensures Run(t, NotCancelled, fails).status == StatusCompleted
  {
    FailedInNone(t.urls, fails, t.lastUrlIndex, Stop(t.lastUrlIndex, |t.urls|, NotCancelled));
  }

  /** A run from cursor 0 in which every download fails reports every URL, and still completes. */
  lemma {:induction false} AllFailStillCompletes(t: TaskRecord, fails: nat -> bool)
    requires t.lastUrlIndex == 0
    requires forall i :: fails(i)
    ensures Run(t, NotCancelled, fails).failed == t.failed + t.urls
    ensures Run(t, NotCancelled, fails).status == StatusCompleted
  {
    if t.urls != [] {
      FailedInAll(t.urls, fails, 0, |t.urls|);
      assert t.urls[0..|t.urls|] == t.urls;
    }
  }

  /**
   * Cancellation seen before index j, with k <= j < n: only k..j-1 are
   * attempted, the cursor stays on the last of them and the status stays
   * "started".
   */
  lemma RunCancelled(t: TaskRecord, j: nat, fails: nat -> bool)
    requires t.lastUrlIndex <= j < |t.urls|
    ensures Attempted(t, BeforeIndex(j)) == Range(t.lastUrlIndex, j)
    ensures Run(t, BeforeIndex(j), fails).failed == t.failed + FailedIn(t.urls, fails, t.lastUrlIndex, j)
    ensures Run(t, BeforeIndex(j), fails).lastUrlIndex == if t.lastUrlIndex < j then j - 1 else t.lastUrlIndex
    ensures Run(t, BeforeIndex(j), fails).status == StatusStarted
  {
  }

  /**
   * A worker whose cursor is past the last URL (from the modelled operations,
   * only a task with no URLs) attempts nothing, changes nothing but the
   * status, and completes.
   */
  lemma RunNoUrlsLeft(t: TaskRecord, c: Cancellation, fails: nat -> bool)
    requires !c.BeforeStart? && |t.urls| <= t.lastUrlIndex
    ensures Run(t, c, fails) == t.(status := StatusCompleted)
    ensures Attempted(t, c) == []
  {
  }

  /**
   * A worker whose cursor is on the last URL downloads that URL again,
   * because the cursor names the index processed last; a failure is then
   * appended once more. The cursor is there for every completed task with at
   * least one URL (which the restart filter never restarts), for a task saved
   * after the last download was recorded but before the final status update,
   * and for a run that began on the last URL (such as a task with one URL).
   */
  lemma RunFromLastUrl(t: TaskRecord, fails: nat -> bool)
    requires |t.urls| > 0 && t.lastUrlIndex == |t.urls| - 1
    ensures Attempted(t, NotCancelled) == [|t.urls| - 1]
    ensures Run(t, NotCancelled, fails).failed
      == t.failed + (if fails(|t.urls| - 1) then [t.urls[|t.urls| - 1]] else [])
    ensures Run(t, NotCancelled, fails).lastUrlIndex == |t.urls| - 1
    ensures Run(t, NotCancelled, fails).status == StatusCompleted
  {
    assert FailedIn(t.urls, fails, |t.urls| - 1, |t.urls| - 1) == [];
  }

  /** Cancellation seen before the worker begins leaves the task untouched and attempts nothing. */
  lemma RunCancelledBeforeStart(t: TaskRecord, fails: nat -> bool)
    ensures Run(t, BeforeStart, fails) == t
    ensures Attempted(t, BeforeStart) == []
  {
  }

  /**
   * Whatever happens, a run keeps the id and the URLs, only appends to
   * `failed`, never moves the cursor back, keeps it on a valid index and
   * attempts no index below the cursor it started from, in increasing order.
   */
  lemma {:induction false} RunProgress(t: TaskRecord, c: Cancellation, fails: nat -> bool)
    ensures var r := Run(t, c, fails);
      r.id == t.id && r.urls == t.urls && t.failed <= r.failed
      && t.lastUrlIndex <= r.lastUrlIndex
      && (t.lastUrlIndex < |t.urls| ==> r.lastUrlIndex < |t.urls|)
    ensures forall i :: i in Attempted(t, c) ==> t.lastUrlIndex <= i < |t.urls|
    ensures forall p, q :: 0 <= p < q < |Attempted(t, c)| ==> Attempted(t, c)[p] < Attempted(t, c)[q]
    ensures Attempted(t, c) != [] ==> Run(t, c, fails).lastUrlIndex == Attempted(t, c)[|Attempted(t, c)| - 1]
  {
  }

  /**
   * Resuming after a cancellation seen before index j (k < j < n): the saved
   * cursor is j-1, the index processed last, so the resumed run attempts
   * j-1 a second time; it then completes with the cursor at n-1.
   */
  lemma {:induction false} ResumeAfterCancel(t: TaskRecord, j: nat, f1: nat -> bool, f2: nat -> bool)
    requires t.lastUrlIndex < j < |t.urls|
    ensures var mid := Run(t, BeforeIndex(j), f1);
      mid.lastUrlIndex == j - 1 && mid.status == StatusStarted
      && Attempted(t, BeforeIndex(j)) == Range(t.lastUrlIndex, j)
      && Attempted(mid, NotCancelled) == Range(j - 1, |t.urls|)
    ensures var fin := Run(Run(t, BeforeIndex(j), f1), NotCancelled, f2);
      fin.status == StatusCompleted && fin.lastUrlIndex == |t.urls| - 1
      && fin.failed == t.failed + FailedIn(t.urls, f1, t.lastUrlIndex, j) + FailedIn(t.urls, f2, j - 1, |t.urls|)
  {
    RunCancelled(t, j, f1);
    var mid := Run(t, BeforeIndex(j), f1);
    RunWithoutCancellation(mid, f2);
  }

  /**
   * Consequence of resuming at the saved index: a URL whose download fails
   * just before the cancellation and again on the resumed attempt is
   * reported twice in `failed`.
   */
  lemma {:induction false} ResumeReportsRetriedFailureTwice(t: TaskRecord, j: nat, f1: nat -> bool, f2: nat -> bool)
    requires t.lastUrlIndex < j < |t.urls|
    requires f1(j - 1) && f2(j - 1)
    ensures Run(Run(t, BeforeIndex(j), f1), NotCancelled, f2).failed
      == t.failed + FailedIn(t.urls, f1, t.lastUrlIndex, j - 1)
         + [t.urls[j - 1], t.urls[j - 1]]
         + FailedIn(t.urls, f2, j, |t.urls|)
  {
    var k, n, u := t.lastUrlIndex, |t.urls|, t.urls[j - 1];
    var a, b := FailedIn(t.urls, f1, k, j), FailedIn(t.urls, f2, j - 1, n);
    var before, after := FailedIn(t.urls, f1, k, j - 1), FailedIn(t.urls, f2, j, n);
    FailedInLast(t.urls, f1, k, j);
    FailedInFirst(t.urls, f2, j - 1, n);
    calc {
      Run(Run(t, BeforeIndex(j), f1), NotCancelled, f2).failed;
    == { ResumeAfterCancel(t, j, f1, f2); }
      t.failed + a + b;
    == { AppendTwice(t.failed, before, u, after, a, b); }
      t.failed + before + [u, u] + after;
    }
  }

  /** Two lists that end and begin with the same `u`, joined, hold `u` twice in a row. */
  lemma AppendTwice<T>(x: seq<T>, before: seq<T>, u: T, after: seq<T>, a: seq<T>, b: seq<T>)
    requires a == before + [u] && b == [u] + after
    ensures x + a + b == x + before + [u, u] + after
  {
  }

  /** When the download at `hi - 1` fails, its URL comes last in what lo..hi-1 reports. */
  lemma FailedInLast(urls: seq<string>, fails: nat -> bool, lo: nat, hi: nat)
    requires lo < hi <= |urls| && fails(hi - 1)
    ensures FailedIn(urls, fails, lo, hi) == FailedIn(urls, fails, lo, hi - 1) + [urls[hi - 1]]
  {
  }

  /** When the download at `lo` fails, its URL comes first in what lo..hi-1 reports. */
  lemma {:induction false} FailedInFirst(urls: seq<string>, fails: nat -> bool, lo: nat, hi: nat)
    requires lo < hi <= |urls| && fails(lo)
    ensures FailedIn(urls, fails, lo, hi) == [urls[lo]] + FailedIn(urls, fails, lo + 1, hi)
  {
    FailedInSplit(urls, fails, lo, lo + 1, hi);
    assert FailedIn(urls, fails, lo, lo + 1) == [urls[lo]] by {
      assert FailedIn(urls, fails, lo, lo) == [];
    }
  }

  /** Two URLs, "http://x/a.txt" and "http://x/missing", of which only the second fails. */
  lemma TwoUrlExample(id: string)
    ensures var t := NewTask(id, ["http://x/a.txt", "http://x/missing"]);
      var r := Run(t, NotCancelled, (i: nat) => i == 1);
      r.status == StatusCompleted && r.failed == ["http://x/missing"] && r.lastUrlIndex == 1
  {
    var t := NewTask(id, ["http://x/a.txt", "http://x/missing"]);
    var fails := (i: nat) => i == 1;
    assert FailedIn(t.urls, fails, 0, 1) == [];
  }

  /* Restart at start-up ------------------------------------------------------ */

  /** The tasks the process restarts after loading them: those not completed. */
  function RestartIds(reg: Registry): (r: set<string>)
    ensures r <= reg.Keys
    ensures forall id :: id in r ==> reg[id].status != StatusCompleted
    ensures forall id :: id in reg && reg[id].status == StatusInQueue ==> id in r
    ensures forall id :: id in reg && reg[id].status == StatusStarted ==> id in r
  {
    set id | id in reg && reg[id].status != StatusCompleted
  }

  /** A newly created task is restarted if it is still in the registry at start-up. */
  lemma NewTaskIsRestarted(reg: Registry, id: string, urls: seq<string>)
    ensures id in RestartIds(Insert(reg, id, urls))
  {
  }

  /** A worker run that was not cancelled takes its task out of the restart set. */
  lemma FinishedRunNotRestarted(reg: Registry, id: string, fails: nat -> bool)
    ensures id !in RestartIds(RunIn(reg, id, NotCancelled, fails))
    ensures forall other :: other != id ==>
      (other in RestartIds(RunIn(reg, id, NotCancelled, fails)) <==> other in RestartIds(reg))
  {
  }

  /** A run cancelled with URLs left to fetch keeps its task in the restart set. */
  lemma CancelledRunIsRestarted(reg: Registry, id: string, j: nat, fails: nat -> bool)
    requires id in reg && reg[id].lastUrlIndex <= j < |reg[id].urls|
    ensures id in RestartIds(RunIn(reg, id, BeforeIndex(j), fails))
  {
  }

  /**
   * A restarted run never goes below the cursor reached by earlier runs:
   * every index it attempts is at least the cursor the task had before them.
   */
  lemma {:induction false} RestartNeverGoesBack(t: TaskRecord, c1: Cancellation, c2: Cancellation, f1: nat -> bool)
    ensures forall i :: i in Attempted(Run(t, c1, f1), c2) ==>
      Run(t, c1, f1).lastUrlIndex <= i && t.lastUrlIndex <= i
  {
    RunProgress(t, c1, f1);
    RunProgress(Run(t, c1, f1), c2, f1);
  }
}
