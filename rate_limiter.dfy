/**
 * `RateLimiter` from `src/utils/rateLimiter.ts`: a global FIFO queue of tasks, one FIFO queue
 * per page, the set of pages with a task in flight, and the completion times of the last
 * ten seconds. Only the atomic steps are modelled (`add`, one dispatch of `processQueue`, the
 * completion of a task); the clock is a parameter and the scheduling of `processQueue` by
 * `setTimeout`/`setImmediate` is outside the model.
 */
module RateLimiting {

  /** A queued task: the page it is for and an opaque handle standing for its closure. */
  datatype Task = Task(pageId: string, job: nat)

  const MaxGlobalConcurrent: nat := 10
  const RateWindowMs: int := 10000

  // ---------------------------------------------------------------------------------------
  // Sequence helpers.

  /** The tasks of `q` that belong to page `p`, in queue order. */
  function Filter(q: seq<Task>, p: string): seq<Task>
    decreases |q|
  {
    if q == [] then []
    else (if q[0].pageId == p then [q[0]] else []) + Filter(q[1..], p)
  }

  /** `splice(i, 1)`. */
  function RemoveAt(q: seq<Task>, i: nat): (r: seq<Task>)
    requires i < |q|
    ensures |r| == |q| - 1
    ensures forall j :: 0 <= j < i ==> r[j] == q[j]
    ensures forall j :: i <= j < |r| ==> r[j] == q[j + 1]
  {
    q[..i] + q[i + 1..]
  }

  /** `filter(timestamp => timestamp > cutoff)`. */
  function Prune(ts: seq<int>, cutoff: int): (r: seq<int>)
    ensures |r| <= |ts|
    ensures forall k :: 0 <= k < |r| ==> r[k] > cutoff
    decreases |ts|
  {
    if ts == [] then []
    else if ts[0] > cutoff then [ts[0]] + Prune(ts[1..], cutoff)
    else Prune(ts[1..], cutoff)
  }

  /**
   * `findIndex(task => !activeRequests.has(task.pageId))`: the first task whose page has
   * nothing in flight, or -1 when every queued task waits on an active page.
   */
  function FirstEligible(q: seq<Task>, active: set<string>): (r: int)
    ensures -1 <= r < |q|
    ensures r == -1 <==> forall j :: 0 <= j < |q| ==> q[j].pageId in active
    ensures r >= 0 ==> q[r].pageId !in active && forall j :: 0 <= j < r ==> q[j].pageId in active
    decreases |q|
  {
    if q == [] then -1
    else if q[0].pageId !in active then 0
    else
      var r := FirstEligible(q[1..], active);
      if r == -1 then -1 else r + 1
  }

  // ---------------------------------------------------------------------------------------
  // Facts about Filter and Prune.

  lemma {:induction false} FilterAppend(a: seq<Task>, b: seq<Task>, p: string)
    ensures Filter(a + b, p) == Filter(a, p) + Filter(b, p)
    decreases |a|
  {
    if a == [] {
      assert a + b == b;
    } else {
      var c := a + b;
      var head := if a[0].pageId == p then [a[0]] else [];
      assert c[0] == a[0];
      assert c[1..] == a[1..] + b;
      FilterAppend(a[1..], b, p);
      calc {
        Filter(c, p);
        head + Filter(a[1..] + b, p);
        head + (Filter(a[1..], p) + Filter(b, p));
        (head + Filter(a[1..], p)) + Filter(b, p);
        Filter(a, p) + Filter(b, p);
      }
    }
  }

  /** A page has queued tasks exactly when some task of the queue belongs to it. */
  lemma {:induction false} FilterEmpty(q: seq<Task>, p: string)
    ensures Filter(q, p) == [] <==> forall j :: 0 <= j < |q| ==> q[j].pageId != p
    decreases |q|
  {
    if q != [] {
      FilterEmpty(q[1..], p);
      assert forall j :: 1 <= j < |q| ==> q[j] == q[1..][j - 1];
    }
  }

  lemma FilterSingle(t: Task, p: string)
    ensures Filter([t], p) == if t.pageId == p then [t] else []
  {
    assert [t][1..] == [];
  }

  /**
   * Removing the first task of its page from the global queue removes exactly the head of
   * that page's queue and leaves every other page's queue as it was.
   */
  lemma FilterRemoveFirst(q: seq<Task>, i: nat, p: string)
    requires i < |q|
    requires forall j :: 0 <= j < i ==> q[j].pageId != q[i].pageId
    ensures Filter(q, q[i].pageId) != [] && Filter(q, q[i].pageId)[0] == q[i]
    ensures Filter(RemoveAt(q, i), p) == if p == q[i].pageId then Filter(q, p)[1..] else Filter(q, p)
  {
    var t := q[i];
    assert q == q[..i] + ([t] + q[i + 1..]);
    FilterAppend(q[..i], [t] + q[i + 1..], p);
    FilterAppend([t], q[i + 1..], p);
    FilterAppend(q[..i], q[i + 1..], p);
    FilterSingle(t, p);
    FilterAppend(q[..i], [t] + q[i + 1..], t.pageId);
    FilterAppend([t], q[i + 1..], t.pageId);
    FilterSingle(t, t.pageId);
    FilterEmpty(q[..i], t.pageId);
  }

  /** Pruning keeps everything exactly when nothing is old, and nothing exactly when everything is. */
  lemma {:induction false} PruneExtremes(ts: seq<int>, cutoff: int)
    ensures Prune(ts, cutoff) == ts <==> forall k :: 0 <= k < |ts| ==> ts[k] > cutoff
    ensures Prune(ts, cutoff) == [] <==> forall k :: 0 <= k < |ts| ==> ts[k] <= cutoff
    decreases |ts|
  {
    if ts != [] {
      PruneExtremes(ts[1..], cutoff);
      assert forall k :: 1 <= k < |ts| ==> ts[k] == ts[1..][k - 1];
      var rest := Prune(ts[1..], cutoff);
      if ts[0] > cutoff {
        assert ts == [ts[0]] + ts[1..];
        assert ([ts[0]] + rest)[0] == ts[0];
      } else {
        assert |rest| <= |ts[1..]| < |ts|;
        if rest != [] {
          assert rest[0] > cutoff;
        }
      }
    }
  }

  /** Pruning at a later cutoff after an earlier one is pruning at the later cutoff alone. */
  lemma {:induction false} PruneTwice(ts: seq<int>, c1: int, c2: int)
    requires c1 <= c2
    ensures Prune(Prune(ts, c1), c2) == Prune(ts, c2)
    decreases |ts|
  {
    if ts != [] {
      PruneTwice(ts[1..], c1, c2);
      var rest := Prune(ts[1..], c1);
      if ts[0] > c1 {
        assert ([ts[0]] + rest)[1..] == rest;
      }
    }
  }

  /** A new timestamp is kept or dropped on its own. */
  lemma {:induction false} PruneSnoc(ts: seq<int>, x: int, cutoff: int)
    ensures Prune(ts + [x], cutoff) == Prune(ts, cutoff) + (if x > cutoff then [x] else [])
    decreases |ts|
  {
    if ts == [] {
      assert ts + [x] == [x];
      assert [x][1..] == [];
    } else {
      assert (ts + [x])[1..] == ts[1..] + [x];
      PruneSnoc(ts[1..], x, cutoff);
    }
  }

  // ---------------------------------------------------------------------------------------
  // The limiter's state and its steps.

  datatype Limiter = Limiter(active: set<string>, queues: map<string, seq<Task>>,
                             globalQueue: seq<Task>, processing: bool, timestamps: seq<int>)

  /** What one step did. */
  datatype Outcome =
    | Busy                  // `add` found `processing` set and did not call `processQueue`
    | Idle                  // nothing queued, or every queued task waits on an active page
    | Throttled             // the window is full; a retry is scheduled in 100 ms
    | Started(task: Task)   // the task was taken off the queues and its page made active

  const Empty: Limiter := Limiter({}, map[], [], false, [])

  /** Every page queue is the global queue filtered to that page, and is never left empty. */
  predicate QueuesMatch(queues: map<string, seq<Task>>, gq: seq<Task>)
  {
    && (forall p :: p in queues ==> queues[p] == Filter(gq, p) && queues[p] != [])
    && (forall j :: 0 <= j < |gq| ==> gq[j].pageId in queues)
  }

  predicate Valid(st: Limiter)
  {
    QueuesMatch(st.queues, st.globalQueue)
  }

  function PageQueue(st: Limiter, p: string): seq<Task>
  {
    if p in st.queues then st.queues[p] else []
  }

  /** The first half of `add`: the task goes to the end of both its page queue and the global queue. */
  function Enqueue(st: Limiter, t: Task): Limiter
  {
    st.(queues := st.queues[t.pageId := PageQueue(st, t.pageId) + [t]], globalQueue := st.globalQueue + [t])
  }

  /** The synchronous part of `processQueue` up to `await task.execute()`. */
  function Dispatch(st: Limiter, now: int): (Limiter, Outcome)
    requires Valid(st)
  {
    if st.globalQueue == [] then (st.(processing := false), Idle)
    else
      var ts := Prune(st.timestamps, now - RateWindowMs);
      if |ts| >= MaxGlobalConcurrent then (st.(processing := true, timestamps := ts), Throttled)
      else
        var i := FirstEligible(st.globalQueue, st.active);
        if i == -1 then (st.(processing := false, timestamps := ts), Idle)
        else (Take(st, i, ts), Started(st.globalQueue[i]))
  }

  /** Taking the task at index `i`: `splice`, `shift` (and `delete` when that empties the page queue), then `activeRequests.add`. */
  function Take(st: Limiter, i: nat, ts: seq<int>): Limiter
    requires Valid(st) && i < |st.globalQueue|
  {
    var p := st.globalQueue[i].pageId;
    var rest := st.queues[p][1..];
    Limiter(st.active + {p}, if rest == [] then st.queues - {p} else st.queues[p := rest],
            RemoveAt(st.globalQueue, i), true, ts)
  }

  /** `add`: enqueue, then run `processQueue` unless it is already running. */
  function AddStep(st: Limiter, t: Task, now: int): (Limiter, Outcome)
    requires Valid(st)
  {
    EnqueueValid(st, t);
    var e := Enqueue(st, t);
    if st.processing then (e, Busy) else Dispatch(e, now)
  }

  /**
   * The end of a dispatched task: `task.execute()` never throws (it settles the caller's
   * promise itself), so the completion time is always recorded before the page is released.
   */
  function Completion(st: Limiter, t: Task, now: int): Limiter
  {
    st.(timestamps := st.timestamps + [now], active := st.active - {t.pageId})
  }

  /** The numerator of `getTasksPerSecond(periodInSeconds)`. */
  function RecentExecutions(st: Limiter, now: int, periodInSeconds: int): nat
  {
    |Prune(st.timestamps, now - periodInSeconds * 1000)|
  }

  // ---------------------------------------------------------------------------------------
  // Properties of the steps.

  /** `add` keeps every page queue equal to its slice of the global queue. */
  lemma EnqueueValid(st: Limiter, t: Task)
    requires Valid(st)
    ensures Valid(Enqueue(st, t))
    ensures Enqueue(st, t).globalQueue == st.globalQueue + [t]
    ensures PageQueue(Enqueue(st, t), t.pageId) == PageQueue(st, t.pageId) + [t]
  {
    var e := Enqueue(st, t);
    forall p | p in e.queues
      ensures e.queues[p] == Filter(e.globalQueue, p) && e.queues[p] != []
    {
      FilterAppend(st.globalQueue, [t], p);
      FilterSingle(t, p);
      if p == t.pageId && p !in st.queues {
        FilterEmpty(st.globalQueue, p);
      }
    }
  }

  /** A dispatch keeps the page queues consistent with the global queue. */
  lemma DispatchValid(st: Limiter, now: int)
    requires Valid(st)
    ensures Valid(Dispatch(st, now).0)
  {
    if st.globalQueue != [] {
      var ts := Prune(st.timestamps, now - RateWindowMs);
      var i := FirstEligible(st.globalQueue, st.active);
      if |ts| < MaxGlobalConcurrent && i != -1 {
        assert Dispatch(st, now).0 == Take(st, i, ts);
        TakeValid(st, i, ts);
      }
    }
  }

  /** Taking the first eligible task keeps the page queues consistent with the global queue. */
  lemma TakeValid(st: Limiter, i: nat, ts: seq<int>)
    requires Valid(st) && i < |st.globalQueue|
    requires forall j :: 0 <= j < i ==> st.globalQueue[j].pageId != st.globalQueue[i].pageId
    ensures Valid(Take(st, i, ts))
  {
    var s2 := Take(st, i, ts);
    var gq := RemoveAt(st.globalQueue, i);
    {
      forall p | p in s2.queues
        ensures s2.queues[p] == Filter(gq, p) && s2.queues[p] != []
      {
        FilterRemoveFirst(st.globalQueue, i, p);
      }
      forall j | 0 <= j < |gq|
        ensures gq[j].pageId in s2.queues
      {
        var p := gq[j].pageId;
        FilterRemoveFirst(st.globalQueue, i, p);
        FilterEmpty(gq, p);
      }
    }
  }

  /** Completion touches neither queue. */
  lemma CompletionValid(st: Limiter, t: Task, now: int)
    requires Valid(st)
    ensures Valid(Completion(st, t, now))
  {
  }

  /**
   * When a dispatch starts a task, that task is the earliest queued task whose page has
   * nothing in flight: its page was not active, every task ahead of it waits on an active
   * page, and it is the head of its own page queue.
   */
  lemma DispatchChoice(st: Limiter, now: int)
    requires Valid(st)
    requires Dispatch(st, now).1.Started?
    ensures var i := FirstEligible(st.globalQueue, st.active);
      && 0 <= i < |st.globalQueue|
      && Dispatch(st, now).1.task == st.globalQueue[i]
      && st.globalQueue[i].pageId !in st.active
      && (forall j :: 0 <= j < i ==> st.globalQueue[j].pageId in st.active)
      && st.queues[st.globalQueue[i].pageId][0] == st.globalQueue[i]
  {
    var i := FirstEligible(st.globalQueue, st.active);
    assert Dispatch(st, now).1 == Started(st.globalQueue[i]);
    FilterRemoveFirst(st.globalQueue, i, st.globalQueue[i].pageId);
  }

  /**
   * Starting a task makes its page active, takes that task alone out of the global queue and
   * the head off its page queue, leaves every other page queue as it was, keeps `processing`
   * set and leaves fewer than ten completions in the pruned window.
   */
  lemma DispatchStartState(st: Limiter, now: int)
    requires Valid(st)
    requires Dispatch(st, now).1.Started?
    ensures var (s2, o) := Dispatch(st, now);
      var i := FirstEligible(st.globalQueue, st.active);
      && 0 <= i < |st.globalQueue|
      && s2.active == st.active + {o.task.pageId}
      && s2.globalQueue == st.globalQueue[..i] + st.globalQueue[i + 1..]
      && PageQueue(s2, o.task.pageId) == st.queues[o.task.pageId][1..]
      && (forall p :: p != o.task.pageId ==> PageQueue(s2, p) == PageQueue(st, p))
      && s2.processing
      && s2.timestamps == Prune(st.timestamps, now - RateWindowMs)
      && |s2.timestamps| < MaxGlobalConcurrent
  {
    var i := FirstEligible(st.globalQueue, st.active);
    var ts := Prune(st.timestamps, now - RateWindowMs);
    assert Dispatch(st, now) == (Take(st, i, ts), Started(st.globalQueue[i]));
    TakeState(st, i, ts);
  }

  lemma TakeState(st: Limiter, i: nat, ts: seq<int>)
    requires Valid(st) && i < |st.globalQueue|
    ensures var s2 := Take(st, i, ts); var p := st.globalQueue[i].pageId;
      && s2.active == st.active + {p}
      && s2.globalQueue == st.globalQueue[..i] + st.globalQueue[i + 1..]
      && PageQueue(s2, p) == st.queues[p][1..]
      && (forall p' :: p' != p ==> PageQueue(s2, p') == PageQueue(st, p'))
      && s2.processing
      && s2.timestamps == ts
  {
  }

  /**
   * With ten or more completions in the window and a non-empty queue, nothing is started:
   * only the timestamps are pruned and `processing` stays set for the retry.
   */
  lemma DispatchThrottles(st: Limiter, now: int)
    requires Valid(st)
    requires st.globalQueue != [] && |Prune(st.timestamps, now - RateWindowMs)| >= MaxGlobalConcurrent
    ensures Dispatch(st, now) == (st.(processing := true, timestamps := Prune(st.timestamps, now - RateWindowMs)), Throttled)
    ensures forall k :: 0 <= k < |Dispatch(st, now).0.timestamps| ==> Dispatch(st, now).0.timestamps[k] > now - RateWindowMs
  {
  }

  /**
   * A dispatch is idle exactly when the queue is empty or every queued task waits on an
   * active page with room in the window; it then clears `processing` and changes no queue.
   */
  lemma DispatchIdles(st: Limiter, now: int)
    requires Valid(st)
    ensures var (s2, o) := Dispatch(st, now);
      o == Idle <==>
        (st.globalQueue == []
         || (|Prune(st.timestamps, now - RateWindowMs)| < MaxGlobalConcurrent
             && forall j :: 0 <= j < |st.globalQueue| ==> st.globalQueue[j].pageId in st.active))
    ensures var (s2, o) := Dispatch(st, now);
      o == Idle ==> !s2.processing && s2.queues == st.queues && s2.globalQueue == st.globalQueue
                    && s2.active == st.active
  {
  }

  /** No task is lost or duplicated: the started task and the new queue make up the old queue. */
  lemma DispatchConserves(st: Limiter, now: int)
    requires Valid(st)
    ensures var (s2, o) := Dispatch(st, now);
      multiset(st.globalQueue) == multiset(s2.globalQueue) + (if o.Started? then multiset{o.task} else multiset{})
  {
    var (s2, o) := Dispatch(st, now);
    if o.Started? {
      var i := FirstEligible(st.globalQueue, st.active);
      var q := st.globalQueue;
      assert q == q[..i] + [q[i]] + q[i + 1..];
    }
  }

  /**
   * `getActiveRequestsCount` goes up by one when a task starts and down by one when an active
   * page's task completes; its value is the number of pages with a task in flight.
   */
  lemma ActiveCountSteps(st: Limiter, now: int, t: Task)
    requires Valid(st)
    ensures Dispatch(st, now).1.Started? ==> |Dispatch(st, now).0.active| == |st.active| + 1
    ensures t.pageId in st.active ==> |Completion(st, t, now).active| == |st.active| - 1
  {
  }

  /**
   * `getTasksPerSecond` counts only completions strictly after the cutoff: at most all of
   * them, and all of them exactly when none is at or before the cutoff.
   */
  lemma RecentExecutionsBounds(st: Limiter, now: int, periodInSeconds: int)
    ensures RecentExecutions(st, now, periodInSeconds) <= |st.timestamps|
    ensures RecentExecutions(st, now, periodInSeconds) == |st.timestamps|
            <==> forall k :: 0 <= k < |st.timestamps| ==> st.timestamps[k] > now - periodInSeconds * 1000
  {
    var cutoff := now - periodInSeconds * 1000;
    var ts := Prune(st.timestamps, cutoff);
    PruneExtremes(st.timestamps, cutoff);
    if |ts| == |st.timestamps| && ts != st.timestamps {
      var k :| 0 <= k < |st.timestamps| && st.timestamps[k] <= cutoff;
      PruneDrops(st.timestamps, cutoff, k);
    }
  }

  /**
   * The pruning a dispatch does loses nothing a later ten-second count would see, and the
   * dispatch's own window test reads the same count.
   */
  lemma PruneKeepsWindow(st: Limiter, now: int, later: int)
    requires later >= now
    ensures var pruned := st.(timestamps := Prune(st.timestamps, now - RateWindowMs));
      RecentExecutions(pruned, later, RateWindowMs / 1000) == RecentExecutions(st, later, RateWindowMs / 1000)
    ensures RecentExecutions(st, now, RateWindowMs / 1000) == |Prune(st.timestamps, now - RateWindowMs)|
  {
    var window := RateWindowMs / 1000;
    assert window * 1000 == RateWindowMs;
    PruneTwice(st.timestamps, now - RateWindowMs, later - RateWindowMs);
  }

  /** Pruning away an old timestamp shortens the list. */
  lemma {:induction false} PruneDrops(ts: seq<int>, cutoff: int, k: nat)
    requires k < |ts| && ts[k] <= cutoff
    ensures |Prune(ts, cutoff)| < |ts|
    decreases |ts|
  {
    if k > 0 {
      PruneDrops(ts[1..], cutoff, k - 1);
    }
  }

  /** A completion adds one timestamp, and it counts in any window that contains `now`. */
  lemma CompletionCounts(st: Limiter, t: Task, now: int, periodInSeconds: int)
    requires periodInSeconds > 0
    ensures RecentExecutions(Completion(st, t, now), now, periodInSeconds)
            == RecentExecutions(st, now, periodInSeconds) + 1
  {
    var cutoff := now - periodInSeconds * 1000;
    assert now > cutoff;
    PruneSnoc(st.timestamps, now, cutoff);
  }

  // ---------------------------------------------------------------------------------------
  // The class.

  class RateLimiter {
    var activeRequests: set<string>
    var queues: map<string, seq<Task>>
    var globalQueue: seq<Task>
    var processing: bool
    var executionTimestamps: seq<int>

    function Snapshot(): Limiter
      reads this
    {
      Limiter(activeRequests, queues, globalQueue, processing, executionTimestamps)
    }

    ghost predicate Invariant()
      reads this
    {
      Valid(Snapshot())
    }

    constructor()
      ensures Snapshot() == Empty
      ensures Invariant()
    {
      activeRequests := {};
      queues := map[];
      globalQueue := [];
      processing := false;
      executionTimestamps := [];
    }

    /** `add(pageId, task)`, with the clock reading that a synchronous `processQueue` would take. */
    method Add(t: Task, now: int) returns (outcome: Outcome)
      requires Invariant()
      modifies this
      ensures (Snapshot(), outcome) == AddStep(old(Snapshot()), t, now)
      ensures Invariant()
    {
      EnqueueValid(Snapshot(), t);
      if t.pageId !in queues {
        queues := queues[t.pageId := []];
      }
      queues := queues[t.pageId := queues[t.pageId] + [t]];
      globalQueue := globalQueue + [t];
      assert Snapshot() == Enqueue(old(Snapshot()), t);
      if !processing {
        outcome := ProcessQueue(now);
      } else {
        outcome := Busy;
      }
    }

    /** One run of `processQueue` up to the `await` of the started task. */
    method ProcessQueue(now: int) returns (outcome: Outcome)
      requires Invariant()
      modifies this
      ensures (Snapshot(), outcome) == Dispatch(old(Snapshot()), now)
      ensures Invariant()
    {
      DispatchValid(Snapshot(), now);
      if |globalQueue| == 0 {
        processing := false;
        return Idle;
      }
      processing := true;
      executionTimestamps := Prune(executionTimestamps, now - RateWindowMs);
      if |executionTimestamps| >= MaxGlobalConcurrent {
        return Throttled;
      }
      var taskIndex := FirstEligible(globalQueue, activeRequests);
      if taskIndex == -1 {
        processing := false;
        return Idle;
      }
      var task := globalQueue[taskIndex];
      globalQueue := globalQueue[..taskIndex] + globalQueue[taskIndex + 1..];
      var pageQueue := queues[task.pageId];
      pageQueue := pageQueue[1..];
      if |pageQueue| == 0 {
        queues := queues - {task.pageId};
      } else {
        queues := queues[task.pageId := pageQueue];
      }
      activeRequests := activeRequests + {task.pageId};
      outcome := Started(task);
    }

    /** The `finally` after a started task: its completion time is recorded and its page released. */
    method Complete(t: Task, now: int)
      requires Invariant()
      modifies this
      ensures Snapshot() == Completion(old(Snapshot()), t, now)
      ensures Invariant()
    {
      executionTimestamps := executionTimestamps + [now];
      activeRequests := activeRequests - {t.pageId};
    }

    /** The count behind `getTasksPerSecond(periodInSeconds)`, which divides it by the period. */
    function TasksPerSecondCount(now: int, periodInSeconds: int): (n: nat)
      reads this
      ensures n <= |executionTimestamps|
      ensures n == 0 <==> forall k :: 0 <= k < |executionTimestamps| ==> executionTimestamps[k] <= now - periodInSeconds * 1000
    {
      PruneExtremes(executionTimestamps, now - periodInSeconds * 1000);
      RecentExecutions(Snapshot(), now, periodInSeconds)
    }

    /** `getActiveRequestsCount()`. */
    function ActiveRequestsCount(): (n: nat)
      reads this
      ensures n == |Snapshot().active|
    {
      |activeRequests|
    }
  }
}
