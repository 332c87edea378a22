/** The per-CPU work queue of cpus-common.c: callers queue work items at the
    tail of `cpu->work_list`, and the CPU thread drains the queue in order,
    running each item's function. The BQL juggling, the exclusive section
    and the condition-variable wake-ups are outside the model; running a
    function is recorded by appending the item to a trace. */
module CpuWork {
  import opened Wrappers

  /** `struct qemu_work_item`: the function and its argument are opaque
      identifiers; `free` items are heap-allocated and freed after running,
      the others belong to a waiting `run_on_cpu` caller, which watches
      `done`. */
  datatype WorkItem = WorkItem(
    func: nat,
    data: nat,
    free: bool,
    exclusive: bool,
    done: bool,
    bql: bool)

  /** The CPU side of the queue: the pending `work_list`, the trace of
      functions run so far, and the caller-owned items signalled done. */
  datatype Worker = Worker(
    workList: seq<WorkItem>,
    executed: seq<WorkItem>,
    completed: seq<WorkItem>)

  /** The `g_assert(!wi->bql)` that aborts processing of an exclusive item
      that asks for the BQL. */
  datatype WorkAbort = ExclusiveWorkWantsBql(item: WorkItem)

  /** An item the processing loop can run without failing its assertion. */
  predicate Runnable(wi: WorkItem) {
    wi.exclusive ==> !wi.bql
  }

  /** `queue_work_on_cpu_locked` (and `queue_work_on_cpu`, which only adds
      the CPU lock around it): append at the tail and clear `done`. */
  function QueueWork(work: seq<WorkItem>, wi: WorkItem): (r: seq<WorkItem>)
    ensures |r| == |work| + 1 && r[..|work|] == work
    ensures r[|work|] == wi.(done := false)
  {
    work + [wi.(done := false)]
  }

  /** The item `async_run_on_cpu` queues: freed after running, not
      exclusive, run with the BQL held. */
  function AsyncItem(func: nat, data: nat): (wi: WorkItem)
    ensures wi.func == func && wi.data == data
    ensures wi.free && !wi.exclusive && wi.bql && !wi.done
  {
    WorkItem(func, data, free := true, exclusive := false, done := false, bql := true)
  }

  /** The item `async_run_on_cpu_no_bql` queues: freed after running, not
      exclusive, run without the BQL. */
  function AsyncNoBqlItem(func: nat, data: nat): (wi: WorkItem)
    ensures wi.func == func && wi.data == data
    ensures wi.free && !wi.exclusive && !wi.bql && !wi.done
  {
    WorkItem(func, data, free := true, exclusive := false, done := false, bql := false)
  }

  /** The item `async_safe_run_on_cpu` queues: freed after running, run in
      an exclusive section without the BQL. */
  function AsyncSafeItem(func: nat, data: nat): (wi: WorkItem)
    ensures wi.func == func && wi.data == data
    ensures wi.free && wi.exclusive && !wi.bql && !wi.done
  {
    WorkItem(func, data, free := true, exclusive := true, done := false, bql := false)
  }

  /** The item `run_on_cpu` queues when the target is another CPU: it lives
      on the caller's stack, so it is not freed but signalled done. */
  function SyncItem(func: nat, data: nat): (wi: WorkItem)
    ensures wi.func == func && wi.data == data
    ensures !wi.free && !wi.exclusive && wi.bql && !wi.done
  {
    WorkItem(func, data, free := false, exclusive := false, done := false, bql := true)
  }

  /** `async_run_on_cpu`. */
  function AsyncRunOnCpu(work: seq<WorkItem>, func: nat, data: nat): (r: seq<WorkItem>)
    ensures r == work + [AsyncItem(func, data)]
  {
    QueueWork(work, AsyncItem(func, data))
  }

  /** `async_run_on_cpu_no_bql`. */
  function AsyncRunOnCpuNoBql(work: seq<WorkItem>, func: nat, data: nat): (r: seq<WorkItem>)
    ensures r == work + [AsyncNoBqlItem(func, data)]
  {
    QueueWork(work, AsyncNoBqlItem(func, data))
  }

  /** `async_safe_run_on_cpu`. */
  function AsyncSafeRunOnCpu(work: seq<WorkItem>, func: nat, data: nat): (r: seq<WorkItem>)
    ensures r == work + [AsyncSafeItem(func, data)]
  {
    QueueWork(work, AsyncSafeItem(func, data))
  }

  /** The caller-owned items among `items`, in order, as they look once
      processing has set their `done` flag. */
  function Completions(items: seq<WorkItem>): (r: seq<WorkItem>)
    ensures forall k :: 0 <= k < |r| ==> r[k].done && !r[k].free
    ensures forall k :: 0 <= k < |r| ==>
              exists j :: 0 <= j < |items| && !items[j].free && r[k] == items[j].(done := true)
    ensures |r| <= |items|
  {
    if items == [] then []
    else
      var prefix := items[..|items| - 1];
      var last := items[|items| - 1];
      assert forall k :: 0 <= k < |prefix| ==> prefix[k] == items[k];
      Completions(prefix) + (if last.free then [] else [last.(done := true)])
  }

  /** Every caller-owned item of the queue is among the completions, with
      `done` set, so no `run_on_cpu` caller is left waiting. */
  lemma {:induction false} CompletionsCoverCallerItems(items: seq<WorkItem>)
    ensures forall k :: 0 <= k < |items| && !items[k].free ==> items[k].(done := true) in Completions(items)
  {
    if items != [] {
      var prefix := items[..|items| - 1];
      CompletionsCoverCallerItems(prefix);
      assert forall k :: 0 <= k < |prefix| ==> prefix[k] == items[k];
    }
  }

  /** Completions are taken in queue order: those of a queue followed by
      more items are the completions of the first part followed by those of
      the rest. */
  lemma {:induction false} CompletionsAppend(a: seq<WorkItem>, b: seq<WorkItem>)
    ensures Completions(a + b) == Completions(a) + Completions(b)
    decreases |b|
  {
    if b == [] {
      assert a + b == a;
    } else {
      var front := b[..|b| - 1];
      CompletionsAppend(a, front);
      assert (a + b)[..|a + b| - 1] == a + front;
      assert (a + b)[|a + b| - 1] == b[|b| - 1];
    }
  }

  /** Processing one more item of a queue extends the trace and the
      completions by that item alone. */
  lemma CompletionsStep(items: seq<WorkItem>, taken: nat)
    requires taken < |items|
    ensures items[..taken + 1] == items[..taken] + [items[taken]]
    ensures Completions(items[..taken + 1])
            == Completions(items[..taken]) + (if items[taken].free then [] else [items[taken].(done := true)])
  {
    assert items[..taken + 1][..taken] == items[..taken];
  }

  /** `process_queued_cpu_work` (and its `_locked` body): pop the items from
      the head of the queue one by one and run each; a caller-owned item is
      then marked done, a heap item is freed. An exclusive item that asks
      for the BQL fails the assertion and aborts. */
  method ProcessQueuedCpuWork(w: Worker) returns (r: Result<Worker, WorkAbort>)
    ensures r.Success? <==> forall k :: 0 <= k < |w.workList| ==> Runnable(w.workList[k])
    ensures r.Success? ==> r.value.workList == []
    ensures r.Success? ==> r.value.executed == w.executed + w.workList
    ensures r.Success? ==> r.value.completed == w.completed + Completions(w.workList)
    ensures r.Failure? ==> exists k :: 0 <= k < |w.workList| && r.error.item == w.workList[k] && !Runnable(w.workList[k])
  {
    if w.workList == [] {
      return Success(w);
    }
    var queue := w.workList;
    var executed := w.executed;
    var completed := w.completed;
    ghost var taken := 0;
    while queue != []
      invariant 0 <= taken <= |w.workList|
      invariant queue == w.workList[taken..]
      invariant executed == w.executed + w.workList[..taken]
      invariant completed == w.completed + Completions(w.workList[..taken])
      invariant forall k :: 0 <= k < taken ==> Runnable(w.workList[k])
      decreases |queue|
    {
      var wi := queue[0];
      assert wi == w.workList[taken];
      queue := queue[1..];
      if wi.exclusive && wi.bql {
        return Failure(ExclusiveWorkWantsBql(wi));
      }
      executed := executed + [wi];
      if !wi.free {
        completed := completed + [wi.(done := true)];
      }
      CompletionsStep(w.workList, taken);
      taken := taken + 1;
    }
    assert w.workList[..taken] == w.workList;
    return Success(Worker([], executed, completed));
  }

  /** Every item the constructors build passes the assertion of the
      exclusive branch. */
  lemma ConstructedItemsAreRunnable(func: nat, data: nat)
    ensures Runnable(AsyncItem(func, data)) && Runnable(AsyncNoBqlItem(func, data))
    ensures Runnable(AsyncSafeItem(func, data)) && Runnable(SyncItem(func, data))
  {
  }

  /** A step of filling a CPU's queue through one of the public entry points. */
  datatype Request =
    | Async(func: nat, data: nat)
    | AsyncNoBql(func: nat, data: nat)
    | AsyncSafe(func: nat, data: nat)
    | Sync(func: nat, data: nat)

  /** The item a request queues. */
  function ItemFor(req: Request): WorkItem {
    match req
    case Async(f, d) => AsyncItem(f, d)
    case AsyncNoBql(f, d) => AsyncNoBqlItem(f, d)
    case AsyncSafe(f, d) => AsyncSafeItem(f, d)
    case Sync(f, d) => SyncItem(f, d)
  }

  /** Queues the requests in order on an existing queue. */
  function Submit(work: seq<WorkItem>, reqs: seq<Request>): seq<WorkItem>
    decreases reqs
  {
    if reqs == [] then work else Submit(QueueWork(work, ItemFor(reqs[0])), reqs[1..])
  }

  /** Queuing through the entry points appends the items in request order
      behind the existing ones, and never queues an item that would fail the
      exclusive branch's assertion; so a queue filled only this way always
      drains, and runs its items in the order they were requested. */
  lemma {:induction false} SubmitAppendsRunnable(work: seq<WorkItem>, reqs: seq<Request>)
    ensures |Submit(work, reqs)| == |work| + |reqs|
    ensures Submit(work, reqs)[..|work|] == work
    ensures forall k :: 0 <= k < |reqs| ==> Submit(work, reqs)[|work| + k] == ItemFor(reqs[k])
    ensures (forall k :: 0 <= k < |work| ==> Runnable(work[k])) ==>
              forall k :: 0 <= k < |Submit(work, reqs)| ==> Runnable(Submit(work, reqs)[k])
    decreases reqs
  {
    if reqs != [] {
      var next := QueueWork(work, ItemFor(reqs[0]));
      SubmitAppendsRunnable(next, reqs[1..]);
      var r := Submit(work, reqs);
      assert r == Submit(next, reqs[1..]);
      assert r[..|work|] == r[..|next|][..|work|];
      assert r[|work|] == ItemFor(reqs[0]);
      forall k | 0 <= k < |reqs|
        ensures r[|work| + k] == ItemFor(reqs[k])
      {
        if k > 0 {
          assert r[|next| + (k - 1)] == ItemFor(reqs[1..][k - 1]);
        }
      }
    }
  }
}
