/**
 * The background executor a repository submits its writes to. Both
 * executors the app builds, `newFixedThreadPool(n)` and
 * `newSingleThreadExecutor()`, hand tasks to `n` worker threads from one
 * FIFO work queue, and each task is one database write that takes effect
 * all at once. So, of the tasks not yet applied (kept in submission order),
 * the next to take effect is one of the first `n`: with one thread that is
 * always the oldest, with two a newer write may overtake an older one that
 * is still running. A schedule lists, for each step, the position in the
 * pending queue of the task that takes effect.
 */
module Executor {

  /** Worker threads of `Executors.newFixedThreadPool(2)`, the item repository's executor. */
  const ITEM_POOL_THREADS: nat := 2
  /** Worker threads of `Executors.newSingleThreadExecutor()`, the category repository's executor. */
  const SINGLE_THREAD: nat := 1

  /** Whether the task at position `k` of `pending` can be the next to take effect. */
  predicate CanRunNext<T>(pending: seq<T>, threads: nat, k: nat)
    ensures threads == SINGLE_THREAD ==> (CanRunNext(pending, threads, k) <==> pending != [] && k == 0)
    ensures CanRunNext(pending, threads, k) ==> k < threads
  {
    k < |pending| && k < threads
  }

  /** The queue once the task at position `k` has taken effect. */
  function Take<T>(pending: seq<T>, k: nat): (rest: seq<T>)
    requires k < |pending|
    ensures |rest| == |pending| - 1
  {
    pending[..k] + pending[k + 1..]
  }

  /** Taking a task out of the queue loses no other task and duplicates none. */
  lemma TakeKeepsOthers<T>(pending: seq<T>, k: nat)
    requires k < |pending|
    ensures multiset(Take(pending, k)) + multiset{pending[k]} == multiset(pending)
  {
    assert pending == pending[..k] + [pending[k]] + pending[k + 1..];
  }

  /** A sequence of steps the executor can take from `pending`. */
  predicate LegalSchedule<T>(pending: seq<T>, threads: nat, choices: seq<nat>)
    ensures LegalSchedule(pending, threads, choices) ==> |choices| <= |pending|
    decreases |choices|
  {
    choices == []
    || (CanRunNext(pending, threads, choices[0])
        && LegalSchedule(Take(pending, choices[0]), threads, choices[1..]))
  }

  /** The tasks in the order a legal schedule applies them. */
  function CompletionOrder<T>(pending: seq<T>, threads: nat, choices: seq<nat>): (r: seq<T>)
    requires LegalSchedule(pending, threads, choices)
    ensures |r| == |choices|
    decreases |choices|
  {
    if choices == [] then []
    else [pending[choices[0]]] + CompletionOrder(Take(pending, choices[0]), threads, choices[1..])
  }

  /** The first step of a schedule completes the task it picks, ahead of the rest. */
  lemma CompletionOrderStep<T>(pending: seq<T>, threads: nat, choices: seq<nat>)
    requires LegalSchedule(pending, threads, choices) && choices != []
    ensures CompletionOrder(pending, threads, choices)
            == [pending[choices[0]]] + CompletionOrder(Take(pending, choices[0]), threads, choices[1..])
  {
  }

  /** What a DAO records when the tasks `ts` run one after another, each making the call
      `call` names for it. */
  function Log<T, C>(ts: seq<T>, call: T -> C): (r: seq<C>)
    ensures |r| == |ts|
  {
    if ts == [] then [] else [call(ts[0])] + Log(ts[1..], call)
  }

  /** The `i`-th entry of the log is the call of the `i`-th task. */
  lemma {:induction false} LogSpec<T, C>(ts: seq<T>, call: T -> C)
    ensures forall i :: 0 <= i < |ts| ==> Log(ts, call)[i] == call(ts[i])
    decreases |ts|
  {
    if ts != [] {
      LogSpec(ts[1..], call);
      forall i | 0 < i < |ts| ensures Log(ts, call)[i] == call(ts[i]) {
        assert Log(ts, call)[i] == Log(ts[1..], call)[i - 1];
      }
    }
  }

  /** The first step of a drain makes its task's call ahead of the others. */
  lemma DrainStepLog<T, C>(pending: seq<T>, threads: nat, choices: seq<nat>, call: T -> C)
    requires LegalSchedule(pending, threads, choices) && choices != []
    ensures Log(CompletionOrder(pending, threads, choices), call)
            == [call(pending[choices[0]])] + Log(CompletionOrder(Take(pending, choices[0]), threads, choices[1..]), call)
  {
    var order := CompletionOrder(pending, threads, choices);
    CompletionOrderStep(pending, threads, choices);
    assert order[1..] == CompletionOrder(Take(pending, choices[0]), threads, choices[1..]);
  }

  /** A schedule that drains the queue applies every submitted task exactly once. */
  lemma {:induction false} DrainAppliesEachOnce<T>(pending: seq<T>, threads: nat, choices: seq<nat>)
    requires LegalSchedule(pending, threads, choices) && |choices| == |pending|
    ensures multiset(CompletionOrder(pending, threads, choices)) == multiset(pending)
    decreases |choices|
  {
    if choices != [] {
      TakeKeepsOthers(pending, choices[0]);
      DrainAppliesEachOnce(Take(pending, choices[0]), threads, choices[1..]);
    }
  }

  /** With one worker thread the tasks take effect in submission order. */
  lemma {:induction false} SingleThreadIsFifo<T>(pending: seq<T>, choices: seq<nat>)
    requires LegalSchedule(pending, SINGLE_THREAD, choices)
    ensures |choices| <= |pending|
    ensures CompletionOrder(pending, SINGLE_THREAD, choices) == pending[..|choices|]
    decreases |choices|
  {
    if choices != [] {
      assert choices[0] == 0;
      var rest := Take(pending, 0);
      assert rest == pending[1..];
      SingleThreadIsFifo(rest, choices[1..]);
      calc {
        CompletionOrder(pending, SINGLE_THREAD, choices);
        [pending[0]] + CompletionOrder(rest, SINGLE_THREAD, choices[1..]);
        [pending[0]] + pending[1..][..|choices| - 1];
        { assert |choices| - 1 == |choices[1..]|; }
        pending[..|choices|];
      }
    }
  }

  /** With one worker thread the only drain is the one taking the oldest task every time. */
  lemma {:induction false} SingleThreadDrain<T>(pending: seq<T>)
    ensures LegalSchedule(pending, SINGLE_THREAD, seq(|pending|, _ => 0))
    ensures CompletionOrder(pending, SINGLE_THREAD, seq(|pending|, _ => 0)) == pending
    decreases |pending|
  {
    var choices: seq<nat> := seq(|pending|, _ => 0);
    if pending != [] {
      SingleThreadDrain(pending[1..]);
      assert Take(pending, 0) == pending[1..];
      assert choices[1..] == seq(|pending[1..]|, _ => 0);
    }
  }

  /** With two worker threads the second of two queued tasks may take effect first:
      the pool promises no order among pending writes. */
  lemma TwoThreadsMayReorder<T>(a: T, b: T)
    ensures LegalSchedule([a, b], ITEM_POOL_THREADS, [0, 0])
    ensures CompletionOrder([a, b], ITEM_POOL_THREADS, [0, 0]) == [a, b]
    ensures LegalSchedule([a, b], ITEM_POOL_THREADS, [1, 0])
    ensures CompletionOrder([a, b], ITEM_POOL_THREADS, [1, 0]) == [b, a]
  {
    assert Take([a, b], 0) == [b];
    assert Take([a, b], 1) == [a];
    assert Take([b], 0) == [] && Take([a], 0) == [];
    assert [0, 0][1..] == [0] && [1, 0][1..] == [0] && [0][1..] == [];
  }
}
