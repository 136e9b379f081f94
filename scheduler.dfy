/**
  The bookkeeping of `downloadWithConcurrency` (download.js:368-444) and the
  summary counts that follow it (download.js:967-968).

  JavaScript runs one callback at a time, so the workers interleave only at
  their `await`s; between two of them a worker's steps are atomic. A worker
  is therefore a small state machine, and any interleaving of the workers is
  a sequence of its steps on one shared `Pool`:
    - `Claim`: the loop test and the read-and-advance of the shared cursor
      (download.js:387-388);
    - `Record`: the settled download's result stored at the claimed index
      and the completion counter advanced (download.js:392-394), followed by the pause
      between articles when some remain (download.js:417-419);
    - `Resume`: the pause ends;
    - `PauseFailed`: the pause rejects, and the `catch` overwrites the slot
      with a failure and counts the article a second time
      (download.js:420-422).
 */
module Scheduler {
  import opened Wrappers

  /** What the download of one article reports: whether it succeeded, the
      article's title, and the error message of a failure. */
  datatype ItemResult = ItemResult(success: bool, title: string, error: Option<string>)

  /** Where a worker is in its `while` loop. */
  datatype Worker =
    | Idle                   // at the loop test
    | Downloading(index: nat) // awaiting `downloadArticleSilent` for `index`
    | Pausing(index: nat)     // awaiting the delay after recording `index`

  /** The number of pages opened: the smaller of the concurrency and the
      number of articles, and none when the concurrency is zero or negative. */
  function PoolSize(concurrency: int, total: nat): (n: nat)
    ensures n <= total
    ensures n == 0 <==> concurrency <= 0 || total == 0
    ensures 0 < concurrency ==> n == if concurrency < total then concurrency else total
  {
    if concurrency <= 0 then 0 else if concurrency < total then concurrency else total
  }

  /** The slots of `results` that hold a result. */
  function Filled(results: seq<Option<ItemResult>>): (n: nat)
    ensures n <= |results|
  {
    if results == [] then 0 else (if results[0].Some? then 1 else 0) + Filled(results[1..])
  }

  lemma {:induction false} FilledAll(results: seq<Option<ItemResult>>)
    ensures Filled(results) == |results| <==> forall i :: 0 <= i < |results| ==> results[i].Some?
  {
    if results != [] {
      FilledAll(results[1..]);
      assert forall i :: 1 <= i < |results| ==> results[i] == results[1..][i - 1];
    }
  }

  lemma {:induction false} FilledUpdate(results: seq<Option<ItemResult>>, i: nat, r: ItemResult)
    requires i < |results|
    ensures Filled(results[i := Some(r)]) == Filled(results) + (if results[i].None? then 1 else 0)
  {
    if i > 0 {
      FilledUpdate(results[1..], i - 1, r);
      assert results[i := Some(r)][1..] == results[1..][i - 1 := Some(r)];
    } else {
      assert results[i := Some(r)][1..] == results[1..];
    }
  }

  /** The number of successful results. Counting with `filter` skips the
      slots that were never written. */
  function SuccessCount(results: seq<Option<ItemResult>>): (n: nat)
    ensures n <= Filled(results)
  {
    if results == [] then 0
    else (if results[0].Some? && results[0].value.success then 1 else 0) + SuccessCount(results[1..])
  }

  /** The number of failed results, skipping unwritten slots likewise. */
  function FailCount(results: seq<Option<ItemResult>>): (n: nat)
    ensures n <= Filled(results)
  {
    if results == [] then 0
    else (if results[0].Some? && !results[0].value.success then 1 else 0) + FailCount(results[1..])
  }

  /** Every written slot is counted once, as a success or as a failure. */
  lemma {:induction false} CountsPartition(results: seq<Option<ItemResult>>)
    ensures SuccessCount(results) + FailCount(results) == Filled(results)
  {
    if results != [] {
      CountsPartition(results[1..]);
    }
  }

  /** Steps a worker has left before it is back at the loop test. */
  function Weight(w: Worker): nat {
    match w
    case Idle => 0
    case Downloading(_) => 2
    case Pausing(_) => 1
  }

  function Pending(ws: seq<Worker>): nat {
    if ws == [] then 0 else Weight(ws[0]) + Pending(ws[1..])
  }

  lemma {:induction false} PendingUpdate(ws: seq<Worker>, w: nat, x: Worker)
    requires w < |ws|
    ensures Pending(ws[w := x]) == Pending(ws) - Weight(ws[w]) + Weight(x)
  {
    if w > 0 {
      PendingUpdate(ws[1..], w - 1, x);
      assert ws[w := x][1..] == ws[1..][w - 1 := x];
    } else {
      assert ws[w := x][1..] == ws[1..];
    }
  }

  /** How the workers' states, the result slots and the cursor fit
      together: a busy worker holds an index already handed out, no two
      hold the same one, a worker still downloading has nothing recorded
      yet, a pausing one has, only handed-out slots are written, and every
      handed-out slot not yet written is some worker's download. */
  ghost predicate Consistent(ws: seq<Worker>, results: seq<Option<ItemResult>>, cursor: nat) {
    && cursor <= |results|
    && (forall w :: 0 <= w < |ws| && !ws[w].Idle? ==> ws[w].index < cursor)
    && (forall w, v :: 0 <= w < v < |ws| && !ws[w].Idle? && !ws[v].Idle? ==> ws[w].index != ws[v].index)
    && (forall w :: 0 <= w < |ws| && ws[w].Downloading? ==> results[ws[w].index].None?)
    && (forall w :: 0 <= w < |ws| && ws[w].Pausing? ==> results[ws[w].index].Some?)
    && (forall i :: 0 <= i < |results| && results[i].Some? ==> i < cursor)
    && (forall i :: 0 <= i < cursor && results[i].None? ==> exists w :: 0 <= w < |ws| && ws[w] == Downloading(i))
  }

  lemma ClaimKeepsConsistent(ws: seq<Worker>, results: seq<Option<ItemResult>>, cursor: nat, w: nat)
    requires Consistent(ws, results, cursor) && w < |ws| && ws[w].Idle? && cursor < |results|
    ensures Consistent(ws[w := Downloading(cursor)], results, cursor + 1)
  {
    var ws' := ws[w := Downloading(cursor)];
    forall i | 0 <= i < cursor + 1 && results[i].None?
      ensures exists v :: 0 <= v < |ws'| && ws'[v] == Downloading(i)
    {
      if i == cursor {
        assert ws'[w] == Downloading(i);
      } else {
        var v :| 0 <= v < |ws| && ws[v] == Downloading(i);
        assert ws'[v] == Downloading(i);
      }
    }
  }

  lemma RecordKeepsConsistent(ws: seq<Worker>, results: seq<Option<ItemResult>>, cursor: nat, w: nat, r: ItemResult, next: Worker)
    requires Consistent(ws, results, cursor) && w < |ws| && ws[w].Downloading?
    requires next == Idle || next == Pausing(ws[w].index)
    ensures Consistent(ws[w := next], results[ws[w].index := Some(r)], cursor)
  {
    var ws', results' := ws[w := next], results[ws[w].index := Some(r)];
    forall i | 0 <= i < cursor && results'[i].None?
      ensures exists v :: 0 <= v < |ws'| && ws'[v] == Downloading(i)
    {
      var v :| 0 <= v < |ws| && ws[v] == Downloading(i);
      assert ws'[v] == Downloading(i);
    }
  }

  lemma ResumeKeepsConsistent(ws: seq<Worker>, results: seq<Option<ItemResult>>, cursor: nat, w: nat)
    requires Consistent(ws, results, cursor) && w < |ws| && ws[w].Pausing?
    ensures Consistent(ws[w := Idle], results, cursor)
  {
    var ws' := ws[w := Idle];
    forall i | 0 <= i < cursor && results[i].None?
      ensures exists v :: 0 <= v < |ws'| && ws'[v] == Downloading(i)
    {
      var v :| 0 <= v < |ws| && ws[v] == Downloading(i);
      assert ws'[v] == Downloading(i);
    }
  }

  lemma PauseFailedKeepsConsistent(ws: seq<Worker>, results: seq<Option<ItemResult>>, cursor: nat, w: nat, r: ItemResult)
    requires Consistent(ws, results, cursor) && w < |ws| && ws[w].Pausing?
    ensures Consistent(ws[w := Idle], results[ws[w].index := Some(r)], cursor)
  {
    var ws', results' := ws[w := Idle], results[ws[w].index := Some(r)];
    forall i | 0 <= i < cursor && results'[i].None?
      ensures exists v :: 0 <= v < |ws'| && ws'[v] == Downloading(i)
    {
      var v :| 0 <= v < |ws| && ws[v] == Downloading(i);
      assert ws'[v] == Downloading(i);
    }
  }

  class Pool {
    /** `article.title` of each article, which the `catch` reports. */
    const titles: seq<string>
    const total: nat
    const workers: nat
    /** `currentIndex` */
    var cursor: nat
    var completed: nat
    var results: seq<Option<ItemResult>>
    var ws: seq<Worker>
    /** The indices handed out so far. */
    ghost var claimed: set<nat>
    /** How many pauses rejected after their article was recorded. */
    ghost var pauseFailures: nat
    /** The indices whose pause rejected. */
    ghost var failed: set<nat>

    ghost predicate Valid()
      reads this
    {
      && total == |titles| && |results| == total && |ws| == workers
      && cursor <= total
      && (forall i :: i in claimed <==> 0 <= i < cursor)
      && Consistent(ws, results, cursor)
      && completed == Filled(results) + pauseFailures
      && failed <= claimed && |failed| == pauseFailures
      && (forall w :: 0 <= w < |ws| && !ws[w].Idle? ==> ws[w].index !in failed)
    }

    /** Opening the pool: `min(concurrency, total)` idle workers, nothing
        claimed, nothing written. */
    constructor (titles: seq<string>, concurrency: int)
      ensures Valid()
      ensures this.titles == titles && total == |titles| && workers == PoolSize(concurrency, |titles|)
      ensures cursor == 0 && completed == 0 && claimed == {} && pauseFailures == 0 && failed == {}
      ensures results == Unwritten(|titles|)
      ensures ws == seq(PoolSize(concurrency, |titles|), _ => Idle)
    {
      this.titles := titles;
      total := |titles|;
      workers := PoolSize(concurrency, |titles|);
      cursor := 0;
      completed := 0;
      results := Unwritten(|titles|);
      ws := seq(PoolSize(concurrency, |titles|), _ => Idle);
      claimed := {};
      pauseFailures := 0;
      failed := {};
      new;
      FilledNone(|titles|);
    }

    /** A worker that can take a step: an idle one while articles remain, or
        one awaiting something. */
    predicate CanStep(w: nat)
      reads this
      requires w < |ws|
    {
      !ws[w].Idle? || cursor < total
    }

    /** Reading and advancing the cursor: the index handed out is one never
        handed out before, and the next one in order. */
    method Claim(w: nat) returns (index: nat)
      requires Valid() && w < workers && ws[w].Idle? && cursor < total
      modifies this
      ensures Valid()
      ensures index == old(cursor) && index !in old(claimed) && claimed == old(claimed) + {index}
      ensures cursor == old(cursor) + 1
      ensures ws == old(ws)[w := Downloading(index)]
      ensures results == old(results) && completed == old(completed) && pauseFailures == old(pauseFailures)
      ensures failed == old(failed)
    {
      index := cursor;
      cursor := cursor + 1;
      claimed := claimed + {index};
      ClaimKeepsConsistent(ws, results, index, w);
      ws := ws[w := Downloading(index)];
    }

    /** Storing a settled download: the result lands in the slot the worker
        claimed and nowhere else, `completed` goes up by one, and the worker
        then pauses if articles remain. */
    method Record(w: nat, r: ItemResult)
      requires Valid() && w < workers && ws[w].Downloading?
      modifies this
      ensures Valid()
      ensures results == old(results)[old(ws[w].index) := Some(r)]
      ensures old(ws[w].index) in claimed && old(results[ws[w].index]).None?
      ensures completed == old(completed) + 1
      ensures ws == old(ws)[w := if cursor < total then Pausing(old(ws[w].index)) else Idle]
      ensures cursor == old(cursor) && claimed == old(claimed) && pauseFailures == old(pauseFailures)
      ensures failed == old(failed)
    {
      var index := ws[w].index;
      var next := if cursor < total then Pausing(index) else Idle;
      FilledUpdate(results, index, r);
      RecordKeepsConsistent(ws, results, cursor, w, r, next);
      results := results[index := Some(r)];
      completed := completed + 1;
      ws := ws[w := next];
    }

    /** The pause between articles ends. */
    method Resume(w: nat)
      requires Valid() && w < workers && ws[w].Pausing?
      modifies this
      ensures Valid()
      ensures ws == old(ws)[w := Idle]
      ensures results == old(results) && completed == old(completed) && cursor == old(cursor)
      ensures claimed == old(claimed) && pauseFailures == old(pauseFailures) && failed == old(failed)
    {
      ResumeKeepsConsistent(ws, results, cursor, w);
      ws := ws[w := Idle];
    }

    /** The delay rejects: the `catch` replaces the recorded result with a
        failure carrying the article's title and the message, and counts the
        article again. */
    method PauseFailed(w: nat, message: string)
      requires Valid() && w < workers && ws[w].Pausing?
      modifies this
      ensures Valid()
      ensures results == old(results)[old(ws[w].index) :=
        Some(ItemResult(false, titles[old(ws[w].index)], Some(message)))]
      ensures completed == old(completed) + 1 && pauseFailures == old(pauseFailures) + 1
      ensures ws == old(ws)[w := Idle]
      ensures cursor == old(cursor) && claimed == old(claimed)
      ensures old(ws[w].index) !in old(failed) && failed == old(failed) + {old(ws[w].index)}
    {
      var index := ws[w].index;
      var r := ItemResult(false, titles[index], Some(message));
      FilledUpdate(results, index, r);
      PauseFailedKeepsConsistent(ws, results, cursor, w, r);
      results := results[index := Some(r)];
      completed := completed + 1;
      pauseFailures := pauseFailures + 1;
      failed := failed + {index};
      ws := ws[w := Idle];
    }

    /** What is left to do: two steps for each worker downloading, one for
        each pausing, and three for each article not yet claimed. */
    function Remaining(): nat
      reads this
      requires cursor <= total
    {
      Pending(ws) + 3 * (total - cursor)
    }

    /** One step of worker `w`, whichever it is waiting for. The download of
        article `i` settles to `outcome[i]`; the pause after it resolves when
        `pauseError[i]` is `None` and rejects with that message otherwise. */
    method Step(w: nat, outcome: seq<ItemResult>, pauseError: seq<Option<string>>)
      requires Valid() && w < workers && CanStep(w)
      requires Explained(results, titles, outcome, pauseError) && failed <= Rejecting(pauseError)
      modifies this
      ensures Valid() && Remaining() < old(Remaining())
      ensures Explained(results, titles, outcome, pauseError) && failed <= Rejecting(pauseError)
      ensures old(cursor) <= cursor && old(completed) <= completed <= old(completed) + 1 && old(failed) <= failed
      // An idle worker claims the next article.
      ensures old(ws[w]).Idle? ==>
        && cursor == old(cursor) + 1 && ws == old(ws)[w := Downloading(old(cursor))]
        && results == old(results) && completed == old(completed) && failed == old(failed)
      // A download settles: its outcome lands in its slot.
      ensures old(ws[w]).Downloading? ==>
        && results == old(results)[old(ws[w].index) := Some(outcome[old(ws[w].index)])]
        && ws == old(ws)[w := if cursor < total then Pausing(old(ws[w].index)) else Idle]
        && cursor == old(cursor) && completed == old(completed) + 1 && failed == old(failed)
      // A pause rejects: the `catch` overwrites the slot and counts it again.
      ensures old(ws[w]).Pausing? && pauseError[old(ws[w].index)].Some? ==>
        && results == old(results)[old(ws[w].index) :=
             Some(ItemResult(false, titles[old(ws[w].index)], pauseError[old(ws[w].index)]))]
        && ws == old(ws)[w := Idle] && cursor == old(cursor) && completed == old(completed) + 1
        && failed == old(failed) + {old(ws[w].index)}
      // A pause resolves: the worker goes back to its loop test.
      ensures old(ws[w]).Pausing? && pauseError[old(ws[w].index)].None? ==>
        && ws == old(ws)[w := Idle] && results == old(results) && cursor == old(cursor)
        && completed == old(completed) && failed == old(failed)
    {
      match ws[w]
      case Idle =>
        PendingUpdate(ws, w, Downloading(cursor));
        var _ := Claim(w);
      case Downloading(i) =>
        PendingUpdate(ws, w, if cursor < total then Pausing(i) else Idle);
        ExplainedWrite(results, titles, outcome, pauseError, i, outcome[i]);
        Record(w, outcome[i]);
      case Pausing(i) =>
        PendingUpdate(ws, w, Idle);
        if pauseError[i].Some? {
          ExplainedWrite(results, titles, outcome, pauseError, i, ItemResult(false, titles[i], pauseError[i]));
          PauseFailed(w, pauseError[i].value);
        } else {
          Resume(w);
        }
    }

    /** Every worker has left its loop: `Promise.all` over them resolves. */
    predicate Drained()
      reads this
    {
      forall w :: 0 <= w < |ws| ==> !CanStep(w)
    }

    /** After the workers drain, with at least one worker: the cursor is at
        the end, every slot is written, and `completed` is the number of
        articles plus the pauses that rejected. */
    lemma DrainedComplete()
      requires Valid() && Drained() && workers > 0
      ensures cursor == total
      ensures forall i :: 0 <= i < total ==> results[i].Some?
      ensures completed == total + pauseFailures
      ensures SuccessCount(results) + FailCount(results) == total
    {
      assert !CanStep(0);
      forall v | 0 <= v < workers ensures ws[v].Idle? {
        assert !CanStep(v);
      }
      FilledAll(results);
      CountsPartition(results);
    }
  }

  /** Every written slot holds what its download settled to, or, when the
      pause after it rejected, the failure the `catch` writes. */
  predicate Explained(results: seq<Option<ItemResult>>, titles: seq<string>,
                      outcome: seq<ItemResult>, pauseError: seq<Option<string>>) {
    && |results| == |titles| == |outcome| == |pauseError|
    && forall i :: 0 <= i < |results| && results[i].Some? ==>
      || results[i] == Some(outcome[i])
      || (pauseError[i].Some? && results[i] == Some(ItemResult(false, titles[i], pauseError[i])))
  }

  /** Writing a slot with its outcome, or with the failure of its rejected
      pause, keeps every slot explained. */
  lemma ExplainedWrite(results: seq<Option<ItemResult>>, titles: seq<string>, outcome: seq<ItemResult>,
                       pauseError: seq<Option<string>>, i: nat, r: ItemResult)
    requires Explained(results, titles, outcome, pauseError) && i < |results|
    requires r == outcome[i] || (pauseError[i].Some? && r == ItemResult(false, titles[i], pauseError[i]))
    ensures Explained(results[i := Some(r)], titles, outcome, pauseError)
  {
  }

  /** The articles whose pause would reject. */
  function Rejecting(pauseError: seq<Option<string>>): set<nat> {
    set i | 0 <= i < |pauseError| && pauseError[i].Some?
  }

  lemma {:induction false} SubsetSize(a: set<nat>, b: set<nat>)
    requires a <= b
    ensures |a| <= |b|
  {
    if a != {} {
      var x :| x in a;
      SubsetSize(a - {x}, b - {x});
    }
  }

  /** `n` slots none of which has been written. */
  function Unwritten(n: nat): (s: seq<Option<ItemResult>>)
    ensures |s| == n && forall i :: 0 <= i < n ==> s[i].None?
  {
    seq(n, _ => None)
  }

  lemma {:induction false} FilledNone(n: nat)
    ensures Filled(Unwritten(n)) == 0
  {
    if n > 0 {
      assert Unwritten(n)[1..] == Unwritten(n - 1);
      FilledNone(n - 1);
    }
  }

  /** `downloadWithConcurrency` from start to drain, under any interleaving
      of the workers. `outcome[i]` is what the download of article `i`
      settles to, and `pauseError[i]` whether the pause after it rejects.
      Each slot ends with its article's outcome, or with the `catch`'s
      failure when its pause rejected; `completed` counts every article
      once, and once more for each rejected pause. With no worker at all
      nothing is written. */
  method RunPool(titles: seq<string>, concurrency: int, outcome: seq<ItemResult>, pauseError: seq<Option<string>>)
    returns (results: seq<Option<ItemResult>>, completed: nat)
    requires |outcome| == |titles| == |pauseError|
    ensures |results| == |titles|
    ensures PoolSize(concurrency, |titles|) > 0 ==>
      && (forall i :: 0 <= i < |titles| ==> results[i].Some?)
      && Explained(results, titles, outcome, pauseError)
      && |titles| <= completed <= |titles| + |Rejecting(pauseError)|
      && SuccessCount(results) + FailCount(results) == |titles|
    ensures PoolSize(concurrency, |titles|) == 0 ==>
      completed == 0 && forall i :: 0 <= i < |titles| ==> results[i].None?
    ensures Rejecting(pauseError) == {} ==> SuccessCount(results) + FailCount(results) == completed
  {
    var pool := new Pool(titles, concurrency);
    while exists w :: 0 <= w < pool.workers && pool.CanStep(w)
      invariant pool.Valid() && pool.titles == titles && pool.workers == PoolSize(concurrency, |titles|)
      invariant pool.workers == 0 ==> pool.results == Unwritten(|titles|) && pool.completed == 0
      invariant Explained(pool.results, titles, outcome, pauseError) && pool.failed <= Rejecting(pauseError)
      decreases pool.Remaining()
    {
      var w :| 0 <= w < pool.workers && pool.CanStep(w);
      pool.Step(w, outcome, pauseError);
    }
    results, completed := pool.results, pool.completed;
    SubsetSize(pool.failed, Rejecting(pauseError));
    if pool.workers > 0 {
      pool.DrainedComplete();
    } else {
      FilledNone(|titles|);
    }
    CountsPartition(results);
  }
}
