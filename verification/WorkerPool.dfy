/**
 The bounded worker pool that resolves a commit's files: the loop that starts workers,
 the semaphore that bounds them, the wait group, and the result slots, under every
 schedule of the goroutines.
 */
module WorkerPool {
  import opened GoStrings
  import opened DiffView
  import opened CommitDiff

  const WORKERS := 6

  const MAX_INLINE := 200

  /** The changes, and what fetching each of them comes to. */
  datatype Job = Job(changes: seq<Change>, fetched: seq<Fetched>)

  ghost predicate JobOk(job: Job) {
    |job.fetched| == |job.changes|
  }

  function ResultOf(job: Job, i: nat): DiffResult
    requires i < |job.changes| && |job.fetched| == |job.changes|
  {
    if i >= MAX_INLINE then Synthetic(i, job.changes[i]) else ResolveFileDiff(i, job.changes[i], job.fetched[i])
  }

  /** The left-to-right computation, without goroutines. */
  function Sequential(job: Job): (r: seq<DiffResult>)
    requires JobOk(job)
  {
    seq(|job.changes|, i requires 0 <= i < |job.changes| => ResultOf(job, i))
  }

  // ---------- the machine ----------

  /** Where the main goroutine stands; `Added` waits for the semaphore, `Acquired` is about to start a worker. */
  datatype Main = Looping(i: nat) | Added(i: nat) | Acquired(i: nat) | Waiting | Finished

  /** Workers by what they have done: nothing yet, written their slot, or also released the semaphore. */
  datatype Pool = Pool(
    main: Main, slots: seq<Option<DiffResult>>, sem: nat, wg: nat,
    running: set<nat>, written: set<nat>, released: set<nat>)

  datatype Action = MainStep | Write(i: nat) | Release(i: nat) | Done(i: nat)

  function Start(job: Job): Pool {
    Pool(Looping(0), seq(|job.changes|, _ => None), 0, 0, {}, {}, {})
  }

  predicate Enabled(job: Job, p: Pool, a: Action)
    requires |job.fetched| == |job.changes|
  {
    match a
    case MainStep =>
      (match p.main
       case Looping(i) => i <= |job.changes| == |p.slots|
       case Added(i) => p.sem < WORKERS
       case Acquired(i) => true
       case Waiting => p.wg == 0
       case Finished => false)
    case Write(i) => i in p.running && i < |p.slots| == |job.changes|
    case Release(i) => i in p.written && p.sem > 0
    case Done(i) => i in p.released && p.wg > 0
  }

  function Do(job: Job, p: Pool, a: Action): Pool
    requires |job.fetched| == |job.changes| && Enabled(job, p, a)
  {
    match a
    case MainStep =>
      (match p.main
       case Looping(i) =>
         if i == |job.changes| then p.(main := Waiting)
         else if i >= MAX_INLINE then
           p.(slots := p.slots[i := Some(Synthetic(i, job.changes[i]))], main := Looping(i + 1))
         else p.(wg := p.wg + 1, main := Added(i))
       case Added(i) => p.(sem := p.sem + 1, main := Acquired(i))
       case Acquired(i) => p.(running := p.running + {i}, main := Looping(i + 1))
       case Waiting => p.(main := Finished))
    case Write(i) =>
      p.(slots := p.slots[i := Some(ResolveFileDiff(i, job.changes[i], job.fetched[i]))],
         running := p.running - {i}, written := p.written + {i})
    case Release(i) => p.(sem := p.sem - 1, written := p.written - {i}, released := p.released + {i})
    case Done(i) => p.(wg := p.wg - 1, released := p.released - {i})
  }

  /** A schedule in which every step is possible when it is taken. */
  ghost predicate Possible(job: Job, p: Pool, schedule: seq<Action>)
    requires JobOk(job)
    decreases |schedule|
  {
    schedule == [] || (Enabled(job, p, schedule[0]) && Possible(job, Do(job, p, schedule[0]), schedule[1..]))
  }

  function Run(job: Job, p: Pool, schedule: seq<Action>): Pool
    requires JobOk(job) && Possible(job, p, schedule)
    decreases |schedule|
  {
    if schedule == [] then p else Run(job, Do(job, p, schedule[0]), schedule[1..])
  }

  // ---------- the invariant ----------

  /** Items below this have been given to a worker or filled in. */
  function Started(job: Job, main: Main): nat {
    match main
    case Looping(i) => i
    case Added(i) => i
    case Acquired(i) => i
    case _ => |job.changes|
  }

  ghost predicate Counts(p: Pool) {
    && p.running !! p.written && p.running !! p.released && p.written !! p.released
    && p.sem == |p.running| + |p.written| + (if p.main.Acquired? then 1 else 0)
    && p.sem <= WORKERS
    && p.wg == |p.running| + |p.written| + |p.released| + (if p.main.Added? || p.main.Acquired? then 1 else 0)
    && (p.main.Finished? ==> p.wg == 0)
  }

  predicate Alive(p: Pool, j: nat) {
    j in p.running || j in p.written || j in p.released
  }

  ghost predicate Placed(job: Job, p: Pool)
    requires JobOk(job)
  {
    && |p.slots| == |job.changes| && Started(job, p.main) <= |job.changes|
    && (p.main.Added? || p.main.Acquired? ==> p.main.i < |job.changes| && p.main.i < MAX_INLINE)
    && (forall j: nat | Alive(p, j) :: j < Started(job, p.main) && j < MAX_INLINE)
    && (forall j | 0 <= j < Started(job, p.main) && j !in p.running :: p.slots[j] == Some(ResultOf(job, j)))
  }

  ghost predicate Inv(job: Job, p: Pool)
    requires JobOk(job)
  {
    Counts(p) && Placed(job, p)
  }

  lemma MainKeepsCounts(job: Job, p: Pool)
    requires JobOk(job) && Inv(job, p) && Enabled(job, p, MainStep)
    ensures Counts(Do(job, p, MainStep))
  {
    if p.main.Acquired? {
      var i := p.main.i;
      assert !Alive(p, i);
      Moved({i}, p.running, i);
    }
  }

  lemma MainKeepsPlaced(job: Job, p: Pool)
    requires JobOk(job) && Inv(job, p) && Enabled(job, p, MainStep)
    ensures Placed(job, Do(job, p, MainStep))
  {
    var p' := Do(job, p, MainStep);
    forall j: nat | Alive(p', j) ensures j < Started(job, p'.main) && j < MAX_INLINE {
      assert Alive(p, j) || (p.main.Acquired? && j == p.main.i);
    }
  }

  /** Moving a worker on to its next set moves one unit of the counts. */
  lemma Moved(from: set<nat>, to: set<nat>, i: nat)
    requires i in from && from !! to
    ensures |from - {i}| == |from| - 1 && |to + {i}| == |to| + 1
  {
  }

  lemma WorkerKeepsCounts(job: Job, p: Pool, a: Action)
    requires JobOk(job) && Counts(p) && !a.MainStep? && Enabled(job, p, a)
    ensures Counts(Do(job, p, a))
  {
    match a
    case Write(i) => Moved(p.running, p.written, i);
    case Release(i) => Moved(p.written, p.released, i);
    case Done(i) => Moved(p.released, {}, i);
  }

  lemma WorkerKeepsPlaced(job: Job, p: Pool, a: Action)
    requires JobOk(job) && Placed(job, p) && !a.MainStep? && Enabled(job, p, a)
    ensures Placed(job, Do(job, p, a))
  {
    assert Alive(p, a.i);
    var p' := Do(job, p, a);
    assert forall j: nat | Alive(p', j) :: Alive(p, j);
  }

  lemma StepKeepsInv(job: Job, p: Pool, a: Action)
    requires JobOk(job) && Inv(job, p) && Enabled(job, p, a)
    ensures Inv(job, Do(job, p, a))
  {
    if a.MainStep? {
      MainKeepsCounts(job, p);
      MainKeepsPlaced(job, p);
    } else {
      WorkerKeepsCounts(job, p, a);
      WorkerKeepsPlaced(job, p, a);
    }
  }

  lemma {:induction false} RunKeepsInv(job: Job, p: Pool, schedule: seq<Action>)
    requires JobOk(job) && Inv(job, p) && Possible(job, p, schedule)
    ensures Inv(job, Run(job, p, schedule))
    decreases |schedule|
  {
    if schedule != [] {
      StepKeepsInv(job, p, schedule[0]);
      RunKeepsInv(job, Do(job, p, schedule[0]), schedule[1..]);
    }
  }

  // ---------- what every schedule gives ----------

  /** At most six files are being resolved at any time, and no release or Done finds its counter at zero. */
  lemma AtMostSixInFlight(job: Job, schedule: seq<Action>)
    requires JobOk(job) && Possible(job, Start(job), schedule)
    ensures var p := Run(job, Start(job), schedule);
            && |p.running| + |p.written| <= 6
            && (forall i | i in p.written :: Enabled(job, p, Release(i)))
            && (forall i | i in p.released :: Enabled(job, p, Done(i)))
  {
    RunKeepsInv(job, Start(job), schedule);
    var p := Run(job, Start(job), schedule);
    forall i | i in p.written ensures p.sem > 0 { assert |p.written| > 0; }
    forall i | i in p.released ensures p.wg > 0 { assert |p.released| > 0; }
  }

  /** The main goroutine waits exactly while six workers hold the semaphore, and at the end for those still alive. */
  lemma WaitsIff(job: Job, schedule: seq<Action>)
    requires JobOk(job) && Possible(job, Start(job), schedule)
    ensures var p := Run(job, Start(job), schedule);
            && (Enabled(job, p, MainStep)
                <==> && !p.main.Finished?
                     && (p.main.Added? ==> |p.running| + |p.written| < 6)
                     && (p.main.Waiting? ==> p.running == {} && p.written == {} && p.released == {}))
            && (forall i | i in p.running :: Enabled(job, p, Write(i)))
  {
    RunKeepsInv(job, Start(job), schedule);
    var p := Run(job, Start(job), schedule);
    assert p.wg == 0 && p.main.Waiting? ==> |p.running| == 0 && |p.written| == 0 && |p.released| == 0;
    assert forall i | i in p.running :: Alive(p, i);
  }

  /** Until the main goroutine is finished some goroutine can step. */
  lemma NeverStuck(job: Job, schedule: seq<Action>) returns (a: Action)
    requires JobOk(job) && Possible(job, Start(job), schedule)
    requires !Run(job, Start(job), schedule).main.Finished?
    ensures Enabled(job, Run(job, Start(job), schedule), a)
  {
    RunKeepsInv(job, Start(job), schedule);
    AtMostSixInFlight(job, schedule);
    var p := Run(job, Start(job), schedule);
    if p.running != {} {
      var i :| i in p.running;
      assert Alive(p, i);
      a := Write(i);
    } else if p.written != {} {
      var i :| i in p.written;
      a := Release(i);
    } else if p.released != {} {
      var i :| i in p.released;
      a := Done(i);
    } else {
      a := MainStep;
    }
  }

  /** Steps the main goroutine and the workers it has yet to start can still take. */
  function Ahead(n: nat, main: Main): int {
    match main
    case Looping(i) => 6 * (n - i) + 2
    case Added(i) => 6 * (n - i) + 1
    case Acquired(i) => 6 * (n - i)
    case Waiting => 1
    case Finished => 0
  }

  function Measure(job: Job, p: Pool): int {
    Ahead(|job.changes|, p.main) + 3 * |p.running| + 2 * |p.written| + |p.released|
  }

  lemma MainCountsDown(job: Job, p: Pool)
    requires JobOk(job) && Inv(job, p) && Enabled(job, p, MainStep)
    ensures Measure(job, Do(job, p, MainStep)) < Measure(job, p)
  {
    if p.main.Acquired? { StartAddsOne(job, p); }
  }

  lemma StartAddsOne(job: Job, p: Pool)
    requires JobOk(job) && Placed(job, p) && p.main.Acquired?
    ensures |p.running + {p.main.i}| == |p.running| + 1
  {
    assert !Alive(p, p.main.i);
  }

  lemma WorkerCountsDown(job: Job, p: Pool, a: Action)
    requires JobOk(job) && Counts(p) && !a.MainStep? && Enabled(job, p, a)
    ensures Measure(job, Do(job, p, a)) < Measure(job, p)
  {
    match a
    case Write(i) => Moved(p.running, p.written, i);
    case Release(i) => Moved(p.written, p.released, i);
    case Done(i) => Moved(p.released, {}, i);
  }

  lemma StepsCountDown(job: Job, p: Pool, a: Action)
    requires JobOk(job) && Inv(job, p) && Enabled(job, p, a)
    ensures Measure(job, Do(job, p, a)) < Measure(job, p)
  {
    if a.MainStep? { MainCountsDown(job, p); } else { WorkerCountsDown(job, p, a); }
  }

  lemma {:induction false} RunCountsDown(job: Job, p: Pool, schedule: seq<Action>)
    requires JobOk(job) && Inv(job, p) && Possible(job, p, schedule)
    ensures |schedule| + Measure(job, Run(job, p, schedule)) <= Measure(job, p)
    decreases |schedule|
  {
    if schedule != [] {
      StepsCountDown(job, p, schedule[0]);
      StepKeepsInv(job, p, schedule[0]);
      RunCountsDown(job, Do(job, p, schedule[0]), schedule[1..]);
    }
  }

  /** No schedule is longer than six steps a file and two: with NeverStuck, every one ends, and ends finished. */
  lemma EveryScheduleEnds(job: Job, schedule: seq<Action>)
    requires JobOk(job) && Possible(job, Start(job), schedule)
    ensures |schedule| <= 6 * |job.changes| + 2
  {
    RunCountsDown(job, Start(job), schedule);
    RunKeepsInv(job, Start(job), schedule);
    var p := Run(job, Start(job), schedule);
    assert Measure(job, p) >= 0 by {
      if p.main.Looping? || p.main.Added? || p.main.Acquired? { assert p.main.i <= |job.changes|; }
    }
  }

  // ---------- the answer ----------

  /** sort.SliceStable by index: equal indices keep their order. */
  function SortByIndex(results: seq<DiffResult>): seq<DiffResult> {
    if results == [] then []
    else
      var n := |results| - 1;
      InsertByIndex(SortByIndex(results[..n]), results[n])
  }

  /** Goes after every element whose index is not larger. */
  function InsertByIndex(sorted: seq<DiffResult>, r: DiffResult): seq<DiffResult> {
    if sorted == [] || sorted[|sorted| - 1].index <= r.index then sorted + [r]
    else
      var n := |sorted| - 1;
      InsertByIndex(sorted[..n], r) + [sorted[n]]
  }

  lemma {:induction false} SortedAlready(results: seq<DiffResult>)
    requires forall i | 0 <= i < |results| :: results[i].index == i
    ensures SortByIndex(results) == results
  {
    if results != [] {
      var n := |results| - 1;
      SortedAlready(results[..n]);
      assert results == results[..n] + [results[n]];
    }
  }

  predicate ByIndex(results: seq<DiffResult>) {
    forall i, j | 0 <= i < j < |results| :: results[i].index <= results[j].index
  }

  lemma {:induction false} InsertAdds(sorted: seq<DiffResult>, r: DiffResult)
    ensures multiset(InsertByIndex(sorted, r)) == multiset(sorted) + multiset{r}
  {
    if sorted != [] && sorted[|sorted| - 1].index > r.index {
      var n := |sorted| - 1;
      InsertAdds(sorted[..n], r);
      assert sorted == sorted[..n] + [sorted[n]];
    }
  }

  /** No result of the list has a larger index. */
  predicate AtMost(results: seq<DiffResult>, bound: nat) {
    forall i | 0 <= i < |results| :: results[i].index <= bound
  }

  lemma {:induction false} InsertKeepsOrder(sorted: seq<DiffResult>, r: DiffResult, bound: nat)
    requires ByIndex(sorted) && AtMost(sorted, bound) && r.index <= bound
    ensures ByIndex(InsertByIndex(sorted, r)) && AtMost(InsertByIndex(sorted, r), bound)
  {
    if sorted != [] && sorted[|sorted| - 1].index > r.index {
      var n := |sorted| - 1;
      InsertKeepsOrder(sorted[..n], r, sorted[n].index);
    }
  }

  /** Sorting orders the results by index and loses none. */
  lemma SortByIndexSorts(results: seq<DiffResult>)
    ensures ByIndex(SortByIndex(results)) && multiset(SortByIndex(results)) == multiset(results)
  {
    SortOrders(results);
    SortLosesNone(results);
  }

  lemma {:induction false} SortLosesNone(results: seq<DiffResult>)
    ensures multiset(SortByIndex(results)) == multiset(results)
  {
    if results != [] {
      var n := |results| - 1;
      SortLosesNone(results[..n]);
      InsertAdds(SortByIndex(results[..n]), results[n]);
      assert results == results[..n] + [results[n]];
    }
  }

  lemma {:induction false} SortOrders(results: seq<DiffResult>)
    ensures ByIndex(SortByIndex(results))
  {
    if results != [] {
      var n := |results| - 1;
      SortOrders(results[..n]);
      var bound := LastIsMost(SortByIndex(results[..n]), results[n].index);
      InsertKeepsOrder(SortByIndex(results[..n]), results[n], bound);
    }
  }

  lemma LastIsMost(sorted: seq<DiffResult>, least: nat) returns (bound: nat)
    requires ByIndex(sorted)
    ensures AtMost(sorted, bound) && least <= bound
  {
    bound := if sorted != [] && sorted[|sorted| - 1].index > least then sorted[|sorted| - 1].index else least;
  }

  /** What the wait leaves in the slots, as the program's result list. */
  function Collected(p: Pool): seq<DiffResult>
    requires forall i | 0 <= i < |p.slots| :: p.slots[i].Some?
  {
    seq(|p.slots|, i requires 0 <= i < |p.slots| => p.slots[i].value)
  }

  /** The wait passes only when every slot is written, with the results of the left-to-right computation. */
  lemma WaitPassesOnlyWhenDone(job: Job, schedule: seq<Action>)
    requires JobOk(job) && Possible(job, Start(job), schedule)
    requires var p := Run(job, Start(job), schedule);
             (p.main.Waiting? && Enabled(job, p, MainStep)) || p.main.Finished?
    ensures var p := Run(job, Start(job), schedule);
            && (forall i | 0 <= i < |p.slots| :: p.slots[i].Some?)
            && Collected(p) == Sequential(job)
            && p.running == {} && p.sem == 0
  {
    RunKeepsInv(job, Start(job), schedule);
    var p := Run(job, Start(job), schedule);
    assert |p.running| == 0;
    assert forall i | 0 <= i < |p.slots| :: p.slots[i] == Some(ResultOf(job, i));
  }

  /**
   Under every schedule the file list and both totals are those of the left-to-right computation, files past the cap
   included.
   */
  lemma EveryScheduleGivesTheSequentialAnswer(job: Job, schedule: seq<Action>)
    requires JobOk(job) && Possible(job, Start(job), schedule)
    requires Run(job, Start(job), schedule).main.Finished?
    ensures var p := Run(job, Start(job), schedule);
            && (forall i | 0 <= i < |p.slots| :: p.slots[i].Some?)
            && Flatten(SortByIndex(Collected(p))) == Flatten(Sequential(job))
            && Total(SortByIndex(Collected(p)), OpAdd) == Total(Sequential(job), OpAdd)
            && Total(SortByIndex(Collected(p)), OpDelete) == Total(Sequential(job), OpDelete)
  {
    WaitPassesOnlyWhenDone(job, schedule);
    SortedAlready(Sequential(job));
  }

  /** With well-counted parses, that answer's totals are the sums of its sidebar counts. */
  lemma CommitTotalsAreSidebarSums(job: Job, kind: LineOp)
    requires JobOk(job) && !kind.OpContext?
    requires forall i | 0 <= i < |job.fetched| && job.fetched[i].parsed.Some? ::
               FilesWellCounted(job.fetched[i].parsed.value)
    ensures var results := Sequential(job);
            Total(results, kind) == SidebarSum(Sidebar(Present(Flatten(results))), kind) % U64
  {
    var results := Sequential(job);
    forall i | 0 <= i < |results| ensures CountsItsFiles(results[i]) {
      ResolvedCountsItsFiles(i, job.changes[i], job.fetched[i]);
      // A file past the cap resolves like one whose contents are identical: listed, not diffed.
      ResolvedCountsItsFiles(i, job.changes[i], Fetched(false, false, true, None));
    }
    SidebarSumsToTotals(results, kind);
  }
}
