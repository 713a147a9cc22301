/** The parallel verification queue of src/checkqueue.h.

    `Shared` holds the fields guarded by the mutex, and the functions on it are
    the critical sections of `Loop` and `Add`.  `Queue` is the object itself:
    its methods change the fields in place and are proved against those
    functions.  `State` adds the threads (index 0 is the master, every other
    index a worker) and a log of what happened; an `Action` is one critical
    section, or the execution of one batch outside the lock. */
module CheckQueue {
  import Arith

  /** A verification job; `verdict` is what its operator() answers. */
  datatype Check = Check(id: nat, verdict: bool)

  ghost predicate AllPass(cs: seq<Check>) {
    forall c :: c in cs ==> c.verdict
  }

  // ---------------------------------------------------------------- critical sections

  datatype Shared = Shared(queue: seq<Check>, nIdle: nat, nTotal: nat,
                           fAllOk: bool, nTodo: nat, fQuit: bool, nBatchSize: nat)

  /** What a pass of the loop leads to: leave, wait, or take a batch. */
  datatype Outcome = Return(result: bool) | Sleep | Work(batch: seq<Check>, ok: bool)

  function Reverse(cs: seq<Check>): (r: seq<Check>)
    ensures |r| == |cs|
    ensures multiset(r) == multiset(cs)
  {
    if cs == [] then []
    else
      assert cs == [cs[0]] + cs[1..];
      Reverse(cs[1..]) + [cs[0]]
  }

  lemma ReverseNone(cs: seq<Check>)
    ensures cs[..|cs|] == cs && Reverse(cs[|cs|..]) == []
  {
  }

  lemma ReverseTail(cs: seq<Check>, k: nat)
    requires k < |cs|
    ensures Reverse(cs[k..]) == Reverse(cs[k + 1..]) + [cs[k]]
  {
    assert cs[k..][1..] == cs[k + 1..];
  }

  /** Never zero and never more than there is: the share of one of the threads
      at work or about to be, capped by the batch limit. */
  function BatchSize(sh: Shared): (n: nat)
    requires sh.queue != []
    ensures 1 <= n <= |sh.queue|
    ensures n <= sh.nBatchSize || n == 1
  {
    var share := |sh.queue| / (sh.nTotal + sh.nIdle + 1);
    assert share <= |sh.queue| by { Arith.DivAtMost(|sh.queue|, sh.nTotal + sh.nIdle + 1); }
    var capped := if sh.nBatchSize < share then sh.nBatchSize else share;
    if capped < 1 then 1 else capped
  }

  function AfterAdd(sh: Shared, cs: seq<Check>): Shared {
    sh.(queue := sh.queue + cs, nTodo := sh.nTodo + |cs|)
  }

  /** The clean-up of the previous run of the loop. */
  function AfterBatch(sh: Shared, n: nat, ok: bool): Shared
    requires n <= sh.nTodo
  {
    sh.(fAllOk := sh.fAllOk && ok, nTodo := sh.nTodo - n)
  }

  function AfterFirstPass(sh: Shared): Shared {
    sh.(nTotal := sh.nTotal + 1)
  }

  function AfterWake(sh: Shared): Shared
    requires sh.nIdle > 0
  {
    sh.(nIdle := sh.nIdle - 1)
  }

  function Decide(sh: Shared, master: bool): (Shared, Outcome)
    requires sh.nTotal > 0
  {
    if sh.queue == [] then
      if (master || sh.fQuit) && sh.nTodo == 0 then
        (sh.(nTotal := sh.nTotal - 1, fAllOk := master || sh.fAllOk), Return(sh.fAllOk))
      else
        (sh.(nIdle := sh.nIdle + 1), Sleep)
    else
      var left := |sh.queue| - BatchSize(sh);
      (sh.(queue := sh.queue[..left]), Work(Reverse(sh.queue[left..]), sh.fAllOk))
  }

  /** A batch is the end of the queue, last check first.  Shared out among k
      threads it is no more than one share and no more than the limit, but as
      much as both allow, and one check at least. */
  lemma BatchIsShare(sh: Shared, master: bool)
    requires sh.nTotal > 0 && sh.queue != []
    ensures var (sh', o) := Decide(sh, master); var k := sh.nTotal + sh.nIdle + 1;
      && o.Work? && sh' == sh.(queue := sh'.queue) && |sh'.queue| + |o.batch| == |sh.queue|
      && (|o.batch| == 1 || (1 < |o.batch| <= sh.nBatchSize && |o.batch| * k <= |sh.queue|))
      && (|o.batch| >= sh.nBatchSize || (|o.batch| + 1) * k > |sh.queue|)
    ensures var (sh', o) := Decide(sh, master);
      && (forall j :: 0 <= j < |sh'.queue| ==> sh'.queue[j] == sh.queue[j])
      && forall j :: 0 <= j < |o.batch| ==> o.batch[j] == sh.queue[|sh.queue| - 1 - j]
  {
    hide Reverse, BatchSize;
    ShareSize(sh);
    var n := BatchSize(sh);
    var last := sh.queue[|sh.queue| - n..];
    var batch := Reverse(last);
    forall j | 0 <= j < n ensures batch[j] == sh.queue[|sh.queue| - 1 - j] {
      ReverseAt(last, j);
    }
  }

  lemma ShareSize(sh: Shared)
    requires sh.queue != []
    ensures var n, k := BatchSize(sh), sh.nTotal + sh.nIdle + 1;
      && (n == 1 || (1 < n <= sh.nBatchSize && n * k <= |sh.queue|))
      && (n >= sh.nBatchSize || (n + 1) * k > |sh.queue|)
  {
    var k, n := sh.nTotal + sh.nIdle + 1, BatchSize(sh);
    var share := |sh.queue| / k;
    Arith.QuotientFits(|sh.queue|, k);
    Arith.QuotientIsMost(|sh.queue|, k);
    if n < sh.nBatchSize {
      Arith.MulMonotone(share + 1, n + 1, k);
    }
    if n > 1 {
      Arith.MulMonotone(n, share, k);
    }
  }

  lemma {:induction false} ReverseAt(cs: seq<Check>, j: nat)
    requires j < |cs|
    ensures Reverse(cs)[j] == cs[|cs| - 1 - j]
  {
    if j < |cs| - 1 {
      ReverseAt(cs[1..], j);
    }
  }

  // ---------------------------------------------------------------- the object

  class Queue {
    var queue: seq<Check>
    var nIdle: nat
    var nTotal: nat
    var fAllOk: bool
    var nTodo: nat
    var fQuit: bool
    const nBatchSize: nat

    constructor (batchSize: nat)
      ensures View() == Shared([], 0, 0, true, 0, false, batchSize)
    {
      queue, nIdle, nTotal, fAllOk, nTodo, fQuit := [], 0, 0, true, 0, false;
      nBatchSize := batchSize;
    }

    function View(): Shared
      reads this
    {
      Shared(queue, nIdle, nTotal, fAllOk, nTodo, fQuit, nBatchSize)
    }

    /** `wake` says how many workers to notify: none, one, or (2) all. */
    method Add(vChecks: seq<Check>) returns (wake: nat)
      modifies this
      ensures View() == AfterAdd(old(View()), vChecks)
      ensures wake == if |vChecks| == 0 then 0 else if |vChecks| == 1 then 1 else 2
    {
      for i := 0 to |vChecks|
        invariant queue == old(queue) + vChecks[..i]
        invariant View() == old(View()).(queue := queue)
      {
        queue := queue + [vChecks[i]];
      }
      assert vChecks[..|vChecks|] == vChecks;
      nTodo := nTodo + |vChecks|;
      wake := if |vChecks| == 1 then 1 else if |vChecks| > 1 then 2 else 0;
    }

    /** The start of a pass: clean up after a batch of nNow checks, or count
        the thread in.  `notify` is the signal to the master. */
    method BeginPass(fMaster: bool, nNow: nat, fOk: bool) returns (notify: bool)
      requires nNow <= nTodo
      modifies this
      ensures View() == if nNow > 0 then AfterBatch(old(View()), nNow, fOk) else AfterFirstPass(old(View()))
      ensures notify <==> nNow > 0 && nTodo == 0 && !fMaster
    {
      notify := false;
      if nNow > 0 {
        fAllOk := fAllOk && fOk;
        nTodo := nTodo - nNow;
        notify := nTodo == 0 && !fMaster;
      } else {
        nTotal := nTotal + 1;
      }
    }

    /** From the test of the empty queue to the release of the lock. */
    method Proceed(fMaster: bool) returns (outcome: Outcome)
      requires nTotal > 0
      modifies this
      ensures (View(), outcome) == Decide(old(View()), fMaster)
    {
      hide Reverse, BatchSize;
      if queue == [] {
        if (fMaster || fQuit) && nTodo == 0 {
          nTotal := nTotal - 1;
          outcome := Return(fAllOk);
          if fMaster {
            fAllOk := true;
          }
        } else {
          nIdle := nIdle + 1;
          outcome := Sleep;
        }
      } else {
        var nNow := BatchSize(View());
        var vChecks := TakeBatch(nNow);
        outcome := Work(vChecks, fAllOk);
      }
    }

    method TakeBatch(nNow: nat) returns (vChecks: seq<Check>)
      requires nNow <= |queue|
      modifies this`queue
      ensures queue == old(queue[..|queue| - nNow])
      ensures vChecks == Reverse(old(queue[|queue| - nNow..]))
    {
      hide Reverse;
      vChecks := [];
      ghost var was := queue;
      ReverseNone(was);
      for i := 0 to nNow
        invariant queue == was[..|was| - i] && vChecks == Reverse(was[|was| - i..])
      {
        var last := |queue| - 1;
        ReverseTail(was, last);
        assert was[..last + 1][..last] == was[..last];
        vChecks := vChecks + [queue[last]];
        queue := queue[..last];
      }
    }

    method ResumeWait()
      requires nIdle > 0
      modifies this
      ensures View() == AfterWake(old(View()))
    {
      nIdle := nIdle - 1;
    }
  }

  /** The batch is run until a check fails; after that, checks are dropped. */
  method RunBatch(vChecks: seq<Check>, fOkIn: bool) returns (fOk: bool)
    ensures fOk <==> fOkIn && AllPass(vChecks)
  {
    fOk := fOkIn;
    for i := 0 to |vChecks|
      invariant fOk <==> fOkIn && AllPass(vChecks[..i])
    {
      assert vChecks[..i + 1] == vChecks[..i] + [vChecks[i]];
      if fOk {
        fOk := vChecks[i].verdict;
      }
    }
    assert vChecks[..|vChecks|] == vChecks;
  }

  // ---------------------------------------------------------------- threads and log

  datatype Thread =
    | Outside                                                // not in Loop
    | Sleeping(signalled: bool)                              // in cond.wait
    | Holding(batch: seq<Check>, ok: bool, ran: bool)        // lock released, batch run or not

  datatype Event = Added(checks: seq<Check>) | Took(batch: seq<Check>) | Returned(result: bool)

  datatype State = State(sh: Shared, threads: seq<Thread>, log: seq<Event>)

  datatype Action =
    | AddChecks(checks: seq<Check>, chosen: nat)   // by the master; chosen is the worker notify_one picks
    | Enter(i: nat)                                // Thread() of a worker, Wait() of the master
    | Execute(i: nat)
    | Finish(i: nat)
    | Wake(i: nat)                                 // signalled or spurious

  /** The checks added since the master's last return. */
  function AddedSince(log: seq<Event>): seq<Check> {
    if log == [] then [] else
    match log[|log| - 1]
    case Added(cs) => AddedSince(log[..|log| - 1]) + cs
    case Took(_) => AddedSince(log[..|log| - 1])
    case Returned(_) => []
  }

  /** The checks that left the queue since then. */
  function TakenSince(log: seq<Event>): seq<Check> {
    if log == [] then [] else
    match log[|log| - 1]
    case Added(_) => TakenSince(log[..|log| - 1])
    case Took(b) => TakenSince(log[..|log| - 1]) + b
    case Returned(_) => []
  }

  function Init(workers: nat, batchSize: nat): State {
    State(Shared([], 0, 0, true, 0, false, batchSize), seq(workers + 1, _ => Outside), [])
  }

  predicate Enabled(s: State, a: Action) {
    match a
    case AddChecks(cs, w) =>
      && |s.threads| > 0 && s.threads[0].Outside?
      && (|cs| == 1 && (exists i :: 0 < i < |s.threads| && s.threads[i] == Sleeping(false)) ==>
            0 < w < |s.threads| && s.threads[w] == Sleeping(false))
    case Enter(i) => i < |s.threads| && s.threads[i].Outside?
    case Execute(i) => i < |s.threads| && s.threads[i].Holding? && !s.threads[i].ran
    case Finish(i) => i < |s.threads| && s.threads[i].Holding? && s.threads[i].ran
    case Wake(i) => i < |s.threads| && s.threads[i].Sleeping?
  }

  function Signal(t: Thread): Thread {
    if t.Sleeping? then Sleeping(true) else t
  }

  /** condWorker.notify_one or notify_all, by the size of the batch added. */
  function NotifyWorkers(ts: seq<Thread>, n: nat, w: nat): seq<Thread> {
    if n == 0 then ts
    else if n == 1 then (if 0 < w < |ts| then ts[w := Signal(ts[w])] else ts)
    else seq(|ts|, i requires 0 <= i < |ts| => if i == 0 then ts[0] else Signal(ts[i]))
  }

  /** Of the sleeping workers one check wakes the one picked, more wake all; the
      master, and who is at work, are left alone. */
  lemma AddWakes(s: State, cs: seq<Check>, w: nat)
    requires Inv(s) && Enabled(s, AddChecks(cs, w))
    ensures var ts, ts' := s.threads, Apply(s, AddChecks(cs, w)).threads;
      && |ts'| == |ts| && ts'[0] == ts[0]
      && forall i :: 0 < i < |ts| ==>
           && (!ts[i].Sleeping? ==> ts'[i] == ts[i])
           && (ts[i] == Sleeping(true) ==> ts'[i] == ts[i])
           && (ts[i] == Sleeping(false) ==> ts'[i] == Sleeping(|cs| > 1 || (|cs| == 1 && i == w)))
    ensures |cs| == 1 && (exists i :: 0 < i < |s.threads| && s.threads[i] == Sleeping(false)) ==>
      0 < w < |s.threads| && s.threads[w] == Sleeping(false)
  {
  }

  /** Thread i runs the decision under the lock, from shared fields sh. */
  function Settle(s: State, sh: Shared, i: nat): State
    requires i < |s.threads| && sh.nTotal > 0
  {
    var (sh', outcome) := Decide(sh, i == 0);
    match outcome
    case Return(r) => State(sh', s.threads[i := Outside], s.log + [Returned(r)])
    case Sleep => State(sh', s.threads[i := Sleeping(false)], s.log)
    case Work(b, ok) => State(sh', s.threads[i := Holding(b, ok, false)], s.log + [Took(b)])
  }

  ghost function Apply(s: State, a: Action): State
    requires Inv(s) && Enabled(s, a)
  {
    match a
    case AddChecks(cs, w) =>
      State(AfterAdd(s.sh, cs), NotifyWorkers(s.threads, |cs|, w), s.log + [Added(cs)])
    case Enter(i) =>
      Settle(s, AfterFirstPass(s.sh), i)
    case Execute(i) =>
      var t := s.threads[i];
      s.(threads := s.threads[i := Holding(t.batch, t.ok && AllPass(t.batch), true)])
    case Finish(i) =>
      var t := s.threads[i];
      InsideBounds(s.threads, i);
      var sh := AfterBatch(s.sh, |t.batch|, t.ok);
      var s1 := if sh.nTodo == 0 && i != 0 then s.(threads := s.threads[0 := Signal(s.threads[0])]) else s;
      Settle(s1, sh, i)
    case Wake(i) =>
      InsideBounds(s.threads, i);
      Settle(s, AfterWake(s.sh), i)
  }

  // ---------------------------------------------------------------- sums over threads

  function Held(t: Thread): nat { if t.Holding? then |t.batch| else 0 }
  function Asleep(t: Thread): nat { if t.Sleeping? then 1 else 0 }
  function Inside(t: Thread): nat { if t.Outside? then 0 else 1 }

  function Sum(f: Thread -> nat, ts: seq<Thread>): nat {
    if ts == [] then 0 else Sum(f, ts[..|ts| - 1]) + f(ts[|ts| - 1])
  }

  lemma {:induction false} SumUpdate(f: Thread -> nat, ts: seq<Thread>, i: nat, t: Thread)
    requires i < |ts|
    ensures Sum(f, ts[i := t]) == Sum(f, ts) - f(ts[i]) + f(t)
    ensures f(ts[i]) <= Sum(f, ts)
  {
    var n := |ts| - 1;
    if i == n {
      assert ts[i := t][..n] == ts[..n];
    } else {
      assert ts[i := t][..n] == ts[..n][i := t];
      SumUpdate(f, ts[..n], i, t);
    }
  }

  lemma {:induction false} SumPointwise(f: Thread -> nat, ts: seq<Thread>, us: seq<Thread>)
    requires |ts| == |us| && forall i :: 0 <= i < |ts| ==> f(ts[i]) == f(us[i])
    ensures Sum(f, ts) == Sum(f, us)
  {
    if ts != [] {
      var n := |ts| - 1;
      forall i | 0 <= i < n ensures f(ts[..n][i]) == f(us[..n][i]) {
        assert ts[..n][i] == ts[i] && us[..n][i] == us[i];
      }
      SumPointwise(f, ts[..n], us[..n]);
    }
  }

  lemma {:induction false} SumZero(f: Thread -> nat, ts: seq<Thread>) returns (i: nat)
    ensures Sum(f, ts) == 0 ==> forall j :: 0 <= j < |ts| ==> f(ts[j]) == 0
    ensures Sum(f, ts) > 0 ==> i < |ts| && f(ts[i]) > 0
  {
    i := 0;
    if ts != [] {
      var n := |ts| - 1;
      i := SumZero(f, ts[..n]);
      if f(ts[n]) > 0 {
        i := n;
      }
      if Sum(f, ts) == 0 {
        forall j | 0 <= j < |ts| ensures f(ts[j]) == 0 {
          if j < n { assert ts[..n][j] == ts[j]; }
        }
      }
    }
  }

  lemma InsideBounds(ts: seq<Thread>, i: nat)
    requires i < |ts|
    ensures Held(ts[i]) <= Sum(Held, ts)
    ensures ts[i].Sleeping? ==> Sum(Asleep, ts) > 0
    ensures !ts[i].Outside? ==> Sum(Inside, ts) > 0
  {
    SumUpdate(Held, ts, i, Outside);
    SumUpdate(Asleep, ts, i, Outside);
    SumUpdate(Inside, ts, i, Outside);
  }

  lemma SumsUpdate(ts: seq<Thread>, i: nat, t: Thread)
    requires i < |ts|
    ensures Sum(Held, ts[i := t]) == Sum(Held, ts) - Held(ts[i]) + Held(t)
    ensures Sum(Asleep, ts[i := t]) == Sum(Asleep, ts) - Asleep(ts[i]) + Asleep(t)
    ensures Sum(Inside, ts[i := t]) == Sum(Inside, ts) - Inside(ts[i]) + Inside(t)
  {
    SumUpdate(Held, ts, i, t);
    SumUpdate(Asleep, ts, i, t);
    SumUpdate(Inside, ts, i, t);
  }

  // ---------------------------------------------------------------- the invariant

  /** A thread whose part of the verdict, as far as it has it, is positive. */
  ghost predicate Good(t: Thread) {
    t.Holding? ==> if t.ran then t.ok else AllPass(t.batch)
  }

  /** Every return so far gave exactly the conjunction of the checks of its
      round, after each of them had left the queue exactly once. */
  ghost predicate GoodLog(log: seq<Event>) {
    forall k :: 0 <= k < |log| && log[k].Returned? ==>
      && log[k].result == AllPass(AddedSince(log[..k]))
      && multiset(TakenSince(log[..k])) == multiset(AddedSince(log[..k]))
  }

  ghost predicate Counters(s: State) {
    && s.sh.nTodo == |s.sh.queue| + Sum(Held, s.threads)
    && s.sh.nIdle == Sum(Asleep, s.threads)
    && s.sh.nTotal == Sum(Inside, s.threads)
  }

  ghost predicate Verdict(s: State) {
    && (forall i :: 0 <= i < |s.threads| && s.threads[i].Holding? ==>
          s.threads[i].batch != [] && (s.threads[i].ran || s.threads[i].ok || !s.sh.fAllOk))
    && (AllPass(AddedSince(s.log)) <==>
          && s.sh.fAllOk && AllPass(s.sh.queue)
          && forall i :: 0 <= i < |s.threads| ==> Good(s.threads[i]))
  }

  ghost predicate Conservation(s: State) {
    && multiset(AddedSince(s.log)) == multiset(s.sh.queue) + multiset(TakenSince(s.log))
    && Sum(Held, s.threads) <= |TakenSince(s.log)|
  }

  ghost predicate Inv(s: State) {
    && |s.threads| > 0 && !s.sh.fQuit
    && Counters(s) && Verdict(s) && Conservation(s) && GoodLog(s.log)
    && (s.threads[0] == Sleeping(false) ==> s.sh.queue == [] && s.sh.nTodo > 0)
  }

  lemma InitInv(workers: nat, batchSize: nat)
    ensures Inv(Init(workers, batchSize))
  {
    var ts := Init(workers, batchSize).threads;
    AllOutside(ts);
  }

  lemma {:induction false} AllOutside(ts: seq<Thread>)
    requires forall i :: 0 <= i < |ts| ==> ts[i] == Outside
    ensures Sum(Held, ts) == Sum(Asleep, ts) == Sum(Inside, ts) == 0
  {
    if ts != [] {
      AllOutside(ts[..|ts| - 1]);
    }
  }

  lemma ExtendLog(log: seq<Event>, e: Event)
    requires GoodLog(log)
    requires e.Returned? ==>
      && e.result == AllPass(AddedSince(log))
      && multiset(TakenSince(log)) == multiset(AddedSince(log))
    ensures GoodLog(log + [e])
    ensures AddedSince(log + [e]) ==
      if e.Added? then AddedSince(log) + e.checks else if e.Took? then AddedSince(log) else []
    ensures TakenSince(log + [e]) ==
      if e.Took? then TakenSince(log) + e.batch else if e.Added? then TakenSince(log) else []
  {
    var longer := log + [e];
    assert longer[..|log|] == log;
    forall k | 0 <= k < |longer| && longer[k].Returned?
      ensures longer[k].result == AllPass(AddedSince(longer[..k]))
      ensures multiset(TakenSince(longer[..k])) == multiset(AddedSince(longer[..k]))
    {
      if k < |log| { assert longer[..k] == log[..k] && longer[k] == log[k]; }
    }
  }

  /** The state as thread i sees it under the lock: its own batch accounted
      for, itself counted in nTotal but in none of the sums. */
  ghost predicate Deciding(s: State, i: nat) {
    && i < |s.threads| && s.threads[i].Outside? && !s.sh.fQuit
    && s.sh.nTodo == |s.sh.queue| + Sum(Held, s.threads)
    && s.sh.nIdle == Sum(Asleep, s.threads)
    && s.sh.nTotal == Sum(Inside, s.threads) + 1
    && Verdict(s) && Conservation(s) && GoodLog(s.log)
    && (s.threads[0] == Sleeping(false) ==> s.sh.queue == [] && s.sh.nTodo > 0)
  }

  lemma SettleInv(s: State, i: nat)
    requires Deciding(s, i)
    ensures Inv(Settle(s, s.sh, i))
  {
    match Decide(s.sh, i == 0).1
    case Return(_) => ReturnInv(s, i);
    case Sleep => SleepInv(s, i);
    case Work(_, _) => WorkInv(s, i);
  }

  lemma SleepInv(s: State, i: nat)
    requires Deciding(s, i)
    requires Decide(s.sh, i == 0).1.Sleep?
    ensures Inv(Settle(s, s.sh, i))
  {
    var s' := Settle(s, s.sh, i);
    SumsUpdate(s.threads, i, s'.threads[i]);
    SameVerdict(s, s', i);
  }

  lemma WorkInv(s: State, i: nat)
    requires Deciding(s, i)
    requires Decide(s.sh, i == 0).1.Work?
    ensures Inv(Settle(s, s.sh, i))
  {
    hide Reverse, BatchSize, Settle, Decide, Verdict, GoodLog, AllPass, AddedSince, TakenSince, Sum;
    var s' := Settle(s, s.sh, i);
    var b := Decide(s.sh, i == 0).1.batch;
    WorkTaken(s, i);
    SumsUpdate(s.threads, i, s'.threads[i]);
    ExtendLog(s.log, Took(b));
    SameVerdict(s, s', i);
    assert multiset(TakenSince(s'.log)) == multiset(TakenSince(s.log)) + multiset(b);
  }

  /** Thread i takes a batch off the queue. */
  lemma WorkTaken(s: State, i: nat)
    requires i < |s.threads| && s.sh.nTotal > 0 && Decide(s.sh, i == 0).1.Work?
    ensures var s' := Settle(s, s.sh, i); var b := Decide(s.sh, i == 0).1.batch;
      && s'.threads == s.threads[i := Holding(b, s.sh.fAllOk, false)] && s'.log == s.log + [Took(b)]
      && s'.sh == s.sh.(queue := s'.sh.queue)
      && multiset(s.sh.queue) == multiset(s'.sh.queue) + multiset(b)
      && |s.sh.queue| == |s'.sh.queue| + |b| && b != []
      && (AllPass(s.sh.queue) <==> AllPass(s'.sh.queue) && AllPass(b))
  {
    hide Reverse, BatchSize;
    WorkSplits(s.sh, i == 0);
  }

  lemma WorkSplits(sh: Shared, master: bool)
    requires sh.nTotal > 0 && sh.queue != []
    ensures Decide(sh, master).1.Work?
    ensures var (sh', o) := Decide(sh, master);
      && multiset(sh.queue) == multiset(sh'.queue) + multiset(o.batch)
      && |sh.queue| == |sh'.queue| + |o.batch| && o.batch != []
      && (AllPass(sh.queue) <==> AllPass(sh'.queue) && AllPass(o.batch))
  {
    var (sh', o) := Decide(sh, master);
    assert sh.queue == sh'.queue + sh.queue[|sh'.queue|..];
    PassSplit(sh.queue, sh'.queue, o.batch);
  }

  lemma PassSplit(q: seq<Check>, q': seq<Check>, b: seq<Check>)
    requires multiset(q) == multiset(q') + multiset(b)
    ensures AllPass(q) <==> AllPass(q') && AllPass(b)
  {
    assert forall c :: c in q <==> c in multiset(q);
    assert forall c :: c in q' <==> c in multiset(q');
    assert forall c :: c in b <==> c in multiset(b);
  }

  /** Replacing thread i, which held nothing, changes the verdict by nothing
      but what thread i and the queue now say. */
  lemma SameVerdict(s: State, s': State, i: nat)
    requires Verdict(s) && i < |s.threads| && s.threads[i].Outside?
    requires |s'.threads| == |s.threads| && s'.threads == s.threads[i := s'.threads[i]]
    requires AddedSince(s'.log) == AddedSince(s.log) && s'.sh.fAllOk == s.sh.fAllOk
    requires AllPass(s.sh.queue) <==> AllPass(s'.sh.queue) && Good(s'.threads[i])
    requires s'.threads[i].Holding? ==>
      s'.threads[i].batch != [] && (s'.threads[i].ran || s'.threads[i].ok || !s'.sh.fAllOk)
    ensures Verdict(s')
  {
    assert forall j :: 0 <= j < |s.threads| && j != i ==> s'.threads[j] == s.threads[j];
    if AllPass(AddedSince(s'.log)) {
      assert forall j :: 0 <= j < |s.threads| ==> Good(s.threads[j]);
    } else if forall j :: 0 <= j < |s'.threads| ==> Good(s'.threads[j]) {
      assert forall j :: 0 <= j < |s.threads| && j != i ==> Good(s.threads[j]);
    }
  }

  lemma ReturnInv(s: State, i: nat)
    requires Deciding(s, i)
    requires Decide(s.sh, i == 0).1.Return?
    ensures Inv(Settle(s, s.sh, i))
  {
    var s' := Settle(s, s.sh, i);
    assert i == 0 && s.sh.queue == [] && s.sh.nTodo == 0;
    var _ := SumZero(Held, s.threads);
    assert forall j :: 0 <= j < |s.threads| && s.threads[j].Holding? ==> Held(s.threads[j]) == 0;
    assert forall j :: 0 <= j < |s.threads| ==> !s.threads[j].Holding?;
    ExtendLog(s.log, Returned(s.sh.fAllOk));
    assert s.threads[i := Outside] == s.threads;
    assert AddedSince(s'.log) == [] && s'.sh.fAllOk;
  }

  lemma AddInv(s: State, a: Action)
    requires Inv(s) && a.AddChecks? && Enabled(s, a)
    ensures Inv(Apply(s, a))
  {
    hide AddedSince, TakenSince;
    var s' := Apply(s, a);
    var cs := a.checks;
    ExtendLog(s.log, Added(cs));
    forall j | 0 <= j < |s.threads|
      ensures s'.threads[j] == s.threads[j] || (s.threads[j].Sleeping? && s'.threads[j].Sleeping?)
    {
    }
    SumPointwise(Held, s.threads, s'.threads);
    SumPointwise(Asleep, s.threads, s'.threads);
    SumPointwise(Inside, s.threads, s'.threads);
    PassSplit(s'.sh.queue, s.sh.queue, cs);
    PassSplit(AddedSince(s'.log), AddedSince(s.log), cs);
    assert forall j :: 0 <= j < |s.threads| ==> Good(s.threads[j]) == Good(s'.threads[j]);
  }

  lemma ExecuteInv(s: State, a: Action)
    requires Inv(s) && a.Execute? && Enabled(s, a)
    ensures Inv(Apply(s, a))
  {
    var s' := Apply(s, a);
    var i, t := a.i, s.threads[a.i];
    SumsUpdate(s.threads, i, s'.threads[i]);
    assert s.sh.fAllOk ==> Good(s'.threads[i]) == Good(t);
    assert forall j :: 0 <= j < |s.threads| && j != i ==> s'.threads[j] == s.threads[j];
    if s.sh.fAllOk {
      assert forall j :: 0 <= j < |s.threads| ==> Good(s.threads[j]) == Good(s'.threads[j]);
    }
  }

  lemma EnterInv(s: State, a: Action)
    requires Inv(s) && a.Enter? && Enabled(s, a)
    ensures Inv(Apply(s, a))
  {
    var s0 := State(AfterFirstPass(s.sh), s.threads, s.log);
    SettleInv(s0, a.i);
    assert Apply(s, a) == Settle(s0, s0.sh, a.i);
  }

  lemma WakeInv(s: State, a: Action)
    requires Inv(s) && a.Wake? && Enabled(s, a)
    ensures Inv(Apply(s, a))
  {
    var i := a.i;
    InsideBounds(s.threads, i);
    var s0 := State(AfterWake(s.sh), s.threads[i := Outside], s.log);
    Withdraw(s, s0, i);
    SettleInv(s0, i);
    SettleIgnores(s, s0, i);
  }

  lemma FinishInv(s: State, a: Action)
    requires Inv(s) && a.Finish? && Enabled(s, a)
    ensures Inv(Apply(s, a))
  {
    var i, t := a.i, s.threads[a.i];
    InsideBounds(s.threads, i);
    var sh := AfterBatch(s.sh, |t.batch|, t.ok);
    var s1 := if sh.nTodo == 0 && i != 0 then s.(threads := s.threads[0 := Signal(s.threads[0])]) else s;
    SignalKeeps(s);
    var s0 := State(sh, s1.threads[i := Outside], s.log);
    Withdraw(s1, s0, i);
    SettleInv(s0, i);
    SettleIgnores(s1, s0, i);
  }

  lemma SignalKeeps(s: State)
    requires |s.threads| > 0 && Counters(s) && Verdict(s) && Conservation(s)
    ensures var s1 := s.(threads := s.threads[0 := Signal(s.threads[0])]);
            Counters(s1) && Verdict(s1) && Conservation(s1)
  {
    var s1 := s.(threads := s.threads[0 := Signal(s.threads[0])]);
    SumsUpdate(s.threads, 0, s1.threads[0]);
    assert forall j :: 0 < j < |s.threads| ==> s1.threads[j] == s.threads[j];
    assert forall j :: 0 <= j < |s.threads| ==> Good(s1.threads[j]) == Good(s.threads[j]);
  }

  /** Taking thread i out of the sums, its verdict folded into fAllOk. */
  lemma Withdraw(s: State, s0: State, i: nat)
    requires i < |s.threads| && !s.threads[i].Outside?
    requires Counters(s) && Verdict(s) && Conservation(s) && GoodLog(s.log) && !s.sh.fQuit
    requires s0.threads == s.threads[i := Outside] && s0.log == s.log && s0.sh.queue == s.sh.queue && !s0.sh.fQuit
    requires s0.sh.nTotal == s.sh.nTotal && s0.sh.nIdle == s.sh.nIdle - Asleep(s.threads[i])
    requires s0.sh.nTodo == s.sh.nTodo - Held(s.threads[i])
    requires s.threads[i].Holding? ==> s.threads[i].ran
    requires s0.sh.fAllOk <==> s.sh.fAllOk && Good(s.threads[i])
    requires s0.threads[0] == Sleeping(false) ==> s0.sh.queue == [] && s0.sh.nTodo > 0
    ensures Deciding(s0, i)
  {
    SumsUpdate(s.threads, i, Outside);
    assert forall j :: 0 <= j < |s.threads| && j != i ==> s0.threads[j] == s.threads[j];
    if forall j :: 0 <= j < |s0.threads| ==> Good(s0.threads[j]) {
      assert forall j :: 0 <= j < |s.threads| && j != i ==> Good(s.threads[j]);
    } else {
      var j :| 0 <= j < |s0.threads| && !Good(s0.threads[j]);
      assert !Good(s.threads[j]);
    }
  }

  lemma SettleIgnores(s: State, s0: State, i: nat)
    requires i < |s.threads| && s0.threads == s.threads[i := Outside] && s0.log == s.log && s0.sh.nTotal > 0
    ensures Settle(s, s0.sh, i) == Settle(s0, s0.sh, i)
  {
    var s' := Settle(s, s0.sh, i);
    assert s0.threads[i := s'.threads[i]] == s.threads[i := s'.threads[i]];
  }

  /** Every critical section and every batch execution keeps the invariant. */
  lemma StepInv(s: State, a: Action)
    requires Inv(s) && Enabled(s, a)
    ensures Inv(Apply(s, a))
  {
    match a
    case AddChecks(_, _) => AddInv(s, a);
    case Enter(_) => EnterInv(s, a);
    case Execute(_) => ExecuteInv(s, a);
    case Finish(_) => FinishInv(s, a);
    case Wake(_) => WakeInv(s, a);
  }

  // ---------------------------------------------------------------- runs

  /** The state after a run from s, if every action was enabled in turn. */
  ghost predicate Leads(s: State, run: seq<Action>, s': State)
    requires Inv(s)
    decreases |run|
  {
    if run == [] then s' == s
    else Enabled(s, run[0]) && (StepInv(s, run[0]); Leads(Apply(s, run[0]), run[1..], s'))
  }

  lemma {:induction false} RunInv(s: State, run: seq<Action>, s': State)
    requires Inv(s) && Leads(s, run, s')
    ensures Inv(s')
    decreases |run|
  {
    if run != [] {
      StepInv(s, run[0]);
      RunInv(Apply(s, run[0]), run[1..], s');
    }
  }

  /** The run starts with a new queue, before any thread has entered. */
  ghost predicate Reaches(workers: nat, batchSize: nat, run: seq<Action>, s: State) {
    InitInv(workers, batchSize);
    Leads(Init(workers, batchSize), run, s)
  }

  lemma ReachesInv(workers: nat, batchSize: nat, run: seq<Action>, s: State)
    requires Reaches(workers, batchSize, run, s)
    ensures Inv(s)
  {
    InitInv(workers, batchSize);
    RunInv(Init(workers, batchSize), run, s);
  }

  /** For any number of workers and rounds and every interleaving: each return
      of Wait in the log is the conjunction of the checks added since the one
      before, and each of those checks had left the queue exactly once. */
  lemma WaitIsConjunction(workers: nat, batchSize: nat, run: seq<Action>, s: State, k: nat)
    requires Reaches(workers, batchSize, run, s)
    requires k < |s.log| && s.log[k].Returned?
    ensures s.log[k].result <==> AllPass(AddedSince(s.log[..k]))
    ensures multiset(TakenSince(s.log[..k])) == multiset(AddedSince(s.log[..k]))
  {
    ReachesInv(workers, batchSize, run, s);
  }

  /** The counters count what their comments say, and a controller created
      between two rounds finds the queue as its assertions demand. */
  lemma CountersCorrect(workers: nat, batchSize: nat, run: seq<Action>, s: State)
    requires Reaches(workers, batchSize, run, s)
    ensures s.sh.nTodo == |s.sh.queue| + Sum(Held, s.threads)
    ensures s.sh.nTotal - s.sh.nIdle == Sum(Busy, s.threads)
    ensures AddedSince(s.log) == [] ==> s.sh.nTotal == s.sh.nIdle && s.sh.nTodo == 0 && s.sh.fAllOk
  {
    ReachesInv(workers, batchSize, run, s);
    BusyCount(s.threads);
    if AddedSince(s.log) == [] {
      assert |multiset(s.sh.queue) + multiset(TakenSince(s.log))| == |s.sh.queue| + |TakenSince(s.log)|;
      var _ := SumZero(Held, s.threads);
      forall j | 0 <= j < |s.threads| ensures Busy(s.threads[j]) == 0 {
        assert Held(s.threads[j]) == 0;
      }
      AllIdle(s.threads);
    }
  }

  function Busy(t: Thread): nat { if t.Holding? then 1 else 0 }

  lemma {:induction false} BusyCount(ts: seq<Thread>)
    ensures Sum(Inside, ts) == Sum(Asleep, ts) + Sum(Busy, ts)
  {
    if ts != [] {
      BusyCount(ts[..|ts| - 1]);
    }
  }

  lemma {:induction false} AllIdle(ts: seq<Thread>)
    requires forall j :: 0 <= j < |ts| ==> Busy(ts[j]) == 0
    ensures Sum(Busy, ts) == 0
  {
    if ts != [] {
      AllIdle(ts[..|ts| - 1]);
    }
  }

  // ---------------------------------------------------------------- progress inside Wait

  function Weight(t: Thread): nat {
    match t
    case Outside => 2
    case Sleeping(signalled) => if signalled then 1 else 0
    case Holding(_, _, ran) => if ran then 2 else 3
  }

  /** What is left to do while the master waits. */
  function Measure(s: State): nat {
    4 * |s.sh.queue| + Sum(Weight, s.threads)
  }

  predicate InWait(s: State) {
    |s.threads| > 0 && !s.threads[0].Outside?
  }

  /** A thread that sleeps without a signal and finds nothing to do on a
      spurious wake-up goes back to sleep; every other step of a thread that
      does not end the wait strictly lowers the measure. */
  lemma StepsTowardsReturn(s: State, a: Action)
    requires Inv(s) && InWait(s) && Enabled(s, a)
    ensures InWait(Apply(s, a)) ==> Measure(Apply(s, a)) < Measure(s) || Apply(s, a) == s
  {
    match a
    case AddChecks(_, _) =>
    case Execute(i) =>
      SumUpdate(Weight, s.threads, i, Apply(s, a).threads[i]);
    case Enter(i) =>
      SettleMeasure(s, s, AfterFirstPass(s.sh), i);
    case Wake(i) =>
      InsideBounds(s.threads, i);
      SettleMeasure(s, s, AfterWake(s.sh), i);
    case Finish(i) =>
      InsideBounds(s.threads, i);
      var t := s.threads[i];
      var sh := AfterBatch(s.sh, |t.batch|, t.ok);
      var s1 := if sh.nTodo == 0 && i != 0 then s.(threads := s.threads[0 := Signal(s.threads[0])]) else s;
      SumUpdate(Weight, s.threads, 0, Signal(s.threads[0]));
      SettleMeasure(s, s1, sh, i);
  }

  lemma SettleMeasure(s: State, s1: State, sh: Shared, i: nat)
    requires i < |s.threads| && |s1.threads| == |s.threads| && s1.threads[i] == s.threads[i]
    requires sh.nTotal > 0 && sh.queue == s.sh.queue && !sh.fQuit
    requires Sum(Weight, s1.threads) <= Sum(Weight, s.threads) + (if s.threads[i].Holding? then 1 else 0)
    requires s.threads[i].Holding? ==> s.threads[i].ran
    requires s.threads[i] == Sleeping(false) ==> s1 == s && s.sh == sh.(nIdle := sh.nIdle + 1)
    ensures var s' := Settle(s1, sh, i);
            (i != 0 || InWait(s')) ==> Measure(s') < Measure(s) || s' == s
  {
    var s' := Settle(s1, sh, i);
    SumUpdate(Weight, s1.threads, i, s'.threads[i]);
  }

  /** The master inside Wait is never stuck: asleep and unsignalled it leaves
      an empty queue and a worker with a batch, and in every case some thread
      has a step that is not a spurious wake-up. */
  lemma NeverStuck(workers: nat, batchSize: nat, run: seq<Action>, s: State) returns (a: Action)
    requires Reaches(workers, batchSize, run, s)
    requires InWait(s)
    ensures Inv(s) && Enabled(s, a) && Apply(s, a) != s
    ensures s.threads[0] == Sleeping(false) ==>
      s.sh.queue == [] && (a.Execute? || a.Finish?) && 0 < a.i < |s.threads| && s.threads[a.i].Holding?
  {
    ReachesInv(workers, batchSize, run, s);
    var i := 0;
    if s.threads[0] == Sleeping(false) {
      i := SumZero(Held, s.threads);
    }
    if s.threads[i].Holding? {
      a := if s.threads[i].ran then Finish(i) else Execute(i);
      HolderMoves(s, i);
    } else {
      a := Wake(i);
      SignalledMoves(s, i);
    }
  }

  lemma HolderMoves(s: State, i: nat)
    requires Inv(s) && i < |s.threads| && s.threads[i].Holding?
    ensures Enabled(s, if s.threads[i].ran then Finish(i) else Execute(i))
    ensures Apply(s, if s.threads[i].ran then Finish(i) else Execute(i)) != s
  {
    InsideBounds(s.threads, i);
  }

  lemma SignalledMoves(s: State, i: nat)
    requires Inv(s) && i < |s.threads| && s.threads[i] == Sleeping(true)
    ensures Apply(s, Wake(i)) != s
  {
    InsideBounds(s.threads, i);
    assert Apply(s, Wake(i)).threads[i] != s.threads[i];
  }

  /** Runs without idle wake-ups cannot keep the master in Wait for longer
      than the measure at their start. */
  lemma {:induction false} WaitEnds(s: State, run: seq<Action>)
    requires Inv(s) && StaysInWait(s, run)
    ensures |run| <= Measure(s)
    decreases |run|
  {
    if run != [] {
      StepsTowardsReturn(s, run[0]);
      StepInv(s, run[0]);
      WaitEnds(Apply(s, run[0]), run[1..]);
    }
  }

  ghost predicate StaysInWait(s: State, run: seq<Action>)
    requires Inv(s)
    decreases |run|
  {
    && InWait(s)
    && (run != [] ==>
          && Enabled(s, run[0]) && Apply(s, run[0]) != s
          && (StepInv(s, run[0]); StaysInWait(Apply(s, run[0]), run[1..])))
  }
}
