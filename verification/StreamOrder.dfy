/**
 The exact-subject subscription's worker pool (stream/interest.go): live messages are sharded by a
 hash of their subject onto bounded queues, and each worker handles its own queue in order. The
 pool is a state machine over the steps that can interleave: a dispatch that enqueues, one that
 gives up because the subscription is stopping, a worker taking its next job, a worker finishing
 one, and stopping.
 */
module StreamOrder {
  import opened Wrappers
  import opened Words

  type Octet = x: nat | x < 256

  /** Subjects are byte strings, as the hash sees them. */
  type Subject = seq<Octet>

  const DEFAULT_INTEREST_WORKERS := 10
  const INTEREST_WORKER_QUEUE := 64

  const FNV_OFFSET: Word := 2166136261
  const FNV_PRIME: Word := 16777619

  function XorOctet(hash: Word, octet: Octet): Word {
    WordsHave32Bits();
    XorFits(hash, octet, 32);
    Xor(hash, octet, 32)
  }

  /** The 32-bit FNV-1a hash; the multiplication wraps. */
  function Fnv(subject: Subject): Word {
    if subject == [] then FNV_OFFSET
    else XorOctet(Fnv(subject[..|subject| - 1]), subject[|subject| - 1]) * FNV_PRIME % WORD
  }

  /** The worker of a subject. */
  function WorkerIndex(subject: Subject, workers: int): (index: nat)
    requires workers < 0x1_0000_0000
    ensures index < workers || (workers <= 0 && index == 0)
  {
    if workers <= 0 then 0 else Fnv(subject) % workers
  }

  // ---------------------------------------------------------------- how subjects spread

  lemma XorOctetIsInjective(h: Word, a: Octet, g: Word, b: Octet)
    requires XorOctet(h, a) == XorOctet(g, b)
    ensures a == b ==> h == g
    ensures h == g ==> a == b
  {
    WordsHave32Bits();
    XorCommutes(h, a, 32);
    XorCommutes(g, b, 32);
    if a == b {
      XorCancels(a, h, g, 32);
    }
    if h == g {
      XorCancels(h, a, b, 32);
    }
  }

  /** The prime has an inverse modulo 2^32, so the multiplication loses nothing. */
  lemma HashingIsInvertible(d: int, q: int)
    requires -WORD < d < WORD && d * 16777619 == WORD * q
    ensures d == 0
  {
    assert 16777619 * 899433627 == 1 + WORD * 3513497;
    OnlyZeroIsAMultiple(d, q * 899433627 - d * 3513497);
  }

  lemma OneOctetMore(s: Subject, octet: Octet)
    ensures Fnv(s + [octet]) == XorOctet(Fnv(s), octet) * FNV_PRIME % WORD
  {
    assert (s + [octet])[..|s|] == s;
  }

  lemma ProductIsInjective(x: Word, y: Word)
    requires x * FNV_PRIME % WORD == y * FNV_PRIME % WORD
    ensures x == y
  {
    HashingIsInvertible(x - y, x * 16777619 / WORD - y * 16777619 / WORD);
  }

  lemma NextHashIsInjective(s: Subject, a: Octet, t: Subject, b: Octet)
    ensures Fnv(s + [a]) == Fnv(t + [b]) ==> (a == b ==> Fnv(s) == Fnv(t)) && (Fnv(s) == Fnv(t) ==> a == b)
  {
    if Fnv(s + [a]) == Fnv(t + [b]) {
      OneOctetMore(s, a);
      OneOctetMore(t, b);
      ProductIsInjective(XorOctet(Fnv(s), a), XorOctet(Fnv(t), b));
      XorOctetIsInjective(Fnv(s), a, Fnv(t), b);
    }
  }

  lemma {:induction false} SameEndKeepsHashesApart(s: Subject, t: Subject, end: Subject)
    requires Fnv(s) != Fnv(t)
    ensures Fnv(s + end) != Fnv(t + end)
  {
    if end == [] {
      assert s + end == s && t + end == t;
    } else {
      var front, last := end[..|end| - 1], end[|end| - 1];
      assert s + end == s + front + [last] && t + end == t + front + [last];
      SameEndKeepsHashesApart(s, t, front);
      NextHashIsInjective(s + front, last, t + front, last);
    }
  }

  /** Subjects that differ in exactly one byte never have the same hash. */
  lemma OneByteTellsApart(start: Subject, a: Octet, b: Octet, end: Subject)
    requires a != b
    ensures Fnv(start + [a] + end) != Fnv(start + [b] + end)
  {
    NextHashIsInjective(start, a, start, b);
    SameEndKeepsHashesApart(start + [a], start + [b], end);
  }

  /** Subjects share a worker exactly when the number of workers divides the difference of their hashes. */
  lemma SameWorkerExactly(s: Subject, t: Subject, workers: int)
    requires 0 < workers < 0x1_0000_0000
    ensures WorkerIndex(s, workers) == WorkerIndex(t, workers) <==> (Fnv(s) - Fnv(t)) % workers == 0
  {
    SameRemainderExactly(Fnv(s), Fnv(t), workers);
  }

  lemma SameRemainderExactly(x: int, y: int, n: int)
    requires n > 0
    ensures x % n == y % n <==> (x - y) % n == 0
  {
    var a, b, c := x / n, y / n, (x - y) / n;
    Divides(x, a, n);
    Divides(y, b, n);
    Divides(x - y, c, n);
    assert (a - b) * n == a * n - b * n && (c - a + b) * n == c * n - a * n + b * n;
    SmallMultiple(x % n - y % n - (x - y) % n, c - a + b, n);
    SmallMultiple((x - y) % n, a - b - c, n);
  }

  lemma Divides(x: int, q: int, n: int)
    requires n > 0 && q == x / n
    ensures x == q * n + x % n
  {
  }

  /** A multiple smaller than what it is a multiple of is nothing. */
  lemma SmallMultiple(d: int, q: int, n: int)
    requires n > 0
    ensures d == q * n && -n < d < n ==> d == 0
  {
    assert q >= 1 ==> q * n >= n;
    assert q <= -1 ==> q * n <= -n;
  }

  datatype Job = Job(subject: Subject, value: int)

  /** A worker: its bounded queue, and the job it is handling. */
  datatype Worker = Worker(queue: seq<Job>, busy: Option<Job>)

  /**
   `sent` and `handled` are the histories of enqueued and of finished jobs. Stopping cancels first
   (`done`) and closes the queues later; sending on a closed queue ends the process (`crashed`).
   */
  datatype Pool = Pool(workers: seq<Worker>, done: bool, closed: bool, crashed: bool, sent: seq<Job>, handled: seq<Job>)

  datatype Event =
    | Dispatched(job: Job, givesUp: bool)
    | Taken(worker: nat)
    | Finished(worker: nat)
    | Cancelled
    | Closed

  function Shard(subject: Subject, p: Pool): nat
    requires |p.workers| < 0x1_0000_0000
  {
    WorkerIndex(subject, |p.workers|)
  }

  function Idle(workers: nat): Pool {
    Pool(seq(workers, i => Worker([], None)), false, false, false, [], [])
  }

  /** A dispatch that has to wait for room, and a worker with nothing to do, are not steps yet. */
  function Step(p: Pool, e: Event): Pool
    requires 0 < |p.workers| < 0x1_0000_0000
  {
    if p.crashed then p
    else match e
    case Dispatched(job, givesUp) =>
      var index := Shard(job.subject, p);
      var worker := p.workers[index];
      if givesUp then p
      else if p.closed then p.(crashed := true)
      else if |worker.queue| >= INTEREST_WORKER_QUEUE then p
      else p.(workers := p.workers[index := worker.(queue := worker.queue + [job])], sent := p.sent + [job])
    case Taken(index) =>
      if index >= |p.workers| || p.workers[index].busy.Some? || p.workers[index].queue == [] then p
      else
        var worker := p.workers[index];
        p.(workers := p.workers[index := Worker(worker.queue[1..], Some(worker.queue[0]))])
    case Finished(index) =>
      if index >= |p.workers| || p.workers[index].busy.None? then p
      else
        var worker := p.workers[index];
        p.(workers := p.workers[index := worker.(busy := None)], handled := p.handled + [worker.busy.value])
    case Cancelled => p.(done := true)
    case Closed => if p.done then p.(closed := true) else p
  }

  function Run(workers: nat, events: seq<Event>): (p: Pool)
    requires 0 < workers < 0x1_0000_0000
    ensures |p.workers| == workers
  {
    if events == [] then Idle(workers)
    else Step(Run(workers, events[..|events| - 1]), events[|events| - 1])
  }

  // ---------------------------------------------------------------- order

  /** The jobs of one subject, in order. */
  function Of(jobs: seq<Job>, subject: Subject): seq<Job> {
    if jobs == [] then []
    else
      var last := jobs[|jobs| - 1];
      Of(jobs[..|jobs| - 1], subject) + if last.subject == subject then [last] else []
  }

  lemma {:induction false} OfAppends(a: seq<Job>, b: seq<Job>, subject: Subject)
    ensures Of(a + b, subject) == Of(a, subject) + Of(b, subject)
  {
    if b == [] {
      assert a + b == a;
    } else {
      var n := |b| - 1;
      OfAppends(a, b[..n], subject);
      assert (a + b)[..|a + b| - 1] == a + b[..n];
    }
  }

  lemma AppendOne(jobs: seq<Job>, job: Job, subject: Subject)
    ensures Of(jobs + [job], subject) == if job.subject == subject then Of(jobs, subject) + [job] else Of(jobs, subject)
  {
    assert (jobs + [job])[..|jobs|] == jobs;
  }

  lemma PrependOne(jobs: seq<Job>, job: Job, subject: Subject)
    ensures Of([job] + jobs, subject) == if job.subject == subject then [job] + Of(jobs, subject) else Of(jobs, subject)
  {
    OfAppends([job], jobs, subject);
    assert [job][..0] == [];
  }

  lemma Reassociate(a: seq<Job>, b: seq<Job>, c: seq<Job>)
    ensures a + b + c == a + (b + c)
  {
  }

  /** The job in hand followed by the queue. */
  function Pending(w: Worker): seq<Job> {
    (match w.busy case None => [] case Some(job) => [job]) + w.queue
  }

  /** Every worker holds only jobs of its own subjects, and no more than its queue has room for. */
  ghost predicate Sharded(p: Pool) {
    && 0 < |p.workers| < 0x1_0000_0000
    && forall i | 0 <= i < |p.workers| :: WorkerKeepsShard(p, i)
  }

  ghost predicate WorkerKeepsShard(p: Pool, i: nat)
    requires i < |p.workers| < 0x1_0000_0000
  {
    && |p.workers[i].queue| <= INTEREST_WORKER_QUEUE
    && forall job <- Pending(p.workers[i]) :: Shard(job.subject, p) == i
  }

  /** What was handled of a subject, then what waits at its worker, is what was sent of it. */
  ghost predicate InOrder(p: Pool, subject: Subject)
    requires 0 < |p.workers| < 0x1_0000_0000
  {
    Of(p.handled, subject) + Of(Pending(p.workers[Shard(subject, p)]), subject) == Of(p.sent, subject)
  }

  ghost predicate Ordered(p: Pool) {
    Sharded(p) && forall subject :: InOrder(p, subject)
  }

  /** Changing one worker so that it still holds its own subjects keeps the sharding. */
  lemma OneWorkerKeepsShard(p: Pool, q: Pool, index: nat)
    requires Sharded(p) && index < |p.workers| == |q.workers|
    requires q.workers == p.workers[index := q.workers[index]] && WorkerKeepsShard(q, index)
    ensures Sharded(q)
  {
    forall i | 0 <= i < |q.workers| ensures WorkerKeepsShard(q, i) {
      assert WorkerKeepsShard(p, i);
    }
  }

  /** A sent job waits behind everything else at its worker, and no other subject notices. */
  lemma SentJoinsTheEnd(handled: seq<Job>, pending: seq<Job>, sent: seq<Job>, job: Job, subject: Subject)
    requires Of(handled, subject) + Of(pending, subject) == Of(sent, subject)
    ensures Of(handled, subject) + Of(pending + [job], subject) == Of(sent + [job], subject)
    ensures job.subject != subject ==> Of(sent + [job], subject) == Of(sent, subject)
  {
    AppendOne(sent, job, subject);
    AppendOne(pending, job, subject);
    Reassociate(Of(handled, subject), Of(pending, subject), [job]);
  }

  /** A finished job was the first of everything at its worker. */
  lemma FinishedWasFirst(handled: seq<Job>, pending: seq<Job>, job: Job, subject: Subject)
    ensures Of(handled + [job], subject) + Of(pending, subject) == Of(handled, subject) + Of([job] + pending, subject)
    ensures job.subject != subject ==> Of(handled + [job], subject) == Of(handled, subject)
  {
    AppendOne(handled, job, subject);
    PrependOne(pending, job, subject);
    Reassociate(Of(handled, subject), [job], Of(pending, subject));
  }

  lemma DispatchKeepsOrder(p: Pool, job: Job, givesUp: bool)
    requires Ordered(p)
    ensures Ordered(Step(p, Dispatched(job, givesUp)))
  {
    var q := Step(p, Dispatched(job, givesUp));
    var index := Shard(job.subject, p);
    if q.crashed {
      SameJobsKeepOrder(p, q);
    } else if q != p {
      var before := Pending(p.workers[index]);
      assert Pending(q.workers[index]) == before + [job];
      assert WorkerKeepsShard(p, index);
      OneWorkerKeepsShard(p, q, index);
      forall subject ensures InOrder(q, subject) {
        assert InOrder(p, subject);
        SentJoinsTheEnd(p.handled, Pending(p.workers[Shard(subject, p)]), p.sent, job, subject);
      }
    }
  }

  lemma TakeKeepsOrder(p: Pool, index: nat)
    requires Ordered(p)
    ensures Ordered(Step(p, Taken(index)))
  {
    var q := Step(p, Taken(index));
    if q != p {
      assert Pending(q.workers[index]) == Pending(p.workers[index]);
      assert WorkerKeepsShard(p, index);
      OneWorkerKeepsShard(p, q, index);
      forall subject ensures InOrder(q, subject) {
        assert InOrder(p, subject);
      }
    }
  }

  lemma FinishKeepsOrder(p: Pool, index: nat)
    requires Ordered(p)
    ensures Ordered(Step(p, Finished(index)))
  {
    var q := Step(p, Finished(index));
    if q != p {
      var job := p.workers[index].busy.value;
      assert Pending(p.workers[index]) == [job] + Pending(q.workers[index]);
      assert WorkerKeepsShard(p, index) && job in Pending(p.workers[index]);
      OneWorkerKeepsShard(p, q, index);
      forall subject ensures InOrder(q, subject) {
        assert InOrder(p, subject);
        FinishedWasFirst(p.handled, Pending(q.workers[Shard(subject, p)]), job, subject);
      }
    }
  }

  /** Flags have no part in the order. */
  lemma SameJobsKeepOrder(p: Pool, q: Pool)
    requires Ordered(p) && q.workers == p.workers && q.sent == p.sent && q.handled == p.handled
    ensures Ordered(q)
  {
    forall i | 0 <= i < |p.workers| ensures WorkerKeepsShard(q, i) {
      assert WorkerKeepsShard(p, i);
    }
    forall subject ensures InOrder(q, subject) {
      assert InOrder(p, subject);
    }
  }

  /** For every interleaving, each subject's messages are handled in the order they were dispatched. */
  lemma {:induction false} EveryRunKeepsOrder(workers: nat, events: seq<Event>)
    requires 0 < workers < 0x1_0000_0000
    ensures Ordered(Run(workers, events))
  {
    if events == [] {
      var p := Idle(workers);
      forall subject ensures InOrder(p, subject) {
        assert Pending(p.workers[Shard(subject, p)]) == [];
      }
    } else {
      var before := events[..|events| - 1];
      EveryRunKeepsOrder(workers, before);
      match events[|events| - 1]
      case Dispatched(job, givesUp) => DispatchKeepsOrder(Run(workers, before), job, givesUp);
      case Taken(index) => TakeKeepsOrder(Run(workers, before), index);
      case Finished(index) => FinishKeepsOrder(Run(workers, before), index);
      case Cancelled => SameJobsKeepOrder(Run(workers, before), Step(Run(workers, before), Cancelled));
      case Closed => SameJobsKeepOrder(Run(workers, before), Step(Run(workers, before), Closed));
    }
  }

  /** No two workers handle one subject at the same time. */
  lemma OneSubjectOneWorker(workers: nat, events: seq<Event>, i: nat, j: nat)
    requires 0 < workers < 0x1_0000_0000 && i < workers && j < workers
    ensures var p := Run(workers, events);
      (p.workers[i].busy.Some? && p.workers[j].busy.Some?
       && p.workers[i].busy.value.subject == p.workers[j].busy.value.subject) ==> i == j
  {
    EveryRunKeepsOrder(workers, events);
    var p := Run(workers, events);
    assert WorkerKeepsShard(p, i) && WorkerKeepsShard(p, j);
    assert forall k | k in [i, j] && p.workers[k].busy.Some? :: p.workers[k].busy.value in Pending(p.workers[k]);
  }

  /** Once nothing waits, every message that was sent has been handled, in order. */
  lemma DrainedPoolLostNothing(p: Pool, subject: Subject)
    requires Ordered(p) && Pending(p.workers[Shard(subject, p)]) == []
    ensures Of(p.handled, subject) == Of(p.sent, subject)
  {
    assert InOrder(p, subject);
  }

  // ---------------------------------------------------------------- sending after closing

  /** The k-th event sends a job though the queues are closed. */
  predicate SendsOnClosed(workers: nat, events: seq<Event>, k: nat)
    requires 0 < workers < 0x1_0000_0000 && k < |events|
  {
    Run(workers, events[..k]).closed && events[k].Dispatched? && !events[k].givesUp
  }

  lemma {:induction false} CrashComesAfterClosing(workers: nat, events: seq<Event>)
    requires 0 < workers < 0x1_0000_0000
    ensures Run(workers, events).crashed ==> Run(workers, events).closed
    ensures Run(workers, events).closed ==> Run(workers, events).done
  {
    if events != [] {
      CrashComesAfterClosing(workers, events[..|events| - 1]);
    }
  }

  predicate Cancels(events: seq<Event>) {
    exists i | 0 <= i < |events| :: events[i].Cancelled?
  }

  lemma {:induction false} DoneExactly(workers: nat, events: seq<Event>)
    requires 0 < workers < 0x1_0000_0000
    ensures Run(workers, events).done <==> Cancels(events)
  {
    if events != [] {
      var n := |events| - 1;
      DoneExactly(workers, events[..n]);
      CrashComesAfterClosing(workers, events[..n]);
      assert forall i | 0 <= i < n :: events[..n][i] == events[i];
    }
  }

  /** The queues are closed once a close has followed a cancellation. */
  lemma {:induction false} ClosedExactly(workers: nat, events: seq<Event>)
    requires 0 < workers < 0x1_0000_0000
    ensures Run(workers, events).closed <==> exists j | 0 <= j < |events| :: events[j].Closed? && Cancels(events[..j])
  {
    if events != [] {
      var n := |events| - 1;
      ClosedExactly(workers, events[..n]);
      DoneExactly(workers, events[..n]);
      CrashComesAfterClosing(workers, events[..n]);
      forall j | 0 <= j < n ensures events[..n][..j] == events[..j] && events[..n][j] == events[j] {
      }
    }
  }

  /** A run ends the process if and only if some dispatch chooses to send after the queues were closed. */
  lemma {:induction false} CrashesExactly(workers: nat, events: seq<Event>)
    requires 0 < workers < 0x1_0000_0000
    ensures Run(workers, events).crashed <==> exists k | 0 <= k < |events| :: SendsOnClosed(workers, events, k)
  {
    if events != [] {
      var n := |events| - 1;
      CrashesExactly(workers, events[..n]);
      forall k | 0 <= k < n ensures SendsOnClosed(workers, events, k) <==> SendsOnClosed(workers, events[..n], k) {
        assert events[..n][..k] == events[..k];
      }
      assert SendsOnClosed(workers, events, n) <==> (Run(workers, events[..n]).closed && events[n].Dispatched? && !events[n].givesUp);
      if Run(workers, events[..n]).crashed {
        var k :| 0 <= k < n && SendsOnClosed(workers, events[..n], k);
        assert SendsOnClosed(workers, events, k);
      }
    }
  }

  class ExactSubscription {
    var workers: seq<Worker>
    var done: bool
    var closed: bool
    var crashed: bool
    /** What was enqueued and what was handled so far. */
    ghost var sent: seq<Job>
    ghost var handled: seq<Job>

    constructor ()
      ensures Snapshot() == Run(DEFAULT_INTEREST_WORKERS, []) && Ordered(Snapshot())
    {
      workers := seq(DEFAULT_INTEREST_WORKERS, i => Worker([], None));
      done, closed, crashed, sent, handled := false, false, false, [], [];
      new;
      EveryRunKeepsOrder(DEFAULT_INTEREST_WORKERS, []);
    }

    ghost function Snapshot(): Pool
      reads this
    {
      Pool(workers, done, closed, crashed, sent, handled)
    }

    /** Called once a case of the select is ready: room or a closed queue to send on, or cancellation; several may be. */
    method Dispatch(subject: Subject, value: int, givesUp: bool)
      requires Ordered(Snapshot()) && !crashed
      requires givesUp ==> done
      requires !givesUp && !closed ==> |workers[WorkerIndex(subject, |workers|)].queue| < INTEREST_WORKER_QUEUE
      modifies this
      ensures Snapshot() == Step(old(Snapshot()), Dispatched(Job(subject, value), givesUp))
      ensures Ordered(Snapshot()) && (crashed <==> closed && !givesUp)
      ensures sent == if givesUp || closed then old(sent) else old(sent) + [Job(subject, value)]
    {
      DispatchKeepsOrder(Snapshot(), Job(subject, value), givesUp);
      var index := WorkerIndex(subject, |workers|);
      if givesUp {
        return;
      }
      if closed {
        crashed := true;
        return;
      }
      var worker := workers[index];
      workers := workers[index := worker.(queue := worker.queue + [Job(subject, value)])];
      sent := sent + [Job(subject, value)];
    }

    method Take(index: nat)
      requires Ordered(Snapshot()) && !crashed && index < |workers|
      requires workers[index].busy.None? && workers[index].queue != []
      modifies this
      ensures Snapshot() == Step(old(Snapshot()), Taken(index)) && Ordered(Snapshot())
    {
      TakeKeepsOrder(Snapshot(), index);
      var queue := workers[index].queue;
      workers := workers[index := Worker(queue[1..], Some(queue[0]))];
    }

    /** The handler returns, with or without an error. */
    method Finish(index: nat)
      requires Ordered(Snapshot()) && !crashed && index < |workers| && workers[index].busy.Some?
      modifies this
      ensures Snapshot() == Step(old(Snapshot()), Finished(index)) && Ordered(Snapshot())
    {
      FinishKeepsOrder(Snapshot(), index);
      handled := handled + [workers[index].busy.value];
      workers := workers[index := workers[index].(busy := None)];
    }

    /** A free worker takes its next job and handles it. */
    method HandleNext(index: nat)
      requires Ordered(Snapshot()) && !crashed && index < |workers|
      requires workers[index].busy.None? && workers[index].queue != []
      modifies this
      ensures Ordered(Snapshot()) && !crashed && done == old(done) && closed == old(closed) && sent == old(sent)
      ensures workers == old(workers)[index := Worker(old(workers)[index].queue[1..], None)]
      ensures handled == old(handled) + [old(workers)[index].queue[0]]
    {
      Take(index);
      Finish(index);
    }

    /** A worker whose queue was closed handles what is left, in order. */
    method RunWorker(index: nat)
      requires Ordered(Snapshot()) && !crashed && index < |workers|
      modifies this
      ensures Ordered(Snapshot()) && !crashed && done == old(done) && closed == old(closed) && sent == old(sent)
      ensures workers == old(workers)[index := Worker([], None)]
      ensures handled == old(handled) + old(Pending(workers[index]))
    {
      if workers[index].busy.Some? {
        Finish(index);
      }
      while workers[index].queue != []
        invariant index < |workers| && workers == old(workers)[index := Worker(workers[index].queue, None)]
        invariant Ordered(Snapshot()) && !crashed && done == old(done) && closed == old(closed) && sent == old(sent)
        invariant handled + workers[index].queue == old(handled) + old(Pending(workers[index]))
        decreases |workers[index].queue|
      {
        ghost var queue := workers[index].queue;
        HandleNext(index);
        assert queue == [queue[0]] + queue[1..];
      }
    }

    /**
     Stopping cancels, closes every queue and waits: what was enqueued is handled first, subject by
     subject in order.
     */
    method Stop()
      requires Ordered(Snapshot()) && !crashed
      modifies this
      ensures done && closed && !crashed && Ordered(Snapshot()) && sent == old(sent)
      ensures forall subject :: Of(handled, subject) == Of(sent, subject)
    {
      SameJobsKeepOrder(Snapshot(), Snapshot().(done := true, closed := true));
      done := true;
      closed := true;
      for i := 0 to |workers|
        invariant |workers| == |old(workers)| && Ordered(Snapshot()) && done && closed && !crashed && sent == old(sent)
        invariant forall k | 0 <= k < i :: workers[k] == Worker([], None)
      {
        RunWorker(i);
      }
      forall subject ensures Of(handled, subject) == Of(sent, subject) {
        DrainedPoolLostNothing(Snapshot(), subject);
      }
    }
  }
}
