/** What callers of the queue may rely on: FIFO order over every run, exclusive cells, exact reasons
    for failure, progress, and the one buffer size for which all of this breaks down. */
module QueueFifo {
  import opened QueueMachine
  import opened QueueSafety

  // ----- Refinement of a bounded FIFO

  datatype Fifo<T> = Broken | Holding(items: seq<T>)

  /** A FIFO of the given capacity takes one operation. */
  function Apply<T(==)>(capacity: nat, q: Fifo<T>, op: Op<T>): Fifo<T> {
    if q.Broken? then Broken
    else
      match op
      case Put(v) => if |q.items| < capacity then Holding(q.items + [v]) else Broken
      case Take(v) => if q.items != [] && q.items[0] == v then Holding(q.items[1..]) else Broken
  }

  function ApplyAll<T(==)>(capacity: nat, ops: seq<Op<T>>): Fifo<T> {
    if ops == [] then Holding([])
    else Apply(capacity, ApplyAll(capacity, ops[..|ops| - 1]), ops[|ops| - 1])
  }

  /** Every run is a run of a FIFO with room for `size` values; the tickets between the two counters
      are its contents. */
  lemma {:induction false} RefinesFifo<T>(buffer: seq<T>, threads: nat, sched: Schedule<T>)
    requires |buffer| >= 2 && Fits(sched, threads)
    ensures var s := Play(Start(buffer, threads), sched);
      && s.m.deque <= s.m.enque == |s.h.values|
      && ApplyAll(|buffer|, s.h.effects) == Holding(s.h.values[s.m.deque..s.m.enque])
  {
    RunInv(buffer, threads, sched);
    if sched != [] {
      var last, before := sched[|sched| - 1], sched[..|sched| - 1];
      RefinesFifo(buffer, threads, before);
      RunInv(buffer, threads, before);
      var s := Play(Start(buffer, threads), before);
      EffectIsFifo(s, last.0, last.1);
    }
  }

  lemma EffectIsFifo<T>(s: Trace<T>, k: nat, a: Action<T>)
    requires Inv(s.m, s.h) && k < |s.m.threads|
    requires ApplyAll(s.m.size, s.h.effects) == Holding(s.h.values[s.m.deque..s.m.enque])
    ensures var s' := s.Then(k, a);
      && s'.m.deque <= s'.m.enque == |s'.h.values|
      && ApplyAll(s.m.size, s'.h.effects) == Holding(s'.h.values[s'.m.deque..s'.m.enque])
  {
    var e := s.h.effects;
    if EnqClaims(s.m, k, a) {
      ClaimedCellIsFree(s.m, s.h, k);
      assert (e + [Put(s.m.threads[k].v)])[..|e|] == e;
    } else if DeqClaims(s.m, k, a) {
      ClaimedCellIsFull(s.m, s.h, k);
      assert (e + [Take(s.h.values[s.m.deque])])[..|e|] == e;
    } else {
      UnclaimedKeepsCounters(s.m, k, a);
    }
  }

  lemma UnclaimedKeepsCounters<T>(m: Machine<T>, k: nat, a: Action<T>)
    requires m.Shape() && k < |m.threads| && !EnqClaims(m, k, a) && !DeqClaims(m, k, a)
    ensures var m' := Next(Exact, m, k, a); m'.enque == m.enque && m'.deque == m.deque
  {
  }

  // ----- Values reach their callers

  /** What the caller of TryDeque gets: the value brought by the thread that claimed the same ticket
      for writing. No ticket is handed out twice. */
  lemma ReturnsItsTicket<T>(buffer: seq<T>, threads: nat, sched: Schedule<T>, k: nat)
    requires |buffer| >= 2 && Fits(sched, threads) && k < threads
    ensures var s := Play(Start(buffer, threads), sched);
      var m, h := s.m, s.h;
      m.threads[k].DeqRelease? ==>
        var t, out := m.threads[k].target, m.threads[k].out;
        && t < m.deque <= |h.values| && |h.deqBy| == m.deque
        && h.deqBy[t] == k && t !in h.delivered && out == h.values[t]
        && Next(Exact, m, k, Run(false)).threads[k] == DeqReturned(out)
        && Record(m, h, k, Run(false)).delivered == h.delivered[t := out]
  {
    RunInv(buffer, threads, sched);
    var s := Play(Start(buffer, threads), sched);
    var m, h := s.m, s.h;
    assert ThreadOk(m, h, k);
    if m.threads[k].DeqRelease? { assert DeliveryOk(m, h, m.threads[k].target); }
  }

  /** Once every call has returned nothing is lost: the tickets read so far are all delivered, each
      with the value written for it, and the rest lie published in their cells. */
  lemma NothingLostAtRest<T>(buffer: seq<T>, threads: nat, sched: Schedule<T>)
    requires |buffer| >= 2 && Fits(sched, threads)
    requires forall l <- Play(Start(buffer, threads), sched).m.threads :: Returned(l)
    ensures var s := Play(Start(buffer, threads), sched);
      var m, h := s.m, s.h;
      && m.deque <= m.enque == |h.values|
      && (forall t :: t in h.delivered <==> 0 <= t < m.deque)
      && (forall t | 0 <= t < m.deque :: h.delivered[t] == h.values[t])
      && (forall t: nat | m.deque <= t < m.enque ::
            m.sequence[m.Slot(t)] == t + 1 && m.buffer[m.Slot(t)] == h.values[t])
      && (forall t: nat | m.enque <= t < m.deque + m.size :: m.sequence[m.Slot(t)] == t)
  {
    RunInv(buffer, threads, sched);
    var s := Play(Start(buffer, threads), sched);
    forall k: nat, t: nat
      ensures !Reading(s.m, k, t) && !Writing(s.m, k, t)
    {
      assert k < |s.m.threads| ==> s.m.threads[k] in s.m.threads;
    }
    AtRest(s.m, s.h);
  }

  lemma AtRest<T>(m: Machine<T>, h: History<T>)
    requires Inv(m, h)
    requires forall k: nat, t: nat :: !Reading(m, k, t) && !Writing(m, k, t)
    ensures forall t :: t in h.delivered <==> 0 <= t < m.deque
    ensures forall t | 0 <= t < m.deque :: h.delivered[t] == h.values[t]
    ensures forall t: nat | m.deque <= t < m.enque ::
              m.sequence[m.Slot(t)] == t + 1 && m.buffer[m.Slot(t)] == h.values[t]
    ensures forall t: nat | m.enque <= t < m.deque + m.size :: m.sequence[m.Slot(t)] == t
  {
    forall t: nat
      ensures t in h.delivered <==> t < m.deque
      ensures t < m.deque ==> h.delivered[t] == h.values[t]
    {
      assert DeliveryOk(m, h, t);
    }
    forall t: nat | m.deque <= t < m.deque + m.size
      ensures m.sequence[m.Slot(t)] == (if t < m.enque then t + 1 else t)
      ensures t < m.enque ==> m.buffer[m.Slot(t)] == h.values[t]
    {
      assert CellOk(m, h, t);
    }
  }

  /** In every run, two threads between their compare-exchange and their sequence store are never in
      the same cell. */
  lemma CellsAreExclusive<T>(buffer: seq<T>, threads: nat, sched: Schedule<T>, j: nat, k: nat)
    requires |buffer| >= 2 && Fits(sched, threads) && j < threads && k < threads && j != k
    ensures var m := Play(Start(buffer, threads), sched).m;
      Holds(m, j) && Holds(m, k) ==> m.Slot(Held(m.threads[j]).t) != m.Slot(Held(m.threads[k]).t)
  {
    RunInv(buffer, threads, sched);
    var s := Play(Start(buffer, threads), sched);
    HoldersApart(s.m, s.h, j, k);
  }

  /** Sequence numbers never go back. */
  lemma SequenceGrows<T>(m: Machine<T>, h: History<T>, k: nat, a: Action<T>, i: nat)
    requires Inv(m, h) && k < |m.threads| && i < m.size
    ensures m.sequence[i] <= Next(Exact, m, k, a).sequence[i]
  {
    assert ThreadOk(m, h, k);
  }

  // ----- Failure and progress

  /** TryEnque gives up exactly when, at the moment it loaded the sequence, its target was still the
      next ticket and the cell was taken: queue full, or its last reader still in the cell. */
  lemma EnqueFailsOnlyWhenTaken<T>(m: Machine<T>, h: History<T>, k: nat)
    requires Inv(m, h) && k < |m.threads| && m.threads[k].EnqLoadSeq?
    ensures var l := Next(Exact, m, k, Run(false)).threads[k];
      && l.EnqGuard?
      && (Delta(Exact, l.id, l.target) < 0 <==> (l.target == m.enque && CellTaken(m, h)))
      && (Delta(Exact, l.id, l.target) > 0 ==> l.target < m.enque)
  {
    assert ThreadOk(m, h, k);
    EnqueSees(m, h, m.threads[k].target);
  }

  /** TryDeque gives up exactly when the next ticket was unclaimed or unpublished at that moment. */
  lemma DequeFailsOnlyWhenUnpublished<T>(m: Machine<T>, h: History<T>, k: nat)
    requires Inv(m, h) && k < |m.threads| && m.threads[k].DeqLoadSeq?
    ensures var l := Next(Exact, m, k, Run(false)).threads[k];
      && l.DeqGuard?
      && (Delta(Exact, l.id, l.target + 1) < 0 <==> (l.target == m.deque && NothingPublished(m, h)))
      && (Delta(Exact, l.id, l.target + 1) > 0 ==> l.target < m.deque)
  {
    assert ThreadOk(m, h, k);
    DequeSees(m, h, m.threads[k].target);
  }

  /** Going round the loop without a spurious failure means that another thread has moved the counter
      since this one read it. */
  lemma RetryMeansProgress<T>(m: Machine<T>, h: History<T>, k: nat)
    requires Inv(m, h) && k < |m.threads|
    ensures var l, l' := m.threads[k], Next(Exact, m, k, Run(false)).threads[k];
      && (l.EnqGuard? && l'.EnqLoadTarget? ==> l.target < m.enque)
      && (l.DeqGuard? && l'.DeqLoadTarget? ==> l.target < m.deque)
  {
    assert ThreadOk(m, h, k);
  }

  /** The thread goes round the loop of TryEnque although its compare-exchange could not have won. */
  predicate EnqRetries<T>(m: Machine<T>, k: nat, a: Action<T>)
    requires m.Shape() && k < |m.threads|
  {
    && m.threads[k].EnqGuard?
    && Next(Exact, m, k, a).threads[k].EnqLoadTarget?
    && !EnqClaims(m, k, Run(false))
  }

  predicate DeqRetries<T>(m: Machine<T>, k: nat, a: Action<T>)
    requires m.Shape() && k < |m.threads|
  {
    && m.threads[k].DeqGuard?
    && Next(Exact, m, k, a).threads[k].DeqLoadTarget?
    && !DeqClaims(m, k, Run(false))
  }

  /** How often a thread goes round the loop in a run, spurious failures apart. */
  ghost function EnqRetryCount<T>(s: Trace<T>, sched: Schedule<T>, k: nat): nat
    requires s.m.Shape() && Fits(sched, |s.m.threads|) && k < |s.m.threads|
  {
    if sched == [] then 0
    else
      var last, before := sched[|sched| - 1], sched[..|sched| - 1];
      EnqRetryCount(s, before, k) + if last.0 == k && EnqRetries(Play(s, before).m, k, last.1) then 1 else 0
  }

  ghost function DeqRetryCount<T>(s: Trace<T>, sched: Schedule<T>, k: nat): nat
    requires s.m.Shape() && Fits(sched, |s.m.threads|) && k < |s.m.threads|
  {
    if sched == [] then 0
    else
      var last, before := sched[|sched| - 1], sched[..|sched| - 1];
      DeqRetryCount(s, before, k) + if last.0 == k && DeqRetries(Play(s, before).m, k, last.1) then 1 else 0
  }

  /** How far the thread has seen the counter advance. */
  function EnqReach<T>(m: Machine<T>, k: nat): nat
    requires k < |m.threads|
  {
    var l := m.threads[k];
    if l.EnqLoadSeq? || l.EnqGuard? then l.target else m.enque
  }

  function DeqReach<T>(m: Machine<T>, k: nat): nat
    requires k < |m.threads|
  {
    var l := m.threads[k];
    if l.DeqLoadSeq? || l.DeqGuard? then l.target else m.deque
  }

  /** What a thread has seen of the counter is not beyond it, and behind it if the cell has moved on. */
  predicate EnqSeen<T>(m: Machine<T>, k: nat)
    requires k < |m.threads|
  {
    var l := m.threads[k];
    && EnqReach(m, k) <= m.enque
    && (l.EnqGuard? && l.id > l.target ==> l.target < m.enque)
  }

  predicate DeqSeen<T>(m: Machine<T>, k: nat)
    requires k < |m.threads|
  {
    var l := m.threads[k];
    && DeqReach(m, k) <= m.deque
    && (l.DeqGuard? && l.id > l.target + 1 ==> l.target < m.deque)
  }

  lemma EnqReachNext<T>(m: Machine<T>, j: nat, a: Action<T>, k: nat)
    requires m.Shape() && j < |m.threads| && k < |m.threads| && EnqSeen(m, k)
    ensures EnqReach(m, k) + (if j == k && (EnqRetries(m, k, a) || EnqClaims(m, k, a)) then 1 else 0)
            <= EnqReach(Next(Exact, m, j, a), k)
  {
  }

  lemma DeqReachNext<T>(m: Machine<T>, j: nat, a: Action<T>, k: nat)
    requires m.Shape() && j < |m.threads| && k < |m.threads| && DeqSeen(m, k)
    ensures DeqReach(m, k) + (if j == k && (DeqRetries(m, k, a) || DeqClaims(m, k, a)) then 1 else 0)
            <= DeqReach(Next(Exact, m, j, a), k)
  {
  }

  lemma EnqReachStep<T>(m: Machine<T>, h: History<T>, j: nat, a: Action<T>, k: nat)
    requires Inv(m, h) && j < |m.threads| && k < |m.threads|
    ensures EnqReach(m, k) + (if j == k && EnqRetries(m, k, a) then 1 else 0)
                           + multiset(Record(m, h, j, a).enqBy)[k] - multiset(h.enqBy)[k]
            <= EnqReach(Next(Exact, m, j, a), k)
    ensures EnqReach(m, k) <= m.enque
  {
    assert EnqSeen(m, k) by {
      assert ThreadOk(m, h, k);
    }
    EnqReachNext(m, j, a, k);
    hide Next, CellOk, DeliveryOk, ThreadOk, EnqReach, EnqRetries;
    if EnqClaims(m, j, a) {
      assert multiset(h.enqBy + [j]) == multiset(h.enqBy) + multiset{j};
    }
  }

  lemma DeqReachStep<T>(m: Machine<T>, h: History<T>, j: nat, a: Action<T>, k: nat)
    requires Inv(m, h) && j < |m.threads| && k < |m.threads|
    ensures DeqReach(m, k) + (if j == k && DeqRetries(m, k, a) then 1 else 0)
                           + multiset(Record(m, h, j, a).deqBy)[k] - multiset(h.deqBy)[k]
            <= DeqReach(Next(Exact, m, j, a), k)
    ensures DeqReach(m, k) <= m.deque
  {
    assert DeqSeen(m, k) by {
      assert ThreadOk(m, h, k);
    }
    DeqReachNext(m, j, a, k);
    hide Next, CellOk, DeliveryOk, ThreadOk, DeqReach, DeqRetries;
    if DeqClaims(m, j, a) {
      assert multiset(h.deqBy + [j]) == multiset(h.deqBy) + multiset{j};
    }
  }

  lemma {:induction false} RetriesWithinReach<T>(buffer: seq<T>, threads: nat, sched: Schedule<T>, k: nat)
    requires |buffer| >= 2 && Fits(sched, threads) && k < threads
    ensures var s := Play(Start(buffer, threads), sched);
      && EnqRetryCount(Start(buffer, threads), sched, k) + multiset(s.h.enqBy)[k] <= EnqReach(s.m, k)
      && DeqRetryCount(Start(buffer, threads), sched, k) + multiset(s.h.deqBy)[k] <= DeqReach(s.m, k)
  {
    if sched != [] {
      var last, before := sched[|sched| - 1], sched[..|sched| - 1];
      RetriesWithinReach(buffer, threads, before, k);
      RunInv(buffer, threads, before);
      var s := Play(Start(buffer, threads), before);
      EnqReachStep(s.m, s.h, last.0, last.1, k);
      DeqReachStep(s.m, s.h, last.0, last.1, k);
    }
  }

  /** Lock freedom over whole runs: a thread goes round a loop, spurious failures apart, at most as often as
      other threads have won a ticket on that side. */
  lemma RetriesPaidByOthers<T>(buffer: seq<T>, threads: nat, sched: Schedule<T>, k: nat)
    requires |buffer| >= 2 && Fits(sched, threads) && k < threads
    ensures var h := Play(Start(buffer, threads), sched).h;
      && EnqRetryCount(Start(buffer, threads), sched, k) <= |h.enqBy| - multiset(h.enqBy)[k]
      && DeqRetryCount(Start(buffer, threads), sched, k) <= |h.deqBy| - multiset(h.deqBy)[k]
  {
    RetriesWithinReach(buffer, threads, sched, k);
    RunInv(buffer, threads, sched);
    var s := Play(Start(buffer, threads), sched);
    EnqReachStep(s.m, s.h, k, CallDeque, k);
    DeqReachStep(s.m, s.h, k, CallDeque, k);
  }

  /** `n` undisturbed steps of one thread, without spurious failures. */
  function Alone<T>(m: Machine<T>, k: nat, n: nat): (m': Machine<T>)
    requires m.Shape() && k < |m.threads|
    ensures m'.Shape() && m'.size == m.size && |m'.threads| == |m.threads|
  {
    if n == 0 then m else Next(Exact, Alone(m, k, n - 1), k, Run(false))
  }

  /** Left alone, TryEnque returns within five steps, and it succeeds unless the next cell is taken. */
  lemma EnqueAlone<T>(m: Machine<T>, h: History<T>, k: nat)
    requires Inv(m, h) && k < |m.threads| && m.threads[k].EnqLoadTarget?
    ensures Alone(m, k, 5).threads[k] == EnqReturned(!CellTaken(m, h))
    ensures Alone(m, k, 5).enque == (if CellTaken(m, h) then m.enque else m.enque + 1)
  {
    var v := m.threads[k].v;
    EnqueSees(m, h, m.enque);
    assert Alone(m, k, 0) == m;
    var m1 := Alone(m, k, 1);
    assert m1.threads[k] == EnqLoadSeq(v, m.enque) && m1.sequence == m.sequence;
    var m2 := Alone(m, k, 2);
    assert m2.threads[k] == EnqGuard(v, m.enque, m.sequence[m.Slot(m.enque)]) && m2.enque == m.enque;
    var m3 := Alone(m, k, 3);
    assert m3.threads[k] == if CellTaken(m, h) then EnqReturned(false) else EnqWrite(v, m.enque);
    var m4 := Alone(m, k, 4);
  }

  lemma DequeAlone<T>(m: Machine<T>, h: History<T>, k: nat)
    requires Inv(m, h) && k < |m.threads| && m.threads[k].DeqLoadTarget?
    ensures Alone(m, k, 5).threads[k] ==
            if NothingPublished(m, h) then DeqEmpty else DeqReturned(h.values[m.deque])
  {
    DequeSees(m, h, m.deque);
    assert CellOk(m, h, m.deque);
    assert Alone(m, k, 0) == m;
    var m1 := Alone(m, k, 1);
    assert m1.threads[k] == DeqLoadSeq(m.deque) && m1.sequence == m.sequence && m1.buffer == m.buffer;
    var m2 := Alone(m, k, 2);
    assert m2.threads[k] == DeqGuard(m.deque, m.sequence[m.Slot(m.deque)]) && m2.deque == m.deque;
    var m3 := Alone(m, k, 3);
    assert m3.threads[k] == if NothingPublished(m, h) then DeqEmpty else DeqCopy(m.deque);
    var m4 := Alone(m, k, 4);
  }

  // ----- One cell is not enough

  /** Every run of a queue of this size behaves as a FIFO with room for `size` values. The source's
      static_assert admits every power of two, 1 included. */
  ghost predicate FifoSound(size: nat)
    requires size > 0
  {
    forall buffer: seq<int>, threads: nat, sched: Schedule<int> |
      |buffer| == size && Fits(sched, threads) ::
      !ApplyAll(size, Play(Start(buffer, threads), sched).h.effects).Broken?
  }

  /** `path` lists the traces a schedule passes through. */
  ghost predicate Passes<T>(sched: Schedule<T>, path: seq<Trace<T>>) {
    && |path| == |sched| + 1
    && (forall s <- path :: s.m.Shape() && |s.m.threads| == |path[0].m.threads|)
    && Fits(sched, |path[0].m.threads|)
    && (forall i | 0 <= i < |sched| :: path[i + 1] == path[i].Then(sched[i].0, sched[i].1))
  }

  lemma PassesPrefix<T>(sched: Schedule<T>, path: seq<Trace<T>>, n: nat)
    requires Passes(sched, path) && n <= |sched|
    ensures Passes(sched[..n], path[..n + 1])
  {
    forall i | 0 <= i < n
      ensures path[..n + 1][i + 1] == path[..n + 1][i].Then(sched[..n][i].0, sched[..n][i].1)
    {
      assert path[i + 1] == path[i].Then(sched[i].0, sched[i].1);
    }
  }

  lemma {:induction false} PlayPasses<T>(s: Trace<T>, before: Schedule<T>, sched: Schedule<T>, path: seq<Trace<T>>)
    requires s.m.Shape() && Fits(before, |s.m.threads|) && Passes(sched, path)
    requires Play(s, before) == path[0]
    ensures Fits(before + sched, |s.m.threads|)
    ensures Play(s, before + sched) == path[|sched|]
  {
    hide Trace.Then;
    var all := before + sched;
    if sched == [] {
      assert all == before;
    } else {
      var n := |sched| - 1;
      var e := sched[n];
      PassesPrefix(sched, path, n);
      PlayPasses(s, before, sched[..n], path[..n + 1]);
      assert path[n + 1] == path[n].Then(e.0, e.1);
      assert Play(s, all) == path[n].Then(e.0, e.1) by {
        assert all == before + sched[..n] + [e];
        PlaySnoc(s, before + sched[..n], e);
      }
    }
  }

  lemma PlaySnoc<T>(s: Trace<T>, sched: Schedule<T>, e: (nat, Action<T>))
    requires s.m.Shape() && Fits(sched + [e], |s.m.threads|)
    ensures Fits(sched, |s.m.threads|) && e.0 < |s.m.threads|
    ensures Play(s, sched + [e]) == Play(s, sched).Then(e.0, e.1)
  {
    var longer := sched + [e];
    assert longer[..|longer| - 1] == sched && longer[|longer| - 1] == e;
    assert forall x <- sched :: x in longer;
  }

  /** The one-cell queue with n enqueues behind it and no dequeue, thread 0 about to do `l`. */
  function OneCell(n: nat, q: nat, b: int, l: Local<int>): Trace<int> {
    Trace(Machine(1, n, 0, [q], [b], [l]),
          History(seq(n, _ => 0), seq(n, _ => 7), [], map[], seq(n, _ => Put(7))))
  }

  /** In a queue of one cell, "published" for one ticket reads as "free" for the next: the guard lets
      every enqueue pass, whatever the cell holds. */
  lemma OneCellGuard(n: nat, l: Local<int>)
    requires Returned(l)
    ensures OneCell(n, n, 7, l).Then(0, CallEnque(7)) == OneCell(n, n, 7, EnqLoadTarget(7))
    ensures OneCell(n, n, 7, EnqLoadTarget(7)).Then(0, Run(false)) == OneCell(n, n, 7, EnqLoadSeq(7, n))
    ensures OneCell(n, n, 7, EnqLoadSeq(7, n)).Then(0, Run(false)) == OneCell(n, n, 7, EnqGuard(7, n, n))
    ensures OneCell(n, n, 7, EnqGuard(7, n, n)).Then(0, Run(false)) == OneCell(n + 1, n, 7, EnqWrite(7, n))
  {
  }

  lemma OneCellOverwrites(n: nat)
    ensures OneCell(n + 1, n, 7, EnqWrite(7, n)).Then(0, Run(false)) == OneCell(n + 1, n, 7, EnqPublish(7, n))
    ensures OneCell(n + 1, n, 7, EnqPublish(7, n)).Then(0, Run(false)) ==
            OneCell(n + 1, n + 1, 7, EnqReturned(true))
  {
  }

  /** One enqueue call of thread 0 that runs from start to end. */
  function EnqueCall(): Schedule<int> {
    [(0, CallEnque(7)), (0, Run(false)), (0, Run(false)), (0, Run(false)), (0, Run(false)), (0, Run(false))]
  }

  function OneCellPath(n: nat, l: Local<int>): seq<Trace<int>> {
    [OneCell(n, n, 7, l), OneCell(n, n, 7, EnqLoadTarget(7)), OneCell(n, n, 7, EnqLoadSeq(7, n)),
     OneCell(n, n, 7, EnqGuard(7, n, n)), OneCell(n + 1, n, 7, EnqWrite(7, n)),
     OneCell(n + 1, n, 7, EnqPublish(7, n)), OneCell(n + 1, n + 1, 7, EnqReturned(true))]
  }

  lemma OneCellPasses(n: nat, l: Local<int>)
    requires Returned(l)
    ensures Passes(EnqueCall(), OneCellPath(n, l))
  {
    OneCellGuard(n, l);
    OneCellOverwrites(n);
  }

  lemma OneCellEnques(s: Trace<int>, sched: Schedule<int>, n: nat, l: Local<int>)
    requires s.m.Shape() && |s.m.threads| == 1 && Fits(sched, 1) && Returned(l)
    requires Play(s, sched) == OneCell(n, n, 7, l)
    ensures Fits(sched + EnqueCall(), 1)
    ensures Play(s, sched + EnqueCall()) == OneCell(n + 1, n + 1, 7, EnqReturned(true))
  {
    OneCellPasses(n, l);
    PlayPasses(s, sched, EnqueCall(), OneCellPath(n, l));
  }

  /** Two enqueues with no dequeue between them both succeed in a queue of one cell. */
  lemma OneCellUnsound()
    ensures !FifoSound(1)
  {
    var s := Start([7], 1);
    assert s == OneCell(0, 0, 7, Idle);
    OneCellEnques(s, [], 0, Idle);
    OneCellEnques(s, [] + EnqueCall(), 1, EnqReturned(true));
    var sched := [] + EnqueCall() + EnqueCall();
    assert Play(s, sched).h.effects == [Put(7), Put(7)];
    TwoPutsOverflow(7);
    assert |[7]| == 1 && Fits(sched, 1);
  }

  /** Two enqueues in a row overflow any FIFO of capacity one. */
  lemma TwoPutsOverflow(v: int)
    ensures ApplyAll(1, [Put(v), Put(v)]).Broken?
  {
    var ops := [Put(v), Put(v)];
    assert ops[..1] == [Put(v)];
    assert ApplyAll<int>(1, []) == Holding([]);
    assert ApplyAll(1, [Put(v)]) == Holding([v]);
  }

  /** The queue is a FIFO exactly when it has at least two cells. */
  lemma SoundIffTwoCells(size: nat)
    requires size > 0
    ensures FifoSound(size) <==> size >= 2
  {
    if size >= 2 {
      forall buffer: seq<int>, threads: nat, sched: Schedule<int> |
        |buffer| == size && Fits(sched, threads)
        ensures !ApplyAll(size, Play(Start(buffer, threads), sched).h.effects).Broken?
      {
        RefinesFifo(buffer, threads, sched);
      }
    } else {
      OneCellUnsound();
    }
  }
}
