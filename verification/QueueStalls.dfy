/** Where the stall bound of the queue comes from: two runs of the 32-bit machine from the constructor, in
    which thread 0 stalls during a call while thread 1 goes on. */
module QueueStalls {
  import opened Words
  import opened QueueMachine

  /** Two cells; thread 0 stalls with ticket 0 in hand while thread 1 works. */
  function Stalled(s: Local<int>, enque: nat, deque: nat, q: seq<nat>, l: Local<int>): Machine<int> {
    Machine(2, enque, deque, q, [7, 7], [s, l])
  }

  /** A call of thread 1 and its five steps. */
  function Call(a: Action<int>): Schedule<int> {
    [(1, a), (1, Run(false)), (1, Run(false)), (1, Run(false)), (1, Run(false)), (1, Run(false))]
  }

  lemma EnqueLoads(s: Local<int>, e: nat, d: nat, q: seq<nat>, l: Local<int>)
    requires |q| == 2 && q[e % 2] == e < WORD && Returned(l)
    ensures Next(Wrap, Stalled(s, e, d, q, l), 1, CallEnque(7)) == Stalled(s, e, d, q, EnqLoadTarget(7))
    ensures Next(Wrap, Stalled(s, e, d, q, EnqLoadTarget(7)), 1, Run(false)) == Stalled(s, e, d, q, EnqLoadSeq(7, e))
    ensures Next(Wrap, Stalled(s, e, d, q, EnqLoadSeq(7, e)), 1, Run(false)) == Stalled(s, e, d, q, EnqGuard(7, e, e))
  {
  }

  lemma EnqueStores(s: Local<int>, e: nat, d: nat, q: seq<nat>)
    requires |q| == 2 && q[e % 2] == e < WORD
    ensures var e' := (e + 1) % WORD;
      && Next(Wrap, Stalled(s, e, d, q, EnqGuard(7, e, e)), 1, Run(false)) == Stalled(s, e', d, q, EnqWrite(7, e))
      && Next(Wrap, Stalled(s, e', d, q, EnqWrite(7, e)), 1, Run(false)) == Stalled(s, e', d, q, EnqPublish(7, e))
      && Next(Wrap, Stalled(s, e', d, q, EnqPublish(7, e)), 1, Run(false)) ==
           Stalled(s, e', d, q[e % 2 := e'], EnqReturned(true))
  {
    assert [7, 7][e % 2 := 7] == [7, 7];
  }

  function EnquePath(s: Local<int>, e: nat, d: nat, q: seq<nat>, l: Local<int>): seq<Machine<int>>
    requires |q| == 2
  {
    var e' := (e + 1) % WORD;
    [Stalled(s, e, d, q, l), Stalled(s, e, d, q, EnqLoadTarget(7)), Stalled(s, e, d, q, EnqLoadSeq(7, e)),
     Stalled(s, e, d, q, EnqGuard(7, e, e)), Stalled(s, e', d, q, EnqWrite(7, e)),
     Stalled(s, e', d, q, EnqPublish(7, e)), Stalled(s, e', d, q[e % 2 := e'], EnqReturned(true))]
  }

  lemma EnquePasses(s: Local<int>, e: nat, d: nat, q: seq<nat>, l: Local<int>)
    requires |q| == 2 && q[e % 2] == e < WORD && Returned(l)
    ensures Passes(Wrap, Call(CallEnque(7)), EnquePath(s, e, d, q, l))
  {
    EnqueLoads(s, e, d, q, l);
    EnqueStores(s, e, d, q);
    hide Next;
  }

  lemma Enque(m0: Machine<int>, sched: Schedule<int>, enq: Schedule<int>, s: Local<int>,
              e: nat, d: nat, q: seq<nat>, l: Local<int>)
    requires m0.Shape() && |m0.threads| == 2 && Fits(sched, 2) && enq == Call(CallEnque(7))
    requires RunAll(Wrap, m0, sched) == Stalled(s, e, d, q, l)
    requires |q| == 2 && q[e % 2] == e < WORD && Returned(l)
    ensures Fits(sched + enq, 2)
    ensures RunAll(Wrap, m0, sched + enq) ==
            Stalled(s, (e + 1) % WORD, d, q[e % 2 := (e + 1) % WORD], EnqReturned(true))
  {
    EnquePasses(s, e, d, q, l);
    RunPasses(Wrap, m0, sched, enq, EnquePath(s, e, d, q, l));
  }

  lemma DequeLoads(s: Local<int>, e: nat, d: nat, q: seq<nat>, l: Local<int>)
    requires |q| == 2 && q[d % 2] == d + 1 < WORD && Returned(l)
    ensures Next(Wrap, Stalled(s, e, d, q, l), 1, CallDeque) == Stalled(s, e, d, q, DeqLoadTarget)
    ensures Next(Wrap, Stalled(s, e, d, q, DeqLoadTarget), 1, Run(false)) == Stalled(s, e, d, q, DeqLoadSeq(d))
    ensures Next(Wrap, Stalled(s, e, d, q, DeqLoadSeq(d)), 1, Run(false)) == Stalled(s, e, d, q, DeqGuard(d, d + 1))
  {
  }

  lemma DequeStores(s: Local<int>, e: nat, d: nat, q: seq<nat>)
    requires |q| == 2 && q[d % 2] == d + 1 && d + 2 < WORD
    ensures Next(Wrap, Stalled(s, e, d, q, DeqGuard(d, d + 1)), 1, Run(false)) == Stalled(s, e, d + 1, q, DeqCopy(d))
    ensures Next(Wrap, Stalled(s, e, d + 1, q, DeqCopy(d)), 1, Run(false)) == Stalled(s, e, d + 1, q, DeqRelease(d, 7))
    ensures Next(Wrap, Stalled(s, e, d + 1, q, DeqRelease(d, 7)), 1, Run(false)) ==
            Stalled(s, e, d + 1, q[d % 2 := d + 2], DeqReturned(7))
  {
  }

  function DequePath(s: Local<int>, e: nat, d: nat, q: seq<nat>, l: Local<int>): seq<Machine<int>>
    requires |q| == 2
  {
    [Stalled(s, e, d, q, l), Stalled(s, e, d, q, DeqLoadTarget), Stalled(s, e, d, q, DeqLoadSeq(d)),
     Stalled(s, e, d, q, DeqGuard(d, d + 1)), Stalled(s, e, d + 1, q, DeqCopy(d)),
     Stalled(s, e, d + 1, q, DeqRelease(d, 7)), Stalled(s, e, d + 1, q[d % 2 := d + 2], DeqReturned(7))]
  }

  lemma DequePasses(s: Local<int>, e: nat, d: nat, q: seq<nat>, l: Local<int>)
    requires |q| == 2 && q[d % 2] == d + 1 && d + 2 < WORD && Returned(l)
    ensures Passes(Wrap, Call(CallDeque), DequePath(s, e, d, q, l))
  {
    DequeLoads(s, e, d, q, l);
    DequeStores(s, e, d, q);
    hide Next;
  }

  lemma Deque(m0: Machine<int>, sched: Schedule<int>, deq: Schedule<int>, s: Local<int>,
              e: nat, d: nat, q: seq<nat>, l: Local<int>)
    requires m0.Shape() && |m0.threads| == 2 && Fits(sched, 2) && deq == Call(CallDeque)
    requires RunAll(Wrap, m0, sched) == Stalled(s, e, d, q, l)
    requires |q| == 2 && q[d % 2] == d + 1 && d + 2 < WORD && Returned(l)
    ensures Fits(sched + deq, 2)
    ensures RunAll(Wrap, m0, sched + deq) == Stalled(s, e, d + 1, q[d % 2 := d + 2], DeqReturned(7))
  {
    DequePasses(s, e, d, q, l);
    RunPasses(Wrap, m0, sched, deq, DequePath(s, e, d, q, l));
  }

  /** Where thread 0 stalls: before it loads the sequence, or before it tests what it loaded. */
  function Stall(loaded: bool): Local<int> {
    if loaded then EnqGuard(9, 0, 0) else EnqLoadSeq(9, 0)
  }

  /** Thread 0 starts an enqueue and stalls; thread 1 then enqueues and dequeues n times. */
  function Rounds(loaded: bool, n: nat): Schedule<int> {
    if n > 0 then Rounds(loaded, n - 1) + Call(CallEnque(7)) + Call(CallDeque)
    else [(0, CallEnque(9)), (0, Run(false))] + if loaded then [(0, Run(false))] else []
  }

  /** The cells of an empty two-cell queue whose counters stand at n. */
  function EmptyCells(n: nat): seq<nat> {
    [0, 0][n % 2 := n][(n + 1) % 2 := n + 1]
  }

  lemma EmptyCellsRound(n: nat)
    ensures var q := EmptyCells(n);
      && q[n % 2] == n && q[(n + 1) % 2] == n + 1
      && q[n % 2 := n + 1][n % 2] == n + 1
      && q[n % 2 := n + 1][n % 2 := n + 2] == EmptyCells(n + 1)
  {
  }

  lemma AnotherRound(m0: Machine<int>, sched: Schedule<int>, enq: Schedule<int>, deq: Schedule<int>,
                     s: Local<int>, c: nat, l: Local<int>)
    requires m0.Shape() && |m0.threads| == 2 && Fits(sched, 2) && Returned(l) && c + 2 < WORD
    requires enq == Call(CallEnque(7)) && deq == Call(CallDeque)
    requires RunAll(Wrap, m0, sched) == Stalled(s, c, c, EmptyCells(c), l)
    ensures Fits(sched + enq + deq, 2)
    ensures RunAll(Wrap, m0, sched + enq + deq) == Stalled(s, c + 1, c + 1, EmptyCells(c + 1), DeqReturned(7))
  {
    hide RunAll;
    EmptyCellsRound(c);
    assert (c + 1) % WORD == c + 1;
    Enque(m0, sched, enq, s, c, c, EmptyCells(c), l);
    Deque(m0, sched + enq, deq, s, c + 1, c, EmptyCells(c)[c % 2 := c + 1], EnqReturned(true));
  }

  lemma {:induction false} AfterRounds(loaded: bool, n: nat) returns (l: Local<int>)
    requires n + 1 < WORD
    ensures Fits(Rounds(loaded, n), 2) && Returned(l)
    ensures RunAll(Wrap, Init([7, 7], 2), Rounds(loaded, n)) == Stalled(Stall(loaded), n, n, EmptyCells(n), l)
  {
    hide RunAll;
    if n == 0 {
      FirstStall(loaded);
      l := Idle;
    } else {
      var before := AfterRounds(loaded, n - 1);
      AnotherRound(Init([7, 7], 2), Rounds(loaded, n - 1), Call(CallEnque(7)), Call(CallDeque),
                   Stall(loaded), n - 1, before);
      l := DeqReturned(7);
    }
  }

  lemma FirstStall(loaded: bool)
    ensures RunAll(Wrap, Init([7, 7], 2), Rounds(loaded, 0)) == Stalled(Stall(loaded), 0, 0, EmptyCells(0), Idle)
  {
    var m0 := Init([7, 7], 2);
    var s: Schedule<int> := [(0, CallEnque(9)), (0, Run(false)), (0, Run(false))];
    assert s[..2][..1] == s[..1];
    assert RunAll(Wrap, m0, s[..1]) == m0.(threads := [EnqLoadTarget(9), Idle]);
    assert RunAll(Wrap, m0, s[..2]) == m0.(threads := [EnqLoadSeq(9, 0), Idle]);
    assert Rounds(false, 0) == s[..2] && Rounds(true, 0) == s;
  }

  // ----- At 2^31: the signed test

  /** The queue is empty and its next cell free, and yet thread 0, which has its target but not the
      sequence, will load the sequence, find it behind and give up. */
  predicate AboutToGiveUpOnEmpty(m: Machine<int>) {
    && m.Shape() && |m.threads| > 0 && m.threads[0].EnqLoadSeq?
    && m.enque == m.deque && m.sequence[m.Slot(m.enque)] == m.enque
    && Next(Wrap, Next(Wrap, m, 0, Run(false)), 0, Run(false)).threads[0] == EnqReturned(false)
  }

  /** A stall of 2^31 tickets between the load of the target and that of the sequence makes TryEnque return
      false on an empty queue: the difference 2^31 reads as negative. */
  lemma StallGivesUpOnEmpty()
    ensures exists sched :: Fits(sched, 2) && AboutToGiveUpOnEmpty(RunAll(Wrap, Init([7, 7], 2), sched))
  {
    GivesUpAfter(SIGN);
  }

  lemma GivesUpAfter(n: nat)
    requires n == SIGN
    ensures exists sched :: Fits(sched, 2) && AboutToGiveUpOnEmpty(RunAll(Wrap, Init([7, 7], 2), sched))
  {
    hide RunAll;
    var l := AfterRounds(false, n);
    SignedTestFails(n, l);
  }

  lemma SignedTestFails(n: nat, l: Local<int>)
    requires n == SIGN
    ensures AboutToGiveUpOnEmpty(Stalled(EnqLoadSeq(9, 0), n, n, EmptyCells(n), l))
  {
    assert EmptyCells(n) == [n, n + 1];
  }

  // ----- At 2^32: the compare-exchange

  /** Thread 0 has won the right to write the cell whose published value is the next to be read. */
  predicate AboutToOverwrite(m: Machine<int>) {
    && m.Shape() && |m.threads| > 0 && m.threads[0].EnqWrite?
    && m.sequence[m.Slot(m.deque)] == m.deque + 1
    && m.Slot(m.threads[0].target) == m.Slot(m.deque)
  }

  /** A stall before the test while the counter goes once round the word loses data: the test passes on a
      full queue, and the thread is about to write into the very cell that holds the next value to be
      read. */
  lemma StallOverwrites()
    ensures exists sched :: Fits(sched, 2) && AboutToOverwrite(RunAll(Wrap, Init([7, 7], 2), sched))
  {
    OverwritesAfter(WORD - 2);
  }

  lemma OverwritesAfter(n: nat)
    requires n == WORD - 2
    ensures exists sched :: Fits(sched, 2) && AboutToOverwrite(RunAll(Wrap, Init([7, 7], 2), sched))
  {
    hide RunAll;
    var l := AfterRounds(true, n);
    FillUp(Init([7, 7], 2), Rounds(true, n), Call(CallEnque(7)), n, l);
  }

  lemma FillUp(m0: Machine<int>, sched: Schedule<int>, enq: Schedule<int>, n: nat, l: Local<int>)
    requires m0.Shape() && |m0.threads| == 2 && Fits(sched, 2) && Returned(l) && n == WORD - 2
    requires enq == Call(CallEnque(7))
    requires RunAll(Wrap, m0, sched) == Stalled(Stall(true), n, n, EmptyCells(n), l)
    ensures exists longer :: Fits(longer, 2) && AboutToOverwrite(RunAll(Wrap, m0, longer))
  {
    hide RunAll;
    LastCells(n);
    Enque(m0, sched, enq, Stall(true), n, n, [n, n + 1], l);
    Enque(m0, sched + enq, enq, Stall(true), n + 1, n, [n + 1, n + 1], EnqReturned(true));
    StalledTestPasses(n);
    Resume(m0, sched + enq + enq, Stalled(Stall(true), 0, n, [n + 1, 0], EnqReturned(true)));
  }

  lemma LastCells(n: nat)
    requires n == WORD - 2
    ensures EmptyCells(n) == [n, n + 1]
    ensures (n + 1) % WORD == n + 1 && (n + 2) % WORD == 0 && n % 2 == 0 && (n + 1) % 2 == 1
    ensures [n, n + 1][n % 2 := n + 1] == [n + 1, n + 1]
    ensures [n + 1, n + 1][(n + 1) % 2 := 0] == [n + 1, 0]
  {
  }

  lemma Resume(m0: Machine<int>, sched: Schedule<int>, m: Machine<int>)
    requires m0.Shape() && |m0.threads| == 2 && Fits(sched, 2) && m == RunAll(Wrap, m0, sched)
    requires AboutToOverwrite(Next(Wrap, m, 0, Run(false)))
    ensures exists longer :: Fits(longer, 2) && AboutToOverwrite(RunAll(Wrap, m0, longer))
  {
    RunSnoc(Wrap, m0, sched, 0, Run(false));
    assert Fits(sched + [(0, Run(false))], 2);
  }

  lemma StalledTestPasses(n: nat)
    requires n == WORD - 2
    ensures AboutToOverwrite(Next(Wrap, Stalled(Stall(true), 0, n, [n + 1, 0], EnqReturned(true)), 0, Run(false)))
  {
  }
}
