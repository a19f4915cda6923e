/** Safety of the queue in unbounded tickets: the history of a run, the invariant every step keeps,
    and the refinement of a bounded FIFO. */
module QueueSafety {
  import opened Words
  import opened QueueMachine

  /** An operation on a FIFO; `Take(v)` names the value it must yield. */
  datatype Op<T> = Put(v: T) | Take(v: T)

  /** What happened so far. Ticket t was claimed for writing by thread enqBy[t], which brought
      values[t], and for reading by thread deqBy[t]; delivered[t] is the value handed back for it.
      `effects` lists the operations in the order of the winning compare-exchanges. */
  datatype History<T> = History(
    enqBy: seq<nat>, values: seq<T>, deqBy: seq<nat>, delivered: map<nat, T>, effects: seq<Op<T>>)

  predicate EnqClaims<T>(m: Machine<T>, k: nat, a: Action<T>)
    requires k < |m.threads|
  {
    var l := m.threads[k];
    a == Run(false) && l.EnqGuard? && l.id == l.target && m.enque == l.target
  }

  predicate DeqClaims<T>(m: Machine<T>, k: nat, a: Action<T>)
    requires k < |m.threads|
  {
    var l := m.threads[k];
    a == Run(false) && l.DeqGuard? && l.id == l.target + 1 && m.deque == l.target
  }

  function Record<T>(m: Machine<T>, h: History<T>, k: nat, a: Action<T>): History<T>
    requires k < |m.threads|
  {
    var l := m.threads[k];
    if EnqClaims(m, k, a) then
      h.(enqBy := h.enqBy + [k], values := h.values + [l.v], effects := h.effects + [Put(l.v)])
    else if DeqClaims(m, k, a) && m.deque < |h.values| then
      h.(deqBy := h.deqBy + [k], effects := h.effects + [Take(h.values[m.deque])])
    else if l.DeqRelease? && a.Run? then
      h.(delivered := h.delivered[l.target := l.out])
    else h
  }

  /** A machine together with what happened since the constructor. */
  datatype Trace<T> = Trace(m: Machine<T>, h: History<T>)
  {
    function Then(k: nat, a: Action<T>): (s: Trace<T>)
      requires m.Shape() && k < |m.threads|
      ensures s.m.Shape() && s.m.size == m.size && |s.m.threads| == |m.threads|
    {
      Trace(Next(Exact, m, k, a), Record(m, h, k, a))
    }
  }

  function Start<T>(buffer: seq<T>, threads: nat): (s: Trace<T>)
    requires |buffer| > 0
    ensures s.m.Shape() && |s.m.threads| == threads
  {
    Trace(Init(buffer, threads), History([], [], [], map[], []))
  }

  ghost function Play<T>(s: Trace<T>, sched: Schedule<T>): (s': Trace<T>)
    requires s.m.Shape() && Fits(sched, |s.m.threads|)
    ensures s'.m.Shape() && s'.m.size == s.m.size && |s'.m.threads| == |s.m.threads|
  {
    if sched == [] then s
    else
      var last := sched[|sched| - 1];
      Play(s, sched[..|sched| - 1]).Then(last.0, last.1)
  }

  // ----- The invariant

  datatype Ticket = None | ForWriting(t: nat) | ForReading(t: nat)

  /** The ticket a thread has claimed and not finished with. */
  function Held<T>(l: Local<T>): Ticket {
    match l
    case EnqWrite(_, t) => ForWriting(t)
    case EnqPublish(_, t) => ForWriting(t)
    case DeqCopy(t) => ForReading(t)
    case DeqRelease(t, _) => ForReading(t)
    case _ => None
  }

  /** Thread k has won the right to write ticket t and has not published it. */
  predicate Writing<T>(m: Machine<T>, k: nat, t: nat) {
    k < |m.threads| && Held(m.threads[k]) == ForWriting(t)
  }

  /** Thread k has won the right to read ticket t and has not released its cell. */
  predicate Reading<T>(m: Machine<T>, k: nat, t: nat) {
    k < |m.threads| && Held(m.threads[k]) == ForReading(t)
  }

  ghost predicate Counters<T>(m: Machine<T>, h: History<T>) {
    && m.Shape()
    && m.size >= 2
    && |h.enqBy| == |h.values| == m.enque
    && |h.deqBy| == m.deque
    && m.deque <= m.enque <= m.deque + m.size
  }

  /** The cell of a ticket in the current window [deque, deque + size). */
  ghost predicate CellOk<T>(m: Machine<T>, h: History<T>, t: nat)
    requires Counters(m, h) && m.deque <= t < m.deque + m.size
  {
    var q, value := m.sequence[m.Slot(t)], m.buffer[m.Slot(t)];
    if t < m.enque then
      || (q == t && Writing(m, h.enqBy[t], t))
      || (q == t + 1 && value == h.values[t])
    else
      || q == t
      || (t >= m.size && q == t - m.size + 1 && Reading(m, h.deqBy[t - m.size], t - m.size))
  }

  ghost predicate ThreadOk<T>(m: Machine<T>, h: History<T>, k: nat)
    requires Counters(m, h) && k < |m.threads|
  {
    LocalOk(m, h, k, m.threads[k])
  }

  ghost predicate LocalOk<T>(m: Machine<T>, h: History<T>, k: nat, l: Local<T>)
    requires Counters(m, h)
  {
    match l
    case EnqLoadSeq(v, t) => t <= m.enque
    case EnqGuard(v, t, id) =>
      t <= m.enque && t <= id + m.size && id <= m.sequence[m.Slot(t)] && (id > t ==> t < m.enque)
    case EnqWrite(v, t) =>
      m.deque <= t < m.enque && h.enqBy[t] == k && h.values[t] == v && m.sequence[m.Slot(t)] == t
    case EnqPublish(v, t) =>
      m.deque <= t < m.enque && h.enqBy[t] == k && h.values[t] == v && m.sequence[m.Slot(t)] == t
      && m.buffer[m.Slot(t)] == v
    case DeqLoadSeq(t) => t <= m.deque
    case DeqGuard(t, id) =>
      t <= m.deque && t + 1 <= id + m.size && id <= m.sequence[m.Slot(t)] && (id > t + 1 ==> t < m.deque)
    case DeqCopy(t) =>
      t < m.deque && m.enque <= t + m.size && h.deqBy[t] == k && m.sequence[m.Slot(t)] == t + 1
      && m.buffer[m.Slot(t)] == h.values[t]
    case DeqRelease(t, out) =>
      t < m.deque && m.enque <= t + m.size && h.deqBy[t] == k && m.sequence[m.Slot(t)] == t + 1
      && m.buffer[m.Slot(t)] == out == h.values[t]
    case _ => true
  }

  /** A claimed ticket has been delivered, with its own value, unless its reader is still at work. */
  ghost predicate DeliveryOk<T>(m: Machine<T>, h: History<T>, t: nat)
    requires Counters(m, h)
  {
    && (t in h.delivered <==> t < m.deque && !Reading(m, h.deqBy[t], t))
    && (t in h.delivered ==> h.delivered[t] == h.values[t])
  }

  ghost predicate Inv<T>(m: Machine<T>, h: History<T>) {
    && Counters(m, h)
    && (forall t: nat | m.deque <= t < m.deque + m.size :: CellOk(m, h, t))
    && (forall k: nat | k < |m.threads| :: ThreadOk(m, h, k))
    && (forall t: nat :: DeliveryOk(m, h, t))
  }

  lemma InitInv<T>(buffer: seq<T>, threads: nat)
    requires |buffer| >= 2
    ensures var s := Start(buffer, threads); Inv(s.m, s.h)
  {
    var s := Start(buffer, threads);
    forall t: nat | s.m.deque <= t < s.m.deque + s.m.size
      ensures CellOk(s.m, s.h, t)
    {
      assert s.m.Slot(t) == t;
    }
  }

  // ----- Tickets and cells

  lemma SameCell(size: nat, t: nat, u: nat)
    requires size > 0 && t % size == u % size && t < u + size && u < t + size
    ensures t == u
  {
    CloseAndCongruent(t, u, size);
  }

  lemma NextLap(size: nat, t: nat)
    requires size > 0
    ensures (t + size) % size == t % size
  {
    AddMultiple(t, size, 1);
  }

  // ----- Every step keeps the invariant

  /** Thread k moves on and still holds what it held. */
  ghost predicate LocalMove<T>(m: Machine<T>, h: History<T>, k: nat, l: Local<T>) {
    Inv(m, h) && k < |m.threads| && LocalOk(m, h, k, l) && Held(l) == Held(m.threads[k])
  }

  lemma LocalMoveHolders<T>(m: Machine<T>, h: History<T>, k: nat, l: Local<T>, j: nat, t: nat)
    requires LocalMove(m, h, k, l)
    ensures var m' := m.(threads := m.threads[k := l]);
      Writing(m', j, t) == Writing(m, j, t) && Reading(m', j, t) == Reading(m, j, t)
  {
  }

  lemma LocalMoveCell<T>(m: Machine<T>, h: History<T>, k: nat, l: Local<T>, t: nat)
    requires LocalMove(m, h, k, l) && m.deque <= t < m.deque + m.size
    ensures CellOk(m.(threads := m.threads[k := l]), h, t)
  {
    hide LocalOk, DeliveryOk, Writing, Reading;
    assert CellOk(m, h, t);
    if t < m.enque {
      LocalMoveHolders(m, h, k, l, h.enqBy[t], t);
    } else if t >= m.size {
      LocalMoveHolders(m, h, k, l, h.deqBy[t - m.size], t - m.size);
    }
  }

  lemma LocalMoveDelivery<T>(m: Machine<T>, h: History<T>, k: nat, l: Local<T>, t: nat)
    requires LocalMove(m, h, k, l)
    ensures DeliveryOk(m.(threads := m.threads[k := l]), h, t)
  {
    hide LocalOk, CellOk, Writing, Reading;
    assert DeliveryOk(m, h, t);
    if t < m.deque {
      LocalMoveHolders(m, h, k, l, h.deqBy[t], t);
    }
  }

  /** Only thread k's program counter and locals change, and it holds what it held. */
  lemma LocalStep<T>(m: Machine<T>, h: History<T>, k: nat, l: Local<T>)
    requires LocalMove(m, h, k, l)
    ensures Inv(m.(threads := m.threads[k := l]), h)
  {
    hide CellOk, DeliveryOk;
    var m' := m.(threads := m.threads[k := l]);
    forall t: nat | m'.deque <= t < m'.deque + m'.size
      ensures CellOk(m', h, t)
    {
      LocalMoveCell(m, h, k, l, t);
    }
    forall j: nat | j < |m'.threads|
      ensures ThreadOk(m', h, j)
    {
      assert ThreadOk(m, h, j);
    }
    forall t: nat
      ensures DeliveryOk(m', h, t)
    {
      LocalMoveDelivery(m, h, k, l, t);
    }
  }

  /** The next cell to write is not free: the queue is full, or the reader of the previous lap
      has not released the cell. */
  ghost predicate CellTaken<T>(m: Machine<T>, h: History<T>)
    requires Counters(m, h)
  {
    || m.enque == m.deque + m.size
    || (m.enque >= m.size && Reading(m, h.deqBy[m.enque - m.size], m.enque - m.size))
  }

  /** The next cell to read holds nothing yet: the queue is empty, or the writer that claimed the
      ticket has not published it. */
  ghost predicate NothingPublished<T>(m: Machine<T>, h: History<T>)
    requires Counters(m, h)
  {
    m.deque == m.enque || Writing(m, h.enqBy[m.deque], m.deque)
  }

  /** What a thread learns from the sequence of the cell of a ticket not beyond the enqueue counter. */
  lemma EnqueSees<T>(m: Machine<T>, h: History<T>, t: nat)
    requires Inv(m, h) && t <= m.enque
    ensures var id := m.sequence[m.Slot(t)];
      && t <= id + m.size
      && id <= m.deque + m.size
      && (id > t ==> t < m.enque)
      && (id < t <==> (t == m.enque && CellTaken(m, h)))
  {
    var u := Window(m.deque, m.size, t);
    assert CellOk(m, h, u);
    if t == m.deque + m.size {
      NextLap(m.size, m.deque);
      SameCell(m.size, u, m.deque);
    } else if t >= m.deque {
      SameCell(m.size, u, t);
      if t == m.enque && CellTaken(m, h) {
        assert ThreadOk(m, h, h.deqBy[t - m.size]);
        NextLap(m.size, t - m.size);
      }
    } else {
      LapsBehind(m.size, t, u);
    }
  }

  /** Dually for the dequeue counter. */
  lemma DequeSees<T>(m: Machine<T>, h: History<T>, t: nat)
    requires Inv(m, h) && t <= m.deque
    ensures var id := m.sequence[m.Slot(t)];
      && t + 1 <= id + m.size
      && id <= m.deque + m.size
      && (id > t + 1 ==> t < m.deque)
      && (id < t + 1 <==> (t == m.deque && NothingPublished(m, h)))
  {
    var u := Window(m.deque, m.size, t);
    assert CellOk(m, h, u);
    if t == m.deque {
      SameCell(m.size, u, t);
      if t < m.enque && NothingPublished(m, h) {
        assert ThreadOk(m, h, h.enqBy[t]);
      }
    } else {
      LapsBehind(m.size, t, u);
    }
  }

  /** The ticket of the current window that uses the cell of t. */
  function Window(deque: nat, size: nat, t: nat): (u: nat)
    requires size > 0
    ensures deque <= u < deque + size && u % size == t % size
  {
    var u := deque + (t - deque) % size;
    assert u == t + (-((t - deque) / size)) * size;
    AddMultiple(t, size, -((t - deque) / size));
    u
  }

  lemma LapsBehind(size: nat, t: nat, u: nat)
    requires size > 0 && t < u && t % size == u % size
    ensures t + size <= u
  {
    if u < t + size { SameCell(size, t, u); }
  }

  predicate NoReader<T>(m: Machine<T>, t: nat) {
    forall j: nat | j < |m.threads| :: Held(m.threads[j]) != ForReading(t)
  }

  /** A winning enqueuer finds its cell free: the queue is not full and no reader is in the cell. */
  lemma ClaimedCellIsFree<T>(m: Machine<T>, h: History<T>, k: nat)
    requires Inv(m, h) && k < |m.threads| && EnqClaims(m, k, Run(false))
    ensures m.enque < m.deque + m.size && m.sequence[m.Slot(m.enque)] == m.enque
    ensures m.enque >= m.size ==> NoReader(m, m.enque - m.size)
  {
    assert ThreadOk(m, h, k);
    EnqueSees(m, h, m.enque);
    var u := Window(m.deque, m.size, m.enque);
    assert CellOk(m, h, u);
    if m.enque == m.deque + m.size {
      NextLap(m.size, m.deque);
      SameCell(m.size, u, m.deque);
    } else {
      SameCell(m.size, u, m.enque);
    }
    if m.enque >= m.size {
      NextLap(m.size, m.enque - m.size);
      forall j: nat | j < |m.threads|
        ensures Held(m.threads[j]) != ForReading(m.enque - m.size)
      {
        assert ThreadOk(m, h, j);
      }
    }
  }

  lemma EnqueClaimStep<T>(m: Machine<T>, h: History<T>, k: nat)
    requires Inv(m, h) && k < |m.threads| && EnqClaims(m, k, Run(false))
    ensures Inv(Next(Exact, m, k, Run(false)), Record(m, h, k, Run(false)))
  {
    ClaimedCellIsFree(m, h, k);
    var c, v := m.enque, m.threads[k].v;
    EnqueClaimed(m, h, k, v);
    assert Next(Exact, m, k, Run(false)) == m.(enque := c + 1, threads := m.threads[k := EnqWrite(v, c)]);
  }

  lemma EnqueClaimed<T>(m: Machine<T>, h: History<T>, k: nat, v: T)
    requires Inv(m, h) && k < |m.threads| && Held(m.threads[k]) == None
    requires m.enque < m.deque + m.size && m.sequence[m.Slot(m.enque)] == m.enque
    requires m.enque >= m.size ==> NoReader(m, m.enque - m.size)
    ensures Inv(m.(enque := m.enque + 1, threads := m.threads[k := EnqWrite(v, m.enque)]),
                h.(enqBy := h.enqBy + [k], values := h.values + [v], effects := h.effects + [Put(v)]))
  {
    var m' := m.(enque := m.enque + 1, threads := m.threads[k := EnqWrite(v, m.enque)]);
    var h' := h.(enqBy := h.enqBy + [k], values := h.values + [v], effects := h.effects + [Put(v)]);
    forall t: nat | m'.deque <= t < m'.deque + m'.size
      ensures CellOk(m', h', t)
    {
      assert CellOk(m, h, t);
    }
    forall j: nat | j < |m'.threads|
      ensures ThreadOk(m', h', j)
    {
      assert ThreadOk(m, h, j);
      assert m.enque >= m.size ==> Held(m.threads[j]) != ForReading(m.enque - m.size);
    }
    forall t: nat
      ensures DeliveryOk(m', h', t)
    {
      assert DeliveryOk(m, h, t);
    }
  }

  /** A winning dequeuer finds its cell published. */
  lemma ClaimedCellIsFull<T>(m: Machine<T>, h: History<T>, k: nat)
    requires Inv(m, h) && k < |m.threads| && DeqClaims(m, k, Run(false))
    ensures m.deque < m.enque && m.sequence[m.Slot(m.deque)] == m.deque + 1
    ensures m.buffer[m.Slot(m.deque)] == h.values[m.deque]
  {
    assert ThreadOk(m, h, k);
    DequeSees(m, h, m.deque);
    assert CellOk(m, h, m.deque);
  }

  lemma DequeClaimStep<T>(m: Machine<T>, h: History<T>, k: nat)
    requires Inv(m, h) && k < |m.threads| && DeqClaims(m, k, Run(false))
    ensures Inv(Next(Exact, m, k, Run(false)), Record(m, h, k, Run(false)))
  {
    ClaimedCellIsFull(m, h, k);
    var d := m.deque;
    DequeClaimed(m, h, k);
    assert Next(Exact, m, k, Run(false)) == m.(deque := d + 1, threads := m.threads[k := DeqCopy(d)]);
  }

  lemma DequeClaimed<T>(m: Machine<T>, h: History<T>, k: nat)
    requires Inv(m, h) && k < |m.threads| && Held(m.threads[k]) == None
    requires m.deque < m.enque && m.sequence[m.Slot(m.deque)] == m.deque + 1
    requires m.buffer[m.Slot(m.deque)] == h.values[m.deque]
    ensures Inv(m.(deque := m.deque + 1, threads := m.threads[k := DeqCopy(m.deque)]),
                h.(deqBy := h.deqBy + [k], effects := h.effects + [Take(h.values[m.deque])]))
  {
    var d := m.deque;
    var m' := m.(deque := d + 1, threads := m.threads[k := DeqCopy(d)]);
    var h' := h.(deqBy := h.deqBy + [k], effects := h.effects + [Take(h.values[d])]);
    forall t: nat | m'.deque <= t < m'.deque + m'.size
      ensures CellOk(m', h', t)
    {
      if t == d + m.size { NextLap(m.size, d); } else { assert CellOk(m, h, t); }
    }
    forall j: nat | j < |m'.threads|
      ensures ThreadOk(m', h', j)
    {
      assert ThreadOk(m, h, j);
    }
    forall t: nat
      ensures DeliveryOk(m', h', t)
    {
      assert DeliveryOk(m, h, t);
    }
  }

  lemma WriteStep<T>(m: Machine<T>, h: History<T>, k: nat)
    requires Inv(m, h) && k < |m.threads| && m.threads[k].EnqWrite?
    ensures Inv(Next(Exact, m, k, Run(false)), h)
  {
    var c := m.threads[k].target;
    var m' := m.(buffer := m.buffer[m.Slot(c) := m.threads[k].v],
                  threads := m.threads[k := EnqPublish(m.threads[k].v, c)]);
    assert ThreadOk(m, h, k);
    forall t: nat | m'.deque <= t < m'.deque + m'.size
      ensures CellOk(m', h, t)
    {
      assert CellOk(m, h, t);
      if m.Slot(t) == m.Slot(c) { SameCell(m.size, t, c); }
    }
    forall j: nat | j < |m'.threads|
      ensures ThreadOk(m', h, j)
    {
      assert ThreadOk(m, h, j);
      HoldersApart(m, h, k, j);
    }
    forall t: nat
      ensures DeliveryOk(m', h, t)
    {
      assert DeliveryOk(m, h, t);
    }
  }

  /** Two threads that hold tickets at the same time use different cells. */
  lemma HoldersApart<T>(m: Machine<T>, h: History<T>, j: nat, k: nat)
    requires Inv(m, h) && j < |m.threads| && k < |m.threads|
    ensures j != k && Holds(m, j) && Holds(m, k) ==>
      m.Slot(Held(m.threads[j]).t) != m.Slot(Held(m.threads[k]).t)
  {
    assert ThreadOk(m, h, j) && ThreadOk(m, h, k);
    if j != k && Holds(m, j) && Holds(m, k) {
      var t, u := Held(m.threads[j]).t, Held(m.threads[k]).t;
      if m.Slot(t) == m.Slot(u) {
        Adjacent(m.size, t, u);
      }
    }
  }

  /** Between winning its compare-exchange and storing the sequence. */
  predicate Holds<T>(m: Machine<T>, k: nat) {
    k < |m.threads| && Held(m.threads[k]) != None
  }

  /** Tickets of one cell at distance at most one are equal when there are two cells. */
  lemma Adjacent(size: nat, t: nat, u: nat)
    requires size >= 2 && t % size == u % size
    ensures t != u + 1 && u != t + 1
  {
    if t == u + 1 || u == t + 1 { SameCell(size, t, u); }
  }

  lemma PublishStep<T>(m: Machine<T>, h: History<T>, k: nat)
    requires Inv(m, h) && k < |m.threads| && m.threads[k].EnqPublish?
    ensures Inv(Next(Exact, m, k, Run(false)), h)
  {
    var c := m.threads[k].target;
    var m' := m.(sequence := m.sequence[m.Slot(c) := c + 1], threads := m.threads[k := EnqReturned(true)]);
    assert ThreadOk(m, h, k);
    assert Next(Exact, m, k, Run(false)) == m';
    hide Next;
    forall t: nat | m'.deque <= t < m'.deque + m'.size
      ensures CellOk(m', h, t)
    {
      assert CellOk(m, h, t);
      if m.Slot(t) == m.Slot(c) { SameCell(m.size, t, c); }
    }
    forall j: nat | j < |m'.threads|
      ensures ThreadOk(m', h, j)
    {
      assert ThreadOk(m, h, j);
      HoldersApart(m, h, k, j);
    }
    forall t: nat
      ensures DeliveryOk(m', h, t)
    {
      assert DeliveryOk(m, h, t);
    }
  }

  function Released<T>(m: Machine<T>, k: nat, c: nat, out: T): Machine<T>
    requires m.Shape() && k < |m.threads|
  {
    m.(sequence := m.sequence[m.Slot(c) := c + m.size], threads := m.threads[k := DeqReturned(out)])
  }

  lemma ReleasedCell<T>(m: Machine<T>, h: History<T>, k: nat, c: nat, out: T, t: nat)
    requires Inv(m, h) && k < |m.threads| && m.threads[k] == DeqRelease(c, out) && m.deque <= t < m.deque + m.size
    ensures CellOk(Released(m, k, c, out), h.(delivered := h.delivered[c := out]), t)
  {
    hide DeliveryOk;
    assert ThreadOk(m, h, k) && CellOk(m, h, t);
    NextLap(m.size, c);
    if m.Slot(t) == m.Slot(c) { SameCell(m.size, t, c + m.size); }
  }

  lemma ReleasedThread<T>(m: Machine<T>, h: History<T>, k: nat, c: nat, out: T, j: nat)
    requires Inv(m, h) && k < |m.threads| && m.threads[k] == DeqRelease(c, out) && j < |m.threads|
    ensures ThreadOk(Released(m, k, c, out), h.(delivered := h.delivered[c := out]), j)
  {
    hide DeliveryOk, CellOk;
    assert ThreadOk(m, h, k) && ThreadOk(m, h, j);
    HoldersApart(m, h, k, j);
  }

  lemma ReleasedDelivery<T>(m: Machine<T>, h: History<T>, k: nat, c: nat, out: T, t: nat)
    requires Inv(m, h) && k < |m.threads| && m.threads[k] == DeqRelease(c, out)
    ensures DeliveryOk(Released(m, k, c, out), h.(delivered := h.delivered[c := out]), t)
  {
    hide CellOk;
    assert ThreadOk(m, h, k) && DeliveryOk(m, h, t);
  }

  lemma ReleaseStep<T>(m: Machine<T>, h: History<T>, k: nat)
    requires Inv(m, h) && k < |m.threads| && m.threads[k].DeqRelease?
    ensures Inv(Next(Exact, m, k, Run(false)), Record(m, h, k, Run(false)))
  {
    var c, out := m.threads[k].target, m.threads[k].out;
    var m', h' := Released(m, k, c, out), h.(delivered := h.delivered[c := out]);
    assert Next(Exact, m, k, Run(false)) == m' && Record(m, h, k, Run(false)) == h';
    hide Next, Record, CellOk, ThreadOk, DeliveryOk;
    forall t: nat | m'.deque <= t < m'.deque + m'.size
      ensures CellOk(m', h', t)
    {
      ReleasedCell(m, h, k, c, out, t);
    }
    forall j: nat | j < |m'.threads|
      ensures ThreadOk(m', h', j)
    {
      ReleasedThread(m, h, k, c, out, j);
    }
    forall t: nat
      ensures DeliveryOk(m', h', t)
    {
      ReleasedDelivery(m, h, k, c, out, t);
    }
  }

  /** The remaining steps touch only the acting thread. */
  predicate Quiet<T>(m: Machine<T>, k: nat, a: Action<T>)
    requires k < |m.threads|
  {
    && !EnqClaims(m, k, a)
    && !DeqClaims(m, k, a)
    && (a.Run? ==> !m.threads[k].EnqWrite? && !m.threads[k].EnqPublish? && !m.threads[k].DeqRelease?)
  }

  /** The next program counter and locals of a quiet step. */
  function QuietLocal<T>(m: Machine<T>, k: nat, a: Action<T>): Local<T>
    requires m.Shape() && k < |m.threads|
  {
    var l := m.threads[k];
    match a
    case CallEnque(v) => if Returned(l) then EnqLoadTarget(v) else l
    case CallDeque => if Returned(l) then DeqLoadTarget else l
    case Run(_) =>
      match l
      case EnqLoadTarget(v) => EnqLoadSeq(v, m.enque)
      case EnqLoadSeq(v, t) => EnqGuard(v, t, m.sequence[m.Slot(t)])
      case EnqGuard(v, t, id) => if id < t then EnqReturned(false) else EnqLoadTarget(v)
      case DeqLoadTarget => DeqLoadSeq(m.deque)
      case DeqLoadSeq(t) => DeqGuard(t, m.sequence[m.Slot(t)])
      case DeqGuard(t, id) => if id < t + 1 then DeqEmpty else DeqLoadTarget
      case DeqCopy(t) => DeqRelease(t, m.buffer[m.Slot(t)])
      case _ => l
  }

  lemma QuietNext<T>(m: Machine<T>, k: nat, a: Action<T>)
    requires m.Shape() && k < |m.threads| && Quiet(m, k, a)
    ensures Next(Exact, m, k, a) == m.(threads := m.threads[k := QuietLocal(m, k, a)])
  {
    var l := m.threads[k];
    assert m.threads == m.threads[k := l];
  }

  lemma QuietThread<T>(m: Machine<T>, h: History<T>, k: nat, a: Action<T>)
    requires Inv(m, h) && k < |m.threads| && Quiet(m, k, a)
    ensures var l := QuietLocal(m, k, a);
      Held(l) == Held(m.threads[k]) && LocalOk(m, h, k, l)
  {
    hide Next, CellOk, DeliveryOk, CellTaken, NothingPublished;
    assert ThreadOk(m, h, k);
    match m.threads[k] {
      case EnqLoadSeq(v, t) => EnqueSees(m, h, t);
      case DeqLoadSeq(t) => DequeSees(m, h, t);
      case EnqGuard(v, t, id) =>
      case DeqGuard(t, id) =>
      case _ =>
    }
  }

  /** Every action of every thread keeps the invariant. */
  lemma NextInv<T>(m: Machine<T>, h: History<T>, k: nat, a: Action<T>)
    requires Inv(m, h) && k < |m.threads|
    ensures Inv(Next(Exact, m, k, a), Record(m, h, k, a))
  {
    var l := m.threads[k];
    if EnqClaims(m, k, a) {
      EnqueClaimStep(m, h, k);
    } else if DeqClaims(m, k, a) {
      DequeClaimStep(m, h, k);
    } else if a.Run? && l.EnqWrite? {
      WriteStep(m, h, k);
    } else if a.Run? && l.EnqPublish? {
      PublishStep(m, h, k);
    } else if a.Run? && l.DeqRelease? {
      ReleaseStep(m, h, k);
    } else {
      QuietNext(m, k, a);
      QuietThread(m, h, k, a);
      LocalStep(m, h, k, QuietLocal(m, k, a));
    }
  }

  /** Every run from the constructor's state keeps the invariant. */
  lemma {:induction false} RunInv<T>(buffer: seq<T>, threads: nat, sched: Schedule<T>)
    requires |buffer| >= 2 && Fits(sched, threads)
    ensures var s := Play(Start(buffer, threads), sched); Inv(s.m, s.h)
  {
    if sched == [] {
      InitInv(buffer, threads);
    } else {
      var last, before := sched[|sched| - 1], sched[..|sched| - 1];
      RunInv(buffer, threads, before);
      var s := Play(Start(buffer, threads), before);
      NextInv(s.m, s.h, last.0, last.1);
    }
  }
}
