/** The bounded queue for many producers and many consumers (src/ConcurrentQueue.h) as a step
    machine: any number of threads interleave at every atomic load, compare-exchange, buffer access
    and sequence store. The same step function serves two readings of the counters: `Exact` counts
    tickets without bound, `Wrap` is the 32-bit arithmetic the code performs. */
module QueueMachine {
  import opened Words

  datatype Mode = Exact | Wrap

  /** What a thread is about to do, with the local variables it holds. */
  datatype Local<T> =
    | Idle
    | EnqLoadTarget(v: T)
    | EnqLoadSeq(v: T, target: nat)
    | EnqGuard(v: T, target: nat, id: nat)
    | EnqWrite(v: T, target: nat)
    | EnqPublish(v: T, target: nat)
    | EnqReturned(ok: bool)
    | DeqLoadTarget
    | DeqLoadSeq(target: nat)
    | DeqGuard(target: nat, id: nat)
    | DeqCopy(target: nat)
    | DeqRelease(target: nat, out: T)
    | DeqEmpty
    | DeqReturned(out: T)

  datatype Machine<T> = Machine(
    size: nat, enque: nat, deque: nat, sequence: seq<nat>, buffer: seq<T>, threads: seq<Local<T>>)
  {
    predicate Shape() {
      size > 0 && |sequence| == size && |buffer| == size
    }

    function Slot(t: nat): (i: nat)
      requires Shape()
      ensures i < size
    {
      t % size
    }
  }

  /** A thread starts a call or performs its next atomic step; a weak compare-exchange may fail
      spuriously. */
  datatype Action<T> = CallEnque(v: T) | CallDeque | Run(spurious: bool)

  function Plus(mode: Mode, t: nat, k: nat): nat {
    if mode == Exact then t + k else (t + k) % WORD
  }

  /** `std::int32_t delta = id - target`. */
  function Delta(mode: Mode, id: nat, target: nat): int {
    if mode == Exact then id - target else Signed((id - target) % WORD)
  }

  predicate Returned<T>(l: Local<T>) {
    l.Idle? || l.EnqReturned? || l.DeqEmpty? || l.DeqReturned?
  }

  /** One action of thread `k`; an action that is not enabled changes nothing. */
  function Next<T>(mode: Mode, m: Machine<T>, k: nat, a: Action<T>): (m': Machine<T>)
    requires m.Shape() && k < |m.threads|
    ensures m'.Shape() && m'.size == m.size && |m'.threads| == |m.threads|
  {
    var l := m.threads[k];
    match a
    case CallEnque(v) => if Returned(l) then m.(threads := m.threads[k := EnqLoadTarget(v)]) else m
    case CallDeque => if Returned(l) then m.(threads := m.threads[k := DeqLoadTarget]) else m
    case Run(spurious) =>
      match l
      case EnqLoadTarget(v) =>
        m.(threads := m.threads[k := EnqLoadSeq(v, m.enque)])
      case EnqLoadSeq(v, target) =>
        m.(threads := m.threads[k := EnqGuard(v, target, m.sequence[m.Slot(target)])])
      case EnqGuard(v, target, id) =>
        var delta := Delta(mode, id, target);
        if delta == 0 && !spurious && m.enque == target then
          m.(enque := Plus(mode, target, 1), threads := m.threads[k := EnqWrite(v, target)])
        else if delta < 0 then
          m.(threads := m.threads[k := EnqReturned(false)])
        else
          m.(threads := m.threads[k := EnqLoadTarget(v)])
      case EnqWrite(v, target) =>
        m.(buffer := m.buffer[m.Slot(target) := v], threads := m.threads[k := EnqPublish(v, target)])
      case EnqPublish(v, target) =>
        m.(sequence := m.sequence[m.Slot(target) := Plus(mode, target, 1)],
           threads := m.threads[k := EnqReturned(true)])
      case DeqLoadTarget =>
        m.(threads := m.threads[k := DeqLoadSeq(m.deque)])
      case DeqLoadSeq(target) =>
        m.(threads := m.threads[k := DeqGuard(target, m.sequence[m.Slot(target)])])
      case DeqGuard(target, id) =>
        var delta := Delta(mode, id, Plus(mode, target, 1));
        if delta == 0 && !spurious && m.deque == target then
          m.(deque := Plus(mode, target, 1), threads := m.threads[k := DeqCopy(target)])
        else if delta < 0 then
          m.(threads := m.threads[k := DeqEmpty])
        else
          m.(threads := m.threads[k := DeqLoadTarget])
      case DeqCopy(target) =>
        m.(threads := m.threads[k := DeqRelease(target, m.buffer[m.Slot(target)])])
      case DeqRelease(target, out) =>
        m.(sequence := m.sequence[m.Slot(target) := Plus(mode, target, m.size)],
           threads := m.threads[k := DeqReturned(out)])
      case _ => m
  }

  /** The constructor: both counters at zero, cell i free for ticket i, nothing in the buffer yet. */
  function Init<T>(buffer: seq<T>, threads: nat): (m: Machine<T>)
    requires |buffer| > 0
    ensures m.Shape() && |m.threads| == threads
  {
    Machine(|buffer|, 0, 0, seq(|buffer|, i => i), buffer, seq(threads, _ => Idle))
  }

  /** A schedule: which thread acts, and how. */
  type Schedule<T> = seq<(nat, Action<T>)>

  ghost predicate Fits<T>(sched: Schedule<T>, threads: nat) {
    forall e <- sched :: e.0 < threads
  }

  ghost function RunAll<T>(mode: Mode, m: Machine<T>, sched: Schedule<T>): (m': Machine<T>)
    requires m.Shape() && Fits(sched, |m.threads|)
    ensures m'.Shape() && m'.size == m.size && |m'.threads| == |m.threads|
  {
    if sched == [] then m
    else
      var last := sched[|sched| - 1];
      Next(mode, RunAll(mode, m, sched[..|sched| - 1]), last.0, last.1)
  }

  lemma RunSnoc<T>(mode: Mode, m: Machine<T>, sched: Schedule<T>, k: nat, a: Action<T>)
    requires m.Shape() && Fits(sched, |m.threads|) && k < |m.threads|
    ensures Fits(sched + [(k, a)], |m.threads|)
    ensures RunAll(mode, m, sched + [(k, a)]) == Next(mode, RunAll(mode, m, sched), k, a)
  {
    var longer := sched + [(k, a)];
    assert longer[..|longer| - 1] == sched && longer[|longer| - 1] == (k, a);
  }

  /** `path` lists the machines a schedule passes through. */
  ghost predicate Passes<T>(mode: Mode, sched: Schedule<T>, path: seq<Machine<T>>) {
    && |path| == |sched| + 1
    && (forall m <- path :: m.Shape() && |m.threads| == |path[0].threads|)
    && Fits(sched, |path[0].threads|)
    && (forall i | 0 <= i < |sched| :: path[i + 1] == Next(mode, path[i], sched[i].0, sched[i].1))
  }

  lemma PassesPrefix<T>(mode: Mode, sched: Schedule<T>, path: seq<Machine<T>>, n: nat)
    requires Passes(mode, sched, path) && n <= |sched|
    ensures Passes(mode, sched[..n], path[..n + 1])
  {
    forall i | 0 <= i < n
      ensures path[..n + 1][i + 1] == Next(mode, path[..n + 1][i], sched[..n][i].0, sched[..n][i].1)
    {
      assert path[i + 1] == Next(mode, path[i], sched[i].0, sched[i].1);
    }
  }

  lemma {:induction false} RunPasses<T>(mode: Mode, m0: Machine<T>, before: Schedule<T>, sched: Schedule<T>,
                                       path: seq<Machine<T>>)
    requires m0.Shape() && Fits(before, |m0.threads|) && Passes(mode, sched, path)
    requires RunAll(mode, m0, before) == path[0]
    ensures Fits(before + sched, |m0.threads|)
    ensures RunAll(mode, m0, before + sched) == path[|sched|]
  {
    if sched == [] {
      assert before + sched == before;
    } else {
      var n := |sched| - 1;
      var k, a := sched[n].0, sched[n].1;
      PassesPrefix(mode, sched, path, n);
      RunPasses(mode, m0, before, sched[..n], path[..n + 1]);
      assert path[n + 1] == Next(mode, path[n], k, a);
      assert RunAll(mode, m0, before + sched) == Next(mode, path[n], k, a) by {
        assert before + sched == before + sched[..n] + [(k, a)];
        RunSnoc(mode, m0, before + sched[..n], k, a);
      }
    }
  }
}
