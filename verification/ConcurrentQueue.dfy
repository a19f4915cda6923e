/** The queue of src/ConcurrentQueue.h with its fields updated in place: 32-bit counters, a sequence
    word per cell, and the retry loops of TryEnque and TryDeque under interference by other threads.
    Each method is proved to be a run of the 32-bit step machine. */
module ConcurrentQueueObject {
  import opened Options
  import opened Words
  import opened QueueMachine
  import QueueSafety
  import QueueWrap

  /** How the environment treats one trip round a retry loop: what the other threads do before each of
      its three atomic accesses, and whether its weak compare-exchange fails spuriously. */
  datatype Round<T> = Round(
    beforeTarget: Schedule<T>, beforeSeq: Schedule<T>, beforeCas: Schedule<T>, spurious: bool)

  /** The result of a call observed for a limited number of rounds. */
  datatype Outcome<T> = Done(result: T) | StillTrying

  class ConcurrentQueue<T(0)> {
    const log2Size: nat
    const kBufferSize: nat
    const sequence: array<uint32>
    const buffer: array<T>
    var enque: uint32
    var deque: uint32
    /** The program counter and registers of every thread that uses the queue. */
    var threads: seq<Local<T>>

    /** The state the constructor left, and everything done since. */
    ghost var start: Machine<T>
    ghost var trace: Schedule<T>

    /** The present state is what the 32-bit machine reaches by the recorded trace. */
    ghost predicate Valid()
      reads this, sequence, buffer
    {
      && Consistent()
      && start.Shape() && |start.threads| == |threads| && Fits(trace, |threads|)
      && State() == RunAll(Wrap, start, trace)
    }

    ghost predicate Consistent()
      reads this, sequence
    {
      && log2Size <= 31
      && kBufferSize == Pow2(log2Size) == sequence.Length == buffer.Length
      && sequence as object != buffer
      && (forall l <- threads :: Register(l))
    }

    /** Registers hold 32-bit words. */
    predicate Register(l: Local<T>) {
      match l
      case EnqLoadSeq(_, t) => t < WORD
      case EnqGuard(_, t, id) => t < WORD && id < WORD
      case EnqWrite(_, t) => t < WORD
      case EnqPublish(_, t) => t < WORD
      case DeqLoadSeq(t) => t < WORD
      case DeqGuard(t, id) => t < WORD && id < WORD
      case DeqCopy(t) => t < WORD
      case DeqRelease(t, _) => t < WORD
      case _ => true
    }

    ghost function State(): (m: Machine<T>)
      requires Consistent()
      reads this, sequence, buffer
      ensures m.Shape()
    {
      Machine(kBufferSize, enque, deque, sequence[..], buffer[..], threads)
    }

    constructor (log2Size: nat, threadCount: nat)
      requires log2Size <= 31
      ensures Valid() && fresh(sequence) && fresh(buffer) && this.log2Size == log2Size
      ensures start == Init(buffer[..], threadCount) && trace == []
    {
      this.log2Size := log2Size;
      kBufferSize := Pow2(log2Size);
      sequence := new uint32[Pow2(log2Size)];
      buffer := new T[Pow2(log2Size)];
      enque, deque := 0, 0;
      threads := seq(threadCount, _ => Idle);
      new;
      PowerFits(log2Size, 31);
      for i := 0 to kBufferSize
        modifies sequence
        invariant forall j :: 0 <= j < i ==> sequence[j] == j
      {
        sequence[i] := i;
      }
      start := Init(buffer[..], threadCount);
      trace := [];
    }

    /** `target & kBufferMask`. */
    function Index(target: uint32): (i: nat)
      requires Consistent()
      reads this, sequence
      ensures i == target % kBufferSize
    {
      MaskIsRemainder(target, log2Size);
      BitAnd(target, kBufferSize - 1)
    }

    /** `std::int32_t delta = id - target`. */
    static function Difference(id: uint32, target: uint32): (delta: int)
      ensures delta == Delta(Wrap, id, target)
    {
      Signed((id - target) % WORD)
    }

    // ----- The atomic accesses, each with the bookkeeping of the thread that performs it

    method EnqueLoadTarget(k: nat, v: T) returns (target: uint32)
      requires Valid() && k < |threads| && threads[k] == EnqLoadTarget(v)
      modifies this
      ensures Valid() && start == old(start) && trace == old(trace) + [(k, Run(false))]
      ensures threads == old(threads)[k := EnqLoadSeq(v, target)]
    {
      hide RunAll;
      RunSnoc(Wrap, start, trace, k, Run(false));
      target := enque;
      threads := threads[k := EnqLoadSeq(v, target)];
      trace := trace + [(k, Run(false))];
    }

    method EnqueLoadSeq(k: nat, v: T, target: uint32) returns (id: uint32)
      requires Valid() && k < |threads| && threads[k] == EnqLoadSeq(v, target)
      modifies this
      ensures Valid() && start == old(start) && trace == old(trace) + [(k, Run(false))]
      ensures threads == old(threads)[k := EnqGuard(v, target, id)]
    {
      hide RunAll;
      RunSnoc(Wrap, start, trace, k, Run(false));
      id := sequence[Index(target)];
      threads := threads[k := EnqGuard(v, target, id)];
      trace := trace + [(k, Run(false))];
    }

    /** `delta == 0 && _enque.compare_exchange_weak(target, target + 1)`. */
    method EnqueTest(k: nat, v: T, target: uint32, id: uint32, spurious: bool) returns (won: bool, delta: int)
      requires Valid() && k < |threads| && threads[k] == EnqGuard(v, target, id)
      modifies this
      ensures Valid() && start == old(start) && trace == old(trace) + [(k, Run(spurious))]
      ensures threads == old(threads)[k := if won then EnqWrite(v, target)
                                           else if delta < 0 then EnqReturned(false) else EnqLoadTarget(v)]
    {
      hide RunAll;
      RunSnoc(Wrap, start, trace, k, Run(spurious));
      delta := Difference(id, target);
      won := delta == 0 && !spurious && enque == target;
      if won {
        enque := (target + 1) % WORD;
      }
      threads := threads[k := if won then EnqWrite(v, target)
                              else if delta < 0 then EnqReturned(false) else EnqLoadTarget(v)];
      trace := trace + [(k, Run(spurious))];
    }

    method EnqueWrite(k: nat, v: T, target: uint32)
      requires Valid() && k < |threads| && threads[k] == EnqWrite(v, target)
      modifies this, buffer
      ensures Valid() && start == old(start) && trace == old(trace) + [(k, Run(false))]
      ensures threads == old(threads)[k := EnqPublish(v, target)]
    {
      hide RunAll;
      RunSnoc(Wrap, start, trace, k, Run(false));
      buffer[Index(target)] := v;
      threads := threads[k := EnqPublish(v, target)];
      trace := trace + [(k, Run(false))];
    }

    method EnquePublish(k: nat, v: T, target: uint32)
      requires Valid() && k < |threads| && threads[k] == EnqPublish(v, target)
      modifies this, sequence
      ensures Valid() && start == old(start) && trace == old(trace) + [(k, Run(false))]
      ensures threads == old(threads)[k := EnqReturned(true)]
    {
      hide RunAll;
      RunSnoc(Wrap, start, trace, k, Run(false));
      sequence[Index(target)] := (target + 1) % WORD;
      threads := threads[k := EnqReturned(true)];
      trace := trace + [(k, Run(false))];
    }

    method DequeLoadTarget(k: nat) returns (target: uint32)
      requires Valid() && k < |threads| && threads[k] == DeqLoadTarget
      modifies this
      ensures Valid() && start == old(start) && trace == old(trace) + [(k, Run(false))]
      ensures threads == old(threads)[k := DeqLoadSeq(target)]
    {
      hide RunAll;
      RunSnoc(Wrap, start, trace, k, Run(false));
      target := deque;
      threads := threads[k := DeqLoadSeq(target)];
      trace := trace + [(k, Run(false))];
    }

    method DequeLoadSeq(k: nat, target: uint32) returns (id: uint32)
      requires Valid() && k < |threads| && threads[k] == DeqLoadSeq(target)
      modifies this
      ensures Valid() && start == old(start) && trace == old(trace) + [(k, Run(false))]
      ensures threads == old(threads)[k := DeqGuard(target, id)]
    {
      hide RunAll;
      RunSnoc(Wrap, start, trace, k, Run(false));
      id := sequence[Index(target)];
      threads := threads[k := DeqGuard(target, id)];
      trace := trace + [(k, Run(false))];
    }

    /** `delta == 0 && _deque.compare_exchange_weak(target, target + 1)`. */
    method DequeTest(k: nat, target: uint32, id: uint32, spurious: bool) returns (won: bool, delta: int)
      requires Valid() && k < |threads| && threads[k] == DeqGuard(target, id)
      modifies this
      ensures Valid() && start == old(start) && trace == old(trace) + [(k, Run(spurious))]
      ensures threads == old(threads)[k := if won then DeqCopy(target)
                                           else if delta < 0 then DeqEmpty else DeqLoadTarget]
    {
      hide RunAll;
      RunSnoc(Wrap, start, trace, k, Run(spurious));
      var wanted := (target + 1) % WORD;
      delta := Difference(id, wanted);
      won := delta == 0 && !spurious && deque == target;
      if won {
        deque := wanted;
      }
      threads := threads[k := if won then DeqCopy(target) else if delta < 0 then DeqEmpty else DeqLoadTarget];
      trace := trace + [(k, Run(spurious))];
    }

    method DequeCopy(k: nat, target: uint32) returns (out: T)
      requires Valid() && k < |threads| && threads[k] == DeqCopy(target)
      modifies this
      ensures Valid() && start == old(start) && trace == old(trace) + [(k, Run(false))]
      ensures threads == old(threads)[k := DeqRelease(target, out)]
    {
      hide RunAll;
      RunSnoc(Wrap, start, trace, k, Run(false));
      out := buffer[Index(target)];
      threads := threads[k := DeqRelease(target, out)];
      trace := trace + [(k, Run(false))];
    }

    /** Stores `target + kBufferMask + 1`. */
    method DequeRelease(k: nat, target: uint32, out: T)
      requires Valid() && k < |threads| && threads[k] == DeqRelease(target, out)
      modifies this, sequence
      ensures Valid() && start == old(start) && trace == old(trace) + [(k, Run(false))]
      ensures threads == old(threads)[k := DeqReturned(out)]
    {
      hide RunAll;
      RunSnoc(Wrap, start, trace, k, Run(false));
      sequence[Index(target)] := (target + kBufferSize) % WORD;
      threads := threads[k := DeqReturned(out)];
      trace := trace + [(k, Run(false))];
    }

    /** A thread enters TryEnque or TryDeque, unless it is inside a call already. */
    method Call(k: nat, a: Action<T>)
      requires Valid() && k < |threads| && !a.Run?
      modifies this
      ensures Valid() && start == old(start) && trace == old(trace) + [(k, a)]
      ensures threads == old(threads)[k := if !Returned(old(threads[k])) then old(threads[k])
                                           else if a.CallEnque? then EnqLoadTarget(a.v) else DeqLoadTarget]
    {
      hide RunAll;
      RunSnoc(Wrap, start, trace, k, a);
      var l := threads[k];
      if Returned(l) {
        threads := threads[k := if a.CallEnque? then EnqLoadTarget(a.v) else DeqLoadTarget];
      } else {
        assert threads == threads[k := l];
      }
      trace := trace + [(k, a)];
    }

    /** A step of a thread that is not inside a call. */
    method Stay(k: nat, a: Action<T>)
      requires Valid() && k < |threads| && Returned(threads[k]) && a == Run(false)
      modifies this
      ensures Valid() && start == old(start) && trace == old(trace) + [(k, a)]
      ensures threads == old(threads)
    {
      hide RunAll;
      RunSnoc(Wrap, start, trace, k, a);
      trace := trace + [(k, a)];
    }

    /** One action of any thread, resumed from its saved registers. */
    method Execute(k: nat, a: Action<T>)
      requires Valid() && k < |threads|
      modifies this, sequence, buffer
      ensures Valid() && start == old(start) && trace == old(trace) + [(k, a)]
      ensures |threads| == old(|threads|) && threads == old(threads)[k := threads[k]]
    {
      hide RunAll;
      var l := threads[k];
      ghost var was, m := trace, State();
      RunSnoc(Wrap, start, was, k, a);
      RunSnoc(Wrap, start, was, k, Effective(l, a));
      OnlyTestsFail(m, k, a);
      assert l in threads;
      match a {
        case CallEnque(v) => Call(k, a);
        case CallDeque => Call(k, a);
        case Run(spurious) =>
          match l {
            case EnqLoadTarget(v) => var _ := EnqueLoadTarget(k, v);
            case EnqLoadSeq(v, target) => var _ := EnqueLoadSeq(k, v, target);
            case EnqGuard(v, target, id) => var _, _ := EnqueTest(k, v, target, id, spurious);
            case EnqWrite(v, target) => EnqueWrite(k, v, target);
            case EnqPublish(v, target) => EnquePublish(k, v, target);
            case DeqLoadTarget => var _ := DequeLoadTarget(k);
            case DeqLoadSeq(target) => var _ := DequeLoadSeq(k, target);
            case DeqGuard(target, id) => var _, _ := DequeTest(k, target, id, spurious);
            case DeqCopy(target) => var _ := DequeCopy(k, target);
            case DeqRelease(target, out) => DequeRelease(k, target, out);
            case _ =>
              Stay(k, Run(false));
          }
      }
      assert trace == was + [(k, Effective(l, a))];
      trace := was + [(k, a)];
    }

    // ----- The calls, in the form of the source, with other threads running between the accesses

    /** As long as nobody stalls, the object is the 32-bit image of the unbounded queue that has taken
        the same steps, and with it of a FIFO. */
    lemma MirrorsUnboundedQueue()
      requires Valid() && kBufferSize >= 2 && start == Init(start.buffer, |threads|)
      requires QueueWrap.NeverStalls(QueueSafety.Start(start.buffer, |threads|), trace)
      ensures State() == QueueWrap.Image(QueueSafety.Play(QueueSafety.Start(start.buffer, |threads|), trace).m)
    {
      PowerDividesWord(log2Size);
      PowerFits(log2Size, 31);
      QueueWrap.WrapSimulates(start.buffer, |threads|, trace);
    }

    /** The other threads do what the schedule says. */
    method Interfere(k: nat, sched: Schedule<T>)
      requires Valid() && k < |threads| && Others(k, |threads|, sched)
      modifies this, sequence, buffer
      ensures Valid() && start == old(start) && trace == old(trace) + sched
      ensures |threads| == old(|threads|) && threads[k] == old(threads[k])
    {
      hide RunAll;
      for i := 0 to |sched|
        invariant Valid() && start == old(start) && trace == old(trace) + sched[..i]
        invariant |threads| == old(|threads|) && threads[k] == old(threads[k])
      {
        assert sched[i] in sched;
        assert sched[..i + 1] == sched[..i] + [sched[i]];
        Execute(sched[i].0, sched[i].1);
      }
      assert sched[..|sched|] == sched;
    }

    /** One trip round the loop of TryEnque: load the target, load its sequence word, test. */
    method AttemptEnque(k: nat, value: T, round: Round<T>) returns (target: uint32, won: bool, delta: int)
      requires Valid() && k < |threads| && threads[k] == EnqLoadTarget(value)
      requires Undisturbing(k, |threads|, round)
      modifies this, sequence, buffer
      ensures Valid() && start == old(start) && |threads| == old(|threads|)
      ensures trace == old(trace) + Trip(k, round)
      ensures threads[k] == if won then EnqWrite(value, target)
                            else if delta < 0 then EnqReturned(false) else EnqLoadTarget(value)
    {
      hide RunAll, Next, ConcurrentQueue.Valid, Others;
      Interfere(k, round.beforeTarget);
      target := EnqueLoadTarget(k, value);
      Interfere(k, round.beforeSeq);
      var id := EnqueLoadSeq(k, value, target);
      Interfere(k, round.beforeCas);
      won, delta := EnqueTest(k, value, target, id, round.spurious);
    }

    method FinishEnque(k: nat, value: T, target: uint32, beforeWrite: Schedule<T>, beforePublish: Schedule<T>)
      requires Valid() && k < |threads| && threads[k] == EnqWrite(value, target)
      requires Others(k, |threads|, beforeWrite) && Others(k, |threads|, beforePublish)
      modifies this, sequence, buffer
      ensures Valid() && start == old(start) && |threads| == old(|threads|)
      ensures trace == old(trace) + Ending(k, beforeWrite, beforePublish)
      ensures threads[k] == EnqReturned(true)
    {
      hide RunAll;
      Interfere(k, beforeWrite);
      EnqueWrite(k, value, target);
      Interfere(k, beforePublish);
      EnquePublish(k, value, target);
    }

    /** `StillTrying` only after all rounds went round. `n` counts the trips made: the steps recorded are
        those of the call, of exactly these trips, and of the two stores when the last one has won. */
    method TryEnque(k: nat, value: T, rounds: seq<Round<T>>, beforeWrite: Schedule<T>, beforePublish: Schedule<T>)
      returns (r: Outcome<bool>, ghost n: nat)
      requires Valid() && k < |threads| && Returned(threads[k])
      requires forall round <- rounds :: Undisturbing(k, |threads|, round)
      requires Others(k, |threads|, beforeWrite) && Others(k, |threads|, beforePublish)
      modifies this, sequence, buffer
      ensures Valid() && start == old(start) && |threads| == old(|threads|)
      ensures n <= |rounds| && (if r.StillTrying? then n == |rounds| else n > 0)
      ensures trace == old(trace) + [(k, CallEnque(value))] + Trips(k, rounds[..n])
                       + if r == Done(true) then Ending(k, beforeWrite, beforePublish) else []
      ensures WentRound(start, old(trace) + [(k, CallEnque(value))], k, rounds[..n], EnqLoadTarget(value))
      ensures threads[k] == if r.Done? then EnqReturned(r.result) else EnqLoadTarget(value)
    {
      hide RunAll, WentRound;
      Call(k, CallEnque(value));
      ghost var called := trace;
      n := 0;
      NoTrips(start, called, k, EnqLoadTarget(value));
      assert rounds[..0] == [] && called + [] == called;
      if rounds == [] {
        return StillTrying, 0;
      }

      TripSnoc(start, called, k, rounds, 0, EnqLoadTarget(value));
      var target, won, delta := AttemptEnque(k, value, rounds[0]);
      n := 1;
      var i := 1;
      while !won
        invariant 1 <= i == n <= |rounds|
        invariant Valid() && start == old(start) && |threads| == old(|threads|)
        invariant trace == called + Trips(k, rounds[..n])
        invariant WentRound(start, called, k, rounds[..n], EnqLoadTarget(value))
        invariant threads[k] == if won then EnqWrite(value, target)
                                else if delta < 0 then EnqReturned(false) else EnqLoadTarget(value)
        decreases |rounds| - n, !won
      {
        assert called + Trips(k, rounds[..n]) + [] == called + Trips(k, rounds[..n]);
        if delta < 0 {
          return Done(false), n;
        }
        if i == |rounds| {
          return StillTrying, n;
        }
        TripSnoc(start, called, k, rounds, n, EnqLoadTarget(value));
        target, won, delta := AttemptEnque(k, value, rounds[i]);
        n, i := n + 1, i + 1;
      }

      FinishEnque(k, value, target, beforeWrite, beforePublish);
      r := Done(true);
    }

    /** A call that nobody disturbs: it enqueues exactly if the sequence word of the cell is the counter, and
        fails exactly if the word lies behind it. */
    method EnqueUndisturbed(k: nat, value: T) returns (r: Outcome<bool>)
      requires Valid() && k < |threads| && Returned(threads[k])
      modifies this, sequence, buffer
      ensures Valid() && deque == old(deque)
      ensures var t, id := old(enque), old(sequence[enque % kBufferSize]);
        if id == t then
          && r == Done(true) && enque == (t + 1) % WORD
          && buffer[..] == old(buffer[..])[t % kBufferSize := value]
          && sequence[..] == old(sequence[..])[t % kBufferSize := (t + 1) % WORD]
        else
          && r == (if (id - t) % WORD >= SIGN then Done(false) else StillTrying)
          && enque == t && buffer[..] == old(buffer[..]) && sequence[..] == old(sequence[..])
    {
      hide RunAll, WentRound, Trips, Ending, Quietly, Next, QuietSteps;
      ghost var m, was := State(), trace;
      var quiet: Round<T> := Round([], [], [], false);
      ghost var n;
      r, n := TryEnque(k, value, [quiet], [], []);
      QuietTrip(start, was, k, CallEnque(value), quiet, r == Done(true));
      assert n == 1 && [quiet][..1] == [quiet];
      if m.sequence[m.Slot(m.enque)] == m.enque {
        EnqueWins(m, k, value);
      } else {
        EnqueLoses(m, k, value);
      }
    }

    /** The same for a value: it comes out exactly if the sequence word is one ahead of the counter, and
        there is none exactly if the word lies behind that. */
    method DequeUndisturbed(k: nat) returns (r: Outcome<Option<T>>)
      requires Valid() && k < |threads| && Returned(threads[k])
      modifies this, sequence, buffer
      ensures Valid() && enque == old(enque) && buffer[..] == old(buffer[..])
      ensures var t, id := old(deque), old(sequence[deque % kBufferSize]);
        var wanted := (t + 1) % WORD;
        if id == wanted then
          && r == Done(Some(old(buffer[deque % kBufferSize]))) && deque == wanted
          && sequence[..] == old(sequence[..])[t % kBufferSize := (t + kBufferSize) % WORD]
        else
          && r == (if (id - wanted) % WORD >= SIGN then Done(None) else StillTrying)
          && deque == t && sequence[..] == old(sequence[..])
    {
      hide RunAll, WentRound, Trips, Ending, Quietly, Next, QuietSteps;
      ghost var m, was := State(), trace;
      var quiet: Round<T> := Round([], [], [], false);
      ghost var n;
      r, n := TryDeque(k, [quiet], [], []);
      QuietTrip(start, was, k, CallDeque, quiet, r.Done? && r.result.Some?);
      assert n == 1 && [quiet][..1] == [quiet];
      if m.sequence[m.Slot(m.deque)] == (m.deque + 1) % WORD {
        DequeWins(m, k);
      } else {
        DequeLoses(m, k);
      }
    }

    /** One trip round the loop of TryDeque. */
    method AttemptDeque(k: nat, round: Round<T>) returns (target: uint32, won: bool, delta: int)
      requires Valid() && k < |threads| && threads[k] == DeqLoadTarget
      requires Undisturbing(k, |threads|, round)
      modifies this, sequence, buffer
      ensures Valid() && start == old(start) && |threads| == old(|threads|)
      ensures trace == old(trace) + Trip(k, round)
      ensures threads[k] == if won then DeqCopy(target) else if delta < 0 then DeqEmpty else DeqLoadTarget
    {
      hide RunAll, Next, ConcurrentQueue.Valid, Others;
      Interfere(k, round.beforeTarget);
      target := DequeLoadTarget(k);
      Interfere(k, round.beforeSeq);
      var id := DequeLoadSeq(k, target);
      Interfere(k, round.beforeCas);
      won, delta := DequeTest(k, target, id, round.spurious);
    }

    method FinishDeque(k: nat, target: uint32, beforeCopy: Schedule<T>, beforeRelease: Schedule<T>) returns (out: T)
      requires Valid() && k < |threads| && threads[k] == DeqCopy(target)
      requires Others(k, |threads|, beforeCopy) && Others(k, |threads|, beforeRelease)
      modifies this, sequence, buffer
      ensures Valid() && start == old(start) && |threads| == old(|threads|)
      ensures trace == old(trace) + Ending(k, beforeCopy, beforeRelease)
      ensures threads[k] == DeqReturned(out)
    {
      hide RunAll;
      Interfere(k, beforeCopy);
      out := DequeCopy(k, target);
      Interfere(k, beforeRelease);
      DequeRelease(k, target, out);
    }

    /** `Done(None)` is the source's `false`, `Done(Some(out))` its `true` with the value in `out`. */
    method TryDeque(k: nat, rounds: seq<Round<T>>, beforeCopy: Schedule<T>, beforeRelease: Schedule<T>)
      returns (r: Outcome<Option<T>>, ghost n: nat)
      requires Valid() && k < |threads| && Returned(threads[k])
      requires forall round <- rounds :: Undisturbing(k, |threads|, round)
      requires Others(k, |threads|, beforeCopy) && Others(k, |threads|, beforeRelease)
      modifies this, sequence, buffer
      ensures Valid() && start == old(start) && |threads| == old(|threads|)
      ensures n <= |rounds| && (if r.StillTrying? then n == |rounds| else n > 0)
      ensures trace == old(trace) + [(k, CallDeque)] + Trips(k, rounds[..n])
                       + if r.Done? && r.result.Some? then Ending(k, beforeCopy, beforeRelease) else []
      ensures WentRound(start, old(trace) + [(k, CallDeque)], k, rounds[..n], DeqLoadTarget)
      ensures threads[k] == match r
                            case StillTrying => DeqLoadTarget
                            case Done(None) => DeqEmpty
                            case Done(Some(out)) => DeqReturned(out)
    {
      hide RunAll, WentRound;
      Call(k, CallDeque);
      ghost var called := trace;
      n := 0;
      NoTrips(start, called, k, DeqLoadTarget);
      assert rounds[..0] == [] && called + [] == called;
      if rounds == [] {
        return StillTrying, 0;
      }

      TripSnoc(start, called, k, rounds, 0, DeqLoadTarget);
      var target, won, delta := AttemptDeque(k, rounds[0]);
      n := 1;
      var i := 1;
      while !won
        invariant 1 <= i == n <= |rounds|
        invariant Valid() && start == old(start) && |threads| == old(|threads|)
        invariant trace == called + Trips(k, rounds[..n])
        invariant WentRound(start, called, k, rounds[..n], DeqLoadTarget)
        invariant threads[k] == if won then DeqCopy(target) else if delta < 0 then DeqEmpty else DeqLoadTarget
        decreases |rounds| - n, !won
      {
        assert called + Trips(k, rounds[..n]) + [] == called + Trips(k, rounds[..n]);
        if delta < 0 {
          return Done(None), n;
        }
        if i == |rounds| {
          return StillTrying, n;
        }
        TripSnoc(start, called, k, rounds, n, DeqLoadTarget);
        target, won, delta := AttemptDeque(k, rounds[i]);
        n, i := n + 1, i + 1;
      }

      var out := FinishDeque(k, target, beforeCopy, beforeRelease);
      r := Done(Some(out));
    }
  }

  /** Only a compare-exchange can fail spuriously. */
  function Effective<T>(l: Local<T>, a: Action<T>): Action<T> {
    if a.Run? && !l.EnqGuard? && !l.DeqGuard? then Run(false) else a
  }

  ghost predicate Others<T>(k: nat, threads: nat, sched: Schedule<T>) {
    forall e <- sched :: e.0 < threads && e.0 != k
  }

  /** The environment leaves thread k to its own code. */
  ghost predicate Undisturbing<T>(k: nat, threads: nat, round: Round<T>) {
    Others(k, threads, round.beforeTarget) && Others(k, threads, round.beforeSeq) && Others(k, threads, round.beforeCas)
  }

  lemma OnlyTestsFail<T>(m: Machine<T>, k: nat, a: Action<T>)
    requires m.Shape() && k < |m.threads|
    ensures Next(Wrap, m, k, Effective(m.threads[k], a)) == Next(Wrap, m, k, a)
  {
  }

  /** All steps of one trip round a retry loop. */
  function Trip<T>(k: nat, round: Round<T>): Schedule<T> {
    round.beforeTarget + [(k, Run(false))] + round.beforeSeq + [(k, Run(false))]
    + round.beforeCas + [(k, Run(round.spurious))]
  }

  function Trips<T>(k: nat, rounds: seq<Round<T>>): Schedule<T> {
    if rounds == [] then [] else Trips(k, rounds[..|rounds| - 1]) + Trip(k, rounds[|rounds| - 1])
  }

  /** The steps behind a compare-exchange that won. */
  function Ending<T>(k: nat, beforeFirst: Schedule<T>, beforeSecond: Schedule<T>): Schedule<T> {
    beforeFirst + [(k, Run(false))] + beforeSecond + [(k, Run(false))]
  }

  /** The schedule takes thread k to this point of its code. */
  ghost predicate Reaches<T>(m: Machine<T>, sched: Schedule<T>, k: nat, l: Local<T>) {
    m.Shape() && Fits(sched, |m.threads|) && k < |m.threads| && RunAll(Wrap, m, sched).threads[k] == l
  }

  /** Every trip but the last led back to the head of the loop. */
  ghost predicate WentRound<T>(m: Machine<T>, called: Schedule<T>, k: nat, rounds: seq<Round<T>>, head: Local<T>) {
    forall i | 0 <= i < |rounds| :: Reaches(m, called + Trips(k, rounds[..i]), k, head)
  }

  lemma NoTrips<T>(m: Machine<T>, called: Schedule<T>, k: nat, head: Local<T>)
    ensures Trips<T>(k, []) == [] && WentRound(m, called, k, [], head)
  {
  }

  lemma TripSnoc<T>(m: Machine<T>, called: Schedule<T>, k: nat, rounds: seq<Round<T>>, n: nat, head: Local<T>)
    requires n < |rounds| && WentRound(m, called, k, rounds[..n], head)
    requires Reaches(m, called + Trips(k, rounds[..n]), k, head)
    ensures WentRound(m, called, k, rounds[..n + 1], head)
    ensures called + Trips(k, rounds[..n]) + Trip(k, rounds[n]) == called + Trips(k, rounds[..n + 1])
  {
    hide Reaches;
    var more := rounds[..n + 1];
    assert more[..n] == rounds[..n] && more[n] == rounds[n];
    forall i | 0 <= i < |more|
      ensures Reaches(m, called + Trips(k, more[..i]), k, head)
    {
      assert more[..i] == rounds[..n + 1][..i] == rounds[..i];
      assert i < n ==> rounds[..n][..i] == rounds[..i];
    }
  }

  // ----- Calls that nobody disturbs

  /** A call and n steps of its thread alone. */
  function Quietly<T>(m: Machine<T>, k: nat, a: Action<T>, n: nat): (m': Machine<T>)
    requires m.Shape() && k < |m.threads|
    ensures m'.Shape() && m'.size == m.size && |m'.threads| == |m.threads|
  {
    if n == 0 then Next(Wrap, m, k, a) else Next(Wrap, Quietly(m, k, a, n - 1), k, Run(false))
  }

  function QuietSteps<T>(k: nat, a: Action<T>, n: nat): Schedule<T> {
    if n == 0 then [(k, a)] else QuietSteps(k, a, n - 1) + [(k, Run(false))]
  }

  lemma {:induction false} RunQuietly<T>(m: Machine<T>, was: Schedule<T>, k: nat, a: Action<T>, n: nat)
    requires m.Shape() && Fits(was, |m.threads|) && k < |m.threads|
    ensures Fits(was + QuietSteps(k, a, n), |m.threads|)
    ensures RunAll(Wrap, m, was + QuietSteps(k, a, n)) == Quietly(RunAll(Wrap, m, was), k, a, n)
  {
    hide RunAll, Next;
    if n == 0 {
      RunSnoc(Wrap, m, was, k, a);
    } else {
      RunQuietly(m, was, k, a, n - 1);
      RunSnoc(Wrap, m, was + QuietSteps(k, a, n - 1), k, Run(false));
      assert was + QuietSteps(k, a, n - 1) + [(k, Run(false))] == was + QuietSteps(k, a, n);
    }
  }

  lemma OneTrip<T>(k: nat, quiet: Round<T>)
    requires quiet == Round([], [], [], false)
    ensures var step: Schedule<T> := [(k, Run(false))]; Trips(k, [quiet]) == step + step + step
  {
    var step: Schedule<T> := [(k, Run(false))];
    assert [quiet][..0] == [];
    assert Trips(k, [quiet]) == [] + Trip(k, quiet);
    assert Trip(k, quiet) == [] + step + [] + step + [] + step;
  }

  lemma QuietTrip<T>(m: Machine<T>, was: Schedule<T>, k: nat, a: Action<T>, quiet: Round<T>, won: bool)
    requires m.Shape() && Fits(was, |m.threads|) && k < |m.threads| && quiet == Round([], [], [], false)
    ensures var sched := was + [(k, a)] + Trips(k, [quiet]) + if won then Ending(k, [], []) else [];
      && Fits(sched, |m.threads|)
      && RunAll(Wrap, m, sched) == Quietly(RunAll(Wrap, m, was), k, a, if won then 5 else 3)
  {
    hide RunAll, Next, Trips, Quietly, Ending, QuietSteps;
    OneTrip(k, quiet);
    OneEnding<T>(k);
    CountedSteps(k, a);
    RunQuietly(m, was, k, a, if won then 5 else 3);
    var step: Schedule<T> := [(k, Run(false))];
    if won {
      assert was + [(k, a)] + (step + step + step) + (step + step) ==
             was + ([(k, a)] + step + step + step + step + step);
    } else {
      assert was + [(k, a)] + (step + step + step) + [] == was + ([(k, a)] + step + step + step);
    }
  }

  lemma OneEnding<T>(k: nat)
    ensures var step: Schedule<T> := [(k, Run(false))]; Ending(k, [], []) == step + step
  {
    var step: Schedule<T> := [(k, Run(false))];
    assert Ending<T>(k, [], []) == [] + step + [] + step;
  }

  lemma CountedSteps<T>(k: nat, a: Action<T>)
    ensures var step: Schedule<T> := [(k, Run(false))];
      && QuietSteps(k, a, 3) == [(k, a)] + step + step + step
      && QuietSteps(k, a, 5) == [(k, a)] + step + step + step + step + step
  {
    var step: Schedule<T> := [(k, Run(false))];
    assert QuietSteps(k, a, 1) == [(k, a)] + step;
    assert QuietSteps(k, a, 3) == [(k, a)] + step + step + step;
  }

  /** After the two loads of TryEnque. */
  lemma EnqueLoads<T>(m: Machine<T>, k: nat, v: T)
    requires m.Shape() && k < |m.threads| && Returned(m.threads[k])
    ensures Quietly(m, k, CallEnque(v), 2) ==
            m.(threads := m.threads[k := EnqGuard(v, m.enque, m.sequence[m.Slot(m.enque)])])
  {
    var m0 := Quietly(m, k, CallEnque(v), 0);
    assert m0 == m.(threads := m.threads[k := EnqLoadTarget(v)]);
    var m1 := Quietly(m, k, CallEnque(v), 1);
    assert m1 == m.(threads := m.threads[k := EnqLoadSeq(v, m.enque)]);
  }

  lemma EnqueWins<T>(m: Machine<T>, k: nat, v: T)
    requires m.Shape() && k < |m.threads| && Returned(m.threads[k])
    requires m.enque < WORD && m.sequence[m.Slot(m.enque)] == m.enque
    ensures Quietly(m, k, CallEnque(v), 3).threads[k] == EnqWrite(v, m.enque)
    ensures var m', t := Quietly(m, k, CallEnque(v), 5), m.enque;
      && m'.deque == m.deque && m'.enque == (t + 1) % WORD && m'.buffer == m.buffer[m.Slot(t) := v]
      && m'.sequence == m.sequence[m.Slot(t) := (t + 1) % WORD] && m'.threads[k] == EnqReturned(true)
  {
    var t := m.enque;
    EnqueLoads(m, k, v);
    var m3 := Quietly(m, k, CallEnque(v), 3);
    assert m3 == m.(enque := (t + 1) % WORD, threads := m.threads[k := EnqWrite(v, t)]);
    var m4 := Quietly(m, k, CallEnque(v), 4);
    assert m4 == m3.(buffer := m.buffer[m.Slot(t) := v], threads := m.threads[k := EnqPublish(v, t)]);
  }

  lemma EnqueLoses<T>(m: Machine<T>, k: nat, v: T)
    requires m.Shape() && k < |m.threads| && Returned(m.threads[k])
    requires m.enque < WORD && m.sequence[m.Slot(m.enque)] < WORD && m.sequence[m.Slot(m.enque)] != m.enque
    ensures Quietly(m, k, CallEnque(v), 5).threads[k] != EnqReturned(true)
    ensures var m', t := Quietly(m, k, CallEnque(v), 3), m.enque;
      && m'.deque == m.deque && m'.enque == t && m'.buffer == m.buffer && m'.sequence == m.sequence
      && m'.threads[k] ==
           if (m.sequence[m.Slot(t)] - t) % WORD >= SIGN then EnqReturned(false) else EnqLoadTarget(v)
  {
    NotEqualWords(m.sequence[m.Slot(m.enque)], m.enque);
    EnqueLoads(m, k, v);
    var m3 := Quietly(m, k, CallEnque(v), 3);
    assert m3.threads[k] in {EnqReturned(false), EnqLoadTarget(v)};
    var m4 := Quietly(m, k, CallEnque(v), 4);
  }

  /** After the two loads of TryDeque. */
  lemma DequeLoads<T>(m: Machine<T>, k: nat)
    requires m.Shape() && k < |m.threads| && Returned(m.threads[k])
    ensures Quietly(m, k, CallDeque, 2) ==
            m.(threads := m.threads[k := DeqGuard(m.deque, m.sequence[m.Slot(m.deque)])])
  {
    var m0 := Quietly(m, k, CallDeque, 0);
    assert m0 == m.(threads := m.threads[k := DeqLoadTarget]);
    var m1 := Quietly(m, k, CallDeque, 1);
    assert m1 == m.(threads := m.threads[k := DeqLoadSeq(m.deque)]);
  }

  lemma DequeWins<T>(m: Machine<T>, k: nat)
    requires m.Shape() && k < |m.threads| && Returned(m.threads[k])
    requires m.deque < WORD && m.sequence[m.Slot(m.deque)] == (m.deque + 1) % WORD
    ensures Quietly(m, k, CallDeque, 3).threads[k] == DeqCopy(m.deque)
    ensures var m', t := Quietly(m, k, CallDeque, 5), m.deque;
      && m'.enque == m.enque && m'.buffer == m.buffer && m'.deque == (t + 1) % WORD
      && m'.sequence == m.sequence[m.Slot(t) := (t + m.size) % WORD]
      && m'.threads[k] == DeqReturned(m.buffer[m.Slot(t)])
  {
    var t, wanted := m.deque, (m.deque + 1) % WORD;
    DequeLoads(m, k);
    var m3 := Quietly(m, k, CallDeque, 3);
    assert m3 == m.(deque := wanted, threads := m.threads[k := DeqCopy(t)]);
    var m4 := Quietly(m, k, CallDeque, 4);
    assert m4 == m.(deque := wanted, threads := m.threads[k := DeqRelease(t, m.buffer[m.Slot(t)])]);
  }

  lemma DequeLoses<T>(m: Machine<T>, k: nat)
    requires m.Shape() && k < |m.threads| && Returned(m.threads[k])
    requires m.sequence[m.Slot(m.deque)] < WORD && m.sequence[m.Slot(m.deque)] != (m.deque + 1) % WORD
    ensures !Quietly(m, k, CallDeque, 5).threads[k].DeqReturned?
    ensures var m', wanted := Quietly(m, k, CallDeque, 3), (m.deque + 1) % WORD;
      && m'.enque == m.enque && m'.buffer == m.buffer && m'.deque == m.deque && m'.sequence == m.sequence
      && m'.threads[k] == if (m.sequence[m.Slot(m.deque)] - wanted) % WORD >= SIGN then DeqEmpty else DeqLoadTarget
  {
    NotEqualWords(m.sequence[m.Slot(m.deque)], (m.deque + 1) % WORD);
    DequeLoads(m, k);
    var m3 := Quietly(m, k, CallDeque, 3);
    assert m3.threads[k] in {DeqEmpty, DeqLoadTarget};
    var m4 := Quietly(m, k, CallDeque, 4);
  }

  lemma NotEqualWords(id: uint32, t: uint32)
    requires id != t
    ensures (id - t) % WORD != 0
  {
  }
}
