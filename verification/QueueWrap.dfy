/** The counters of the queue are 32-bit words and its tests read their differences as signed. Unless
    a thread stalls between loading its target and acting on it while nearly 2^31 tickets go by, the
    wrapped machine is the image of the unbounded one, step for step. */
module QueueWrap {
  import opened Words
  import opened QueueMachine
  import opened QueueSafety

  function WrapLocal<T>(l: Local<T>): Local<T> {
    match l
    case EnqLoadSeq(v, t) => EnqLoadSeq(v, t % WORD)
    case EnqGuard(v, t, id) => EnqGuard(v, t % WORD, id % WORD)
    case EnqWrite(v, t) => EnqWrite(v, t % WORD)
    case EnqPublish(v, t) => EnqPublish(v, t % WORD)
    case DeqLoadSeq(t) => DeqLoadSeq(t % WORD)
    case DeqGuard(t, id) => DeqGuard(t % WORD, id % WORD)
    case DeqCopy(t) => DeqCopy(t % WORD)
    case DeqRelease(t, out) => DeqRelease(t % WORD, out)
    case _ => l
  }

  /** The 32-bit image of a machine that counts tickets without bound. */
  function Image<T>(m: Machine<T>): (w: Machine<T>)
    requires m.Shape()
    ensures w.Shape() && |w.threads| == |m.threads|
  {
    Machine(m.size, m.enque % WORD, m.deque % WORD,
            seq(m.size, i requires 0 <= i < m.size => m.sequence[i] % WORD), m.buffer,
            seq(|m.threads|, k requires 0 <= k < |m.threads| => WrapLocal(m.threads[k])))
  }

  /** Fewer than 2^31 - size tickets were claimed since the thread read its counter. */
  predicate Fresh<T>(m: Machine<T>, k: nat)
    requires k < |m.threads|
  {
    match m.threads[k]
    case EnqLoadSeq(_, t) => m.enque - t < SIGN - m.size
    case EnqGuard(_, t, _) => m.enque - t < SIGN - m.size
    case DeqLoadSeq(t) => m.deque - t < SIGN - m.size
    case DeqGuard(t, _) => m.deque - t < SIGN - m.size
    case _ => true
  }

  lemma DifferenceWraps(x: int, y: int)
    ensures (x % WORD - y % WORD) % WORD == (x - y) % WORD
  {
  }

  /** The signed 32-bit difference is the true one when it fits. */
  lemma DeltaWraps(id: nat, target: nat)
    requires -SIGN <= id - target < SIGN
    ensures Delta(Wrap, id % WORD, target % WORD) == Delta(Exact, id, target)
  {
    DifferenceWraps(id, target);
  }

  lemma PlusWraps(t: nat, k: nat)
    ensures Plus(Wrap, t % WORD, k) == Plus(Exact, t, k) % WORD
  {
  }

  // ----- When one step agrees

  /** The exact condition for a guard to act alike in both readings, given the true difference of the
      sequence word from the one that is wanted and how far the counter has moved since it was read. A
      negative difference reads as negative. One that is a multiple of 2^32 reads as zero, and then the
      compare-exchange must either be due or see that the counter has moved. Any other must read as
      positive. */
  predicate GuardAgrees(difference: int, moved: int, spurious: bool) {
    || difference < 0
    || (if difference % WORD == 0
        then spurious || (difference == 0 && moved == 0) || moved % WORD != 0
        else difference % WORD < SIGN)
  }

  predicate StepAgrees<T>(m: Machine<T>, k: nat, a: Action<T>)
    requires k < |m.threads|
  {
    if !a.Run? then true
    else
      match m.threads[k]
      case EnqGuard(_, t, id) => GuardAgrees(id - t, m.enque - t, a.spurious)
      case DeqGuard(t, id) => GuardAgrees(id - (t + 1), m.deque - t, a.spurious)
      case _ => true
  }

  /** How the two readings of a difference and of a comparison relate. */
  lemma ReadingsAgreeIff(id: nat, wanted: nat, counter: nat, t: nat, spurious: bool)
    requires id - wanted >= -SIGN && t <= counter && (id > wanted ==> t < counter)
    ensures var w, e := Delta(Wrap, id % WORD, wanted % WORD), Delta(Exact, id, wanted);
      var claimsW, claimsE := w == 0 && !spurious && counter % WORD == t % WORD, e == 0 && !spurious && counter == t;
      GuardAgrees(id - wanted, counter - t, spurious)
      <==> claimsW == claimsE && (claimsE || (w < 0 <==> e < 0))
  {
    var d := id - wanted;
    DifferenceWraps(id, wanted);
    CongruentIff(counter, t);
    if d < 0 {
      assert d % WORD == d + WORD;
    }
  }

  lemma CongruentIff(x: int, y: int)
    ensures (x - y) % WORD != 0 <==> x % WORD != y % WORD
  {
  }

  lemma EnqGuardAgreesIff<T>(m: Machine<T>, h: History<T>, k: nat, spurious: bool)
    requires Inv(m, h) && k < |m.threads| && m.threads[k].EnqGuard? && m.size <= SIGN
    ensures Next(Wrap, Image(m), k, Run(spurious)) == Image(Next(Exact, m, k, Run(spurious)))
            <==> StepAgrees(m, k, Run(spurious))
  {
    hide Next, Image, Delta, GuardAgrees;
    assert ThreadOk(m, h, k);
    var t, id := m.threads[k].target, m.threads[k].id;
    ReadingsAgreeIff(id, t, m.enque, t, spurious);
    EnqBranchesIff(m, k, spurious);
  }

  /** The images agree exactly when both readings claim or both do not, and in the latter case both give
      up or both go round. */
  lemma EnqBranchesIff<T>(m: Machine<T>, k: nat, spurious: bool)
    requires m.Shape() && k < |m.threads| && m.threads[k].EnqGuard?
    ensures var t, id := m.threads[k].target, m.threads[k].id;
      var w, e := Delta(Wrap, id % WORD, t % WORD), Delta(Exact, id, t);
      var claimsW, claimsE := w == 0 && !spurious && m.enque % WORD == t % WORD, e == 0 && !spurious && m.enque == t;
      Next(Wrap, Image(m), k, Run(spurious)) == Image(Next(Exact, m, k, Run(spurious)))
      <==> claimsW == claimsE && (claimsE || (w < 0 <==> e < 0))
  {
    hide Delta, Plus;
    PlusWraps(m.threads[k].target, 1);
    var w, e := Next(Wrap, Image(m), k, Run(spurious)), Image(Next(Exact, m, k, Run(spurious)));
    assert w == e <==> w.threads[k] == e.threads[k] && w.enque == e.enque by {
      assert w.threads[k] == e.threads[k] ==> w.threads == e.threads;
    }
  }

  lemma DeqGuardAgreesIff<T>(m: Machine<T>, h: History<T>, k: nat, spurious: bool)
    requires Inv(m, h) && k < |m.threads| && m.threads[k].DeqGuard? && m.size <= SIGN
    ensures Next(Wrap, Image(m), k, Run(spurious)) == Image(Next(Exact, m, k, Run(spurious)))
            <==> StepAgrees(m, k, Run(spurious))
  {
    hide Next, Image, Delta, GuardAgrees;
    assert ThreadOk(m, h, k);
    var t, id := m.threads[k].target, m.threads[k].id;
    ReadingsAgreeIff(id, t + 1, m.deque, t, spurious);
    DeqBranchesIff(m, k, spurious);
  }

  lemma DeqBranchesIff<T>(m: Machine<T>, k: nat, spurious: bool)
    requires m.Shape() && k < |m.threads| && m.threads[k].DeqGuard?
    ensures var t, id := m.threads[k].target, m.threads[k].id;
      var w, e := Delta(Wrap, id % WORD, (t + 1) % WORD), Delta(Exact, id, t + 1);
      var claimsW, claimsE := w == 0 && !spurious && m.deque % WORD == t % WORD, e == 0 && !spurious && m.deque == t;
      Next(Wrap, Image(m), k, Run(spurious)) == Image(Next(Exact, m, k, Run(spurious)))
      <==> claimsW == claimsE && (claimsE || (w < 0 <==> e < 0))
  {
    hide Delta;
    PlusWraps(m.threads[k].target, 1);
    var w, e := Next(Wrap, Image(m), k, Run(spurious)), Image(Next(Exact, m, k, Run(spurious)));
    assert w == e <==> w.threads[k] == e.threads[k] && w.deque == e.deque by {
      assert w.threads[k] == e.threads[k] ==> w.threads == e.threads;
    }
  }

  /** Exactly when one step of the 32-bit machine on the image of a state is the image of the unbounded
      step, for every action of every thread in every state of a run. */
  lemma StepAgreesIff<T>(m: Machine<T>, h: History<T>, k: nat, a: Action<T>)
    requires Inv(m, h) && k < |m.threads| && m.size <= SIGN && WORD % m.size == 0
    ensures Next(Wrap, Image(m), k, a) == Image(Next(Exact, m, k, a)) <==> StepAgrees(m, k, a)
  {
    hide Next, Image, GuardAgrees;
    var l := m.threads[k];
    if a.Run? && l.EnqGuard? {
      EnqGuardAgreesIff(m, h, k, a.spurious);
    } else if a.Run? && l.DeqGuard? {
      DeqGuardAgreesIff(m, h, k, a.spurious);
    } else {
      OtherStepCommutes(m, k, a);
    }
  }

  /** A thread whose counter is fresh meets the condition. */
  lemma FreshAgrees<T>(m: Machine<T>, h: History<T>, k: nat, a: Action<T>)
    requires Inv(m, h) && k < |m.threads| && Fresh(m, k) && m.size <= SIGN
    ensures StepAgrees(m, k, a)
  {
    hide GuardAgrees, Next;
    assert ThreadOk(m, h, k);
    if a.Run? && m.threads[k].EnqGuard? {
      var t: int, id: int := m.threads[k].target, m.threads[k].id;
      EnqueSees(m, h, t);
      FreshGuard(id - t, m.enque - t, a.spurious);
    } else if a.Run? && m.threads[k].DeqGuard? {
      var t: int, id: int := m.threads[k].target, m.threads[k].id;
      DequeSees(m, h, t);
      FreshGuard(id - (t + 1), m.deque - t, a.spurious);
    }
  }

  lemma FreshGuard(difference: int, moved: nat, spurious: bool)
    requires difference < SIGN && moved < SIGN
    ensures GuardAgrees(difference, moved, spurious)
  {
    if difference >= 0 {
      assert difference % WORD == difference && moved % WORD == moved;
    }
  }

  lemma StepCommutes<T>(m: Machine<T>, h: History<T>, k: nat, a: Action<T>)
    requires Inv(m, h) && k < |m.threads| && Fresh(m, k) && m.size <= SIGN && WORD % m.size == 0
    ensures Next(Wrap, Image(m), k, a) == Image(Next(Exact, m, k, a))
  {
    FreshAgrees(m, h, k, a);
    StepAgreesIff(m, h, k, a);
  }

  lemma OtherStepCommutes<T>(m: Machine<T>, k: nat, a: Action<T>)
    requires m.Shape() && k < |m.threads|
    requires a.Run? ==> !m.threads[k].EnqGuard? && !m.threads[k].DeqGuard?
    requires WORD % m.size == 0
    ensures Next(Wrap, Image(m), k, a) == Image(Next(Exact, m, k, a))
  {
    var l := m.threads[k];
    if l.EnqLoadSeq? || l.EnqWrite? || l.EnqPublish? || l.DeqLoadSeq? || l.DeqCopy? || l.DeqRelease? {
      WrapKeepsSlot(l.target, m.size);
      PlusWraps(l.target, 1);
      PlusWraps(l.target, m.size);
    }
    var w, e := Next(Wrap, Image(m), k, a), Next(Exact, m, k, a);
    assert w.threads == Image(e).threads;
    assert w.sequence == Image(e).sequence;
  }

  /** No thread of the run acts on a stale counter. */
  ghost predicate NeverStalls<T>(s: Trace<T>, sched: Schedule<T>)
    requires s.m.Shape() && Fits(sched, |s.m.threads|)
  {
    forall n | 0 <= n < |sched| :: Fresh(Play(s, sched[..n]).m, sched[n].0)
  }

  /** Exactly when the 32-bit queue is the image of the unbounded one throughout a run: when every step
      meets its condition. */
  lemma {:induction false} WrapSimulatesIff<T>(buffer: seq<T>, threads: nat, sched: Schedule<T>)
    requires 2 <= |buffer| <= SIGN && WORD % |buffer| == 0 && Fits(sched, threads)
    ensures Follows(buffer, threads, sched) <==> AgreesThroughout(Start(buffer, threads), sched)
  {
    hide Next, StepAgrees, Follows, AgreesThroughout;
    var s := Start(buffer, threads);
    if sched == [] {
      NothingToFollow(buffer, threads);
    } else {
      var n := |sched| - 1;
      var before, k, a := sched[..n], sched[n].0, sched[n].1;
      WrapSimulatesIff(buffer, threads, before);
      RunInv(buffer, threads, before);
      var t := Play(s, before);
      StepAgreesIff(t.m, t.h, k, a);
      FollowsSnoc(buffer, threads, sched);
      AgreesSnoc(s, sched);
    }
  }

  lemma NothingToFollow<T>(buffer: seq<T>, threads: nat)
    requires 0 < |buffer| <= SIGN
    ensures Follows(buffer, threads, []) && AgreesThroughout(Start(buffer, threads), [])
  {
    var m := Init(buffer, threads);
    assert Image(m) == m;
  }

  lemma FollowsSnoc<T>(buffer: seq<T>, threads: nat, sched: Schedule<T>)
    requires |buffer| > 0 && sched != [] && Fits(sched, threads)
    ensures Follows(buffer, threads, sched) <==>
            Follows(buffer, threads, sched[..|sched| - 1]) && Mirrors(buffer, threads, sched)
    ensures Follows(buffer, threads, sched[..|sched| - 1]) ==> Mirrors(buffer, threads, sched[..|sched| - 1])
  {
    hide Mirrors;
    var before := sched[..|sched| - 1];
    assert sched[..|sched|] == sched && before[..|before|] == before;
    assert forall i | 0 <= i <= |before| :: before[..i] == sched[..i];
  }

  lemma AgreesSnoc<T>(s: Trace<T>, sched: Schedule<T>)
    requires s.m.Shape() && sched != [] && Fits(sched, |s.m.threads|)
    ensures var n := |sched| - 1;
      AgreesThroughout(s, sched) <==>
        AgreesThroughout(s, sched[..n]) && StepAgrees(Play(s, sched[..n]).m, sched[n].0, sched[n].1)
  {
    hide Play, StepAgrees;
    var n := |sched| - 1;
    assert forall i | 0 <= i <= n :: sched[..n][..i] == sched[..i];
  }

  /** After every prefix of the schedule the 32-bit queue is the image of the unbounded one. */
  ghost predicate Follows<T>(buffer: seq<T>, threads: nat, sched: Schedule<T>)
    requires |buffer| > 0 && Fits(sched, threads)
  {
    forall n | 0 <= n <= |sched| :: Mirrors(buffer, threads, sched[..n])
  }

  ghost predicate Mirrors<T>(buffer: seq<T>, threads: nat, sched: Schedule<T>)
    requires |buffer| > 0 && Fits(sched, threads)
  {
    RunAll(Wrap, Init(buffer, threads), sched) == Image(Play(Start(buffer, threads), sched).m)
  }

  ghost predicate AgreesThroughout<T>(s: Trace<T>, sched: Schedule<T>)
    requires s.m.Shape() && Fits(sched, |s.m.threads|)
  {
    forall n | 0 <= n < |sched| :: StepAgrees(Play(s, sched[..n]).m, sched[n].0, sched[n].1)
  }

  /** The 32-bit queue as built by the constructor, run under any schedule without a stall, is in every
      respect the image of the unbounded queue: same branches, same cells, same values returned. */
  lemma WrapSimulates<T>(buffer: seq<T>, threads: nat, sched: Schedule<T>)
    requires 2 <= |buffer| <= SIGN && WORD % |buffer| == 0 && Fits(sched, threads)
    requires NeverStalls(Start(buffer, threads), sched)
    ensures RunAll(Wrap, Init(buffer, threads), sched) == Image(Play(Start(buffer, threads), sched).m)
  {
    hide StepAgrees, Fresh, RunAll, Play;
    var s := Start(buffer, threads);
    forall n | 0 <= n < |sched|
      ensures StepAgrees(Play(s, sched[..n]).m, sched[n].0, sched[n].1)
    {
      RunInv(buffer, threads, sched[..n]);
      FreshAgrees(Play(s, sched[..n]).m, Play(s, sched[..n]).h, sched[n].0, sched[n].1);
    }
    WrapSimulatesIff(buffer, threads, sched);
    assert sched[..|sched|] == sched;
    assert Mirrors(buffer, threads, sched);
  }
}
