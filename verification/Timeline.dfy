/** From the times of a program's events to the frames and counters that its client shows. */
module Timeline {
  import opened Words
  import opened Doubles
  import opened Protocol
  import opened EventReader
  import opened SessionSpec
  import opened Resolution
  import ClientState
  import Counters
  import Frames

  /** The times at which frames start: those of headers and ticks. */
  function StartTime<N>(ev: Event<N>): (times: seq<uint64>)
    ensures |times| <= 1
  {
    match ev
    case Header(_, start) => [start]
    case Tick(when) => [when]
    case _ => []
  }

  function StartTimes<N>(evs: seq<Event<N>>): seq<uint64> {
    if evs == [] then [] else StartTimes(evs[..|evs| - 1]) + StartTime(evs[|evs| - 1])
  }

  predicate InOrder(times: seq<uint64>) {
    forall i, j | 0 <= i < j < |times| :: times[i] <= times[j]
  }

  /** The name of a counter that an event sets. */
  predicate SetsCounter(ev: Event<Handle>, id: Handle) {
    ev.CounterSet? && ev.name == id
  }

  lemma StartTimesSnoc<N>(evs: seq<Event<N>>, ev: Event<N>)
    ensures StartTimes(evs + [ev]) == StartTimes(evs) + StartTime(ev)
  {
    assert (evs + [ev])[..|evs|] == evs;
  }

  /** Strings add nothing to the times. */
  lemma {:induction false} TimesAnnounced(ms: seq<Message>, ps: seq<Pointer>, names: Names)
    ensures StartTimes(AnnounceAll(ms, ps, names)) == StartTimes(ms)
    decreases |ps|
  {
    hide Announced;
    if ps != [] {
      StartTimesSnoc(ms, names.StringFor(ps[0]));
      assert StartTimes(ms) + [] == StartTimes(ms);
      TimesAnnounced(Announce(ms, ps[0], names), ps[1..], names);
    }
  }

  lemma {:induction false} TimesEmitted(run: seq<EventData>, names: Names)
    ensures StartTimes(EmitAll(run, names)) == StartTimes(run)
  {
    hide AnnounceAll;
    if run != [] {
      var n := |run| - 1;
      TimesEmitted(run[..n], names);
      var ms := EmitAll(run[..n], names);
      TimesAnnounced(ms, Uses(run[n]), names);
      StartTimesSnoc(AnnounceAll(ms, Uses(run[n]), names), OnWire(run[n], names.hash));
    }
  }

  function Ops(times: seq<uint64>): (ops: seq<Frames.FrameOp>)
    ensures |ops| == |times|
  {
    seq(|times|, i requires 0 <= i < |times| => Frames.Start(ToDouble(times[i])))
  }

  /** The client's frames start at the times as doubles. */
  lemma {:induction false} OpsSeen(ms: seq<Message>)
    requires Sendable(ms)
    ensures ClientState.AllFrameOps(SeenAll(ms)) == Ops(StartTimes(ms))
  {
    hide SeenAll, ToDouble;
    if ms == [] {
      NoneSeen();
    } else {
      var n := |ms| - 1;
      OpsSeen(ms[..n]);
      SeenAllAppend(ms[..n], [ms[n]]);
      OneSeen(ms[n]);
      assert ms == ms[..n] + [ms[n]];
      var evs := SeenAll(ms[..n]);
      assert (evs + [Seen(ms[n])])[..n] == evs;
    }
  }

  /** If the program's times do not run backwards, neither do the client's. */
  lemma TicksArriveInOrder(run: seq<EventData>, names: Names)
    requires (forall i | 0 <= i < |run| :: FromApi(run[i])) && InOrder(StartTimes(run))
    ensures Sendable(EmitAll(run, names)) && ClientState.TicksInOrder(SeenAll(EmitAll(run, names)))
  {
    hide EmitAll, SeenAll, ToDouble, StartTimes;
    assert run[..|run|] == run;
    EmitAllSound(run, |run|, names);
    OpsSeen(EmitAll(run, names));
    TimesEmitted(run, names);
    var times := StartTimes(run);
    forall i, j | 0 <= i < j < |times|
      ensures Ops(times)[i].time <= Ops(times)[j].time
    {
      ToDoubleMonotone(times[i], times[j]);
    }
  }

  lemma {:induction false} SetsAnnounced(ms: seq<Message>, ps: seq<Pointer>, names: Names, id: Handle)
    requires forall m <- ms :: !SetsCounter(m, id)
    ensures forall m <- AnnounceAll(ms, ps, names) :: !SetsCounter(m, id)
    decreases |ps|
  {
    hide Announced;
    if ps != [] {
      SetsAnnounced(Announce(ms, ps[0], names), ps[1..], names, id);
    }
  }

  lemma {:induction false} SetsEmitted(run: seq<EventData>, names: Names, id: Handle)
    requires forall ev <- run :: !SetsCounter(OnWire(ev, names.hash), id)
    ensures forall m <- EmitAll(run, names) :: !SetsCounter(m, id)
  {
    hide AnnounceAll;
    if run != [] {
      var n := |run| - 1;
      SetsEmitted(run[..n], names, id);
      SetsAnnounced(EmitAll(run[..n], names), Uses(run[n]), names, id);
    }
  }

  lemma {:induction false} SetsSeen(ms: seq<Message>, id: Handle)
    requires Sendable(ms) && forall m <- ms :: !SetsCounter(m, id)
    ensures forall ev <- SeenAll(ms) :: !(ev.JsCounterSet? && ev.name == id)
  {
    hide ToDouble;
    if ms != [] {
      assert ms[0] in ms && forall m <- ms[1..] :: m in ms;
      SetsSeen(ms[1..], id);
    }
  }

  /** A program whose times do not run backwards is shown as one frame for its header and each tick,
      starting at the rounded time, without gaps or overlaps. */
  lemma FramesOfProgram(run: seq<EventData>, names: Names, number: ClientState.Numbers)
    requires (forall i | 0 <= i < |run| :: FromApi(run[i])) && InOrder(StartTimes(run))
    ensures Sendable(EmitAll(run, names))
    ensures var client, times := ClientState.HandleAll(SeenAll(EmitAll(run, names)), number), StartTimes(run);
      var spans := client.frames.spans;
      && |spans| == |times|
      && (forall i | 0 <= i < |times| :: spans[i].start == ToDouble(times[i]))
      && (forall i | 0 <= i < |times| - 1 :: spans[i].End() == spans[i + 1].start)
      && Frames.EndsSorted(spans)
  {
    hide EmitAll, SeenAll, ToDouble, StartTimes, ClientState.HandleAll, Frames.EndsSorted;
    TicksArriveInOrder(run, names);
    OpsSeen(EmitAll(run, names));
    TimesEmitted(run, names);
    ClientState.FramesWithoutGaps(SeenAll(EmitAll(run, names)), number);
  }

  /** In such a program a counter that is only added to has all its points in order. */
  lemma CountersOfProgram(run: seq<EventData>, names: Names, number: ClientState.Numbers, id: Handle)
    requires (forall i | 0 <= i < |run| :: FromApi(run[i])) && InOrder(StartTimes(run))
    requires forall ev <- run :: !SetsCounter(OnWire(ev, names.hash), id)
    ensures Sendable(EmitAll(run, names))
    ensures var client := ClientState.HandleAll(SeenAll(EmitAll(run, names)), number);
      Counters.SortedFrom(Counters.Get(client.counters, id).data, 0)
  {
    hide EmitAll, SeenAll, StartTimes, ClientState.HandleAll, Counters.SortedFrom, SetsCounter;
    TicksArriveInOrder(run, names);
    SetsEmitted(run, names, id);
    SetsSeen(EmitAll(run, names), id);
    ClientState.AddedCounterSorted(SeenAll(EmitAll(run, names)), id, number);
  }
}
