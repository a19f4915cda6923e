/** What the client is shown of the values that a program gives: field by field for every event, and the
    points and pending amount of every counter. */
module ProgramView {
  import opened Words
  import opened Doubles
  import opened Protocol
  import opened EventReader
  import opened SessionSpec
  import opened Resolution
  import ClientState
  import Counters

  // ----- The events, strings apart

  function WithoutStrings(evs: seq<ClientEvent>): seq<ClientEvent> {
    if evs == [] then []
    else WithoutStrings(evs[..|evs| - 1]) + if evs[|evs| - 1].JsString? then [] else [evs[|evs| - 1]]
  }

  lemma WithoutStringsSnoc(evs: seq<ClientEvent>, e: ClientEvent)
    ensures WithoutStrings(evs + [e]) == WithoutStrings(evs) + if e.JsString? then [] else [e]
  {
    assert (evs + [e])[..|evs|] == evs;
  }

  /** The client's event carries the values of the program's: times as their doubles, pointers as their
      hashes, everything else as it was. */
  ghost predicate Carries(e: ClientEvent, ev: EventData, names: Names) {
    && (ev.Header? ==>
      e.JsHeader? && e.frequency == ToDouble(ev.frequency) && e.start == ToDouble(ev.start))
    && (ev.Tick? ==> e.JsTick? && e.when == ToDouble(ev.when))
    && (ev.Region? ==>
      && e.JsRegion? && e.line == ev.line && e.name == names.hash(ev.name) && e.file == names.hash(ev.file)
      && e.start == ToDouble(ev.begin) && e.end == ToDouble(ev.end))
    && (ev.CounterSet? ==>
      && e.JsCounterSet? && e.line == ev.line && e.name == names.hash(ev.name) && e.file == names.hash(ev.file)
      && e.when == ToDouble(ev.when) && e.value == ev.value)
    && (ev.CounterAdd? ==> e.JsCounterAdd? && e.name == names.hash(ev.name) && e.amount == ev.amount)
  }

  lemma {:induction false} AnnouncedWithoutStrings(ms: seq<Message>, ps: seq<Pointer>, names: Names)
    requires Sendable(ms)
    ensures Sendable(AnnounceAll(ms, ps, names))
    ensures WithoutStrings(SeenAll(AnnounceAll(ms, ps, names))) == WithoutStrings(SeenAll(ms))
    decreases |ps|
  {
    hide Announced, SeenAll, WithoutStrings;
    if ps != [] {
      var s := names.StringFor(ps[0]);
      SeenSnoc(ms, s);
      WithoutStringsSnoc(SeenAll(ms), Seen(s));
      assert WithoutStrings(SeenAll(ms)) + [] == WithoutStrings(SeenAll(ms));
      AnnouncedWithoutStrings(Announce(ms, ps[0], names), ps[1..], names);
    }
  }

  lemma SeenSnoc(ms: seq<Message>, m: Message)
    requires Sendable(ms) && Sized(m) && !m.None?
    ensures Sendable(ms + [m]) && SeenAll(ms + [m]) == SeenAll(ms) + [Seen(m)]
  {
    SeenAllAppend(ms, [m]);
    OneSeen(m);
  }

  /** Strings apart, the client sees one event for each of the program's, in their order and with their
      values. */
  lemma {:induction false} EventsOfProgram(run: seq<EventData>, names: Names)
    requires forall i | 0 <= i < |run| :: FromApi(run[i])
    ensures Sendable(EmitAll(run, names))
    ensures var shown := WithoutStrings(SeenAll(EmitAll(run, names)));
      |shown| == |run| && forall i | 0 <= i < |run| :: Carries(shown[i], run[i], names)
  {
    hide AnnounceAll, SeenAll, WithoutStrings, ToDouble;
    if run == [] {
      NothingShown();
    } else {
      var n := |run| - 1;
      EventsOfProgram(run[..n], names);
      var before, m := EmitAll(run[..n], names), OnWire(run[n], names.hash);
      AnnouncedWithoutStrings(before, Uses(run[n]), names);
      var announced := AnnounceAll(before, Uses(run[n]), names);
      SeenSnoc(announced, m);
      WithoutStringsSnoc(SeenAll(announced), Seen(m));
      assert Carries(Seen(m), run[n], names);
      assert run[..n] + [run[n]] == run;
    }
  }

  lemma NothingShown()
    ensures WithoutStrings(SeenAll([])) == []
  {
    NoneSeen();
  }

  // ----- The counters

  /** What an event of the program means for the counter named by a pointer. */
  function ProgramOp(ev: EventData, p: Pointer, number: ClientState.Numbers): (ops: seq<Counters.CounterOp>)
    ensures |ops| <= 1
  {
    match ev
    case Tick(when) => [Counters.Apply(ToDouble(when))]
    case CounterSet(_, name, _, when, value) =>
      if name == p then [Counters.Set(ToDouble(when), number(value))] else []
    case CounterAdd(name, amount) => if name == p then [Counters.Add(number(amount))] else []
    case _ => []
  }

  function ProgramOps(run: seq<EventData>, p: Pointer, number: ClientState.Numbers): seq<Counters.CounterOp> {
    if run == [] then [] else ProgramOps(run[..|run| - 1], p, number) + ProgramOp(run[|run| - 1], p, number)
  }

  /** No other counter of the run has a name with the hash of this pointer. */
  ghost predicate AloneWithHash(run: seq<EventData>, p: Pointer, names: Names) {
    forall ev <- run | ev.CounterSet? || ev.CounterAdd? :: names.hash(ev.name) == names.hash(p) ==> ev.name == p
  }

  /** Strings mean nothing to a counter. */
  lemma {:induction false} OpsWithoutStrings(evs: seq<ClientEvent>, id: nat, number: ClientState.Numbers)
    ensures ClientState.AllCounterOps(WithoutStrings(evs), id, number) == ClientState.AllCounterOps(evs, id, number)
  {
    if evs != [] {
      var n := |evs| - 1;
      OpsWithoutStrings(evs[..n], id, number);
      var before := WithoutStrings(evs[..n]);
      if evs[n].JsString? {
        assert WithoutStrings(evs) == before;
      } else {
        assert WithoutStrings(evs) == before + [evs[n]];
        assert (before + [evs[n]])[..|before|] == before;
      }
    }
  }

  lemma {:induction false} OpsCarried(shown: seq<ClientEvent>, run: seq<EventData>, p: Pointer, names: Names,
                                      number: ClientState.Numbers)
    requires |shown| == |run| && forall i | 0 <= i < |run| :: FromApi(run[i]) && Carries(shown[i], run[i], names)
    requires AloneWithHash(run, p, names)
    ensures ClientState.AllCounterOps(shown, names.hash(p), number) == ProgramOps(run, p, number)
  {
    hide ToDouble;
    if run != [] {
      var n := |run| - 1;
      assert run[n] in run && forall ev <- run[..n] :: ev in run;
      OpsCarried(shown[..n], run[..n], p, names, number);
      assert ClientState.CounterOps(shown[n], names.hash(p), number) == ProgramOp(run[n], p, number);
    }
  }

  /** The counter that the client shows under the hash of a name is the one that results from what the
      program did to that name, unless another counter has the same hash; so what it shows and what still waits
      for a tick are together what the program gave. */
  lemma CounterOfProgram(run: seq<EventData>, names: Names, number: ClientState.Numbers, p: Pointer)
    requires forall i | 0 <= i < |run| :: FromApi(run[i])
    requires AloneWithHash(run, p, names)
    ensures Sendable(EmitAll(run, names))
    ensures var client := ClientState.HandleAll(SeenAll(EmitAll(run, names)), number);
      var c := Counters.Get(client.counters, names.hash(p));
      && c == Counters.Run(ProgramOps(run, p, number))
      && Counters.Total(c.data) + c.accum == Counters.Given(ProgramOps(run, p, number))
  {
    hide EmitAll, SeenAll, ToDouble, Carries, AloneWithHash, Counters.Run, WithoutStrings, ProgramOps;
    EventsOfProgram(run, names);
    var evs := SeenAll(EmitAll(run, names));
    OpsWithoutStrings(evs, names.hash(p), number);
    OpsCarried(WithoutStrings(evs), run, p, names, number);
    ClientState.CounterOfStream(evs, names.hash(p), number);
    Counters.AmountsConserved(ProgramOps(run, p, number));
  }
}
