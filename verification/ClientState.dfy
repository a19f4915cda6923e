/** The client's state (tools/web/js/ysState.js): strings, frames and counters, built up event by event. */
module ClientState {
  import opened Words
  import opened EventReader
  import Frames
  import Counters

  datatype Client = Client(
    frequency: nat, startTick: nat, lastTick: nat, frameDelta: int,
    strings: map<nat, seq<byte>>, frames: Frames.FrameList, counters: Counters.CounterMap)

  const FRESH := Client(0, 0, 0, 0, map[], Frames.Record([], false), map[])

  /** The number that the 64 bits of a double stand for; whole numbers, so that sums are exact. */
  type Numbers = nat -> int

  /** `handleEvent`. */
  function Handle(c: Client, ev: ClientEvent, number: Numbers): Client {
    match ev
    case JsHeader(frequency, start) =>
      c.(startTick := start, lastTick := start, frequency := frequency,
         frames := Frames.Step(c.frames, Frames.Start(start)))
    case JsTick(when) =>
      c.(frames := Frames.Step(c.frames, Frames.Start(when)),
         counters := Counters.ApplyAll(c.counters, when), frameDelta := when - c.lastTick, lastTick := when)
    case JsCounterSet(_, name, _, when, value) =>
      c.(counters := Given(c.counters, name, Counters.Set(when, number(value))))
    case JsString(id, _, text) => c.(strings := c.strings[id := text])
    case JsCounterAdd(name, amount) => c.(counters := Given(c.counters, name, Counters.Add(number(amount))))
    case JsRegion(_, _, _, _, _) => c
  }

  function Given(m: Counters.CounterMap, id: nat, op: Counters.CounterOp): Counters.CounterMap {
    m[id := Counters.Step(Counters.Get(m, id), op)]
  }

  function HandleAll(evs: seq<ClientEvent>, number: Numbers): Client {
    if evs == [] then FRESH else Handle(HandleAll(evs[..|evs| - 1], number), evs[|evs| - 1], number)
  }

  // ----- The parts of the state, each on its own

  /** What one event means for the counter of a name. */
  function CounterOps(ev: ClientEvent, id: nat, number: Numbers): (ops: seq<Counters.CounterOp>)
    ensures |ops| <= 1
  {
    match ev
    case JsTick(when) => [Counters.Apply(when)]
    case JsCounterSet(_, name, _, when, value) => if name == id then [Counters.Set(when, number(value))] else []
    case JsCounterAdd(name, amount) => if name == id then [Counters.Add(number(amount))] else []
    case _ => []
  }

  function AllCounterOps(evs: seq<ClientEvent>, id: nat, number: Numbers): seq<Counters.CounterOp> {
    if evs == [] then []
    else AllCounterOps(evs[..|evs| - 1], id, number) + CounterOps(evs[|evs| - 1], id, number)
  }

  function FrameOps(ev: ClientEvent): (ops: seq<Frames.FrameOp>)
    ensures |ops| <= 1
  {
    match ev
    case JsHeader(_, start) => [Frames.Start(start)]
    case JsTick(when) => [Frames.Start(when)]
    case _ => []
  }

  function AllFrameOps(evs: seq<ClientEvent>): seq<Frames.FrameOp> {
    if evs == [] then [] else AllFrameOps(evs[..|evs| - 1]) + FrameOps(evs[|evs| - 1])
  }

  lemma CounterOfEvent(c: Client, ev: ClientEvent, id: nat, number: Numbers)
    ensures var before, more := Counters.Get(c.counters, id), CounterOps(ev, id, number);
      Counters.Get(Handle(c, ev, number).counters, id) == if more == [] then before else Counters.Step(before, more[0])
  {
    hide Counters.Insert, Frames.Step;
  }

  /** Whatever else arrives in between, a counter sees just the operations on its name and the ticks. */
  lemma {:induction false} CounterOfStream(evs: seq<ClientEvent>, id: nat, number: Numbers)
    ensures Counters.Get(HandleAll(evs, number).counters, id) == Counters.Run(AllCounterOps(evs, id, number))
  {
    hide Counters.Step, Frames.Step, Handle, CounterOps;
    if evs != [] {
      var n := |evs| - 1;
      CounterOfStream(evs[..n], id, number);
      CounterOfEvent(HandleAll(evs[..n], number), evs[n], id, number);
      Counters.RunSnoc(AllCounterOps(evs[..n], id, number), CounterOps(evs[n], id, number));
    }
  }

  lemma FramesOfEvent(c: Client, ev: ClientEvent, number: Numbers)
    ensures var more := FrameOps(ev);
      Handle(c, ev, number).frames == if more == [] then c.frames else Frames.Step(c.frames, more[0])
  {
    hide Counters.Step, Frames.Step;
  }

  /** The frames see just the headers and the ticks. */
  lemma {:induction false} FramesOfStream(evs: seq<ClientEvent>, number: Numbers)
    ensures HandleAll(evs, number).frames == Frames.Run(AllFrameOps(evs))
  {
    hide Counters.Step, Frames.Step, Handle, FrameOps;
    if evs != [] {
      var n := |evs| - 1;
      FramesOfStream(evs[..n], number);
      FramesOfEvent(HandleAll(evs[..n], number), evs[n], number);
      Frames.RunSnoc(AllFrameOps(evs[..n]), FrameOps(evs[n]));
    }
  }

  predicate TicksInOrder(evs: seq<ClientEvent>) {
    Frames.NonDecreasing(AllFrameOps(evs))
  }

  lemma {:induction false} OnlyStarts(evs: seq<ClientEvent>)
    ensures forall op <- AllFrameOps(evs) :: op.Start?
  {
    if evs != [] {
      OnlyStarts(evs[..|evs| - 1]);
    }
  }

  lemma {:induction false} StartsEverywhere(ops: seq<Frames.FrameOp>)
    requires forall op <- ops :: op.Start?
    ensures Frames.Starts(ops) == seq(|ops|, i => i)
  {
    if ops != [] {
      StartsEverywhere(ops[..|ops| - 1]);
    }
  }

  /** A connected client that sees its ticks in order has one frame for the header and each tick, without
      gaps or overlaps, and the last one open. */
  lemma FramesWithoutGaps(evs: seq<ClientEvent>, number: Numbers)
    requires TicksInOrder(evs)
    ensures var f, ops := HandleAll(evs, number).frames, AllFrameOps(evs);
      && |f.spans| == |ops| && (f.open <==> ops != [])
      && (forall i | 0 <= i < |ops| :: f.spans[i].start == ops[i].time)
      && (forall i | 0 <= i < |ops| - 1 :: f.spans[i].End() == f.spans[i + 1].start)
      && Frames.EndsSorted(f.spans)
  {
    hide HandleAll, AllFrameOps, Frames.Run, Frames.Starts, Frames.NonDecreasing, Frames.EndsSorted;
    FramesOfStream(evs, number);
    OnlyStarts(evs);
    StartsEverywhere(AllFrameOps(evs));
    Frames.FramesOfRun(AllFrameOps(evs));
    Frames.FramesContiguous(AllFrameOps(evs));
  }

  // ----- Ticks

  /** The time of the last frame so far, 0 before the first. */
  function LastTime(ops: seq<Frames.FrameOp>): int {
    if ops == [] then 0 else ops[|ops| - 1].time
  }

  /** The last tick is the time at which the last frame began, and a tick shows how long the frame before it
      took. */
  lemma {:induction false} TicksOfStream(evs: seq<ClientEvent>, number: Numbers)
    ensures HandleAll(evs, number).lastTick == LastTime(AllFrameOps(evs))
    ensures evs != [] && evs[|evs| - 1].JsTick? ==>
      var n := |evs| - 1;
      HandleAll(evs, number).frameDelta == evs[n].when - LastTime(AllFrameOps(evs[..n]))
  {
    hide Counters.Step, Counters.ApplyAll, Frames.Step;
    if evs != [] {
      TicksOfStream(evs[..|evs| - 1], number);
    }
  }

  /** The last header says how fast and from when the clock counts. */
  lemma {:induction false} LastHeaderCounts(evs: seq<ClientEvent>, i: nat, number: Numbers)
    requires i < |evs| && evs[i].JsHeader? && forall j | i < j < |evs| :: !evs[j].JsHeader?
    ensures var c := HandleAll(evs, number);
      c.frequency == evs[i].frequency && c.startTick == evs[i].start
  {
    hide Counters.Step, Counters.ApplyAll, Frames.Step;
    if i < |evs| - 1 {
      LastHeaderCounts(evs[..|evs| - 1], i, number);
    }
  }

  /** A client that loses its connection closes its last frame where that began. */
  lemma DisconnectClosesLastFrame(evs: seq<ClientEvent>, number: Numbers)
    requires AllFrameOps(evs) != []
    ensures var c := HandleAll(evs, number);
      var f := Frames.Step(c.frames, Frames.Stop(c.lastTick));
      && !f.open && f.spans != [] && |f.spans| == |c.frames.spans|
      && f.spans[|f.spans| - 1].start == f.spans[|f.spans| - 1].End() == LastTime(AllFrameOps(evs))
  {
    hide HandleAll, AllFrameOps, Frames.Run, Frames.Starts, Frames.Step;
    var ops, c := AllFrameOps(evs), HandleAll(evs, number);
    FramesOfStream(evs, number);
    TicksOfStream(evs, number);
    OnlyStarts(evs);
    StartsEverywhere(ops);
    Frames.FramesOfRun(ops);
    var n := |ops| - 1;
    assert ops[n] in ops;
    assert c.frames.spans[n] == Frames.FrameAt(ops, n, n);
    Frames.StepSpans(c.frames, Frames.Stop(c.lastTick));
  }

  /** What the events gave to a counter is what its points show plus what waits for the next tick. */
  lemma CounterKeepsAmounts(evs: seq<ClientEvent>, id: nat, number: Numbers)
    ensures var c := Counters.Get(HandleAll(evs, number).counters, id);
      Counters.Total(c.data) + c.accum == Counters.Given(AllCounterOps(evs, id, number))
      && Counters.SortedFrom(c.data, 1)
  {
    CounterOfStream(evs, id, number);
    Counters.AmountsConserved(AllCounterOps(evs, id, number));
    var _, history := Counters.RunInserts(AllCounterOps(evs, id, number));
    Counters.PointsInOrder(history);
  }

  /** A counter that is only ever added to, with the ticks in order, has all its points in order. */
  lemma AddedCounterSorted(evs: seq<ClientEvent>, id: nat, number: Numbers)
    requires TicksInOrder(evs)
    requires forall ev <- evs :: !(ev.JsCounterSet? && ev.name == id)
    ensures Counters.SortedFrom(Counters.Get(HandleAll(evs, number).counters, id).data, 0)
  {
    CounterOfStream(evs, id, number);
    AppliedInOrder(evs, id, number);
  }

  /** A later tick's point goes to the end. */
  lemma {:induction false} AppliedInOrder(evs: seq<ClientEvent>, id: nat, number: Numbers)
    requires TicksInOrder(evs)
    requires forall ev <- evs :: !(ev.JsCounterSet? && ev.name == id)
    ensures InOrderUpTo(Counters.Run(AllCounterOps(evs, id, number)).data, AllFrameOps(evs))
  {
    hide Counters.Step, Counters.Run, Frames.NonDecreasing, InOrderUpTo, CounterOps, FrameOps;
    if evs != [] {
      var n := |evs| - 1;
      var before := evs[..n];
      var ops, frameOps := AllCounterOps(before, id, number), AllFrameOps(before);
      assert AllFrameOps(evs) == frameOps + FrameOps(evs[n]);
      OrderOfPrefix(frameOps, FrameOps(evs[n]));
      AppliedInOrder(before, id, number);
      assert evs[n] in evs;
      Counters.RunSnoc(ops, CounterOps(evs[n], id, number));
      StepInOrder(Counters.Run(ops), frameOps, evs[n], id, number);
    } else {
      EmptyInOrder(id, number);
    }
  }

  ghost predicate InOrderUpTo(data: seq<Counters.Point>, ops: seq<Frames.FrameOp>) {
    Counters.SortedFrom(data, 0) && forall p <- data :: ops != [] && p.time <= ops[|ops| - 1].time
  }

  lemma EmptyInOrder(id: nat, number: Numbers)
    ensures InOrderUpTo(Counters.Run(AllCounterOps([], id, number)).data, AllFrameOps([]))
  {
  }

  lemma OrderOfPrefix(ops: seq<Frames.FrameOp>, more: seq<Frames.FrameOp>)
    requires Frames.NonDecreasing(ops + more)
    ensures Frames.NonDecreasing(ops)
    ensures ops != [] && more != [] ==> ops[|ops| - 1].time <= more[0].time
  {
    var all := ops + more;
    forall i, j | 0 <= i < j < |ops|
      ensures ops[i].time <= ops[j].time
    {
      assert all[i] == ops[i] && all[j] == ops[j];
    }
    if ops != [] && more != [] {
      assert all[|ops| - 1].time <= all[|ops|].time;
    }
  }

  lemma StepInOrder(c: Counters.Counter, ops: seq<Frames.FrameOp>, ev: ClientEvent, id: nat, number: Numbers)
    requires InOrderUpTo(c.data, ops) && !(ev.JsCounterSet? && ev.name == id)
    requires ops != [] && FrameOps(ev) != [] ==> ops[|ops| - 1].time <= FrameOps(ev)[0].time
    ensures var more := CounterOps(ev, id, number);
      InOrderUpTo((if more == [] then c else Counters.Step(c, more[0])).data, ops + FrameOps(ev))
  {
    if ev.JsTick? {
      Counters.InsertLast(c.data, Counters.Point(ev.when, c.accum));
    }
  }

  // ----- The state object

  class YsState {
    var strings: map<nat, seq<byte>>
    var frequency: nat
    var startTick: nat
    var lastTick: nat
    var frameDelta: int
    const frames: Frames.YsFrameSet
    const counters: Counters.YsStateCounters
    const number: Numbers

    ghost predicate Valid()
      reads this, frames, counters, counters.counters.Values
    {
      frames.Valid() && counters.Valid()
    }

    ghost function View(): Client
      reads this, frames, frames.frames, counters, counters.counters.Values
      requires Valid()
    {
      Client(frequency, startTick, lastTick, frameDelta, strings, frames.View(), counters.View())
    }

    constructor (number: Numbers)
      ensures Valid() && View() == FRESH && this.number == number
      ensures fresh(frames) && fresh(counters) && frames.frames == [] && counters.counters == map[]
    {
      this.number := number;
      strings := map[];
      frequency, startTick, lastTick, frameDelta := 0, 0, 0, 0;
      frames := new Frames.YsFrameSet();
      counters := new Counters.YsStateCounters();
    }

    /** The case of a tick. */
    method HandleTick(when: nat)
      requires Valid()
      modifies this, frames, frames.frames, counters.counters.Values
      ensures Valid() && View() == Handle(old(View()), JsTick(when), number)
      ensures forall f <- frames.frames :: f in old(frames.frames) || fresh(f)
      ensures counters.counters == old(counters.counters)
    {
      hide Frames.Step, Frames.YsFrameSet.Valid, Frames.YsFrameSet.View;
      hide Counters.Step, Counters.ApplyAll, Counters.YsStateCounters.Valid, Counters.YsStateCounters.View;
      frames.StartFrame(when);
      counters.ApplyToAll(when);
      frameDelta := when - lastTick;
      lastTick := when;
    }

    method HandleEvent(ev: ClientEvent)
      requires Valid()
      modifies this, frames, frames.frames, counters, counters.counters.Values
      ensures Valid() && View() == Handle(old(View()), ev, number)
      ensures forall f <- frames.frames :: f in old(frames.frames) || fresh(f)
      ensures fresh(counters.counters.Values - old(counters.counters.Values))
    {
      hide Frames.Step, Frames.YsFrameSet.Valid, Frames.YsFrameSet.View;
      hide Counters.Step, Counters.Get, Counters.ApplyAll;
      hide Counters.YsStateCounters.Valid, Counters.YsStateCounters.View;
      match ev {
        case JsHeader(f, start) =>
          startTick, lastTick, frequency := start, start, f;
          frames.StartFrame(start);
        case JsTick(when) => HandleTick(when);
        case JsCounterSet(_, name, _, when, value) => counters.SetCounter(name, when, number(value));
        case JsString(id, _, text) => strings := strings[id := text];
        case JsCounterAdd(name, amount) => counters.AddCounter(name, number(amount));
        case JsRegion(_, _, _, _, _) =>
      }
    }

    /** The handler of 'disconnect'. */
    method Disconnected()
      requires Valid()
      modifies frames, frames.frames
      ensures Valid() && View() == old(View()).(frames := Frames.Step(old(View()).frames, Frames.Stop(lastTick)))
    {
      frames.EndFrame(lastTick);
    }
  }
}
