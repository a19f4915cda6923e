/** The client's counters (tools/web/js/ysState.js): points kept in order of time, found again by binary
    search, and amounts that accumulate until the next tick. */
module Counters {

  datatype Point = Point(time: int, value: int)

  /** Where a point goes: behind the last one that is not later, but never before the first. */
  function Spot(data: seq<Point>, time: int): (k: nat)
    ensures k <= |data|
  {
    if |data| <= 1 || data[|data| - 1].time <= time then |data| else Spot(data[..|data| - 1], time)
  }

  function Insert(data: seq<Point>, p: Point): seq<Point> {
    var k := Spot(data, p.time);
    data[..k] + [p] + data[k..]
  }

  function InsertAll(history: seq<Point>): seq<Point> {
    if history == [] then []
    else Insert(InsertAll(history[..|history| - 1]), history[|history| - 1])
  }

  predicate SortedFrom(data: seq<Point>, start: nat) {
    forall i, j | start <= i < j < |data| :: data[i].time <= data[j].time
  }

  /** The points of one time, in their order. */
  function At(data: seq<Point>, time: int): seq<Point> {
    if data == [] then []
    else At(data[..|data| - 1], time) + if data[|data| - 1].time == time then [data[|data| - 1]] else []
  }

  // ----- The order of the points

  lemma {:induction false} SpotSplits(data: seq<Point>, time: int)
    requires SortedFrom(data, 1)
    ensures var k := Spot(data, time);
      && (|data| > 0 ==> k >= 1)
      && (forall i | 1 <= i < k :: data[i].time <= time)
      && (forall i | k <= i < |data| :: data[i].time > time)
  {
    if |data| > 1 && data[|data| - 1].time > time {
      SpotSplits(data[..|data| - 1], time);
    }
  }

  lemma InsertKeepsOrder(data: seq<Point>, p: Point)
    requires SortedFrom(data, 1)
    ensures SortedFrom(Insert(data, p), 1)
    ensures data != [] ==> Insert(data, p)[0] == data[0]
    ensures multiset(Insert(data, p)) == multiset(data) + multiset{p}
  {
    SpotSplits(data, p.time);
    var k := Spot(data, p.time);
    assert data == data[..k] + data[k..];
  }

  /** A point that is not earlier than any other goes to the end. */
  lemma InsertLast(data: seq<Point>, p: Point)
    requires forall q <- data :: q.time <= p.time
    ensures Insert(data, p) == data + [p]
    ensures SortedFrom(data, 0) ==> SortedFrom(Insert(data, p), 0)
  {
    assert data != [] ==> data[|data| - 1] in data;
    assert data[..|data|] + [p] + data[|data|..] == data + [p];
  }

  lemma InsertFirst(p: Point)
    ensures Insert([], p) == [p]
  {
  }

  lemma NoneInOrder()
    ensures SortedFrom([], 1)
  {
  }

  /** The first point keeps its place, the others are in order of time, and nothing is lost. */
  lemma {:induction false} PointsInOrder(history: seq<Point>)
    ensures SortedFrom(InsertAll(history), 1)
    ensures multiset(InsertAll(history)) == multiset(history)
    ensures history != [] ==> InsertAll(history) != [] && InsertAll(history)[0] == history[0]
  {
    hide Insert, SortedFrom;
    if history != [] {
      var before, p := history[..|history| - 1], history[|history| - 1];
      PointsInOrder(before);
      InsertKeepsOrder(InsertAll(before), p);
      assert history == before + [p];
      if before == [] {
        InsertFirst(p);
      }
    } else {
      NoneInOrder();
    }
  }

  /** All points are in order exactly when none was inserted that precedes the first. */
  lemma SortedIffNonePrecedesFirst(history: seq<Point>)
    ensures SortedFrom(InsertAll(history), 0) <==>
            forall p <- history :: history[0].time <= p.time
  {
    hide InsertAll;
    PointsInOrder(history);
    SamePoints(InsertAll(history), history);
    FirstIsLeast(InsertAll(history));
  }

  /** A point that comes second and is earlier stays second. */
  lemma EarlierPointStaysBehind(value: int)
    ensures var history := [Point(5, value), Point(3, value)];
      InsertAll(history) == history && !SortedFrom(InsertAll(history), 0)
  {
    hide Insert;
    var history := [Point(5, value), Point(3, value)];
    InsertFirst(history[0]);
    InsertSecond(history[0], history[1]);
    assert history[..1] == [history[0]] && [history[0]][..0] == [];
    assert InsertAll([history[0]]) == Insert(InsertAll([]), history[0]);
    assert InsertAll(history) == Insert(InsertAll(history[..1]), history[1]);
  }

  lemma InsertSecond(p: Point, q: Point)
    ensures Insert([p], q) == [p, q]
  {
  }

  lemma SamePoints(a: seq<Point>, b: seq<Point>)
    requires multiset(a) == multiset(b)
    ensures forall p :: p in a <==> p in b
  {
    forall p
      ensures p in a <==> p in b
    {
      assert p in a <==> p in multiset(a);
      assert p in b <==> p in multiset(b);
    }
  }

  lemma FirstIsLeast(data: seq<Point>)
    requires SortedFrom(data, 1)
    ensures SortedFrom(data, 0) <==> forall p <- data :: data[0].time <= p.time
  {
    if forall p <- data :: data[0].time <= p.time {
      forall i, j | 0 <= i < j < |data|
        ensures data[i].time <= data[j].time
      {
        assert data[j] in data;
      }
    }
  }

  lemma {:induction false} AtConcat(a: seq<Point>, b: seq<Point>, time: int)
    ensures At(a + b, time) == At(a, time) + At(b, time)
  {
    if b == [] {
      assert a + b == a;
    } else {
      AtConcat(a, b[..|b| - 1], time);
      assert (a + b)[..|a + b| - 1] == a + b[..|b| - 1];
    }
  }

  lemma {:induction false} AtNone(data: seq<Point>, time: int)
    requires forall i | 0 <= i < |data| :: data[i].time != time
    ensures At(data, time) == []
  {
    if data != [] {
      AtNone(data[..|data| - 1], time);
    }
  }

  /** Points of the same time stay in the order in which they came, so the order behind the first point
      is the stable one. */
  lemma {:induction false} SameTimeKeepsArrival(history: seq<Point>, time: int)
    requires history != []
    ensures InsertAll(history) != [] && At(InsertAll(history)[1..], time) == At(history[1..], time)
  {
    hide Spot, Insert, SortedFrom;
    var before, p := history[..|history| - 1], history[|history| - 1];
    if before == [] {
      InsertFirst(p);
      assert InsertAll(history) == [p];
    } else {
      SameTimeKeepsArrival(before, time);
      PointsInOrder(before);
      InsertAt(InsertAll(before), p, time);
      assert history[1..][..|history[1..]| - 1] == before[1..];
    }
  }

  lemma AtOne(p: Point, time: int)
    ensures At([p], time) == if p.time == time then [p] else []
  {
    assert At([p], time) == At([p][..0], time) + if p.time == time then [p] else [];
  }

  lemma AtAround(low: seq<Point>, p: Point, high: seq<Point>, time: int)
    requires forall i | 0 <= i < |high| :: high[i].time > p.time
    ensures At(low + [p] + high, time) == At(low + high, time) + if p.time == time then [p] else []
  {
    hide At;
    AtConcat(low, high, time);
    AtConcat(low + [p], high, time);
    AtConcat(low, [p], time);
    AtOne(p, time);
    if p.time == time {
      AtNone(high, time);
      assert At(low, time) + [p] + [] == At(low, time) + [] + [p];
    }
  }

  lemma InsertAt(data: seq<Point>, p: Point, time: int)
    requires data != [] && SortedFrom(data, 1)
    ensures Insert(data, p) != []
    ensures At(Insert(data, p)[1..], time) == At(data[1..], time) + if p.time == time then [p] else []
  {
    SpotSplits(data, p.time);
    hide Spot, At, SortedFrom;
    var k := Spot(data, p.time);
    assert data[1..] == data[1..k] + data[k..];
    assert Insert(data, p)[1..] == data[1..k] + [p] + data[k..];
    AtAround(data[1..k], p, data[k..], time);
  }

  // ----- A counter over its life

  datatype Counter = Counter(data: seq<Point>, accum: int)

  datatype CounterOp = Set(time: int, value: int) | Add(amount: int) | Apply(time: int)

  function Step(c: Counter, op: CounterOp): Counter {
    match op
    case Set(time, value) => c.(data := Insert(c.data, Point(time, value)))
    case Add(amount) => c.(accum := c.accum + amount)
    case Apply(time) => if c.accum != 0 then Counter(Insert(c.data, Point(time, c.accum)), 0) else c
  }

  function Run(ops: seq<CounterOp>): Counter {
    if ops == [] then Counter([], 0) else Step(Run(ops[..|ops| - 1]), ops[|ops| - 1])
  }

  lemma RunSnoc(ops: seq<CounterOp>, more: seq<CounterOp>)
    requires |more| <= 1
    ensures Run(ops + more) == if more == [] then Run(ops) else Step(Run(ops), more[0])
  {
    hide Step;
    assert more == [] ==> ops + more == ops;
    assert more != [] ==> (ops + more)[..|ops|] == ops;
  }

  function Total(data: seq<Point>): int {
    if data == [] then 0 else Total(data[..|data| - 1]) + data[|data| - 1].value
  }

  /** What the operations put in. */
  function Given(ops: seq<CounterOp>): int {
    if ops == [] then 0 else Given(ops[..|ops| - 1]) + Share(ops[|ops| - 1])
  }

  function Share(op: CounterOp): int {
    match op
    case Set(_, value) => value
    case Add(amount) => amount
    case Apply(_) => 0
  }

  lemma {:induction false} TotalConcat(a: seq<Point>, b: seq<Point>)
    ensures Total(a + b) == Total(a) + Total(b)
  {
    if b == [] {
      assert a + b == a;
    } else {
      TotalConcat(a, b[..|b| - 1]);
      assert (a + b)[..|a + b| - 1] == a + b[..|b| - 1];
    }
  }

  lemma TotalInsert(data: seq<Point>, p: Point)
    ensures Total(Insert(data, p)) == Total(data) + p.value
  {
    var k := Spot(data, p.time);
    assert data == data[..k] + data[k..];
    TotalConcat(data[..k], data[k..]);
    TotalConcat(data[..k] + [p], data[k..]);
    assert (data[..k] + [p])[..k] == data[..k];
  }

  /** No amount is lost or counted twice: what the points show plus what still waits for a tick is what
      was set and added. */
  lemma {:induction false} AmountsConserved(ops: seq<CounterOp>)
    ensures Total(Run(ops).data) + Run(ops).accum == Given(ops)
  {
    if ops != [] {
      AmountsConserved(ops[..|ops| - 1]);
      var c := Run(ops[..|ops| - 1]);
      match ops[|ops| - 1] {
        case Set(time, value) => TotalInsert(c.data, Point(time, value));
        case Add(_) =>
        case Apply(time) => TotalInsert(c.data, Point(time, c.accum));
      }
    }
  }

  /** What was added since the last tick that came before the end of the operations. */
  function Pending(ops: seq<CounterOp>): int {
    if ops == [] then 0
    else
      match ops[|ops| - 1]
      case Set(_, _) => Pending(ops[..|ops| - 1])
      case Add(amount) => Pending(ops[..|ops| - 1]) + amount
      case Apply(_) => 0
  }

  /** The operation at this place puts the point: a value set at its time, or at the time of a tick what was
      added since the one before, unless that is zero. */
  ghost predicate Puts(ops: seq<CounterOp>, i: nat, p: Point)
    requires i < |ops|
  {
    match ops[i]
    case Set(time, value) => p.time == time && p.value == value
    case Add(_) => false
    case Apply(time) => p.time == time && p.value == Pending(ops[..i]) && p.value != 0
  }

  /** Places of the operations that put a point, in their order. */
  ghost predicate PutAt(ops: seq<CounterOp>, at: seq<nat>, history: seq<Point>) {
    && |at| == |history|
    && (forall j | 0 <= j < |at| :: at[j] < |ops| && Puts(ops, at[j], history[j]))
    && (forall j, k | 0 <= j < k < |at| :: at[j] < at[k])
    && (forall i | 0 <= i < |ops| && (exists p :: Puts(ops, i, p)) :: i in at)
  }

  lemma PutAtSnoc(ops: seq<CounterOp>, op: CounterOp, at: seq<nat>, history: seq<Point>, p: Point)
    requires PutAt(ops, at, history)
    ensures var all := ops + [op];
      if Puts(all, |ops|, p) then PutAt(all, at + [|ops|], history + [p])
      else !(exists q :: Puts(all, |ops|, q)) ==> PutAt(all, at, history)
  {
    var all := ops + [op];
    assert all[..|ops|] == ops;
    forall i, q | 0 <= i < |ops|
      ensures Puts(all, i, q) <==> Puts(ops, i, q)
    {
      assert all[..i] == ops[..i];
    }
    var longer := at + [|ops|];
    assert forall i | 0 <= i < |ops| && i in at :: i in longer;
  }

  /** A counter over its life: its points are those put by the operations, each by its own and in their
      order, and what waits for the next tick is what was added since the last one. */
  lemma {:induction false} RunInserts(ops: seq<CounterOp>) returns (at: seq<nat>, history: seq<Point>)
    ensures Run(ops) == Counter(InsertAll(history), Pending(ops))
    ensures PutAt(ops, at, history)
  {
    hide PutAt, Insert;
    if ops == [] {
      at, history := [], [];
      NothingPut();
    } else {
      var n := |ops| - 1;
      at, history := RunInserts(ops[..n]);
      assert ops == ops[..n] + [ops[n]];
      var p := Point(if ops[n].Add? then 0 else ops[n].time, if ops[n].Set? then ops[n].value else Pending(ops[..n]));
      PutAtSnoc(ops[..n], ops[n], at, history, p);
      if ops[n].Set? || (ops[n].Apply? && Pending(ops[..n]) != 0) {
        assert (history + [p])[..|history|] == history;
        at, history := at + [n], history + [p];
      }
    }
  }

  lemma NothingPut()
    ensures PutAt([], [], [])
  {
  }

  /** Two amounts, a tick, a value for an earlier time, and another amount. */
  lemma KnownCounter()
    ensures Run([Add(1), Add(2), Apply(5), Set(4, 7), Add(3)]) == Counter([Point(5, 3), Point(4, 7)], 3)
  {
    var ops := [Add(1), Add(2), Apply(5), Set(4, 7), Add(3)];
    assert ops[..4][..3] == ops[..3] && ops[..3][..2] == ops[..2] && ops[..2][..1] == ops[..1] && ops[..1][..0] == [];
    hide Insert;
    assert Run(ops[..1]) == Step(Run([]), Add(1)) == Counter([], 1);
    assert Run(ops[..2]) == Step(Run(ops[..1]), Add(2)) == Counter([], 3);
    InsertFirst(Point(5, 3));
    assert Run(ops[..3]) == Step(Run(ops[..2]), Apply(5)) == Counter([Point(5, 3)], 0);
    InsertSecond(Point(5, 3), Point(4, 7));
    assert Run(ops[..4]) == Step(Run(ops[..3]), Set(4, 7)) == Counter([Point(5, 3), Point(4, 7)], 0);
  }

  // ----- The counter object

  class YsCounter {
    const id: nat
    var accum: int
    var data: seq<Point>

    ghost predicate Valid()
      reads this
    {
      SortedFrom(data, 1)
    }

    ghost function View(): Counter
      reads this
    {
      Counter(data, accum)
    }

    constructor (id: nat)
      ensures Valid() && this.id == id && View() == Counter([], 0)
    {
      this.id := id;
      accum, data := 0, [];
    }

    method SetValue(time: int, value: int)
      requires Valid()
      modifies this`data
      ensures Valid() && View() == Step(old(View()), Set(time, value))
    {
      var i := |data| - 1;
      assert data[..i + 1] == data;
      while i > 0 && data[i].time > time
        invariant -1 <= i < |data| && (i == -1 ==> data == [])
        invariant Spot(data, time) == Spot(data[..i + 1], time)
      {
        assert data[..i + 1][..i] == data[..i];
        i := i - 1;
      }
      InsertKeepsOrder(data, Point(time, value));
      data := data[..i + 1] + [Point(time, value)] + data[i + 1..];
    }

    method AddAmount(amount: int)
      requires Valid()
      modifies this`accum
      ensures Valid() && View() == Step(old(View()), Add(amount))
    {
      accum := accum + amount;
    }

    method ApplyAt(time: int)
      requires Valid()
      modifies this
      ensures Valid() && View() == Step(old(View()), Apply(time))
    {
      if accum != 0 {
        SetValue(time, accum);
        accum := 0;
      }
    }

    /** Splits the points behind the first at the time; the first itself only counts for the results 0
        and 1. */
    method FindIndexByTime(time: int) returns (r: nat)
      requires Valid()
      ensures r <= |data|
      ensures forall i | 1 <= i < |data| :: data[i].time < time <==> i < r
      ensures r <= 1 && data != [] ==> (data[0].time < time <==> r == 1)
    {
      var count := |data|;
      r := 0;
      while count > 0
        invariant 0 <= r && 0 <= count && r + count <= |data|
        invariant forall i | 1 <= i < r :: data[i].time < time
        invariant forall i | r + count <= i < |data| && 1 <= i :: data[i].time >= time
        invariant r == 1 && count == 0 ==> data[0].time < time
        invariant r == 0 && count == 0 && data != [] ==> data[0].time >= time
        invariant r == 1 ==> data[0].time < time
      {
        var step := count / 2;
        var i := r + step;
        if data[i].time < time {
          r := i + 1;
          count := count - (step + 1);
        } else {
          count := step;
        }
      }
    }
  }

  /** On points that are all in order the search gives the true lower bound. */
  lemma LowerBound(data: seq<Point>, time: int, r: nat)
    requires SortedFrom(data, 0) && r <= |data|
    requires forall i | 1 <= i < |data| :: data[i].time < time <==> i < r
    requires r <= 1 && data != [] ==> (data[0].time < time <==> r == 1)
    ensures forall i | 0 <= i < |data| :: data[i].time < time <==> i < r
  {
    if r > 1 {
      assert data[0].time <= data[1].time;
    }
  }

  // ----- All counters of a stream

  type CounterMap = map<nat, Counter>

  /** A counter that nothing has been given to yet is empty. */
  function Get(m: CounterMap, id: nat): Counter {
    if id in m then m[id] else Counter([], 0)
  }

  function ApplyAll(m: CounterMap, time: int): CounterMap {
    map id | id in m :: Step(m[id], Apply(time))
  }

  class YsStateCounters {
    var counters: map<nat, YsCounter>

    /** Every counter knows its own id, so no two entries share one. */
    ghost predicate Valid()
      reads this, counters.Values
    {
      forall id <- counters :: counters[id].id == id && counters[id].Valid()
    }

    ghost function View(): CounterMap
      reads this, counters.Values
    {
      map id | id in counters :: counters[id].View()
    }

    constructor ()
      ensures Valid() && View() == map[] && counters == map[]
    {
      counters := map[];
    }

    method CreateCounter(id: nat) returns (counter: YsCounter)
      requires Valid()
      modifies this
      ensures Valid() && id in counters && counter == counters[id]
      ensures View() == old(View())[id := Get(old(View()), id)]
      ensures counters == old(counters) || (fresh(counter) && counters == old(counters)[id := counter])
    {
      if id in counters {
        return counters[id];
      }
      counter := new YsCounter(id);
      counters := counters[id := counter];
    }

    method SetCounter(id: nat, time: int, value: int)
      requires Valid()
      modifies this, counters.Values
      ensures Valid() && View() == old(View())[id := Step(Get(old(View()), id), Set(time, value))]
      ensures fresh(counters.Values - old(counters.Values))
    {
      hide Insert, Spot, SortedFrom, Step;
      var counter := CreateCounter(id);
      ghost var before := View();
      counter.SetValue(time, value);
      OneChanged(before, id);
    }

    method AddCounter(id: nat, amount: int)
      requires Valid()
      modifies this, counters.Values
      ensures Valid() && View() == old(View())[id := Step(Get(old(View()), id), Add(amount))]
      ensures fresh(counters.Values - old(counters.Values))
    {
      hide Insert, Spot, SortedFrom, Step;
      var counter := CreateCounter(id);
      ghost var before := View();
      counter.AddAmount(amount);
      OneChanged(before, id);
    }

    /** The counter of one id has changed and the others are as they were. */
    lemma OneChanged(before: CounterMap, id: nat)
      requires id in counters && before.Keys == counters.Keys
      requires forall other <- counters :: other != id ==> counters[other].View() == before[other]
      ensures View() == before[id := counters[id].View()]
    {
    }

    method ApplyToAll(time: int)
      requires Valid()
      modifies counters.Values
      ensures Valid() && View() == ApplyAll(old(View()), time)
    {
      var left := counters.Keys;
      while left != {}
        invariant left <= counters.Keys && Valid()
        invariant forall id <- counters ::
          counters[id].View() ==
          if id in left then old(counters[id].View()) else Step(old(counters[id].View()), Apply(time))
        decreases |left|
      {
        var id :| id in left;
        counters[id].ApplyAt(time);
        left := left - {id};
      }
    }
  }
}
