/** The client's frames (tools/web/js/ysState.js): one begun by every tick, ended by whatever comes next,
    found again by binary search. */
module Frames {

  datatype Span = Span(index: nat, start: int, length: int)
  {
    function End(): int { start + length }
  }

  datatype FrameOp = Start(time: int) | Stop(time: int)

  datatype Record = Record(spans: seq<Span>, open: bool)

  /** Only the last frame can be open, so there must be one. */
  type FrameList = f: Record | f.open ==> f.spans != [] witness Record([], false)

  function Step(f: FrameList, op: FrameOp): FrameList {
    var n := |f.spans|;
    var ended :=
      if f.open then f.spans[n - 1 := f.spans[n - 1].(length := op.time - f.spans[n - 1].start)] else f.spans;
    if op.Start? then Record(ended + [Span(n, op.time, 0)], true) else Record(ended, false)
  }

  function Run(ops: seq<FrameOp>): FrameList {
    if ops == [] then Record([], false) else Step(Run(ops[..|ops| - 1]), ops[|ops| - 1])
  }

  lemma RunSnoc(ops: seq<FrameOp>, more: seq<FrameOp>)
    requires |more| <= 1
    ensures Run(ops + more) == if more == [] then Run(ops) else Step(Run(ops), more[0])
  {
    hide Step;
    assert more == [] ==> ops + more == ops;
    assert more != [] ==> (ops + more)[..|ops|] == ops;
  }

  /** The positions at which frames start. */
  function Starts(ops: seq<FrameOp>): (at: seq<nat>)
    ensures forall i | 0 <= i < |at| :: at[i] < |ops| && ops[at[i]].Start?
    ensures forall i, j | 0 <= i < j < |at| :: at[i] < at[j]
  {
    if ops == [] then []
    else
      var n := |ops| - 1;
      Starts(ops[..n]) + if ops[n].Start? then [n] else []
  }

  /** The frame that starts at a position lasts until the next operation. */
  function FrameAt(ops: seq<FrameOp>, index: nat, k: nat): Span
    requires k < |ops|
  {
    Span(index, ops[k].time, if k + 1 < |ops| then ops[k + 1].time - ops[k].time else 0)
  }

  /** The frames are those at the given starts, and only a frame with nothing behind it is open. */
  predicate Framed(f: FrameList, at: seq<nat>, ops: seq<FrameOp>)
    requires forall i | 0 <= i < |at| :: at[i] < |ops|
  {
    && |f.spans| == |at|
    && (forall i | 0 <= i < |at| :: f.spans[i] == FrameAt(ops, i, at[i]))
    && (f.open <==> ops != [] && ops[|ops| - 1].Start?)
  }

  /** There is one frame for each start, from its time to that of the operation that follows it. */
  lemma {:induction false} FramesOfRun(ops: seq<FrameOp>)
    ensures StartsOf(Starts(ops), ops) && Framed(Run(ops), Starts(ops), ops)
  {
    hide Framed, StartsOf, Step;
    if ops != [] {
      var n := |ops| - 1;
      FramesOfRun(ops[..n]);
      FramedStep(Run(ops[..n]), Starts(ops[..n]), ops[..n], ops[n]);
      assert ops[..n] + [ops[n]] == ops;
    } else {
      NoFrames();
    }
  }

  /** Two frames and a stop. */
  lemma KnownFrames()
    ensures Run([Start(3), Start(5), Stop(9)]) == Record([Span(0, 3, 2), Span(1, 5, 4)], false)
  {
    var ops := [Start(3), Start(5), Stop(9)];
    assert ops[..2][..1] == ops[..1] && ops[..1][..0] == [];
    assert Run(ops[..1]) == Record([Span(0, 3, 0)], true);
    assert Run(ops[..2]) == Record([Span(0, 3, 2), Span(1, 5, 0)], true);
  }

  lemma NoFrames()
    ensures StartsOf([], []) && Framed(Record([], false), [], [])
  {
  }

  lemma StepSpans(f: FrameList, op: FrameOp)
    ensures var f', n := Step(f, op), |f.spans|;
      && f'.open == op.Start?
      && |f'.spans| == (if op.Start? then n + 1 else n)
      && (op.Start? ==> f'.spans[n] == Span(n, op.time, 0))
      && (forall i | 0 <= i < n :: f'.spans[i] ==
            if f.open && i == n - 1 then f.spans[i].(length := op.time - f.spans[i].start) else f.spans[i])
  {
  }

  /** The starts lie within the operations, in order, and the last of them is the last operation if that
      is a start. */
  predicate StartsOf(at: seq<nat>, ops: seq<FrameOp>) {
    && (forall i | 0 <= i < |at| :: at[i] < |ops|)
    && (ops != [] && ops[|ops| - 1].Start? ==> at != [] && at[|at| - 1] == |ops| - 1)
    && (forall i | 0 <= i < |at| :: at[i] == |ops| - 1 ==> i == |at| - 1 && ops[|ops| - 1].Start?)
  }

  lemma FramedStep(f: FrameList, at: seq<nat>, before: seq<FrameOp>, op: FrameOp)
    requires StartsOf(at, before)
    requires Framed(f, at, before)
    ensures var at' := at + if op.Start? then [|before|] else [];
      StartsOf(at', before + [op]) && Framed(Step(f, op), at', before + [op])
  {
    hide Step;
    StepSpans(f, op);
    var f', ops := Step(f, op), before + [op];
    forall i | 0 <= i < |at|
      ensures f'.spans[i] == FrameAt(ops, i, at[i])
    {
      assert f.spans[i] == FrameAt(before, i, at[i]);
      assert f.open && i == |at| - 1 <==> at[i] == |before| - 1;
    }
  }

  predicate NonDecreasing(ops: seq<FrameOp>) {
    forall i, j | 0 <= i < j < |ops| :: ops[i].time <= ops[j].time
  }

  predicate EndsSorted(spans: seq<Span>) {
    forall i, j | 0 <= i < j < |spans| :: spans[i].End() <= spans[j].End()
  }

  /** As long as time does not run backwards no frame has a negative length, none reaches into the next,
      and a frame ends where the next one starts if no stop came between them. */
  lemma FramesContiguous(ops: seq<FrameOp>)
    requires NonDecreasing(ops)
    ensures var spans, at := Run(ops).spans, Starts(ops);
      && |spans| == |at|
      && EndsSorted(spans)
      && (forall i | 0 <= i < |spans| :: spans[i].index == i && spans[i].length >= 0)
      && (forall i | 0 <= i < |spans| - 1 :: spans[i].End() <= spans[i + 1].start)
      && (forall i | 0 <= i < |spans| - 1 && at[i + 1] == at[i] + 1 :: spans[i].End() == spans[i + 1].start)
  {
    hide Run, Starts;
    FramesOfRun(ops);
    FramedInOrder(Run(ops), Starts(ops), ops);
  }

  lemma FramedInOrder(f: FrameList, at: seq<nat>, ops: seq<FrameOp>)
    requires NonDecreasing(ops) && StartsOf(at, ops) && Framed(f, at, ops)
    requires forall i, j | 0 <= i < j < |at| :: at[i] < at[j]
    ensures EndsSorted(f.spans)
    ensures forall i | 0 <= i < |at| :: f.spans[i].index == i && f.spans[i].length >= 0
    ensures forall i | 0 <= i < |at| - 1 :: f.spans[i].End() <= f.spans[i + 1].start
    ensures forall i | 0 <= i < |at| - 1 && at[i + 1] == at[i] + 1 :: f.spans[i].End() == f.spans[i + 1].start
  {
    forall i, j | 0 <= i < j < |at|
      ensures f.spans[i].End() <= f.spans[j].start <= f.spans[j].End()
    {
      assert f.spans[i] == FrameAt(ops, i, at[i]) && f.spans[j] == FrameAt(ops, j, at[j]);
      assert at[i] + 1 <= at[j];
    }
  }

  // ----- The frame objects

  class YsFrame {
    const index: nat
    const start: int
    var length: int

    function View(): Span
      reads this
    {
      Span(index, start, length)
    }

    constructor (index: nat, start: int)
      ensures View() == Span(index, start, 0)
    {
      this.index := index;
      this.start := start;
      length := 0;
    }

    method SetEnd(end: int)
      modifies this
      ensures View() == Span(index, start, end - start)
    {
      length := end - start;
    }
  }

  class YsFrameSet {
    var frames: seq<YsFrame>
    /** The last frame while it is open. */
    var current: YsFrame?

    ghost predicate Valid()
      reads this
    {
      && (forall i, j | 0 <= i < j < |frames| :: frames[i] != frames[j])
      && (current != null ==> frames != [] && current == frames[|frames| - 1])
    }

    ghost function View(): (f: FrameList)
      reads this, frames
      requires Valid()
    {
      Record(seq(|frames|, i requires 0 <= i < |frames| reads this, frames => frames[i].View()), current != null)
    }

    constructor ()
      ensures Valid() && View() == Record([], false) && frames == []
    {
      frames, current := [], null;
    }

    method StartFrame(time: int)
      requires Valid()
      modifies this, frames
      ensures Valid() && View() == Step(old(View()), Start(time))
      ensures forall f <- frames :: f in old(frames) || fresh(f)
    {
      EndFrame(time);
      current := new YsFrame(|frames|, time);
      frames := frames + [current];
    }

    method EndFrame(time: int)
      requires Valid()
      modifies this, frames
      ensures Valid() && View() == Step(old(View()), Stop(time))
      ensures frames == old(frames) && current == null
    {
      if current != null {
        current.SetEnd(time);
        current := null;
      }
    }

    /** The frame before the result ends before the time, and the frame at it does not; if the ends are
        sorted that makes it the lower bound. */
    method FindIndexByTime(time: int) returns (r: nat)
      requires Valid()
      ensures var spans := View().spans;
        && r <= |spans|
        && (r > 0 ==> spans[r - 1].End() < time)
        && (r < |spans| ==> time <= spans[r].End())
        && (EndsSorted(spans) ==> forall i | 0 <= i < |spans| :: spans[i].End() < time <==> i < r)
    {
      var count := |frames|;
      r := 0;
      while count > 0
        invariant 0 <= r && 0 <= count && r + count <= |frames|
        invariant r > 0 ==> frames[r - 1].View().End() < time
        invariant r + count < |frames| ==> time <= frames[r + count].View().End()
      {
        var step := count / 2;
        var i := r + step;
        if frames[i].start + frames[i].length < time {
          r := i + 1;
          count := count - (step + 1);
        } else {
          count := step;
        }
      }
      ghost var spans := View().spans;
      assert forall i | 0 <= i < |spans| :: spans[i] == frames[i].View();
    }
  }
}
