/** What the string table of a session achieves: one string per slot, ahead of its first use, and exactly
    when the client can resolve every name. */
module StringTable {
  import opened Protocol
  import opened SessionSpec

  /** The handles an event on the wire refers to. */
  function HandlesOf(m: Message): seq<Handle> {
    match m
    case Region(_, name, file, _, _) => [name, file]
    case CounterSet(_, name, file, _, _) => [name, file]
    case CounterAdd(name, _) => [name]
    case _ => []
  }

  /** The handle is used by an event of the run. */
  ghost predicate Used(run: seq<EventData>, names: Names, h: Handle) {
    exists i | 0 <= i < |run| :: h in HandlesOf(OnWire(run[i], names.hash))
  }

  /** A string event with exactly this handle is among the events. */
  ghost predicate Defined(ms: seq<Message>, h: Handle) {
    exists i | 0 <= i < |ms| :: ms[i].String? && ms[i].id == h
  }

  ghost predicate DistinctSlots(run: seq<EventData>, names: Names) {
    forall g: Handle, h: Handle | Used(run, names, g) && Used(run, names, h) && Slot(g) == Slot(h) :: g == h
  }

  /** Every handle an event refers to has been defined by the time the event comes. */
  ghost predicate Resolved(ms: seq<Message>) {
    forall i, h | 0 <= i < |ms| && h in HandlesOf(ms[i]) :: Defined(ms[..i], h)
  }

  ghost predicate OneStringPerSlot(ms: seq<Message>) {
    forall i, j | 0 <= i < j < |ms| && ms[i].String? && ms[j].String? :: Slot(ms[i].id) != Slot(ms[j].id)
  }

  /** Every handle an event refers to has its slot announced by the time the event comes. */
  ghost predicate SlotsAnnounced(ms: seq<Message>) {
    forall i, h | 0 <= i < |ms| && h in HandlesOf(ms[i]) :: Announced(ms[..i], h)
  }

  ghost predicate OnlyDefines(ms: seq<Message>, handles: iset<Handle>) {
    forall i | 0 <= i < |ms| && ms[i].String? :: ms[i].id in handles
  }

  ghost predicate Steady(ms: seq<Message>, handles: iset<Handle>) {
    OneStringPerSlot(ms) && SlotsAnnounced(ms) && OnlyDefines(ms, handles)
  }

  lemma AnnouncedLonger(ms: seq<Message>, more: seq<Message>, h: Handle)
    requires ms <= more && Announced(ms, h)
    ensures Announced(more, h)
  {
    var i :| 0 <= i < |ms| && ms[i].String? && Slot(ms[i].id) == Slot(h);
    assert more[i] == ms[i];
  }

  /** A string is added only for a slot that has none. */
  lemma AnnounceSteady(ms: seq<Message>, p: Pointer, names: Names, handles: iset<Handle>)
    requires Steady(ms, handles) && names.hash(p) in handles
    ensures var ms' := Announce(ms, p, names);
      Steady(ms', handles) && ms <= ms' && Announced(ms', names.hash(p))
  {
    var ms' := Announce(ms, p, names);
    if ms' != ms {
      assert ms'[|ms|] == names.StringFor(p);
      forall i, h | 0 <= i < |ms'| && h in HandlesOf(ms'[i])
        ensures Announced(ms'[..i], h)
      {
        assert i < |ms| && ms'[..i] == ms[..i];
      }
    }
  }

  lemma {:induction false} AnnounceAllSteady(ms: seq<Message>, ps: seq<Pointer>, names: Names, handles: iset<Handle>)
    requires Steady(ms, handles) && forall p <- ps :: names.hash(p) in handles
    ensures var ms' := AnnounceAll(ms, ps, names);
      Steady(ms', handles) && ms <= ms' && forall p <- ps :: Announced(ms', names.hash(p))
    decreases |ps|
  {
    if ps != [] {
      var ms1 := Announce(ms, ps[0], names);
      AnnounceSteady(ms, ps[0], names, handles);
      AnnounceAllSteady(ms1, ps[1..], names, handles);
      var ms' := AnnounceAll(ms, ps, names);
      AnnouncedLonger(ms1, ms', names.hash(ps[0]));
      forall p <- ps
        ensures Announced(ms', names.hash(p))
      {
        assert p == ps[0] || p in ps[1..];
      }
    }
  }

  lemma UsesAreHandles(ev: EventData, names: Names)
    ensures HandlesOf(OnWire(ev, names.hash)) ==
            seq(|Uses(ev)|, i requires 0 <= i < |Uses(ev)| => names.hash(Uses(ev)[i]))
  {
  }

  lemma EmitSteady(ms: seq<Message>, ev: EventData, names: Names, handles: iset<Handle>)
    requires Steady(ms, handles) && FromApi(ev)
    requires forall h <- HandlesOf(OnWire(ev, names.hash)) :: h in handles
    ensures Steady(Emit(ms, ev, names), handles) && ms <= Emit(ms, ev, names)
  {
    var m := OnWire(ev, names.hash);
    UsesAreHandles(ev, names);
    forall p <- Uses(ev)
      ensures names.hash(p) in handles
    {
      assert names.hash(p) in HandlesOf(m);
    }
    var announced := AnnounceAll(ms, Uses(ev), names);
    AnnounceAllSteady(ms, Uses(ev), names, handles);
    var ms' := announced + [m];
    forall i, h | 0 <= i < |ms'| && h in HandlesOf(ms'[i])
      ensures Announced(ms'[..i], h)
    {
      if i < |announced| {
        assert ms'[..i] == announced[..i];
      } else {
        assert ms'[..i] == announced;
      }
    }
  }

  lemma {:induction false} EmitAllSteady(run: seq<EventData>, names: Names, handles: iset<Handle>)
    requires forall i | 0 <= i < |run| :: FromApi(run[i])
    requires forall h: Handle | Used(run, names, h) :: h in handles
    ensures Steady(EmitAll(run, names), handles)
  {
    if run != [] {
      var n := |run| - 1;
      forall h: Handle | Used(run[..n], names, h)
        ensures h in handles
      {
        var i :| 0 <= i < n && h in HandlesOf(OnWire(run[..n][i], names.hash));
        assert h in HandlesOf(OnWire(run[i], names.hash));
        assert Used(run, names, h);
      }
      EmitAllSteady(run[..n], names, handles);
      forall h <- HandlesOf(OnWire(run[n], names.hash))
        ensures h in handles
      {
        assert Used(run, names, h);
      }
      EmitSteady(EmitAll(run[..n], names), run[n], names, handles);
    }
  }

  /** Each slot of the table yields at most one string in a session, and it comes before the first event
      that refers to a handle of the slot. */
  lemma OneStringAheadOfUse(run: seq<EventData>, names: Names)
    requires forall i | 0 <= i < |run| :: FromApi(run[i])
    ensures OneStringPerSlot(EmitAll(run, names)) && SlotsAnnounced(EmitAll(run, names))
  {
    EmitAllSteady(run, names, iset h: Handle | Used(run, names, h));
  }

  /** An event of the run is among the events emitted. */
  lemma {:induction false} RunIsEmitted(run: seq<EventData>, names: Names, n: nat) returns (k: nat)
    requires n < |run|
    ensures k < |EmitAll(run, names)| && EmitAll(run, names)[k] == OnWire(run[n], names.hash)
  {
    var last := |run| - 1;
    var before := EmitAll(run[..last], names);
    if n == last {
      k := |EmitAll(run, names)| - 1;
    } else {
      k := RunIsEmitted(run[..last], names, n);
      AnnounceAllPrefix(before, Uses(run[last]), names);
    }
  }

  lemma {:induction false} AnnounceAllPrefix(ms: seq<Message>, ps: seq<Pointer>, names: Names)
    ensures ms <= AnnounceAll(ms, ps, names)
    decreases |ps|
  {
    if ps != [] {
      AnnounceAllPrefix(Announce(ms, ps[0], names), ps[1..], names);
    }
  }

  lemma DistinctSlotsResolve(run: seq<EventData>, names: Names)
    requires (forall i | 0 <= i < |run| :: FromApi(run[i])) && DistinctSlots(run, names)
    ensures Resolved(EmitAll(run, names))
  {
    hide Slot, EmitAll, Used;
    var ms := EmitAll(run, names);
    var handles := iset h: Handle | Used(run, names, h);
    EmitAllSteady(run, names, handles);
    forall i, h | 0 <= i < |ms| && h in HandlesOf(ms[i])
      ensures Defined(ms[..i], h)
    {
      EmittedIsUsed(run, names, i, h);
      var j :| 0 <= j < i && ms[..i][j].String? && Slot(ms[..i][j].id) == Slot(h);
      assert ms[j].id in handles;
    }
  }

  lemma ResolvedHaveDistinctSlots(run: seq<EventData>, names: Names)
    requires (forall i | 0 <= i < |run| :: FromApi(run[i])) && Resolved(EmitAll(run, names))
    ensures DistinctSlots(run, names)
  {
    hide Slot, EmitAll, Used;
    OneStringAheadOfUse(run, names);
    forall g: Handle, h: Handle | Used(run, names, g) && Used(run, names, h) && Slot(g) == Slot(h)
      ensures g == h
    {
      var i := UsedIsDefined(run, names, g);
      var j := UsedIsDefined(run, names, h);
    }
  }

  /** The client can resolve every name and file before it handles the event that uses it exactly when
      the handles of the run fall into different slots. */
  lemma ResolvedIffDistinctSlots(run: seq<EventData>, names: Names)
    requires forall i | 0 <= i < |run| :: FromApi(run[i])
    ensures Resolved(EmitAll(run, names)) <==> DistinctSlots(run, names)
  {
    hide Resolved, DistinctSlots;
    if DistinctSlots(run, names) {
      DistinctSlotsResolve(run, names);
    }
    if Resolved(EmitAll(run, names)) {
      ResolvedHaveDistinctSlots(run, names);
    }
  }

  // ----- How many handles a session can take

  /** Of the eight bits of each of the 4096 bytes four are in use. */
  const SLOTS: nat := 4 * 4096

  /** The slots of the table, numbered. */
  function SlotNumber(h: Handle): (n: nat)
    ensures n < SLOTS
  {
    h % 0x8000 / 4 * 2 + h % 2
  }

  lemma SlotNumberIsSlot(g: Handle, h: Handle)
    ensures SlotNumber(g) == SlotNumber(h) <==> Slot(g) == Slot(h)
  {
    hide Slot;
    SameSlotIff(g, h);
  }

  lemma {:induction false} OneHandleEach(handles: set<Handle>, slots: nat)
    requires forall h <- handles :: SlotNumber(h) < slots
    requires forall g, h | g in handles && h in handles && SlotNumber(g) == SlotNumber(h) :: g == h
    ensures |handles| <= slots
  {
    if slots == 0 {
      assert handles == {};
    } else if h :| h in handles && SlotNumber(h) == slots - 1 {
      OneHandleEach(handles - {h}, slots - 1);
      assert |handles| == |handles - {h}| + 1;
    } else {
      OneHandleEach(handles, slots - 1);
    }
  }

  /** A run that uses more handles than there are slots loses a name, whatever the hashes are. */
  lemma TooManyHandles(run: seq<EventData>, names: Names, handles: set<Handle>)
    requires forall i | 0 <= i < |run| :: FromApi(run[i])
    requires (forall h <- handles :: Used(run, names, h)) && |handles| > SLOTS
    ensures !DistinctSlots(run, names) && !Resolved(EmitAll(run, names))
  {
    hide Slot, Used, EmitAll, SlotNumber, Resolved;
    ResolvedIffDistinctSlots(run, names);
    if DistinctSlots(run, names) {
      forall g, h | g in handles && h in handles && SlotNumber(g) == SlotNumber(h)
        ensures g == h
      {
        SlotNumberIsSlot(g, h);
      }
      OneHandleEach(handles, SLOTS);
    }
  }

  lemma UsedIsDefined(run: seq<EventData>, names: Names, h: Handle) returns (i: nat)
    requires Resolved(EmitAll(run, names)) && Used(run, names, h)
    ensures i < |EmitAll(run, names)| && EmitAll(run, names)[i].String? && EmitAll(run, names)[i].id == h
  {
    var ms := EmitAll(run, names);
    var n :| 0 <= n < |run| && h in HandlesOf(OnWire(run[n], names.hash));
    var k := RunIsEmitted(run, names, n);
    assert Defined(ms[..k], h);
    i :| 0 <= i < k && ms[..k][i].String? && ms[..k][i].id == h;
  }

  /** Only events of the run refer to handles. */
  lemma {:induction false} EmittedIsUsed(run: seq<EventData>, names: Names, i: nat, h: Handle)
    requires i < |EmitAll(run, names)| && h in HandlesOf(EmitAll(run, names)[i])
    ensures Used(run, names, h)
  {
    var n := |run| - 1;
    var before := EmitAll(run[..n], names);
    if i < |before| {
      AnnounceAllPrefix(before, Uses(run[n]), names);
      EmittedIsUsed(run[..n], names, i, h);
      var k :| 0 <= k < n && h in HandlesOf(OnWire(run[..n][k], names.hash));
      assert h in HandlesOf(OnWire(run[k], names.hash));
    } else {
      AnnounceAllStrings(before, Uses(run[n]), names);
      assert h in HandlesOf(OnWire(run[n], names.hash));
    }
  }

  lemma {:induction false} AnnounceAllStrings(ms: seq<Message>, ps: seq<Pointer>, names: Names)
    ensures var ms' := AnnounceAll(ms, ps, names);
      ms <= ms' && forall i | |ms| <= i < |ms'| :: ms'[i].String?
    decreases |ps|
  {
    if ps != [] {
      AnnounceAllStrings(Announce(ms, ps[0], names), ps[1..], names);
    }
  }
}
