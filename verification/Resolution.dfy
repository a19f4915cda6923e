/** Names on the client: what `tostr` shows when an event of a session is handled. */
module Resolution {
  import opened Words
  import opened Protocol
  import opened EventReader
  import opened SessionSpec
  import opened StringTable
  import ClientState
  import PointerHash

  /** The pointer's string is needed by an event of the run. */
  ghost predicate PointerUsed(run: seq<EventData>, p: Pointer) {
    exists i | 0 <= i < |run| :: p in Uses(run[i])
  }

  /** Pointers with the same hash point to the same text. */
  ghost predicate HashesTell(run: seq<EventData>, names: Names) {
    forall p, q | PointerUsed(run, p) && PointerUsed(run, q) && names.hash(p) == names.hash(q) ::
      names.Text(p) == names.Text(q)
  }

  /** With 32-bit pointers that is always so, because their mixer is a permutation. */
  lemma NarrowPointersTell(run: seq<EventData>, names: Names)
    requires forall p: Pointer | PointerUsed(run, p) :: p < WORD && names.hash(p) == PointerHash.Mix32(p)
    ensures HashesTell(run, names)
  {
    hide PointerHash.Mix32;
    forall p: Pointer, q: Pointer | PointerUsed(run, p) && PointerUsed(run, q) && names.hash(p) == names.hash(q)
      ensures p == q
    {
      PointerHash.Mix32IsPermutation(p, q);
    }
  }

  /** Strings come from pointers of the run, and everything can be sent. */
  ghost predicate Sound(ms: seq<Message>, run: seq<EventData>, names: Names) {
    Sendable(ms) && forall i | 0 <= i < |ms| && ms[i].String? ::
      exists p :: PointerUsed(run, p) && ms[i] == names.StringFor(p)
  }

  lemma SoundSnoc(ms: seq<Message>, m: Message, run: seq<EventData>, names: Names)
    requires Sound(ms, run, names) && Sized(m) && !m.None?
    requires m.String? ==> exists p :: PointerUsed(run, p) && m == names.StringFor(p)
    ensures Sound(ms + [m], run, names)
  {
  }

  lemma {:induction false} AnnounceAllSound(ms: seq<Message>, ps: seq<Pointer>, run: seq<EventData>, names: Names)
    requires Sound(ms, run, names) && forall p <- ps :: PointerUsed(run, p)
    ensures Sound(AnnounceAll(ms, ps, names), run, names)
    decreases |ps|
  {
    hide Sound, Announced;
    if ps != [] {
      SoundSnoc(ms, names.StringFor(ps[0]), run, names);
      AnnounceAllSound(Announce(ms, ps[0], names), ps[1..], run, names);
    }
  }

  lemma {:induction false} EmitAllSound(run: seq<EventData>, n: nat, names: Names)
    requires n <= |run| && forall i | 0 <= i < |run| :: FromApi(run[i])
    ensures Sound(EmitAll(run[..n], names), run, names)
  {
    hide Sound, AnnounceAll;
    if n > 0 {
      EmitAllSound(run, n - 1, names);
      assert run[..n][..n - 1] == run[..n - 1];
      var before := EmitAll(run[..n - 1], names);
      forall p <- Uses(run[n - 1])
        ensures PointerUsed(run, p)
      {
      }
      AnnounceAllSound(before, Uses(run[n - 1]), run, names);
      SoundSnoc(AnnounceAll(before, Uses(run[n - 1]), names), OnWire(run[n - 1], names.hash), run, names);
    } else {
      NoneSound(run, names);
    }
  }

  lemma NoneSound(run: seq<EventData>, names: Names)
    ensures Sound([], run, names)
  {
  }

  /** A handle whose strings all say the same shows that text once it is defined. */
  lemma {:induction false} DefinedIsShown(ms: seq<Message>, h: Handle, text: seq<byte>, number: ClientState.Numbers)
    requires Sendable(ms) && Defined(ms, h)
    requires forall i | 0 <= i < |ms| && ms[i].String? && ms[i].id == h :: ms[i].text == text
    ensures var strings := ClientState.HandleAll(SeenAll(ms), number).strings;
      h in strings && strings[h] == text
  {
    hide SeenAll;
    var n := |ms| - 1;
    var before, m := ms[..n], ms[n];
    assert ms == before + [m];
    SeenAllAppend(before, [m]);
    OneSeen(m);
    var evs := SeenAll(before);
    assert (evs + [Seen(m)])[..n] == evs;
    if !(m.String? && m.id == h) {
      var i :| 0 <= i < |ms| && ms[i].String? && ms[i].id == h;
      assert before[i] == ms[i];
      DefinedIsShown(before, h, text, number);
    }
  }

  lemma OneSeen(m: Message)
    requires Sized(m) && !m.None?
    ensures SeenAll([m]) == [Seen(m)]
  {
    assert [m][1..] == [];
  }

  /** Whatever is in the string map was put there by a string event. */
  lemma {:induction false} ShownIsDefined(ms: seq<Message>, h: Handle, number: ClientState.Numbers) returns (i: nat)
    requires Sendable(ms)
    ensures var strings := ClientState.HandleAll(SeenAll(ms), number).strings;
      h in strings ==> i < |ms| && ms[i].String? && ms[i].id == h && ms[i].text == strings[h]
  {
    hide SeenAll;
    if ms == [] {
      NoneSeen();
      return 0;
    }
    var n := |ms| - 1;
    var before, m := ms[..n], ms[n];
    assert ms == before + [m];
    SeenAllAppend(before, [m]);
    OneSeen(m);
    var evs := SeenAll(before);
    assert (evs + [Seen(m)])[..n] == evs;
    if m.String? && m.id == h {
      i := n;
    } else {
      i := ShownIsDefined(before, h, number);
    }
  }

  lemma NoneSeen()
    ensures SeenAll([]) == []
  {
  }

  // ----- Names at the moment of their use

  /** What has been emitted when event n of a run follows. */
  ghost function Ahead(run: seq<EventData>, n: nat, names: Names): seq<Message>
    requires n < |run|
  {
    AnnounceAll(EmitAll(run[..n], names), Uses(run[n]), names)
  }

  lemma {:induction false} EmittedAt(run: seq<EventData>, n: nat, names: Names)
    requires n < |run|
    ensures var ms, ahead := EmitAll(run, names), Ahead(run, n, names);
      ahead < ms && ms[|ahead|] == OnWire(run[n], names.hash)
  {
    hide AnnounceAll, OnWire;
    var last := |run| - 1;
    if n < last {
      EmittedAt(run[..last], n, names);
      assert run[..last][..n] == run[..n];
      AnnounceAllPrefix(EmitAll(run[..last], names), Uses(run[last]), names);
    }
  }

  lemma AheadSound(run: seq<EventData>, n: nat, names: Names)
    requires n < |run| && forall i | 0 <= i < |run| :: FromApi(run[i])
    ensures Sound(Ahead(run, n, names), run, names)
  {
    hide Sound, AnnounceAll, EmitAll;
    EmitAllSound(run, n, names);
    forall p <- Uses(run[n])
      ensures PointerUsed(run, p)
    {
    }
    AnnounceAllSound(EmitAll(run[..n], names), Uses(run[n]), run, names);
  }

  /** The client's string map holds the right text for the pointer when it handles event n. */
  ghost predicate Shown(run: seq<EventData>, names: Names, number: ClientState.Numbers, n: nat, p: Pointer)
    requires n < |run|
  {
    && Sendable(Ahead(run, n, names))
    && var strings := ClientState.HandleAll(SeenAll(Ahead(run, n, names)), number).strings;
    names.hash(p) in strings && strings[names.hash(p)] == names.Text(p)
  }

  ghost predicate AllShown(run: seq<EventData>, names: Names, number: ClientState.Numbers) {
    forall n, p | 0 <= n < |run| && p in Uses(run[n]) :: Shown(run, names, number, n, p)
  }

  lemma UsesAreUsed(run: seq<EventData>, names: Names, n: nat, p: Pointer)
    requires n < |run| && p in Uses(run[n])
    ensures names.hash(p) in HandlesOf(OnWire(run[n], names.hash))
    ensures Used(run, names, names.hash(p)) && PointerUsed(run, p)
  {
    UsesAreHandles(run[n], names);
    var i :| 0 <= i < |Uses(run[n])| && Uses(run[n])[i] == p;
    assert HandlesOf(OnWire(run[n], names.hash))[i] == names.hash(p);
  }

  lemma ResolvedName(run: seq<EventData>, names: Names, number: ClientState.Numbers, n: nat, p: Pointer)
    requires forall i | 0 <= i < |run| :: FromApi(run[i])
    requires DistinctSlots(run, names) && HashesTell(run, names)
    requires n < |run| && p in Uses(run[n])
    ensures Shown(run, names, number, n, p)
  {
    hide DistinctSlots, Uses, SeenAll, AnnounceAll, EmitAll;
    var ms, ahead, h := EmitAll(run, names), Ahead(run, n, names), names.hash(p);
    UsesAreUsed(run, names, n, p);
    EmittedAt(run, n, names);
    ResolvedIffDistinctSlots(run, names);
    assert ms[..|ahead|] == ahead;
    AheadSound(run, n, names);
    forall j | 0 <= j < |ahead| && ahead[j].String? && ahead[j].id == h
      ensures ahead[j].text == names.Text(p)
    {
      var q :| PointerUsed(run, q) && ahead[j] == names.StringFor(q);
    }
    DefinedIsShown(ahead, h, names.Text(p), number);
  }

  /** A name that is shown comes from a string of the session with its handle and its text. */
  lemma ShownName(run: seq<EventData>, names: Names, number: ClientState.Numbers, p: Pointer) returns (i: nat)
    requires PointerUsed(run, p)
    ensures AllShown(run, names, number) ==>
      i < |EmitAll(run, names)| && EmitAll(run, names)[i] == names.StringFor(p)
  {
    i := 0;
    if !AllShown(run, names, number) {
      return;
    }
    hide Uses, SeenAll, AnnounceAll, EmitAll;
    var n :| 0 <= n < |run| && p in Uses(run[n]);
    assert Shown(run, names, number, n, p);
    EmittedAt(run, n, names);
    i := ShownIsDefined(Ahead(run, n, names), names.hash(p), number);
  }

  /** The pointer behind a used handle. */
  lemma PointerOf(run: seq<EventData>, names: Names, h: Handle) returns (p: Pointer)
    requires Used(run, names, h)
    ensures PointerUsed(run, p) && names.hash(p) == h
  {
    var n :| 0 <= n < |run| && h in HandlesOf(OnWire(run[n], names.hash));
    UsesAreHandles(run[n], names);
    var i :| 0 <= i < |Uses(run[n])| && HandlesOf(OnWire(run[n], names.hash))[i] == h;
    p := Uses(run[n])[i];
    assert p in Uses(run[n]);
  }

  /** The client shows the right text for every name and file of every event at the moment it handles the
      event if and only if the handles of the run fall in different slots and different texts have
      different hashes. */
  lemma NamesResolveIff(run: seq<EventData>, names: Names, number: ClientState.Numbers)
    requires forall i | 0 <= i < |run| :: FromApi(run[i])
    ensures AllShown(run, names, number) <==> DistinctSlots(run, names) && HashesTell(run, names)
  {
    hide Shown, Uses, EmitAll, Used, PointerUsed, Slot;
    if DistinctSlots(run, names) && HashesTell(run, names) {
      forall n, p | 0 <= n < |run| && p in Uses(run[n])
        ensures Shown(run, names, number, n, p)
      {
        ResolvedName(run, names, number, n, p);
      }
    }
    if AllShown(run, names, number) {
      OneStringAheadOfUse(run, names);
      forall g: Handle, h: Handle | Used(run, names, g) && Used(run, names, h) && Slot(g) == Slot(h)
        ensures g == h
      {
        var p := PointerOf(run, names, g);
        var q := PointerOf(run, names, h);
        OneStringForBoth(run, names, number, p, q);
      }
      forall p, q | PointerUsed(run, p) && PointerUsed(run, q) && names.hash(p) == names.hash(q)
        ensures names.Text(p) == names.Text(q)
      {
        OneStringForBoth(run, names, number, p, q);
      }
    }
  }

  /** Pointers whose handles share a slot share their string. */
  lemma OneStringForBoth(run: seq<EventData>, names: Names, number: ClientState.Numbers, p: Pointer, q: Pointer)
    requires PointerUsed(run, p) && PointerUsed(run, q) && Slot(names.hash(p)) == Slot(names.hash(q))
    ensures AllShown(run, names, number) && OneStringPerSlot(EmitAll(run, names)) ==>
      names.StringFor(p) == names.StringFor(q)
  {
    hide Slot, EmitAll, AllShown, PointerUsed;
    var i := ShownName(run, names, number, p);
    var j := ShownName(run, names, number, q);
  }

  // ----- A name that is lost

  /** Two 32-bit pointers with different handles in the same slot. */
  lemma SlotsCollide() returns (p: uint32, q: uint32)
    ensures PointerHash.Mix32(p) == 0 && PointerHash.Mix32(q) == 2 && Slot(0) == Slot(2)
  {
    hide PointerHash.Mix32, PointerHash.Unmix32, Slot;
    p, q := PointerHash.Unmix32(0), PointerHash.Unmix32(2);
    PointerHash.MixUnmix32(0);
    PointerHash.MixUnmix32(2);
    SameSlotIff(0, 2);
  }

  /** A run of two events that uses pointers with these handles: the second name is not known when its event
      is handled. */
  lemma SecondNameLost(names: Names, number: ClientState.Numbers, p: Pointer, q: Pointer)
    requires names.hash(p) == 0 && names.hash(q) == 2
    ensures var run := [CounterAdd(p, 0), CounterAdd(q, 0)];
      && Sendable(Ahead(run, 1, names))
      && names.hash(q) !in ClientState.HandleAll(SeenAll(Ahead(run, 1, names)), number).strings
  {
    hide SeenAll, Slot;
    var run: seq<EventData> := [CounterAdd(p, 0), CounterAdd(q, 0)];
    FirstNameOnly(names, run, p, q);
    if names.hash(q) in ClientState.HandleAll(SeenAll(Ahead(run, 1, names)), number).strings {
      var i := ShownIsDefined(Ahead(run, 1, names), names.hash(q), number);
    }
  }

  lemma FirstNameOnly(names: Names, run: seq<EventData>, p: Pointer, q: Pointer)
    requires run == [CounterAdd(p, 0), CounterAdd(q, 0)] && names.hash(p) == 0 && names.hash(q) == 2
    ensures Ahead(run, 1, names) == [names.StringFor(p), CounterAdd(0, 0)]
    ensures Sendable(Ahead(run, 1, names))
  {
    hide Slot;
    SameSlotIff(0, 2);
    assert run[..1][..0] == [] && run[..1][0] == CounterAdd(p, 0);
    assert EmitAll([], names) == [];
    AnnounceOne([], p, names);
    var ms := EmitAll(run[..1], names);
    assert ms == [names.StringFor(p), CounterAdd(0, 0)];
    assert ms[0].String? && Announced(ms, 2);
    AnnounceOne(ms, q, names);
  }
}
