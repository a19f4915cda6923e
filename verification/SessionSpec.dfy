/** What one session of the WebSocket sink (src/WebsocketSink.cpp) should put on the wire: the events it
    is given, each preceded by the strings that its string table does not show as sent. */
module SessionSpec {
  import opened Words
  import opened Protocol
  import opened EventReader

  /** The program's pointers: their hashes, and the characters of the strings they point to. */
  datatype Names = Names(hash: Pointer -> Handle, chars: Pointer -> seq<byte>)
  {
    /** The length travels in 16 bits; longer strings lose whole multiples of 65536 characters. */
    function Text(p: Pointer): (t: seq<byte>)
      ensures |t| < 0x1_0000
      ensures t == chars(p) <==> |chars(p)| < 0x1_0000
    {
      chars(p)[..|chars(p)| % 0x1_0000]
    }

    function StringFor(p: Pointer): Message {
      String(hash(p), Text(p))
    }
  }

  /** A string of 65536 characters arrives empty. */
  lemma LongStringLost(names: Names, p: Pointer)
    requires |names.chars(p)| == 0x1_0000
    ensures names.Text(p) == [] != names.chars(p)
  {
  }

  /** The table position of a handle: byte `index >> 3`, bit `index & 5`. */
  function Slot(h: Handle): (slot: (nat, nat))
    ensures slot.0 < 4096
  {
    var index := h % 0x8000;
    (index / 8, BitAnd(index, 5))
  }

  lemma SlotBits(h: Handle)
    ensures Slot(h).1 in {0, 1, 4, 5}
  {
    hide BitAnd;
    BitsOfSlot(h % 0x8000);
  }

  /** Two handles share a slot exactly when the low 15 bits of both agree everywhere but in bit 1. */
  lemma SameSlotIff(g: Handle, h: Handle)
    ensures Slot(g) == Slot(h) <==> g % 0x8000 / 4 == h % 0x8000 / 4 && g % 2 == h % 2
  {
    hide BitAnd;
    BitsOfSlot(g % 0x8000);
    BitsOfSlot(h % 0x8000);
    SameBits(g % 0x8000, h % 0x8000);
    LowBit(g);
    LowBit(h);
  }

  lemma LowBit(h: nat)
    ensures h % 0x8000 % 2 == h % 2
  {
    assert h == h % 0x8000 + h / 0x8000 * 0x4000 * 2;
    AddMultiple(h % 0x8000, 2, h / 0x8000 * 0x4000);
  }

  lemma SameBits(x: nat, y: nat)
    ensures x / 8 == y / 8 && x % 2 + 4 * (x / 4 % 2) == y % 2 + 4 * (y / 4 % 2)
            <==> x / 4 == y / 4 && x % 2 == y % 2
  {
    assert x / 4 == 2 * (x / 8) + x / 4 % 2;
    assert y / 4 == 2 * (y / 8) + y / 4 % 2;
  }

  lemma BitsOfSlot(x: nat)
    ensures BitAnd(x, 5) == x % 2 + 4 * (x / 4 % 2)
  {
    SecondBit(x / 2);
    assert x / 2 / 2 == x / 4;
  }

  lemma SecondBit(y: nat)
    ensures BitAnd(y, 2) == 2 * (y / 2 % 2)
  {
    LowestBit(y / 2);
  }

  lemma LowestBit(z: nat)
    ensures BitAnd(z, 1) == z % 2
  {
    BitAndZero(z / 2);
  }

  /** A string in the slot of this handle is among the events. */
  ghost predicate Announced(events: seq<Message>, h: Handle) {
    exists i | 0 <= i < |events| :: events[i].String? && Slot(events[i].id) == Slot(h)
  }

  ghost function Announce(events: seq<Message>, p: Pointer, names: Names): seq<Message> {
    if Announced(events, names.hash(p)) then events else events + [names.StringFor(p)]
  }

  /** The pointers whose strings an event refers to, in the order in which they are written. */
  function Uses(ev: EventData): seq<Pointer> {
    match ev
    case Region(_, name, file, _, _) => [name, file]
    case CounterSet(_, name, file, _, _) => [name, file]
    case CounterAdd(name, _) => [name]
    case _ => []
  }

  ghost function AnnounceAll(events: seq<Message>, ps: seq<Pointer>, names: Names): seq<Message>
    decreases |ps|
  {
    if ps == [] then events else AnnounceAll(Announce(events, ps[0], names), ps[1..], names)
  }

  lemma AnnounceOne(events: seq<Message>, p: Pointer, names: Names)
    ensures AnnounceAll(events, [p], names) == Announce(events, p, names)
  {
    assert [p][1..] == [];
  }

  /** One event given to the session. */
  ghost function Emit(events: seq<Message>, ev: EventData, names: Names): seq<Message> {
    AnnounceAll(events, Uses(ev), names) + [OnWire(ev, names.hash)]
  }

  ghost function EmitAll(run: seq<EventData>, names: Names): seq<Message> {
    if run == [] then [] else Emit(EmitAll(run[..|run| - 1], names), run[|run| - 1], names)
  }

  /** The events the API hands to the sink; strings are the sink's own business. */
  predicate FromApi(ev: EventData) {
    !ev.None? && !ev.String?
  }

  // ----- Streams of events

  lemma {:induction false} EncodeAllSnoc(ms: seq<Message>, m: Message)
    requires Sendable(ms) && Sized(m) && !m.None?
    ensures Sendable(ms + [m]) && EncodeAll(ms + [m]) == EncodeAll(ms) + Encode(m)
  {
    hide Encode;
    if ms == [] {
      assert ms + [m] == [m];
      assert EncodeAll([m]) == Encode(m) + EncodeAll([m][1..]);
    } else {
      EncodeAllSnoc(ms[1..], m);
      assert (ms + [m])[1..] == ms[1..] + [m];
    }
  }

  lemma {:induction false} SeenAllAppend(a: seq<Message>, b: seq<Message>)
    requires Sendable(a) && Sendable(b)
    ensures Sendable(a + b) && SeenAll(a + b) == SeenAll(a) + SeenAll(b)
  {
    hide Seen;
    if a == [] {
      assert a + b == b;
    } else {
      SeenAllAppend(a[1..], b);
      assert (a + b)[1..] == a[1..] + b;
    }
  }
}
