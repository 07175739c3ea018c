/**
 * The recorded parse: events are logged as aligned nodes in a chain of memory chunks and replayed from
 * there. Memory is modelled in slots of the size of a node.
 */
module Dom {
  import opened Base
  import opened Stack
  import opened Generate
  import opened Delivery
  import E = Events

  const NODE_SIZE: nat := 8
  const HEADER: nat := 40
  const MIN_SIZE: nat := 8192
  const TWO64: nat := 0x1_0000_0000_0000_0000

  /** No object is larger than this, so sizes with their headers do not wrap around. */
  const MAX_OBJECT: nat := 0x4000_0000_0000_0000

  // ----- Sizes -----

  /** Unsigned 64-bit arithmetic; the size 0 relies on its wrapping around. */
  function SizeAlign(size: nat): (r: nat)
    requires size < TWO64
  {
    NODE_SIZE * (1 + (size - 1) % TWO64 / NODE_SIZE) % TWO64
  }

  /** The least multiple of the node size that is at least the size. */
  lemma SizeAligned(size: nat)
    requires size <= 2 * MAX_OBJECT
    ensures SizeAlign(size) % NODE_SIZE == 0 && size <= SizeAlign(size) < size + NODE_SIZE
    ensures SizeAlign(size) == NODE_SIZE * ((size + 7) / 8)
  {
    if size > 0 {
      assert (size - 1) % TWO64 == size - 1;
    }
  }

  function AllocSize(size: nat): nat
    requires size < TWO64
  {
    SizeAlign(if size < MIN_SIZE then MIN_SIZE else size)
  }

  // ----- Nodes -----

  datatype Kind =
    | NullKind | TrueKind | FalseKind | IntegerKind | RealKind | StringKind | KeyKind
    | StartArrayKind | EndArrayKind | StartObjectKind | EndObjectKind

  /** What eight bytes of memory hold. */
  datatype Slot =
    | Unset
    | TypeSlot(kind: Kind)
    | CountSlot(count: nat)
    | IntegerSlot(n: int)
    | RealSlot(neg: bool, sig: nat, exp: int)
    | BytesSlot(bs: bytes)

  function KindOf(e: Event): Kind {
    match e
    case Null => NullKind
    case Boolean(b) => if b then TrueKind else FalseKind
    case Integer(_) => IntegerKind
    case Real(_, _, _) => RealKind
    case Str(_) => StringKind
    case Key(_) => KeyKind
    case StartArray => StartArrayKind
    case EndArray => EndArrayKind
    case StartObject => StartObjectKind
    case EndObject => EndObjectKind
  }

  function PayloadSize(e: Event): nat {
    match e
    case Integer(_) | Real(_, _, _) => NODE_SIZE
    case Str(s) => |s|
    case Key(k) => |k|
    case _ => 0
  }

  predicate Storable(e: Event) {
    PayloadSize(e) <= MAX_OBJECT
  }

  function Required(count: nat): nat
    requires count <= MAX_OBJECT
  {
    SizeAlign(count + 2 * NODE_SIZE)
  }

  /** Bytes in slots of eight; the last one may hold fewer. */
  function Pack(s: bytes): (r: seq<Slot>)
    ensures |r| == (|s| + 7) / 8
  {
    if s == [] then []
    else if |s| <= 8 then [BytesSlot(s)]
    else [BytesSlot(s[..8])] + Pack(s[8..])
  }

  function Unpack(slots: seq<Slot>): bytes {
    if slots == [] || !slots[0].BytesSlot? then [] else slots[0].bs + Unpack(slots[1..])
  }

  lemma {:induction false} UnpackPack(s: bytes)
    ensures Unpack(Pack(s)) == s
    decreases |s|
  {
    if |s| > 8 {
      UnpackPack(s[8..]);
      assert Pack(s)[1..] == Pack(s[8..]);
      assert s == s[..8] + s[8..];
    } else if s != [] {
      assert Pack(s)[1..] == [];
      assert s + [] == s;
    }
  }

  function PayloadSlots(e: Event): seq<Slot> {
    match e
    case Integer(n) => [IntegerSlot(n)]
    case Real(neg, sig, exp) => [RealSlot(neg, sig, exp)]
    case Str(s) => Pack(s)
    case Key(k) => Pack(k)
    case _ => []
  }

  /** The nodes one event is recorded as. */
  function Nodes(e: Event): (r: seq<Slot>)
    ensures |r| >= 2
  {
    [TypeSlot(KindOf(e)), CountSlot(PayloadSize(e))] + PayloadSlots(e)
  }

  /** The writer's allocation is what the nodes take, and the reader's advance over the payload. */
  lemma NodesTake(e: Event)
    requires Storable(e)
    ensures Required(PayloadSize(e)) == NODE_SIZE * |Nodes(e)| == 2 * NODE_SIZE + SizeAlign(PayloadSize(e))
  {
    var n := PayloadSize(e);
    assert |Nodes(e)| == 2 + (n + 7) / 8;
    SizeAligned(n + 2 * NODE_SIZE);
    SizeAligned(n);
    hide SizeAlign, Nodes;
    assert (n + 2 * NODE_SIZE + 7) / 8 == 2 + (n + 7) / 8;
  }

  function Record(evs: seq<Event>): seq<Slot> {
    if evs == [] then [] else Nodes(evs[0]) + Record(evs[1..])
  }

  lemma {:induction false} RecordConcat(a: seq<Event>, b: seq<Event>)
    ensures Record(a + b) == Record(a) + Record(b)
    decreases |a|
  {
    if a == [] {
      assert a + b == b;
    } else {
      assert (a + b)[1..] == a[1..] + b;
      RecordConcat(a[1..], b);
      assert Nodes(a[0]) + (Record(a[1..]) + Record(b)) == Nodes(a[0]) + Record(a[1..]) + Record(b);
    }
  }

  lemma RecordOne(e: Event)
    ensures Record([e]) == Nodes(e)
  {
    assert [e][1..] == [];
    assert Nodes(e) + [] == Nodes(e);
  }

  lemma RecordMore(evs: seq<Event>, e: Event)
    ensures Record(evs + [e]) == Record(evs) + Nodes(e)
  {
    RecordConcat(evs, [e]);
    RecordOne(e);
  }

  lemma FirstNode(s: seq<Slot>, evs: seq<Event>, n: nat)
    requires n < |evs| && s == Record(evs)
    ensures |Record(evs[..n])| < |s| && s[|Record(evs[..n])|].TypeSlot?
  {
    RecordSplit(evs, n);
    hide Record;
    assert s[|Record(evs[..n])|] == Nodes(evs[n])[0];
  }

  lemma RecordNothing(evs: seq<Event>)
    ensures Record(evs[..0]) == [] && evs[..|evs|] == evs
  {
  }

  lemma Halves(s: seq<Slot>, i: nat, k: nat, a: seq<Slot>, b: seq<Slot>)
    requires i + k <= |s| && s[..i] == a && s[i..i + k] == b
    ensures s[..i + k] == a + b
  {
    assert s[..i + k] == s[..i] + s[i..i + k];
  }

  /** The record splits into what was read, the next event and what follows it. */
  lemma RecordSplit(evs: seq<Event>, n: nat)
    requires n < |evs|
    ensures Record(evs) == Record(evs[..n]) + Nodes(evs[n]) + Record(evs[n + 1..])
    ensures Record(evs[..n + 1]) == Record(evs[..n]) + Nodes(evs[n])
  {
    hide Nodes, Record;
    RecordConcat(evs[..n], [evs[n]]);
    RecordOne(evs[n]);
    assert evs[..n + 1] == evs[..n] + [evs[n]];
    RecordConcat(evs[..n + 1], evs[n + 1..]);
    assert evs == evs[..n + 1] + evs[n + 1..];
  }

  function Flatten(ls: seq<seq<Event>>): seq<Event> {
    if ls == [] then [] else ls[0] + Flatten(ls[1..])
  }

  lemma {:induction false} FlattenConcat(a: seq<seq<Event>>, b: seq<seq<Event>>)
    ensures Flatten(a + b) == Flatten(a) + Flatten(b)
    decreases |a|
  {
    if a == [] {
      assert a + b == b;
    } else {
      assert (a + b)[1..] == a[1..] + b;
      FlattenConcat(a[1..], b);
      assert a[0] + (Flatten(a[1..]) + Flatten(b)) == a[0] + Flatten(a[1..]) + Flatten(b);
    }
  }

  // ----- Chunks -----

  /** The type, the size and the payload of an event. */
  method PutNodes(memory: array<Slot>, i: nat, e: Event)
    requires i + |Nodes(e)| <= memory.Length
    modifies memory
    ensures memory[..i] == old(memory[..i]) && memory[i..i + |Nodes(e)|] == Nodes(e)
  {
    hide KindOf, PayloadSize, PayloadSlots;
    memory[i] := TypeSlot(KindOf(e));
    memory[i + 1] := CountSlot(PayloadSize(e));
    var payload := PayloadSlots(e);
    forall k | 0 <= k < |payload| {
      memory[i + 2 + k] := payload[k];
    }
  }

  /** Reads the bytes of a string, and how many slots they take. */
  method ReadBytes(memory: array<Slot>, i: nat, size: nat, ghost s: bytes) returns (bs: bytes, slots: nat)
    requires size == |s| <= MAX_OBJECT && i + |Pack(s)| <= memory.Length && memory[i..i + |Pack(s)|] == Pack(s)
    ensures bs == s && slots == |Pack(s)|
  {
    SizeAligned(size);
    UnpackPack(s);
    slots := SizeAlign(size) / NODE_SIZE;
    bs := Unpack(memory[i..i + slots]);
  }

  /** The nodes of an event: its type, the size of the payload, the payload. */
  lemma NodeParts(memory: array<Slot>, i: nat, x: Event)
    requires i + |Nodes(x)| <= memory.Length && memory[i..i + |Nodes(x)|] == Nodes(x)
    ensures memory[i] == TypeSlot(KindOf(x)) && memory[i + 1] == CountSlot(PayloadSize(x))
    ensures |Nodes(x)| == 2 + |PayloadSlots(x)| && memory[i + 2..i + 2 + |PayloadSlots(x)|] == PayloadSlots(x)
    ensures x.Integer? ==> |Nodes(x)| == 3 && memory[i + 2] == IntegerSlot(x.n)
    ensures x.Real? ==> |Nodes(x)| == 3 && memory[i + 2] == RealSlot(x.neg, x.sig, x.exp)
  {
    var nodes, slots := Nodes(x), memory[..];
    assert slots[i..i + |nodes|] == memory[i..i + |nodes|];
    PartsOf(slots, i, nodes);
    assert memory[i + 2..i + |nodes|] == slots[i + 2..i + |nodes|];
  }

  lemma PartsOf(slots: seq<Slot>, i: nat, nodes: seq<Slot>)
    requires |nodes| >= 2 && i + |nodes| <= |slots| && slots[i..i + |nodes|] == nodes
    ensures slots[i] == nodes[0] && slots[i + 1] == nodes[1] && slots[i + 2..i + |nodes|] == nodes[2..]
    ensures |nodes| >= 3 ==> slots[i + 2] == nodes[2]
  {
    var stretch := slots[i..i + |nodes|];
    assert slots[i] == stretch[0] && slots[i + 1] == stretch[1];
    assert slots[i + 2..i + |nodes|] == stretch[2..];
    if |nodes| >= 3 {
      assert slots[i + 2] == stretch[2];
    }
  }

  /** Reads the nodes of an event, and how many they are. */
  method ReadNodes(memory: array<Slot>, i: nat, ghost x: Event) returns (e: Event, slots: nat)
    requires Storable(x) && i + |Nodes(x)| <= memory.Length && memory[i..i + |Nodes(x)|] == Nodes(x)
    ensures e == x && slots == |Nodes(x)|
  {
    hide Nodes, Pack;
    NodeParts(memory, i, x);
    var kind, size := memory[i].kind, memory[i + 1].count;
    slots := 2;
    match kind
    case NullKind => e := Null;
    case TrueKind => e := Boolean(true);
    case FalseKind => e := Boolean(false);
    case StartArrayKind => e := StartArray;
    case EndArrayKind => e := EndArray;
    case StartObjectKind => e := StartObject;
    case EndObjectKind => e := EndObject;
    case IntegerKind =>
      e := Integer(memory[i + 2].n);
      slots := 3;
    case RealKind =>
      e := Real(memory[i + 2].neg, memory[i + 2].sig, memory[i + 2].exp);
      slots := 3;
    case StringKind =>
      var bs, n := ReadBytes(memory, i + 2, size, x.s);
      e, slots := Str(bs), 2 + n;
    case KeyKind =>
      var bs, n := ReadBytes(memory, i + 2, size, x.k);
      e, slots := Key(bs), 2 + n;
  }

  class Chunk {
    const size: nat
    const memory: array<Slot>
    var count: nat
    var next: Chunk?
    ghost var events: seq<Event>

    constructor (wanted: nat)
      requires wanted <= MAX_OBJECT + 4 * NODE_SIZE
      ensures Valid() && fresh(memory) && events == [] && next == null
      ensures wanted <= Room() && (wanted <= MIN_SIZE - HEADER ==> Room() == MIN_SIZE - HEADER)
    {
      SizeAligned(wanted + HEADER);
      SizeAligned(MIN_SIZE);
      size := AllocSize(wanted + HEADER);
      memory := new Slot[(AllocSize(wanted + HEADER) - HEADER) / NODE_SIZE](i => Unset);
      count := HEADER;
      next := null;
      events := [];
    }

    /** The bytes that are not used yet. */
    function Room(): int
      reads `count
    {
      size - count
    }

    /** The used part of the memory is the record of the events. */
    ghost predicate Valid()
      reads `count, `events, memory
    {
      && HEADER + NODE_SIZE * memory.Length == size
      && count == HEADER + NODE_SIZE * |Record(events)| <= size
      && memory[..|Record(events)|] == Record(events)
      && (events == [] ==> memory.Length > 0 && memory[0].Unset?)
      && forall i | 0 <= i < |events| :: Storable(events[i])
    }

    /** Writes the nodes of an event behind those of the others. */
    method Put(e: Event)
      requires Valid() && Storable(e) && Required(PayloadSize(e)) <= Room()
      modifies this`count, this`events, memory
      ensures Valid() && events == old(events) + [e]
    {
      assert PayloadSize(e) <= MAX_OBJECT;
      hide Nodes, Record, Required, Storable, SizeAlign, PayloadSize;
      NodesTake(e);
      RecordMore(events, e);
      var i := (count - HEADER) / NODE_SIZE;
      assert i == |Record(events)|;
      count := count + Required(PayloadSize(e));
      PutNodes(memory, i, e);
      Halves(memory[..], i, |Nodes(e)|, Record(events), Nodes(e));
      events := events + [e];
    }

    /** The offset behind n events. */
    ghost function After(n: nat): nat
      requires n <= |events|
      reads this
    {
      HEADER + NODE_SIZE * |Record(events[..n])|
    }

    /** The whole record has been read when the offset reaches the count. */
    lemma Behind(n: nat)
      requires Valid() && n <= |events|
      ensures After(n) >= count <==> n == |events|
      ensures After(0) == HEADER
      ensures n < |events| ==> memory[(After(n) - HEADER) / NODE_SIZE].TypeSlot?
    {
      hide Record, Nodes;
      RecordNothing(events);
      if n < |events| {
        RecordSplit(events, n);
        FirstNode(memory[..|Record(events)|], events, n);
        assert (After(n) - HEADER) / NODE_SIZE == |Record(events[..n])|;
      }
    }

    /** Reads the nodes of an event, of which n precede. */
    method Read(offset: nat, ghost n: nat) returns (e: Event, next: nat)
      requires Valid() && n < |events| && offset == After(n)
      ensures e == events[n] && next == After(n + 1) && next <= count
    {
      RecordSplit(events, n);
      NodesTake(events[n]);
      hide Nodes, Record, Required, SizeAlign, Storable;
      var i := (offset - HEADER) / NODE_SIZE;
      ghost var k := |Nodes(events[n])|;
      assert i == |Record(events[..n])| && i + k <= |Record(events)|;
      MiddleOf(memory[..], Record(events[..n]), Nodes(events[n]), Record(events[n + 1..]));
      assert memory[i..i + k] == memory[..][i..i + k];
      var slots;
      e, slots := ReadNodes(memory, i, events[n]);
      next := offset + NODE_SIZE * slots;
    }
  }

  // ----- The chain -----

  /** The chunks follow each other and share no memory. */
  ghost predicate Linked(cs: seq<Chunk>)
    reads cs, set c | c in cs :: c.memory
  {
    && cs != [] && Follow(cs) && Apart(cs)
    && forall i | 0 <= i < |cs| :: cs[i].Valid()
  }

  ghost predicate Follow(cs: seq<Chunk>)
    requires cs != []
    reads cs`next
  {
    (forall i | 0 <= i < |cs| - 1 :: cs[i].next == cs[i + 1]) && cs[|cs| - 1].next == null
  }

  ghost predicate Apart(cs: seq<Chunk>) {
    forall i, j | 0 <= i < j < |cs| :: cs[i] != cs[j] && cs[i].memory != cs[j].memory
  }

  lemma ApartFromLast(cs: seq<Chunk>, i: nat)
    requires Apart(cs) && i < |cs| - 1
    ensures cs[i] != cs[|cs| - 1] && cs[i].memory != cs[|cs| - 1].memory
  {
  }

  lemma ApartFromMore(cs: seq<Chunk>)
    requires cs != [] && Apart(cs)
    ensures forall i | 0 <= i < |cs| - 1 :: cs[i] != cs[|cs| - 1]
  {
  }

  /** A chunk that shares no memory with the others is linked behind them. */
  lemma LinkedMore(cs: seq<Chunk>, c: Chunk)
    requires cs != [] && Apart(cs) && forall i | 0 <= i < |cs| :: cs[i] != c && cs[i].memory != c.memory
    requires forall i | 0 <= i < |cs| - 1 :: cs[i].next == cs[i + 1]
    requires cs[|cs| - 1].next == c && c.next == null
    requires c.Valid() && forall i | 0 <= i < |cs| :: cs[i].Valid()
    ensures Linked(cs + [c]) && Logs(cs + [c]) == Logs(cs) + [c.events]
  {
    hide Chunk.Valid;
    var all := cs + [c];
    assert Follow(all) by {
      forall i | 0 <= i < |all| - 1 ensures all[i].next == all[i + 1] {
        if i < |cs| - 1 {
          assert all[i] == cs[i] && all[i + 1] == cs[i + 1];
        }
      }
    }
    assert Apart(all);
  }

  /** Only the first chunk may be empty: the others are made for an event. */
  ghost predicate Filled(cs: seq<Chunk>)
    reads cs
  {
    forall i | 0 < i < |cs| :: cs[i].events != []
  }

  ghost function Logs(cs: seq<Chunk>): (r: seq<seq<Event>>)
    reads cs
    ensures |r| == |cs| && forall i | 0 <= i < |cs| :: r[i] == cs[i].events
  {
    seq(|cs|, i requires 0 <= i < |cs| reads cs => cs[i].events)
  }

  lemma FlattenLast(ls: seq<seq<Event>>, last: seq<Event>, e: Event)
    ensures Flatten(ls + [last + [e]]) == Flatten(ls + [last]) + [e]
  {
    FlattenConcat(ls, [last]);
    FlattenConcat(ls, [last + [e]]);
    assert Flatten([last]) == last + [] == last;
    assert Flatten([last + [e]]) == last + [e] + [] == last + [e];
    assert Flatten(ls) + (last + [e]) == Flatten(ls) + last + [e];
  }

  lemma FlattenEmpty(ls: seq<seq<Event>>)
    ensures Flatten(ls + [[]]) == Flatten(ls)
  {
    FlattenConcat(ls, [[]]);
    assert Flatten([[]]) == [] + [] == [];
    assert Flatten(ls) + [] == Flatten(ls);
  }

  const FIRST_ROOM: nat := MIN_SIZE - HEADER

  /** Whether the first event fits the first chunk. */
  predicate FirstFits(evs: seq<Event>) {
    evs != [] && PayloadSize(evs[0]) <= MAX_OBJECT && Required(PayloadSize(evs[0])) <= FIRST_ROOM
  }

  /** The first chunk holds a first event of any kind but strings and keys of more than 8136 bytes. */
  lemma FirstFitsIff(evs: seq<Event>)
    ensures FirstFits(evs) <==> evs != [] && (evs[0].Str? ==> |evs[0].s| <= 8136) && (evs[0].Key? ==> |evs[0].k| <= 8136)
  {
    if evs != [] && PayloadSize(evs[0]) <= MAX_OBJECT {
      SizeAligned(PayloadSize(evs[0]) + 2 * NODE_SIZE);
    }
  }

  /** The first chunk holds an event exactly when the first event fits it. */
  predicate FirstPlaced(ls: seq<seq<Event>>) {
    ls != [] && (ls[0] != [] <==> FirstFits(Flatten(ls)))
  }

  lemma {:induction false} NothingLogged(ls: seq<seq<Event>>)
    requires Flatten(ls) == []
    ensures forall i | 0 <= i < |ls| :: ls[i] == []
    decreases |ls|
  {
    if ls != [] {
      NothingLogged(ls[1..]);
      assert forall i | 1 <= i < |ls| :: ls[i] == ls[1..][i - 1];
    }
  }

  /** An event is logged last: in the last chunk if it fits, else in a new one. */
  function Logged(ls: seq<seq<Event>>, e: Event, fits: bool): seq<seq<Event>>
    requires ls != []
  {
    if fits then ls[|ls| - 1 := ls[|ls| - 1] + [e]] else ls + [[e]]
  }

  lemma Placed(ls: seq<seq<Event>>, e: Event, room: int)
    requires FirstPlaced(ls) && Storable(e) && forall i | 0 < i < |ls| :: ls[i] != []
    requires |ls| == 1 && ls[0] == [] ==> room == FIRST_ROOM
    ensures FirstPlaced(Logged(ls, e, Required(PayloadSize(e)) <= room))
    ensures Flatten(Logged(ls, e, Required(PayloadSize(e)) <= room)) == Flatten(ls) + [e]
  {
    FlattenUpdate(ls, e);
    FlattenEmpty(ls);
    FlattenUpdate(ls + [[]], e);
    assert [] + [e] == [e];
    assert (ls + [[]])[|ls| := [e]] == ls + [[e]];
    if Flatten(ls) == [] {
      NothingLogged(ls);
      assert [] + [e] == [e];
    } else if |ls| == 1 {
      assert Flatten(ls[1..]) == [];
    }
    hide Flatten, Required;
  }

  lemma LastLogged(ls: seq<seq<Event>>, ls': seq<seq<Event>>, e: Event)
    requires ls != [] && |ls'| == |ls| && ls'[|ls| - 1] == ls[|ls| - 1] + [e]
    requires forall i | 0 <= i < |ls| - 1 :: ls'[i] == ls[i]
    ensures ls' == Logged(ls, e, true)
  {
  }

  lemma LoggedNew(ls: seq<seq<Event>>, e: Event)
    requires ls != []
    ensures Logged(ls + [[]], e, true) == Logged(ls, e, false)
  {
    assert [] + [e] == [e];
    assert (ls + [[]])[|ls| := [e]] == ls + [[e]];
  }

  class Recording {
    const root: Chunk
    var current: Chunk
    ghost var chunks: seq<Chunk>

    constructor ()
      ensures Valid() && Events() == [] && forall c | c in chunks :: fresh(c) && fresh(c.memory)
    {
      root := new Chunk(0);
      current := root;
      chunks := [root];
      new;
      assert Logs(chunks) == [[]];
      assert Flatten([[]]) == [];
    }

    ghost predicate Valid()
      reads this, chunks, set c | c in chunks :: c.memory
    {
      Chained() && Filled(chunks) && root.size == MIN_SIZE && FirstPlaced(Logs(chunks))
    }

    ghost predicate Chained()
      reads this, chunks, set c | c in chunks :: c.memory
    {
      Linked(chunks) && chunks[0] == root && chunks[|chunks| - 1] == current
    }

    /** All events recorded, in order. */
    ghost function Events(): seq<Event>
      reads this, chunks
    {
      Flatten(Logs(chunks))
    }

    /** Room for the nodes of an event: in the current chunk, or in a new one when it does not fit. */
    method NodeNext(count: nat)
      requires Chained() && Filled(chunks) && count <= MAX_OBJECT
      modifies this`current, this`chunks, current`next
      ensures Chained() && Required(count) <= current.Room() && chunks != [] && Filled(chunks[..|chunks| - 1])
      ensures Logs(chunks)[|chunks| - 1] == current.events
      ensures chunks == old(chunks) <==> Required(count) <= old(current.Room())
      ensures chunks == old(chunks) || (chunks == old(chunks) + [current] && fresh(current) && fresh(current.memory))
      ensures Logs(chunks) == if chunks == old(chunks) then old(Logs(chunks)) else old(Logs(chunks)) + [[]]
    {
      hide Required, Chunk.Valid;
      RequiredBound(count);
      var required := Required(count);
      if required > current.Room() {
        NewChunk(required);
      }
    }

    /** A chunk with at least the required room behind the others. */
    method NewChunk(required: nat)
      requires Chained() && Filled(chunks) && required <= MAX_OBJECT + 4 * NODE_SIZE
      modifies this`current, this`chunks, current`next
      ensures Chained() && required <= current.Room() && chunks == old(chunks) + [current]
      ensures Filled(chunks[..|chunks| - 1]) && fresh(current) && fresh(current.memory)
      ensures current.events == [] && Logs(chunks) == old(Logs(chunks)) + [[]]
    {
      hide Chunk.Valid, Apart, Logs, Record;
      ghost var before := chunks;
      var bigger := new Chunk(required);
      ApartFromMore(before);
      current.next := bigger;
      current := bigger;
      chunks := chunks + [bigger];
      LinkedMore(before, bigger);
      assert chunks[..|chunks| - 1] == before;
      assert Logs(before) == old(Logs(chunks));
    }

    lemma FirstRoom()
      requires Valid()
      ensures |chunks| == 1 && Logs(chunks)[0] == [] ==> current.Room() == FIRST_ROOM
      ensures forall i | 0 < i < |chunks| :: Logs(chunks)[i] != []
    {
    }

    /** Logs an event in the current chunk. */
    method PutLast(e: Event)
      requires Chained() && Storable(e) && Required(PayloadSize(e)) <= current.Room()
      modifies current`count, current`events, current.memory
      ensures Chained() && Logs(chunks) == Logged(old(Logs(chunks)), e, true)
    {
      hide Required, Storable, Chunk.Valid, PayloadSize, Follow, Apart, Logged, Logs, Record;
      ghost var n, before := |chunks| - 1, Logs(chunks);
      current.Put(e);
      forall i | 0 <= i < n ensures chunks[i].Valid() && chunks[i].events == before[i] {
        ApartFromLast(chunks, i);
      }
      LastLogged(before, Logs(chunks), e);
    }

    /** Writes the nodes of an event where room has been made for them. */
    method Write(e: Event)
      requires Chained() && Filled(chunks[..|chunks| - 1]) && Storable(e) && Required(PayloadSize(e)) <= current.Room()
      modifies current`count, current`events, current.memory
      ensures Chained() && Filled(chunks)
      ensures Logs(chunks) == Logged(old(Logs(chunks)), e, true)
    {
      hide Required, Storable, PayloadSize, Linked, Logs;
      ghost var n, before := |chunks| - 1, Logs(chunks);
      assert forall i | 0 < i < n :: before[i] == chunks[..n][i].events;
      PutLast(e);
      assert forall i | 0 < i < |chunks| :: Logs(chunks)[i] != [];
    }

    /** Makes room for an event; logged in the current chunk it comes behind the others. */
    method MakeRoom(e: Event)
      requires Valid() && Storable(e)
      modifies this`current, this`chunks, current`next
      ensures Chained() && Required(PayloadSize(e)) <= current.Room() && Filled(chunks[..|chunks| - 1])
      ensures FirstPlaced(Logged(Logs(chunks), e, true)) && Flatten(Logged(Logs(chunks), e, true)) == old(Events()) + [e]
      ensures chunks == old(chunks) || (chunks == old(chunks) + [current] && fresh(current) && fresh(current.memory))
    {
      hide Record, Flatten, Required, Linked, FirstPlaced, FirstFits, PayloadSize, Filled;
      ghost var before, room := Logs(chunks), current.Room();
      FirstRoom();
      NodeNext(PayloadSize(e));
      LoggedNew(before, e);
      Placed(before, e, room);
    }

    /** Records an event. */
    method Add(e: Event)
      requires Valid() && Storable(e)
      modifies this`current, this`chunks, current, current.memory
      ensures Valid() && Events() == old(Events()) + [e]
      ensures chunks == old(chunks) || (chunks == old(chunks) + [current] && fresh(current) && fresh(current.memory))
    {
      hide Record, Flatten, Required, Linked, FirstPlaced, Logged, Storable, Filled, PayloadSize;
      MakeRoom(e);
      Write(e);
    }
  }

  lemma FlattenUpdate(ls: seq<seq<Event>>, e: Event)
    requires ls != []
    ensures var n := |ls| - 1; Flatten(ls[n := ls[n] + [e]]) == Flatten(ls) + [e]
  {
    var n := |ls| - 1;
    FlattenLast(ls[..n], ls[n], e);
    assert ls == ls[..n] + [ls[n]];
    assert ls[n := ls[n] + [e]] == ls[..n] + [ls[n] + [e]];
  }

  // ----- Replay -----

  /** What is left behind the first taken events of the log at. */
  function Rest(ls: seq<seq<Event>>, at: nat, taken: nat): seq<Event>
    requires at < |ls| && taken <= |ls[at]|
  {
    ls[at][taken..] + Flatten(ls[at + 1..])
  }

  lemma RestStep(ls: seq<seq<Event>>, at: nat, taken: nat)
    requires at < |ls| && taken <= |ls[at]|
    ensures taken < |ls[at]| ==> Rest(ls, at, taken) == [ls[at][taken]] + Rest(ls, at, taken + 1)
    ensures taken == |ls[at]| && at + 1 < |ls| ==> Rest(ls, at, taken) == Rest(ls, at + 1, 0)
    ensures taken == |ls[at]| && at + 1 == |ls| ==> Rest(ls, at, taken) == []
  {
    if taken < |ls[at]| {
      assert ls[at][taken..] == [ls[at][taken]] + ls[at][taken + 1..];
    } else if at + 1 < |ls| {
      assert ls[at + 1..][1..] == ls[at + 2..];
      assert ls[at + 1][0..] == ls[at + 1];
      assert Flatten(ls[at + 1..]) == ls[at + 1] + Flatten(ls[at + 2..]);
      assert [] + Flatten(ls[at + 1..]) == Flatten(ls[at + 1..]);
    }
  }

  lemma RestAll(ls: seq<seq<Event>>)
    requires ls != []
    ensures Rest(ls, 0, 0) == Flatten(ls)
  {
    assert ls[0][0..] == ls[0];
  }

  lemma RootFirst(recording: Recording)
    requires recording.Valid()
    ensures recording.chunks != [] && recording.chunks[0] == recording.root && recording.root.After(0) == HEADER
  {
    recording.root.Behind(0);
  }

  /** The offset o in the chunk h, which is the chunk k, is behind its first n events. */
  ghost predicate Within(recording: Recording, h: Chunk, o: nat, k: nat, n: nat)
    reads recording, recording.chunks
  {
    k < |recording.chunks| && h == recording.chunks[k] && n <= |h.events| && o == h.After(n)
  }

  /** The pull parser over a recording. */
  class Replay {
    const recording: Recording
    var hdr: Chunk
    var offset: nat
    ghost var at: nat
    ghost var taken: nat

    constructor (recording: Recording)
      requires recording.Valid()
      ensures Valid() && this.recording == recording && Left() == recording.Events()
    {
      RootFirst(recording);
      this.recording := recording;
      hdr, offset := recording.root, HEADER;
      at, taken := 0, 0;
      new;
      hide Linked, Filled, FirstPlaced, Flatten, Record, Chunk.Valid, Chunk.After;
      RestAll(Logs(recording.chunks));
    }

    ghost predicate Valid()
      reads this, recording, recording.chunks, set c | c in recording.chunks :: c.memory
    {
      recording.Valid() && Within(recording, hdr, offset, at, taken)
    }

    /** The events that have not been returned. */
    ghost function Left(): seq<Event>
      requires Valid()
      reads this, recording, recording.chunks, set c | c in recording.chunks :: c.memory
    {
      Rest(Logs(recording.chunks), at, taken)
    }

    /** The next event, or the end, and then the end for ever. */
    method ParseNext() returns (e: Option<Event>)
      requires Valid()
      modifies this
      ensures Valid() && recording.Events() == old(recording.Events())
      ensures e == if old(Left()) == [] then None else Some(old(Left())[0])
      ensures Left() == if old(Left()) == [] then [] else old(Left())[1..]
    {
      hide Flatten, Record, FirstPlaced, Linked, Filled, Rest, Chunk.Valid, Chunk.After;
      var h, o;
      ghost var k, n;
      e, h, o, k, n := Following(recording, hdr, offset, at, taken);
      hdr, offset, at, taken := h, o, k, n;
    }
  }

  /** The event behind a place, in its chunk or the next one, and the place behind that event. */
  method Following(recording: Recording, hdr: Chunk, offset: nat, ghost at: nat, ghost taken: nat)
    returns (e: Option<Event>, h: Chunk, o: nat, ghost k: nat, ghost n: nat)
    requires recording.Valid() && Within(recording, hdr, offset, at, taken)
    ensures Within(recording, h, o, k, n)
    ensures var rest := Rest(Logs(recording.chunks), at, taken);
      && e == (if rest == [] then None else Some(rest[0]))
      && Rest(Logs(recording.chunks), k, n) == if rest == [] then [] else rest[1..]
  {
    hide Flatten, Record, FirstPlaced, Linked, Filled, Rest, Chunk.Valid, Chunk.After;
    ghost var logs := Logs(recording.chunks);
    Member(recording, at);
    RestStep(logs, at, taken);
    hdr.Behind(taken);
    h, o, k, n := hdr, offset, at, taken;
    if o >= h.count {
      if h.next == null {
        return None, h, o, k, n;
      }
      Member(recording, at + 1);
      h, o, k, n := h.next, HEADER, at + 1, 0;
      h.Behind(0);
      RestStep(logs, k, n);
    }
    var x;
    x, o := h.Read(o, n);
    FirstOf(x, Rest(logs, k, n + 1));
    n := n + 1;
    e := Some(x);
  }

  lemma FirstOf(x: Event, rest: seq<Event>)
    ensures ([x] + rest)[0] == x && ([x] + rest)[1..] == rest && [x] + rest != []
  {
  }

  lemma RequiredBound(count: nat)
    requires count <= MAX_OBJECT
    ensures Required(count) < count + 3 * NODE_SIZE
  {
    SizeAligned(count + 2 * NODE_SIZE);
  }

  /** A place in the recording: behind the first taken events of the chunk at, or behind all of them. */
  ghost predicate Place(recording: Recording, hdr: Chunk?, offset: nat, at: nat, taken: nat, rest: seq<Event>)
    requires recording.Valid()
    reads recording, recording.chunks, set c | c in recording.chunks :: c.memory
  {
    if hdr == null then rest == []
    else
      && Within(recording, hdr, offset, at, taken) && (taken < |hdr.events| || (at == 0 && hdr.events == []))
      && rest == Rest(Logs(recording.chunks), at, taken)
  }

  /** The event at a place, and the place behind it, if the node there is one of an event. */
  method NextNode(recording: Recording, hdr: Chunk, offset: nat, ghost at: nat, ghost taken: nat, ghost rest: seq<Event>)
    returns (e: Option<Event>, hdr': Chunk?, offset': nat, ghost at': nat, ghost taken': nat)
    requires recording.Valid() && Place(recording, hdr, offset, at, taken, rest)
    ensures e.None? <==> at == 0 && recording.root.events == []
    ensures e.Some? ==> rest != [] && e.value == rest[0] && Place(recording, hdr', offset', at', taken', rest[1..])
    ensures e.Some? && hdr' != null ==> at' > 0 || taken' > 0
  {
    hide Flatten, Record, FirstPlaced, Linked;
    ghost var logs := Logs(recording.chunks);
    RestStep(logs, at, taken);
    Member(recording, at);
    hdr.Behind(taken);
    if !hdr.memory[(offset - HEADER) / NODE_SIZE].TypeSlot? {
      return None, hdr, offset, at, taken;
    }
    var x;
    x, offset' := hdr.Read(offset, taken);
    e := Some(x);
    hdr', offset', at', taken' := Advance(recording, hdr, offset', at, taken + 1, rest[1..]);
  }

  lemma Member(recording: Recording, at: nat)
    requires recording.Valid() && at < |recording.chunks|
    ensures var c := recording.chunks[at];
      && c.Valid() && (at == 0 ==> c == recording.root) && Logs(recording.chunks)[at] == c.events
      && (at > 0 ==> c.events != [])
      && c.next == if at + 1 < |recording.chunks| then recording.chunks[at + 1] else null
  {
  }

  /** On to the next chunk when one has been read. */
  method Advance(recording: Recording, hdr: Chunk, offset: nat, ghost at: nat, ghost taken: nat, ghost rest: seq<Event>)
    returns (hdr': Chunk?, offset': nat, ghost at': nat, ghost taken': nat)
    requires recording.Valid() && at < |recording.chunks| && hdr == recording.chunks[at]
    requires 0 < taken <= |hdr.events| && offset == hdr.After(taken) && rest == Rest(Logs(recording.chunks), at, taken)
    ensures Place(recording, hdr', offset', at', taken', rest) && (at' > 0 || taken' > 0)
  {
    hide Flatten, Record, FirstPlaced, Linked;
    Member(recording, at);
    RestStep(Logs(recording.chunks), at, taken);
    hdr.Behind(taken);
    hdr', offset', at', taken' := hdr, offset, at, taken;
    if offset >= hdr.count {
      offset' := HEADER;
      hdr' := hdr.next;
      at', taken' := at + 1, 0;
      if hdr' != null {
        Member(recording, at + 1);
        hdr'.Behind(0);
      }
    }
  }

  lemma StartPlace(recording: Recording)
    requires recording.Valid()
    ensures Place(recording, recording.root, HEADER, 0, 0, recording.Events())
    ensures recording.root.events == [] <==> !FirstFits(recording.Events())
  {
    recording.root.Behind(0);
    RestAll(Logs(recording.chunks));
  }

  /** Delivers the next of the events that are left. */
  method DeliverNext(g: Generator, e: Event, ghost rest: seq<Event>) returns (ok: bool)
    requires g.Valid() && rest != [] && e == rest[0] && g.HasRoom(rest)
    modifies g, g.stack, g.stack.data
    ensures g.Valid() && (ok ==> g.HasRoom(rest[1..]))
    ensures Give(old(g.State()), rest, g.stack.size) == if ok then Give(g.State(), rest[1..], g.stack.size) else g.State()
    ensures Takes(old(g.State()), rest, g.stack.size) == (ok && Takes(g.State(), rest[1..], g.stack.size))
  {
    hide E.CheckEvent, BitStack.Contents;
    GiveOne(g.State(), e, g.stack.size);
    ok := g.Deliver(e);
  }

  /**
   * The SAX parser over a recording. Where the first event lies in the first chunk it delivers the events, all of
   * them exactly when the generator takes them. Where the first chunk is empty it reads memory that was never
   * written: nothing is known of the result.
   */
  method DomParse(recording: Recording, g: Generator) returns (ok: bool)
    requires recording.Valid() && g.Valid() && forall c | c in recording.chunks :: (c.memory as object) != g.stack.data
    requires g.HasRoom(recording.Events())
    modifies g, g.stack, g.stack.data
    ensures g.Valid() && recording.Valid() && recording.Events() == old(recording.Events())
    ensures FirstFits(recording.Events()) ==>
      && g.State() == Give(old(g.State()), recording.Events(), g.stack.size)
      && ok == Takes(old(g.State()), recording.Events(), g.stack.size)
  {
    hide Place, Flatten, Record, FirstFits, Linked, FirstPlaced, Filled, BitStack.Contents, Room, Give, Takes;
    ghost var s0, size, all := g.State(), g.stack.size, recording.Events();
    ghost var at, taken, rest := 0, 0, all;
    StartPlace(recording);
    var hdr: Chunk? := recording.root;
    var offset := HEADER;
    ok := true;
    while hdr != null && ok
      invariant g.Valid() && recording.Valid() && recording.Events() == all
      invariant ok ==> Place(recording, hdr, offset, at, taken, rest) && g.HasRoom(rest)
      invariant Give(s0, all, size) == if ok then Give(g.State(), rest, size) else g.State()
      invariant Takes(s0, all, size) == (ok && Takes(g.State(), rest, size))
      invariant hdr != null ==> at > 0 || taken > 0 || ok
      decreases |rest|, ok
    {
      var e;
      e, hdr, offset, at, taken := NextNode(recording, hdr, offset, at, taken, rest);
      if e.None? {
        ok := *;
        return;
      }
      ok := DeliverNext(g, e.value, rest);
      rest := rest[1..];
    }
    if ok {
      EndPlace(recording, offset, at, taken, rest);
      GiveNothing(g.State(), size);
    }
  }

  lemma EndPlace(recording: Recording, offset: nat, at: nat, taken: nat, rest: seq<Event>)
    requires recording.Valid() && Place(recording, null, offset, at, taken, rest)
    ensures rest == []
  {
  }
}
