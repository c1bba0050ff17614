/** The table of process-wide single instances: linear probing from a hash of the GUID, filled
    by compare-and-swap and never emptied while it is in use. Threads are interleaved between
    any two accesses to a slot. */
module SingleTone {
  import opened Basics

  const MAX_INSTANCE := 512
  const WORD_SIZE := 0x1_0000

  /** A GUID is eight 16-bit words. */
  type Guid = words: seq<nat> | |words| == 8 witness [0, 0, 0, 0, 0, 0, 0, 0]

  /** `id` tells apart the objects that were created for one GUID. */
  datatype Instance = Instance(guid: Guid, id: int)

  type Table = slots: seq<Option<Instance>> | |slots| == MAX_INSTANCE witness seq(MAX_INSTANCE, _ => None)

  function Sum(words: seq<nat>): nat
  {
    if words == [] then 0 else Sum(words[..|words| - 1]) + words[|words| - 1]
  }

  /** The slot at a distance from the home slot of a GUID. */
  function SlotAt(guid: Guid, distance: nat): (slot: nat)
    ensures slot < MAX_INSTANCE
  {
    (Sum(guid) + distance) % MAX_INSTANCE
  }

  /** The hash adds the words up in 16 bits. */
  method CalculateHash(guid: Guid) returns (hash: nat)
    ensures hash == (guid[0] + guid[1] + guid[2] + guid[3] + guid[4] + guid[5] + guid[6] + guid[7]) % WORD_SIZE
    ensures hash % MAX_INSTANCE == SlotAt(guid, 0)
  {
    hash := 0;
    for i := 0 to 8
      invariant hash == Sum(guid[..i]) % WORD_SIZE
    {
      SumNext(guid, i);
      hash := (hash + guid[i]) % WORD_SIZE;
    }
    assert guid[..8] == guid;
    SumOfEight(guid);
  }

  lemma SumOfEight(guid: Guid)
    ensures Sum(guid) == guid[0] + guid[1] + guid[2] + guid[3] + guid[4] + guid[5] + guid[6] + guid[7]
  {
    SumNext(guid, 0);
    SumNext(guid, 1);
    SumNext(guid, 2);
    SumNext(guid, 3);
    SumNext(guid, 4);
    SumNext(guid, 5);
    SumNext(guid, 6);
    SumNext(guid, 7);
    assert guid[..8] == guid && guid[..0] == [];
  }

  lemma SumNext(guid: Guid, i: nat)
    requires i < 8
    ensures Sum(guid[..i + 1]) == Sum(guid[..i]) + guid[i]
  {
    assert guid[..i + 1][..i] == guid[..i];
  }

  // ---------- threads ----------

  /** What a thread is at: looking for a GUID, with the object that it will create if there is
      none (GetInstance) or without one (a plain query), or adding an object, `distance` slots
      from home; or the call has returned. */
  datatype Thread =
    | Idle
    | Looking(guid: Guid, distance: nat, own: Option<Instance>)
    | Adding(obj: Instance, distance: nat, get: bool)
    | Answered(guid: Guid, found: Option<Instance>)
    | Added(obj: Instance, ok: bool)
    | Got(mine: Instance, result: Instance)

  datatype System = System(slots: Table, threads: seq<Thread>)

  function Look(slots: Table, t: Thread): Thread
    requires t.Looking?
  {
    var slot := slots[SlotAt(t.guid, t.distance)];
    if slot.Some? && slot.value.guid == t.guid then
      if t.own.Some? then Got(t.own.value, slot.value) else Answered(t.guid, slot)
    else if slot.None? || t.distance + 1 == MAX_INSTANCE then
      if t.own.Some? then Adding(t.own.value, 0, true) else Answered(t.guid, None)
    else Looking(t.guid, t.distance + 1, t.own)
  }

  function Add(slots: Table, t: Thread): Thread
    requires t.Adding?
  {
    if slots[SlotAt(t.obj.guid, t.distance)].None? then (if t.get then Got(t.obj, t.obj) else Added(t.obj, true))
    else if t.distance + 1 == MAX_INSTANCE then (if t.get then Got(t.obj, t.obj) else Added(t.obj, false))
    else Adding(t.obj, t.distance + 1, t.get)
  }

  /** The compare-and-swap of a thread that adds an object. */
  function Swapped(slots: Table, t: Thread): (r: Table)
    requires t.Adding?
  {
    var slot := SlotAt(t.obj.guid, t.distance);
    if slots[slot].None? then slots[slot := Some(t.obj)] else slots
  }

  /** One access of thread `i` to the table. */
  function StepThread(s: System, i: nat): System
    requires i < |s.threads|
  {
    match s.threads[i]
    case Looking(_, _, _) => s.(threads := s.threads[i := Look(s.slots, s.threads[i])])
    case Adding(_, _, _) => System(Swapped(s.slots, s.threads[i]), s.threads[i := Add(s.slots, s.threads[i])])
    case _ => s
  }

  /** A thread between calls, or done with one, may start another. */
  datatype Event = Step(i: nat) | Query(i: nat, guid: Guid) | Register(i: nat, obj: Instance)
    | GetInstance(i: nat, own: Instance)

  predicate Busy(t: Thread)
  {
    t.Looking? || t.Adding?
  }

  function Next(s: System, e: Event): System
  {
    if e.i >= |s.threads| then s
    else if e.Step? then StepThread(s, e.i)
    else if Busy(s.threads[e.i]) then s
    else
      s.(threads := s.threads[e.i :=
        match e
        case Query(_, guid) => Looking(guid, 0, None)
        case Register(_, obj) => Adding(obj, 0, false)
        case GetInstance(_, own) => Looking(own.guid, 0, Some(own))
        case Step(_) => Idle])
  }

  function Run(s: System, events: seq<Event>): System
    decreases |events|
  {
    if events == [] then s else Run(Next(s, events[0]), events[1..])
  }

  // ---------- what every interleaving keeps ----------

  /** All slots from home up to the distance are taken, none by the GUID itself. */
  ghost predicate PassedBy(slots: Table, guid: Guid, distance: nat)
  {
    forall d: nat {:trigger SlotAt(guid, d)} | d < distance ::
      slots[SlotAt(guid, d)].Some? && slots[SlotAt(guid, d)].value.guid != guid
  }

  ghost predicate Taken(slots: Table, guid: Guid, distance: nat)
  {
    forall d: nat {:trigger SlotAt(guid, d)} | d < distance :: slots[SlotAt(guid, d)].Some?
  }

  /** The first object of a GUID that probing comes upon. */
  ghost predicate First(slots: Table, guid: Guid, distance: nat, obj: Instance)
  {
    && distance < MAX_INSTANCE && PassedBy(slots, guid, distance)
    && slots[SlotAt(guid, distance)] == Some(obj) && obj.guid == guid
  }

  ghost predicate IsFirst(slots: Table, guid: Guid, obj: Instance)
  {
    exists distance: nat :: First(slots, guid, distance, obj)
  }

  /** The distance at which a slot is probed. */
  function Distance(guid: Guid, slot: nat): nat
    requires slot < MAX_INSTANCE
  {
    (slot - SlotAt(guid, 0) + MAX_INSTANCE) % MAX_INSTANCE
  }

  lemma DistanceOfSlot(guid: Guid, slot: nat)
    requires slot < MAX_INSTANCE
    ensures Distance(guid, slot) < MAX_INSTANCE && SlotAt(guid, Distance(guid, slot)) == slot
  {
    var home, round := SlotAt(guid, 0), Sum(guid) / MAX_INSTANCE;
    assert Sum(guid) == MAX_INSTANCE * round + home;
    if slot >= home {
      assert Sum(guid) + Distance(guid, slot) == MAX_INSTANCE * round + slot;
    } else {
      assert Sum(guid) + Distance(guid, slot) == MAX_INSTANCE * (round + 1) + slot;
    }
  }

  lemma SlotOfDistance(guid: Guid, d: nat)
    requires d < MAX_INSTANCE
    ensures Distance(guid, SlotAt(guid, d)) == d
  {
  }

  /** Every object in the table is reached from its home slot without meeting a gap. */
  ghost predicate NoGaps(slots: Table)
  {
    forall slot: nat {:trigger slots[slot]} | slot < MAX_INSTANCE && slots[slot].Some? ::
      Taken(slots, slots[slot].value.guid, Distance(slots[slot].value.guid, slot))
  }

  ghost predicate ThreadOk(slots: Table, t: Thread)
  {
    match t
    case Looking(guid, distance, own) =>
      distance < MAX_INSTANCE && PassedBy(slots, guid, distance) && (own.Some? ==> own.value.guid == guid)
    case Adding(obj, distance, _) => distance < MAX_INSTANCE && Taken(slots, obj.guid, distance)
    case Answered(guid, found) => found.Some? ==> IsFirst(slots, guid, found.value)
    case Got(mine, result) => result == mine || IsFirst(slots, mine.guid, result)
    case _ => true
  }

  ghost predicate Sound(s: System)
  {
    && NoGaps(s.slots)
    && forall i {:trigger s.threads[i]} | 0 <= i < |s.threads| :: ThreadOk(s.slots, s.threads[i])
  }

  /** Slots that are taken stay as they are. */
  ghost predicate Grows(slots: Table, slots': Table)
  {
    forall slot: nat {:trigger slots[slot]} {:trigger slots'[slot]} | slot < MAX_INSTANCE && slots[slot].Some? ::
      slots'[slot] == slots[slot]
  }

  lemma NeverOverwritten(s: System, e: Event)
    ensures Grows(s.slots, Next(s, e).slots)
  {
  }

  lemma {:induction false} RunGrows(s: System, events: seq<Event>)
    ensures Grows(s.slots, Run(s, events).slots)
    decreases |events|
  {
    if events != [] {
      NeverOverwritten(s, events[0]);
      RunGrows(Next(s, events[0]), events[1..]);
    }
  }

  lemma FirstStays(slots: Table, slots': Table, guid: Guid, obj: Instance)
    requires Grows(slots, slots') && IsFirst(slots, guid, obj)
    ensures IsFirst(slots', guid, obj)
  {
    var d: nat :| First(slots, guid, d, obj);
    assert First(slots', guid, d, obj);
  }

  lemma OthersStay(slots: Table, slots': Table, t: Thread)
    requires Grows(slots, slots') && ThreadOk(slots, t)
    ensures ThreadOk(slots', t)
  {
    match t
    case Answered(guid, found) => if found.Some? { FirstStays(slots, slots', guid, found.value); }
    case Got(mine, result) => if result != mine { FirstStays(slots, slots', mine.guid, result); }
    case _ =>
  }

  lemma LookKeeps(slots: Table, t: Thread)
    requires t.Looking? && ThreadOk(slots, t)
    ensures ThreadOk(slots, Look(slots, t))
  {
    var slot := slots[SlotAt(t.guid, t.distance)];
    if slot.Some? && slot.value.guid == t.guid {
      assert First(slots, t.guid, t.distance, slot.value);
    }
  }

  lemma AddKeeps(slots: Table, t: Thread)
    requires t.Adding? && ThreadOk(slots, t) && NoGaps(slots)
    ensures ThreadOk(slots, Add(slots, t)) && NoGaps(Swapped(slots, t)) && Grows(slots, Swapped(slots, t))
  {
    var slots' := Swapped(slots, t);
    SlotOfDistance(t.obj.guid, t.distance);
    forall slot: nat | slot < MAX_INSTANCE && slots'[slot].Some?
      ensures Taken(slots', slots'[slot].value.guid, Distance(slots'[slot].value.guid, slot))
    {
      assert slots'[slot] == slots[slot] || slot == SlotAt(t.obj.guid, t.distance);
    }
  }

  lemma NextKeeps(s: System, e: Event)
    requires Sound(s)
    ensures Sound(Next(s, e))
  {
    var s' := Next(s, e);
    NeverOverwritten(s, e);
    if e.i < |s.threads| {
      var t := s.threads[e.i];
      if e.Step? && t.Looking? {
        LookKeeps(s.slots, t);
      }
      if e.Step? && t.Adding? {
        AddKeeps(s.slots, t);
        OthersStay(s.slots, s'.slots, Add(s.slots, t));
      }
      forall i | 0 <= i < |s'.threads| ensures ThreadOk(s'.slots, s'.threads[i]) {
        OthersStay(s.slots, s'.slots, s.threads[i]);
      }
    }
  }

  /** Under any interleaving: no gaps, and nothing that was registered is overwritten. */
  lemma {:induction false} RunKeeps(s: System, events: seq<Event>)
    requires Sound(s)
    ensures Sound(Run(s, events))
    decreases |events|
  {
    if events != [] {
      NextKeeps(s, events[0]);
      RunKeeps(Next(s, events[0]), events[1..]);
    }
  }

  lemma OneFirst(slots: Table, guid: Guid, a: Instance, b: Instance)
    requires IsFirst(slots, guid, a) && IsFirst(slots, guid, b)
    ensures a == b
  {
    var d: nat :| First(slots, guid, d, a);
    var e: nat :| First(slots, guid, e, b);
    assert SlotAt(guid, d) < MAX_INSTANCE && SlotAt(guid, e) < MAX_INSTANCE;
    assert d == e;
  }

  /** Two queries for one GUID that both succeed, whenever they run, return the same object. */
  lemma QueriesAgree(s: System, events: seq<Event>, later: seq<Event>, i: nat, j: nat)
    requires Sound(s) && i < |Run(s, events).threads| && j < |Run(Run(s, events), later).threads|
    requires var a, b := Run(s, events).threads[i], Run(Run(s, events), later).threads[j];
      a.Answered? && b.Answered? && a.guid == b.guid && a.found.Some? && b.found.Some?
    ensures Run(s, events).threads[i].found == Run(Run(s, events), later).threads[j].found
  {
    var s1 := Run(s, events);
    var s2 := Run(s1, later);
    RunKeeps(s, events);
    RunKeeps(s1, later);
    RunGrows(s1, later);
    var a, b := s1.threads[i], s2.threads[j];
    assert ThreadOk(s1.slots, a) && ThreadOk(s2.slots, b);
    FirstStays(s1.slots, s2.slots, a.guid, a.found.value);
    OneFirst(s2.slots, a.guid, a.found.value, b.found.value);
  }

  /** Whatever is in the table can be found: there is a first object of its GUID. */
  lemma {:induction false} HeldHasFirst(slots: Table, guid: Guid, distance: nat)
    requires distance < MAX_INSTANCE && Taken(slots, guid, distance)
    requires slots[SlotAt(guid, distance)].Some? && slots[SlotAt(guid, distance)].value.guid == guid
    ensures exists obj :: IsFirst(slots, guid, obj)
    decreases distance
  {
    if PassedBy(slots, guid, distance) {
      assert First(slots, guid, distance, slots[SlotAt(guid, distance)].value);
      assert IsFirst(slots, guid, slots[SlotAt(guid, distance)].value);
    } else {
      var d: nat :| d < distance && slots[SlotAt(guid, d)].value.guid == guid;
      HeldHasFirst(slots, guid, d);
    }
  }

  lemma RegisteredHasFirst(slots: Table, slot: nat)
    requires NoGaps(slots) && slot < MAX_INSTANCE && slots[slot].Some?
    ensures exists obj :: IsFirst(slots, slots[slot].value.guid, obj)
  {
    var guid := slots[slot].value.guid;
    DistanceOfSlot(guid, slot);
    HeldHasFirst(slots, guid, Distance(guid, slot));
  }

  /** The events give thread `i` its turns, but no new call. */
  predicate OnlySteps(events: seq<Event>, i: nat)
  {
    forall k :: 0 <= k < |events| && events[k].i == i ==> events[k].Step?
  }

  /** How a call that looks for a GUID that is there already can go on. */
  ghost predicate FindsIt(t: Thread, guid: Guid, own: Option<Instance>, obj: Instance)
  {
    || (t.Looking? && t.guid == guid && t.own == own)
    || t == (if own.Some? then Got(own.value, obj) else Answered(guid, Some(obj)))
  }

  /** A query, or a GetInstance, that is under way while the table has an object of its GUID
      ends with the first of them, however the other threads go on. */
  lemma {:induction false} LookingFinds(s: System, events: seq<Event>, i: nat, guid: Guid, own: Option<Instance>,
      obj: Instance)
    requires Sound(s) && i < |s.threads| && IsFirst(s.slots, guid, obj) && OnlySteps(events, i)
    requires FindsIt(s.threads[i], guid, own, obj)
    ensures i < |Run(s, events).threads| && FindsIt(Run(s, events).threads[i], guid, own, obj)
    decreases |events|
  {
    if events != [] {
      var s' := Next(s, events[0]);
      NextKeeps(s, events[0]);
      NeverOverwritten(s, events[0]);
      FirstStays(s.slots, s'.slots, guid, obj);
      if events[0].i == i && s.threads[i].Looking? {
        LookFinds(s.slots, s.threads[i], obj);
      }
      LookingFinds(s', events[1..], i, guid, own, obj);
    }
  }

  lemma LookFinds(slots: Table, t: Thread, obj: Instance)
    requires t.Looking? && ThreadOk(slots, t) && IsFirst(slots, t.guid, obj)
    ensures FindsIt(Look(slots, t), t.guid, t.own, obj)
  {
    var d: nat :| First(slots, t.guid, d, obj);
    assert d >= t.distance;
  }

  // ---------- what a registration stores ----------

  /** One step changes at most one slot, a free one: it takes the object of the thread that made the
      step, which has then added it. */
  lemma StoresOnlyItsOwn(s: System, e: Event)
    requires Next(s, e).slots != s.slots
    ensures e.Step? && e.i < |s.threads| && s.threads[e.i].Adding?
    ensures var t := s.threads[e.i];
      && s.slots[SlotAt(t.obj.guid, t.distance)].None?
      && Next(s, e).slots == s.slots[SlotAt(t.obj.guid, t.distance) := Some(t.obj)]
      && Next(s, e).threads[e.i] == if t.get then Got(t.obj, t.obj) else Added(t.obj, true)
  {
  }

  ghost predicate Full(slots: Table)
  {
    forall slot :: 0 <= slot < MAX_INSTANCE ==> slots[slot].Some?
  }

  lemma RoundIsFull(slots: Table, guid: Guid)
    requires Taken(slots, guid, MAX_INSTANCE)
    ensures Full(slots)
  {
    forall slot | 0 <= slot < MAX_INSTANCE ensures slots[slot].Some? {
      DistanceOfSlot(guid, slot);
    }
  }

  ghost predicate Stored(slots: Table, obj: Instance)
  {
    exists slot :: 0 <= slot < MAX_INSTANCE && slots[slot] == Some(obj)
  }

  /** How a call that adds an object can go on: it is under way; or it has ended, with the object in
      the table, or without it because the table is full. */
  ghost predicate Registers(slots: Table, t: Thread, obj: Instance, get: bool)
  {
    || (t.Adding? && t.obj == obj && t.get == get)
    || (Stored(slots, obj) && t == if get then Got(obj, obj) else Added(obj, true))
    || (Full(slots) && t == if get then Got(obj, obj) else Added(obj, false))
  }

  lemma AddRegisters(slots: Table, t: Thread)
    requires t.Adding? && ThreadOk(slots, t)
    ensures Registers(Swapped(slots, t), Add(slots, t), t.obj, t.get)
  {
    var slot := SlotAt(t.obj.guid, t.distance);
    if slots[slot].None? {
      assert Swapped(slots, t)[slot] == Some(t.obj);
    } else if t.distance + 1 == MAX_INSTANCE {
      RoundIsFull(slots, t.obj.guid);
    }
  }

  lemma RegistersStays(slots: Table, slots': Table, t: Thread, obj: Instance, get: bool)
    requires Grows(slots, slots') && Registers(slots, t, obj, get)
    ensures Registers(slots', t, obj, get)
  {
    assert forall slot: nat | slot < MAX_INSTANCE && slots[slot].Some? :: slots'[slot] == slots[slot];
    if Stored(slots, obj) {
      var slot: nat :| slot < MAX_INSTANCE && slots[slot] == Some(obj);
      assert slots'[slot] == Some(obj);
    }
  }

  /** However the other threads go on. */
  lemma {:induction false} RegistersOn(s: System, events: seq<Event>, i: nat, obj: Instance, get: bool)
    requires Sound(s) && i < |s.threads| && OnlySteps(events, i) && Registers(s.slots, s.threads[i], obj, get)
    ensures i < |Run(s, events).threads| && Registers(Run(s, events).slots, Run(s, events).threads[i], obj, get)
    decreases |events|
  {
    hide Registers, Sound;
    if events != [] {
      NextKeeps(s, events[0]);
      RegistersNext(s, events[0], i, obj, get);
      RegistersOn(Next(s, events[0]), events[1..], i, obj, get);
    }
  }

  lemma RegistersNext(s: System, e: Event, i: nat, obj: Instance, get: bool)
    requires Sound(s) && i < |s.threads| && (e.i == i ==> e.Step?) && Registers(s.slots, s.threads[i], obj, get)
    ensures i < |Next(s, e).threads| && Registers(Next(s, e).slots, Next(s, e).threads[i], obj, get)
  {
    var t := s.threads[i];
    if e.i == i && t.Adding? {
      assert ThreadOk(s.slots, t);
      AddRegisters(s.slots, t);
    } else {
      NeverOverwritten(s, e);
      RegistersStays(s.slots, Next(s, e).slots, t, obj, get);
    }
  }

  /** A registration ends with its object in the table, and reports so; or with a full table, and
      reports that. */
  lemma RegistrationStores(s: System, i: nat, obj: Instance, events: seq<Event>)
    requires Sound(s) && i < |s.threads| && !Busy(s.threads[i]) && OnlySteps(events, i)
    ensures var s' := Run(Next(s, Register(i, obj)), events);
      i < |s'.threads| && Registers(s'.slots, s'.threads[i], obj, false)
  {
    NextKeeps(s, Register(i, obj));
    RegistersOn(Next(s, Register(i, obj)), events, i, obj, false);
  }

  /** How a GetInstance can go on: it looks for the GUID; it has found another object, which is in
      the table; or it adds its own. */
  ghost predicate Obtains(slots: Table, t: Thread, own: Instance)
  {
    || (t.Looking? && t.guid == own.guid && t.own == Some(own))
    || (t.Got? && t.mine == own && IsFirst(slots, own.guid, t.result))
    || Registers(slots, t, own, true)
  }

  lemma ObtainsNext(s: System, e: Event, i: nat, own: Instance)
    requires Sound(s) && i < |s.threads| && (e.i == i ==> e.Step?) && Obtains(s.slots, s.threads[i], own)
    ensures i < |Next(s, e).threads| && Obtains(Next(s, e).slots, Next(s, e).threads[i], own)
  {
    var t := s.threads[i];
    NeverOverwritten(s, e);
    if Registers(s.slots, t, own, true) {
      RegistersNext(s, e, i, own, true);
    } else if e.i == i && t.Looking? {
      assert ThreadOk(s.slots, t);
      LookKeeps(s.slots, t);
      assert Next(s, e).threads[i] == Look(s.slots, t);
    } else if t.Got? {
      FirstStays(s.slots, Next(s, e).slots, own.guid, t.result);
    }
  }

  lemma {:induction false} ObtainsOn(s: System, events: seq<Event>, i: nat, own: Instance)
    requires Sound(s) && i < |s.threads| && OnlySteps(events, i) && Obtains(s.slots, s.threads[i], own)
    ensures i < |Run(s, events).threads| && Obtains(Run(s, events).slots, Run(s, events).threads[i], own)
    decreases |events|
  {
    hide Obtains, Sound;
    if events != [] {
      NextKeeps(s, events[0]);
      ObtainsNext(s, events[0], i, own);
      ObtainsOn(Next(s, events[0]), events[1..], i, own);
    }
  }

  /** A GetInstance returns an object that is in the table; its own, if that is not there, only when
      the table is full. */
  lemma GetInstanceStores(s: System, i: nat, own: Instance, events: seq<Event>)
    requires Sound(s) && i < |s.threads| && !Busy(s.threads[i]) && OnlySteps(events, i)
    ensures var s' := Run(Next(s, GetInstance(i, own)), events);
      i < |s'.threads| && Obtains(s'.slots, s'.threads[i], own)
  {
    NextKeeps(s, GetInstance(i, own));
    ObtainsOn(Next(s, GetInstance(i, own)), events, i, own);
  }

  // ---------- every call ends ----------

  /** The turns that a call may still need. */
  function Remaining(t: Thread): nat
  {
    match t
    case Looking(_, distance, own) =>
      (if distance < MAX_INSTANCE then MAX_INSTANCE - distance else 0) + if own.Some? then MAX_INSTANCE else 0
    case Adding(_, distance, _) => if distance < MAX_INSTANCE then MAX_INSTANCE - distance else 0
    case _ => 0
  }

  /** The turns that the events give to a thread. */
  function TurnsOf(events: seq<Event>, i: nat): nat
    decreases |events|
  {
    if events == [] then 0 else (if events[0] == Step(i) then 1 else 0) + TurnsOf(events[1..], i)
  }

  /** A call ends after at most 1024 turns of its thread, whatever the others do. */
  lemma {:induction false} CallsEnd(s: System, events: seq<Event>, i: nat)
    requires Sound(s) && i < |s.threads| && OnlySteps(events, i) && TurnsOf(events, i) >= Remaining(s.threads[i])
    ensures i < |Run(s, events).threads| && !Busy(Run(s, events).threads[i])
    decreases |events|
  {
    assert ThreadOk(s.slots, s.threads[i]);
    if events != [] {
      NextKeeps(s, events[0]);
      CallsEnd(Next(s, events[0]), events[1..], i);
    }
  }

  // ---------- an object of one's own ----------

  /** Only the call that has the object knows it. */
  ghost predicate Known(t: Thread, obj: Instance)
  {
    match t
    case Looking(_, _, own) => own == Some(obj)
    case Adding(o, _, _) => o == obj
    case _ => false
  }

  predicate Brings(e: Event, obj: Instance)
  {
    match e
    case Register(_, o) => o == obj
    case GetInstance(_, own) => own == obj
    case _ => false
  }

  ghost predicate OthersIgnore(s: System, events: seq<Event>, i: nat, obj: Instance)
  {
    && (forall j {:trigger s.threads[j]} | 0 <= j < |s.threads| && j != i :: !Known(s.threads[j], obj))
    && (forall k :: 0 <= k < |events| ==> !Brings(events[k], obj))
  }

  /** The object has one slot, once it is added, and none before; and none when the call has ended
      with a full table or with another object. */
  ghost predicate KeptOnce(slots: Table, t: Thread, obj: Instance)
  {
    if Known(t, obj) then !Stored(slots, obj)
    else if t == Added(obj, true) then StoredOnce(slots, obj)
    else if t == Added(obj, false) then Full(slots) && !Stored(slots, obj)
    else if t == Got(obj, obj) then StoredOnce(slots, obj) || (Full(slots) && !Stored(slots, obj))
    else t.Got? && t.mine == obj && t.result != obj && !Stored(slots, obj)
  }

  ghost predicate StoredOnce(slots: Table, obj: Instance)
  {
    exists slot :: 0 <= slot < MAX_INSTANCE && slots[slot] == Some(obj)
      && forall other :: 0 <= other < MAX_INSTANCE && slots[other] == Some(obj) ==> other == slot
  }

  lemma KeptOnceAdd(slots: Table, t: Thread)
    requires t.Adding? && ThreadOk(slots, t) && !Stored(slots, t.obj)
    ensures KeptOnce(Swapped(slots, t), Add(slots, t), t.obj)
  {
    var slot, slots' := SlotAt(t.obj.guid, t.distance), Swapped(slots, t);
    if slots[slot].None? {
      assert slots'[slot] == Some(t.obj);
      assert forall other | 0 <= other < MAX_INSTANCE && other != slot :: slots'[other] == slots[other];
      assert StoredOnce(slots', t.obj);
    } else if t.distance + 1 == MAX_INSTANCE {
      RoundIsFull(slots, t.obj.guid);
    }
  }

  lemma KeptOnceLook(slots: Table, t: Thread)
    requires t.Looking? && t.own.Some? && ThreadOk(slots, t) && !Stored(slots, t.own.value)
    ensures KeptOnce(slots, Look(slots, t), t.own.value)
  {
    assert slots[SlotAt(t.guid, t.distance)] != t.own;
  }

  /** Another object in a free slot does not change that. */
  lemma KeptOnceStays(slots: Table, slots': Table, t: Thread, obj: Instance)
    requires KeptOnce(slots, t, obj) && Grows(slots, slots')
    requires forall slot :: 0 <= slot < MAX_INSTANCE && slots'[slot] == Some(obj) ==> slots[slot] == Some(obj)
    ensures KeptOnce(slots', t, obj)
  {
    assert forall slot: nat | slot < MAX_INSTANCE && slots[slot].Some? :: slots'[slot] == slots[slot];
    if slot :| 0 <= slot < MAX_INSTANCE && slots[slot] == Some(obj) {
      assert slots'[slot] == Some(obj);
    }
  }

  lemma KeptOnceNext(s: System, e: Event, i: nat, obj: Instance)
    requires Sound(s) && i < |s.threads| && (e.i == i ==> e.Step?) && OthersIgnore(s, [e], i, obj)
    requires KeptOnce(s.slots, s.threads[i], obj)
    ensures i < |Next(s, e).threads| && KeptOnce(Next(s, e).slots, Next(s, e).threads[i], obj)
  {
    var t := s.threads[i];
    NeverOverwritten(s, e);
    if e.i == i && Busy(t) {
      assert ThreadOk(s.slots, t);
      if t.Adding? {
        KeptOnceAdd(s.slots, t);
      } else {
        KeptOnceLook(s.slots, t);
      }
    } else {
      if Next(s, e).slots != s.slots {
        StoresOnlyItsOwn(s, e);
      }
      KeptOnceStays(s.slots, Next(s, e).slots, t, obj);
    }
  }

  lemma IgnoreOn(s: System, e: Event, events: seq<Event>, i: nat, obj: Instance)
    requires OthersIgnore(s, [e] + events, i, obj)
    ensures OthersIgnore(s, [e], i, obj) && OthersIgnore(Next(s, e), events, i, obj)
  {
    var all := [e] + events;
    assert all[0] == e && forall k :: 0 <= k < |events| ==> events[k] == all[k + 1];
  }

  lemma {:induction false} KeptOnceOn(s: System, events: seq<Event>, i: nat, obj: Instance)
    requires Sound(s) && i < |s.threads| && OnlySteps(events, i) && OthersIgnore(s, events, i, obj)
    requires KeptOnce(s.slots, s.threads[i], obj)
    ensures i < |Run(s, events).threads| && KeptOnce(Run(s, events).slots, Run(s, events).threads[i], obj)
    decreases |events|
  {
    hide KeptOnce, Sound, OthersIgnore;
    if events != [] {
      assert [events[0]] + events[1..] == events;
      IgnoreOn(s, events[0], events[1..], i, obj);
      NextKeeps(s, events[0]);
      KeptOnceNext(s, events[0], i, obj);
      KeptOnceOn(Next(s, events[0]), events[1..], i, obj);
    }
  }

  /** An object that only one call has is in the table at most once, and exactly once behind a
      registration that reports success. */
  lemma OwnObjectOnce(s: System, start: Event, obj: Instance, events: seq<Event>)
    requires Sound(s) && start.i < |s.threads| && !Busy(s.threads[start.i]) && !Stored(s.slots, obj)
    requires start == Register(start.i, obj) || start == GetInstance(start.i, obj)
    requires OnlySteps(events, start.i) && OthersIgnore(s, events, start.i, obj)
    ensures var s' := Run(Next(s, start), events);
      start.i < |s'.threads| && KeptOnce(s'.slots, s'.threads[start.i], obj)
  {
    NextKeeps(s, start);
    KeptOnceOn(Next(s, start), events, start.i, obj);
  }

  // ---------- calls after a registration ----------

  lemma StoredHasFirst(slots: Table, obj: Instance)
    requires NoGaps(slots) && Stored(slots, obj)
    ensures exists first :: IsFirst(slots, obj.guid, first)
  {
    var slot: nat :| slot < MAX_INSTANCE && slots[slot] == Some(obj);
    RegisteredHasFirst(slots, slot);
  }

  /** Thread `k` registers the object, and reports success; what the others do meanwhile, and before,
      does not matter. */
  ghost predicate RegisteredIn(s: System, k: nat, obj: Instance, events: seq<Event>)
  {
    && Sound(s) && k < |s.threads| && !Busy(s.threads[k]) && OnlySteps(events, k)
    && k < |Run(Next(s, Register(k, obj)), events).threads|
    && Run(Next(s, Register(k, obj)), events).threads[k] == Added(obj, true)
  }

  lemma RegisteredIsStored(s: System, k: nat, obj: Instance, events: seq<Event>)
    requires RegisteredIn(s, k, obj, events)
    ensures var s' := Run(Next(s, Register(k, obj)), events);
      Sound(s') && Stored(s'.slots, obj) && exists first :: IsFirst(s'.slots, obj.guid, first)
  {
    RegistrationStores(s, k, obj, events);
    NextKeeps(s, Register(k, obj));
    RunKeeps(Next(s, Register(k, obj)), events);
    StoredHasFirst(Run(Next(s, Register(k, obj)), events).slots, obj);
  }

  /** A query that starts after a registration of its GUID has reported success finds an object. */
  lemma QueryAfterRegistration(s: System, k: nat, obj: Instance, before: seq<Event>, i: nat, events: seq<Event>)
    requires RegisteredIn(s, k, obj, before)
    requires var s' := Run(Next(s, Register(k, obj)), before); i < |s'.threads| && !Busy(s'.threads[i])
    requires OnlySteps(events, i)
    ensures var s' := Run(Next(s, Register(k, obj)), before);
      var t := Run(Next(s', Query(i, obj.guid)), events).threads;
      && i < |t| && (Busy(t[i]) || (t[i].Answered? && t[i].guid == obj.guid && t[i].found.Some?))
      && (TurnsOf(events, i) >= MAX_INSTANCE ==> !Busy(t[i]))
  {
    var s' := Run(Next(s, Register(k, obj)), before);
    RegisteredIsStored(s, k, obj, before);
    var first :| IsFirst(s'.slots, obj.guid, first);
    NextKeeps(s', Query(i, obj.guid));
    LookingFinds(Next(s', Query(i, obj.guid)), events, i, obj.guid, None, first);
    if TurnsOf(events, i) >= MAX_INSTANCE {
      CallsEnd(Next(s', Query(i, obj.guid)), events, i);
    }
  }

  /** So does a GetInstance, and then it does not create another object. */
  lemma GetInstanceAfterRegistration(s: System, k: nat, obj: Instance, before: seq<Event>, i: nat, own: Instance,
      events: seq<Event>)
    requires RegisteredIn(s, k, obj, before) && obj.guid == own.guid
    requires var s' := Run(Next(s, Register(k, obj)), before); i < |s'.threads| && !Busy(s'.threads[i])
    requires OnlySteps(events, i)
    ensures var s' := Run(Next(s, Register(k, obj)), before);
      var s'' := Run(Next(s', GetInstance(i, own)), events);
      && i < |s''.threads| && (Busy(s''.threads[i])
        || (s''.threads[i].Got? && IsFirst(s''.slots, own.guid, s''.threads[i].result)))
      && (TurnsOf(events, i) >= 2 * MAX_INSTANCE ==> !Busy(s''.threads[i]))
  {
    var s' := Run(Next(s, Register(k, obj)), before);
    RegisteredIsStored(s, k, obj, before);
    var first :| IsFirst(s'.slots, own.guid, first);
    var started := Next(s', GetInstance(i, own));
    NextKeeps(s', GetInstance(i, own));
    LookingFinds(started, events, i, own.guid, Some(own), first);
    RunGrows(started, events);
    FirstStays(started.slots, Run(started, events).slots, own.guid, first);
    if TurnsOf(events, i) >= 2 * MAX_INSTANCE {
      CallsEnd(started, events, i);
    }
  }

  const EMPTY: Table := seq(MAX_INSTANCE, _ => None)

  /** But two threads that both look before either has added its object end up with two
      instances of one GUID. */
  lemma GetInstanceRaces(a: Instance, b: Instance)
    requires a.guid == b.guid
    ensures var s := System(EMPTY, [Idle, Idle]);
      var events := [GetInstance(0, a), Step(0), GetInstance(1, b), Step(1), Step(0), Step(1), Step(1)];
      Sound(s) && Run(s, events).threads == [Got(a, a), Got(b, b)]
  {
    var s0 := System(EMPTY, [Idle, Idle]);
    var home, next := SlotAt(a.guid, 0), SlotAt(a.guid, 1);
    assert home != next;
    var s1 := System(EMPTY, [Looking(a.guid, 0, Some(a)), Idle]);
    var s2 := System(EMPTY, [Adding(a, 0, true), Idle]);
    var s3 := System(EMPTY, [Adding(a, 0, true), Looking(a.guid, 0, Some(b))]);
    var s4 := System(EMPTY, [Adding(a, 0, true), Adding(b, 0, true)]);
    var one: Table := EMPTY[home := Some(a)];
    var s5 := System(one, [Got(a, a), Adding(b, 0, true)]);
    var s6 := System(one, [Got(a, a), Adding(b, 1, true)]);
    var s7 := System(one[next := Some(b)], [Got(a, a), Got(b, b)]);
    assert Next(s0, GetInstance(0, a)) == s1 && Next(s1, Step(0)) == s2 && Next(s2, GetInstance(1, b)) == s3;
    assert Next(s3, Step(1)) == s4 && Next(s4, Step(0)) == s5 && Next(s5, Step(1)) == s6 && Next(s6, Step(1)) == s7;
    RunSeven(s0, GetInstance(0, a), Step(0), GetInstance(1, b), Step(1), Step(0), Step(1), Step(1));
  }

  lemma RunSeven(s: System, a: Event, b: Event, c: Event, d: Event, e: Event, f: Event, g: Event)
    ensures Run(s, [a, b, c, d, e, f, g]) == Next(Next(Next(Next(Next(Next(Next(s, a), b), c), d), e), f), g)
  {
    RunThree(s, a, b, c, [d, e, f, g]);
    var s3 := Next(Next(Next(s, a), b), c);
    assert [a, b, c] + [d, e, f, g] == [a, b, c, d, e, f, g];
    RunThree(s3, d, e, f, [g]);
    assert [d, e, f] + [g] == [d, e, f, g];
    var s6 := Next(Next(Next(s3, d), e), f);
    assert [g][1..] == [];
    assert Run(s6, [g]) == Next(s6, g);
  }

  lemma RunThree(s: System, a: Event, b: Event, c: Event, rest: seq<Event>)
    ensures Run(s, [a, b, c] + rest) == Run(Next(Next(Next(s, a), b), c), rest)
  {
    var all := [a, b, c] + rest;
    assert all[1..] == [b, c] + rest && all[1..][1..] == [c] + rest && all[1..][1..][1..] == rest;
    assert Run(s, all) == Run(Next(s, a), all[1..]);
    assert Run(Next(s, a), all[1..]) == Run(Next(Next(s, a), b), all[1..][1..]);
  }

  // ---------- when two calls of GetInstance agree ----------

  /** An object of the GUID is in the table. */
  ghost predicate Holds(slots: Table, guid: Guid)
  {
    exists slot: nat :: slot < MAX_INSTANCE && slots[slot].Some? && slots[slot].value.guid == guid
  }

  lemma {:induction false} RunJoined(s: System, a: seq<Event>, b: seq<Event>)
    ensures Run(s, a + b) == Run(Run(s, a), b)
    decreases |a|
  {
    if a == [] {
      assert a + b == b;
    } else {
      assert (a + b)[0] == a[0] && (a + b)[1..] == a[1..] + b;
      RunJoined(Next(s, a[0]), a[1..], b);
    }
  }

  /** The thread takes all the turns. */
  predicate Turns(events: seq<Event>, i: nat)
  {
    forall k :: 0 <= k < |events| ==> events[k] == Step(i)
  }

  /** A thread that looks for a GUID the table does not hold goes on to add its own object. */
  lemma {:induction false} LooksInVain(s: System, i: nat) returns (events: seq<Event>)
    requires Sound(s) && i < |s.threads| && s.threads[i].Looking? && s.threads[i].own.Some?
    requires !Holds(s.slots, s.threads[i].guid)
    ensures Turns(events, i)
    ensures Run(s, events) == s.(threads := s.threads[i := Adding(s.threads[i].own.value, 0, true)])
    decreases MAX_INSTANCE - s.threads[i].distance
  {
    var t := s.threads[i];
    var s' := Next(s, Step(i));
    assert ThreadOk(s.slots, t);
    NextKeeps(s, Step(i));
    var more := [];
    if s'.threads[i].Looking? {
      more := LooksInVain(s', i);
      assert s'.threads[i := Adding(t.own.value, 0, true)] == s.threads[i := Adding(t.own.value, 0, true)];
    }
    events := [Step(i)] + more;
    assert events[1..] == more;
  }

  /** A thread that adds its object gets that object back, even when the table is full. */
  lemma {:induction false} AddsItsOwn(s: System, i: nat) returns (events: seq<Event>)
    requires i < |s.threads| && s.threads[i].Adding? && s.threads[i].get && s.threads[i].distance < MAX_INSTANCE
    ensures Turns(events, i)
    ensures Run(s, events).threads == s.threads[i := Got(s.threads[i].obj, s.threads[i].obj)]
    decreases MAX_INSTANCE - s.threads[i].distance
  {
    var t := s.threads[i];
    var s' := Next(s, Step(i));
    var more := [];
    if s'.threads[i].Adding? {
      more := AddsItsOwn(s', i);
      assert s'.threads[i := Got(t.obj, t.obj)] == s.threads[i := Got(t.obj, t.obj)];
    }
    events := [Step(i)] + more;
    assert events[1..] == more;
  }

  /** Both threads have started GetInstance, with an object of their own. */
  function Started(s: System, i: nat, j: nat, a: Instance, b: Instance): System
  {
    Next(Next(s, GetInstance(i, a)), GetInstance(j, b))
  }

  /** The two threads can start, each with its own object of the same GUID. */
  ghost predicate Rivals(s: System, i: nat, j: nat, a: Instance, b: Instance)
  {
    && Sound(s) && i < |s.threads| && j < |s.threads| && i != j
    && !Busy(s.threads[i]) && !Busy(s.threads[j]) && a != b && a.guid == b.guid
  }

  /** However the calls go on: once both have ended, they have returned the same object. */
  ghost predicate Agree(s: System, i: nat, j: nat, a: Instance, b: Instance, events: seq<Event>)
    requires i < |s.threads| && j < |s.threads|
  {
    SameThreads(Started(s, i, j, a, b), events);
    var t := Run(Started(s, i, j, a, b), events).threads;
    OnlySteps(events, i) && OnlySteps(events, j) && t[i].Got? && t[j].Got? ==> t[i].result == t[j].result
  }

  lemma {:induction false} SameThreads(s: System, events: seq<Event>)
    ensures |Run(s, events).threads| == |s.threads|
    decreases |events|
  {
    if events != [] {
      SameThreads(Next(s, events[0]), events[1..]);
    }
  }

  lemma BothFind(s: System, i: nat, j: nat, a: Instance, b: Instance, events: seq<Event>)
    requires Rivals(s, i, j, a, b) && Holds(s.slots, a.guid)
    ensures Agree(s, i, j, a, b, events)
  {
    var slot: nat :| slot < MAX_INSTANCE && s.slots[slot].Some? && s.slots[slot].value.guid == a.guid;
    RegisteredHasFirst(s.slots, slot);
    var obj :| IsFirst(s.slots, a.guid, obj);
    NextKeeps(s, GetInstance(i, a));
    NextKeeps(Next(s, GetInstance(i, a)), GetInstance(j, b));
    if OnlySteps(events, i) && OnlySteps(events, j) {
      LookingFinds(Started(s, i, j, a, b), events, i, a.guid, Some(a), obj);
      LookingFinds(Started(s, i, j, a, b), events, j, a.guid, Some(b), obj);
    }
  }

  /** Where the GUID is not in the table, the two calls can both pass the query before either
      adds its object. */
  lemma BothAdd(s: System, i: nat, j: nat, a: Instance, b: Instance) returns (events: seq<Event>)
    requires Rivals(s, i, j, a, b) && !Holds(s.slots, a.guid)
    ensures !Agree(s, i, j, a, b, events)
  {
    var s0 := Started(s, i, j, a, b);
    NextKeeps(s, GetInstance(i, a));
    NextKeeps(Next(s, GetInstance(i, a)), GetInstance(j, b));
    var e1 := LooksInVain(s0, i);
    var s1 := Run(s0, e1);
    RunKeeps(s0, e1);
    var e2 := LooksInVain(s1, j);
    var s2 := Run(s1, e2);
    var e3 := AddsItsOwn(s2, i);
    var s3 := Run(s2, e3);
    var e4 := AddsItsOwn(s3, j);
    events := e1 + (e2 + (e3 + e4));
    RunJoined(s0, e1, e2 + (e3 + e4));
    RunJoined(s1, e2, e3 + e4);
    RunJoined(s2, e3, e4);
    assert Run(s0, events).threads[i] == Got(a, a) && Run(s0, events).threads[j] == Got(b, b);
  }

  /** Two calls of GetInstance for one GUID return the same object in every continuation
      exactly when the table holds an object of the GUID as they start. */
  lemma GetInstanceAgrees(s: System, i: nat, j: nat, a: Instance, b: Instance)
    requires Rivals(s, i, j, a, b)
    ensures (forall events :: Agree(s, i, j, a, b, events)) <==> Holds(s.slots, a.guid)
  {
    if Holds(s.slots, a.guid) {
      forall events ensures Agree(s, i, j, a, b, events) {
        BothFind(s, i, j, a, b, events);
      }
    } else {
      var events := BothAdd(s, i, j, a, b);
      assert !Agree(s, i, j, a, b, events);
    }
  }

  // ---------- the calls without interference ----------

  lemma NextSlot(guid: Guid, d: nat)
    requires d < MAX_INSTANCE
    ensures SlotAt(guid, d + 1) == (SlotAt(guid, d) + 1) % MAX_INSTANCE
    ensures SlotAt(guid, d + 1) == SlotAt(guid, 0) <==> d + 1 == MAX_INSTANCE
  {
  }

  /** The object went to the first free slot from its home on. */
  ghost predicate AddedAt(slots: Table, slots': Table, obj: Instance, d: nat)
  {
    && d < MAX_INSTANCE && Taken(slots, obj.guid, d) && slots[SlotAt(obj.guid, d)].None?
    && slots' == slots[SlotAt(obj.guid, d) := Some(obj)]
  }

  /** Nothing of a GUID lies behind a free slot, or behind a whole round. */
  lemma NotBehind(slots: Table, guid: Guid, d: nat)
    requires NoGaps(slots) && PassedBy(slots, guid, d)
    requires d >= MAX_INSTANCE || slots[SlotAt(guid, d)].None?
    ensures forall slot: nat :: slot < MAX_INSTANCE && slots[slot].Some? ==> slots[slot].value.guid != guid
  {
    forall slot: nat | slot < MAX_INSTANCE && slots[slot].Some?
      ensures slots[slot].value.guid != guid
    {
      DistanceOfSlot(guid, slot);
    }
  }

  class Manager {
    const instance: array<Option<Instance>>

    ghost function Slots(): (t: Table)
      requires instance.Length == MAX_INSTANCE
      reads instance
    {
      instance[..]
    }

    constructor ()
      ensures instance.Length == MAX_INSTANCE && fresh(instance) && Slots() == EMPTY && NoGaps(Slots())
    {
      instance := new Option<Instance>[MAX_INSTANCE](_ => None);
      new;
      assert instance[..] == EMPTY;
    }

    /** Takes the first free slot from home on, and fails only when the table is full. */
    method RegisterStInstance(obj: Instance) returns (ok: bool, ghost distance: nat)
      requires instance.Length == MAX_INSTANCE && NoGaps(Slots())
      modifies instance
      ensures NoGaps(Slots())
      ensures if ok then AddedAt(old(Slots()), Slots(), obj, distance) else Slots() == old(Slots()) && Full(Slots())
    {
      var hash := CalculateHash(obj.guid);
      var slot := hash % MAX_INSTANCE;
      distance := 0;
      while true
        invariant distance < MAX_INSTANCE && slot == SlotAt(obj.guid, distance)
        invariant Taken(Slots(), obj.guid, distance)
        invariant Slots() == old(Slots())
        decreases MAX_INSTANCE - distance
      {
        if instance[slot] == None {
          AddKeeps(Slots(), Adding(obj, distance, false));
          instance[slot] := Some(obj);
          return true, distance;
        }
        NextSlot(obj.guid, distance);
        slot := (slot + 1) % MAX_INSTANCE;
        distance := distance + 1;
        if slot == hash % MAX_INSTANCE {
          break;
        }
      }
      RoundIsFull(Slots(), obj.guid);
      return false, distance;
    }

    /** Finds the first object of the GUID, and nothing exactly when there is none. */
    method QueryStInstance(guid: Guid) returns (found: Option<Instance>)
      requires instance.Length == MAX_INSTANCE && NoGaps(Slots())
      ensures found.Some? ==> IsFirst(Slots(), guid, found.value)
      ensures found == None ==> forall slot: nat ::
        slot < MAX_INSTANCE && Slots()[slot].Some? ==> Slots()[slot].value.guid != guid
    {
      var hash := CalculateHash(guid);
      var slot := hash % MAX_INSTANCE;
      ghost var d: nat := 0;
      while true
        invariant d < MAX_INSTANCE && slot == SlotAt(guid, d) && PassedBy(Slots(), guid, d)
        decreases MAX_INSTANCE - d
      {
        if instance[slot] == None {
          break;
        }
        if instance[slot].value.guid == guid {
          assert First(Slots(), guid, d, instance[slot].value);
          return instance[slot];
        }
        NextSlot(guid, d);
        slot := (slot + 1) % MAX_INSTANCE;
        d := d + 1;
        if slot == hash % MAX_INSTANCE {
          break;
        }
      }
      NotBehind(Slots(), guid, d);
      return None;
    }
  }
}
