/**
 The single-stepping simulator: every access is announced before it happens, its
 effects are logged, and a failed instruction is rolled back.
 */
module RopMachine {
  import opened Wrappers
  import opened Bytes
  import opened Counting
  import opened RopMemory
  import opened RopEffects
  import opened RopSemantics

  datatype Flow = Normal | Return | Call | Jump | Branch | Syscall | Stop

  /** A decoded instruction: its bytes as fetched, and what the disassembler says of them. */
  datatype Decoded = Decoded(bytes: seq<Byte>, text: string, flow: Flow, repeats: bool)

  const MAX_INSTRUCTION_BYTES: nat := 15

  /** One row of the trace. */
  datatype Row = Row(address: nat, nextAddress: nat, spBefore: nat, spAfter: nat, bytes: seq<Byte>, text: string,
                     flow: Flow, completed: bool, registerChanges: seq<Change>, accesses: seq<Event>)

  /** The tracked registers: each name once, the two pointers among them. */
  ghost predicate NamesFit(names: seq<string>, pcName: string, spName: string) {
    Distinct(names) && pcName in names && spName in names
  }

  ghost predicate RegistersFit(names: seq<string>, registers: map<string, nat>) {
    registers.Keys == Elements(names) && WordsFit(registers)
  }

  ghost predicate EventsKnown(pages: map<nat, Page>, events: seq<Event>)
    requires PagesWellFormed(pages)
  {
    forall k :: 0 <= k < |events| ==> KnownRange(pages, events[k].address, |events[k].before|)
  }

  /** What the reader of a trace relies on for every logged access. */
  ghost predicate EventsBounded(events: seq<Event>, limit: nat, live: map<nat, Byte>) {
    forall k :: 0 <= k < |events| ==>
      && Present(live, events[k].address, |events[k].before|)
      && |events[k].before| == |events[k].after| <= MAX_ACCESS
      && events[k].address < WORD_LIMIT && events[k].address + |events[k].before| <= limit
  }

  /** What was logged was charged, and the charges kept within their limits. */
  ghost predicate Charged(pastBytes: nat, pastCount: nat, events: seq<Event>, eventBytes: nat, eventCount: nat) {
    && pastBytes + EventBytes(events) <= eventBytes && pastBytes + EventBytes(events) <= MAX_BYTES
    && pastCount + |events| <= eventCount && pastCount + |events| <= MAX_EVENTS
  }

  lemma ChargedMore(pastBytes: nat, pastCount: nat, events: seq<Event>, eventBytes: nat, eventCount: nat, e: Event)
    requires Charged(pastBytes, pastCount, events, eventBytes, eventCount)
    ensures Charged(pastBytes, pastCount, events, eventBytes + |e.before| * 2, eventCount + 1)
    ensures eventBytes + |e.before| * 2 <= MAX_BYTES && eventCount + 1 <= MAX_EVENTS ==>
              forall f: Event :: f.before == e.before ==>
                Charged(pastBytes, pastCount, events + [f], eventBytes + |e.before| * 2, eventCount + 1)
  {
    forall f: Event | f.before == e.before ensures EventBytes(events + [f]) == EventBytes(events) + |e.before| * 2 {
      EventBytesLast(events, f);
    }
  }

  lemma ChargedSame(pastBytes: nat, pastCount: nat, events: seq<Event>, index: nat, e: Event, eventBytes: nat,
                    eventCount: nat)
    requires Charged(pastBytes, pastCount, events, eventBytes, eventCount) && index < |events|
             && SameBefore(e, events[index])
    ensures Charged(pastBytes, pastCount, events[index := e], eventBytes, eventCount)
  {
    EventBytesSame(events[index := e], events);
  }

  lemma UpdateKeeps(pages: map<nat, Page>, events: seq<Event>, limit: nat, live: map<nat, Byte>, index: nat, e: Event)
    requires PagesWellFormed(pages) && EventsKnown(pages, events) && EventsBounded(events, limit, live)
             && index < |events|
    requires SameBefore(e, events[index]) && |e.after| == |e.before|
    ensures EventsKnown(pages, events[index := e]) && EventsBounded(events[index := e], limit, live)
  {
  }

  lemma LogKeeps(live: map<nat, Byte>, pages: map<nat, Page>, uc: map<nat, Byte>, simulated: map<nat, Byte>,
                 events: seq<Event>, limit: nat, e: Event)
    requires PagesWellFormed(pages) && EventsKnown(pages, events) && EventsBounded(events, limit, live)
    requires Consistent(live, pages, uc, simulated) && BytesAt(simulated, e.address, e.before)
    requires KnownRange(pages, e.address, |e.before|) && |e.before| == |e.after| <= MAX_ACCESS
    requires e.address < WORD_LIMIT && e.address + |e.before| <= limit
    ensures EventsKnown(pages, events + [e]) && EventsBounded(events + [e], limit, live)
  {
    BytesAreSlice(simulated, e.address, e.before);
  }

  ghost predicate RowReadable(row: Row, limit: nat, registerCount: nat, live: map<nat, Byte>) {
    && row.address < WORD_LIMIT && row.nextAddress < WORD_LIMIT
    && row.spBefore < WORD_LIMIT && row.spAfter < WORD_LIMIT
    && |row.bytes| <= MAX_INSTRUCTION_BYTES && |row.accesses| <= MAX_EVENTS && EventsBounded(row.accesses, limit, live)
    && |row.registerChanges| <= registerCount
    && forall k :: 0 <= k < |row.registerChanges| ==>
         row.registerChanges[k].before < WORD_LIMIT && row.registerChanges[k].after < WORD_LIMIT
  }

  class Machine {
    const memory: Memory
    const names: seq<string>
    const pcName: string
    const spName: string
    var registers: map<string, nat>
    var events: seq<Event>
    var eventBytes: nat
    var eventCount: nat
    ghost var pastBytes: nat
    ghost var pastCount: nat

    ghost predicate Valid()
      reads this, memory, memory.capture
    {
      && memory.Valid() && EventsKnown(memory.pages, events) && EventsBounded(events, memory.limit, memory.capture.live)
      && NamesFit(names, pcName, spName) && RegistersFit(names, registers) && pcName in registers && spName in registers
      && Charged(pastBytes, pastCount, events, eventBytes, eventCount)
    }

    constructor (memory: Memory, names: seq<string>, pcName: string, spName: string, registers: map<string, nat>)
      requires memory.Valid() && NamesFit(names, pcName, spName) && RegistersFit(names, registers)
      ensures Valid() && this.memory == memory && this.registers == registers && this.names == names
      ensures this.pcName == pcName && this.spName == spName && SpentBytes() == SpentCount() == 0
    {
      this.memory, this.names, this.pcName, this.spName := memory, names, pcName, spName;
      this.registers := registers;
      events, eventBytes, eventCount := [], 0, 0;
      pastBytes, pastCount := 0, 0;
    }

    /** Bytes and accesses logged since the start of the trace, rolled back or not. */
    ghost function SpentBytes(): nat
      reads this
    {
      pastBytes + EventBytes(events)
    }

    ghost function SpentCount(): nat
      reads this
    {
      pastCount + |events|
    }

    function Pc(): nat
      requires pcName in registers
      reads this
    {
      registers[pcName]
    }

    function Sp(): nat
      requires spName in registers
      reads this
    {
      registers[spName]
    }

    /** Make the range of an access known, if the access is permitted. */
    method EnsureAccess(access: Access) returns (failure: Option<Status>)
      requires Valid()
      modifies memory, memory.capture
      ensures Valid() && memory.simulated == old(memory.simulated) && KnowsMore(old(memory.pages), memory.pages)
      ensures memory.stackSlots == old(memory.stackSlots)
      ensures failure.None? ==>
                && memory.InRange(access.address, access.Size())
                && KnownRange(memory.pages, access.address, access.Size())
                && AccessPermitted(memory.regions, access)
      ensures failure.Some? ==>
                AccessRefused(access, failure.value, memory.capture.struck, memory.regions, memory.capture.live)
    {
      failure := memory.Ensure(access.address, access.Size(), access.Purpose());
    }

    /**
     The access hook: make the range known if it is permitted, log it, and capture the
     stack words it touches. It never changes the simulated memory.
     */
    method Announce(access: Access, windows: seq<(nat, nat)>) returns (failure: Option<Status>)
      requires Valid()
      modifies this`events, this`eventBytes, this`eventCount, memory, memory.capture
      ensures Valid() && memory.simulated == old(memory.simulated) && KnowsMore(old(memory.pages), memory.pages)
      ensures old(memory.stackSlots) <= memory.stackSlots
      ensures LogGrew(old(events), events, access, memory.simulated)
      ensures failure.None? ==>
                && events != old(events) && KnownRange(memory.pages, access.address, access.Size())
                && AccessPermitted(memory.regions, access) && Noticed(events[|events| - 1], windows)
      ensures failure.Some? ==>
                AccessRefused(access, failure.value, memory.capture.struck, memory.regions, memory.capture.live)
    {
      hide Consistent, PagesWellFormed, SlotsTrue, NamesFit, RegistersFit, EventsBounded, Permitted, WordsCaptured;
      failure := EnsureAccess(access);
      if failure.None? {
        failure := LogAccess(access, windows);
        if failure.None? && events[|events| - 1].stack {
          failure := memory.CaptureSlots(access.address, access.Size());
        }
      }
    }

    /** A logged access is marked as one of the stack exactly near it, and then its words are captured. */
    ghost predicate Noticed(e: Event, windows: seq<(nat, nat)>)
      requires spName in registers && memory.width > 0
      reads this, memory
    {
      && (e.stack <==> NearStack(e.address, |e.before|, registers[spName], memory.limit, windows))
      && Watched(e, memory.stackSlots, memory.width)
    }

    /** Charge an access against the limits of the trace and log the bytes it finds. */
    method LogAccess(access: Access, windows: seq<(nat, nat)>) returns (failure: Option<Status>)
      requires Valid() && memory.InRange(access.address, access.Size())
      requires KnownRange(memory.pages, access.address, access.Size())
      modifies `events, `eventBytes, `eventCount, memory.capture`struck
      ensures Valid() && LogGrew(old(events), events, access, memory.simulated)
      ensures failure.None? ==>
                && events != old(events)
                && events[|events| - 1].stack
                   == NearStack(access.address, access.Size(), registers[spName], memory.limit, windows)
      ensures failure.Some? ==>
                && failure.value == MemoryLimit && MemoryLimit in memory.capture.struck
                && (eventBytes > MAX_BYTES || eventCount > MAX_EVENTS)
    {
      hide Consistent, PagesWellFormed, SlotsTrue, NamesFit, RegistersFit, EventsKnown, EventsBounded, NearStack,
           Charged;
      KnownSlices(memory.capture.live, memory.pages, memory.uc, memory.simulated, access.address, access.Size());
      var before := Slice(memory.uc, access.address, access.Size());
      failure := Charge(before);
      if failure.Some? {
        return;
      }
      var stack := NearStack(access.address, access.Size(), registers[spName], memory.limit, windows);
      Log(Event(access.address, before, before, access.Store?, stack), access);
    }

    /** An access costs the bytes it finds and as many after it. */
    method Charge(before: seq<Byte>) returns (failure: Option<Status>)
      requires Valid()
      modifies `eventBytes, `eventCount, memory.capture`struck
      ensures Valid() && eventBytes == old(eventBytes) + |before| * 2 && eventCount == old(eventCount) + 1
      ensures failure.None? ==>
                forall f: Event :: f.before == before ==>
                  Charged(pastBytes, pastCount, events + [f], eventBytes, eventCount)
      ensures failure.Some? ==>
                && failure.value == MemoryLimit && MemoryLimit in memory.capture.struck
                && (eventBytes > MAX_BYTES || eventCount > MAX_EVENTS)
    {
      hide Consistent, PagesWellFormed, SlotsTrue, NamesFit, RegistersFit, EventsKnown, EventsBounded, Charged;
      ChargedMore(pastBytes, pastCount, events, eventBytes, eventCount, Event(0, before, before, false, false));
      eventBytes := eventBytes + |before| * 2;
      eventCount := eventCount + 1;
      if eventBytes > MAX_BYTES || eventCount > MAX_EVENTS {
        memory.capture.struck := memory.capture.struck + {MemoryLimit};
        return Some(MemoryLimit);
      }
      failure := None;
    }

    method Log(e: Event, ghost access: Access)
      requires Valid() && Logged(e, access, memory.simulated)
      requires KnownRange(memory.pages, e.address, |e.before|)
      requires |e.before| <= MAX_ACCESS && e.address < WORD_LIMIT && e.address + |e.before| <= memory.limit
      requires Charged(pastBytes, pastCount, events + [e], eventBytes, eventCount)
      modifies `events
      ensures Valid() && events == old(events) + [e]
      ensures LogGrew(old(events), events, access, memory.simulated)
    {
      hide Consistent, PagesWellFormed, SlotsTrue, NamesFit, RegistersFit, EventsKnown, EventsBounded, Charged;
      LogKeeps(memory.capture.live, memory.pages, memory.uc, memory.simulated, events, memory.limit, e);
      events := events + [e];
    }

    /** Announce an access and, unless it was refused, carry it out. */
    method Perform(access: Access, windows: seq<(nat, nat)>) returns (failure: Option<Status>)
      requires Valid()
      modifies this`events, this`eventBytes, this`eventCount, memory, memory.capture
      ensures Valid() && old(memory.stackSlots) <= memory.stackSlots
      ensures LogGrew(old(events), events, access, old(memory.simulated))
      ensures failure.None? ==>
                && events != old(events) && memory.simulated == Carried(old(memory.simulated), access)
                && AccessPermitted(memory.regions, access) && Noticed(events[|events| - 1], windows)
      ensures failure.Some? ==>
                && memory.simulated == old(memory.simulated)
                && AccessRefused(access, failure.value, memory.capture.struck, memory.regions, memory.capture.live)
      ensures Rewind(memory.simulated, events) == Rewind(old(memory.simulated), old(events))
      ensures Confined(old(memory.simulated), memory.simulated, events[|old(events)|..])
    {
      ghost var before, log := memory.simulated, events;
      failure := Announce(access, windows);
      LoggedRewinds(before, log, events, access);
      if failure.None? && access.Store? {
        memory.Store(access.address, access.data);
        StoredRewinds(before, log, events, access);
      }
    }

    /** Run the accesses of one iteration until one is refused. */
    method Emulate(accesses: seq<Access>, windows: seq<(nat, nat)>) returns (failure: Option<Status>)
      requires Valid()
      modifies this`events, this`eventBytes, this`eventCount, memory, memory.capture
      ensures Valid() && old(memory.stackSlots) <= memory.stackSlots
      ensures old(events) <= events
      ensures failure.None? ==>
                && EmulatedTo(old(memory.simulated), memory.simulated, accesses, old(events), events, memory.regions)
                && Noted(accesses, old(events), events, Sp(), Cpu(windows), memory.stackSlots)
      ensures failure.Some? ==>
                exists k: nat :: k < |accesses|
                  && AccessRefused(accesses[k], failure.value, memory.capture.struck, memory.regions,
                                   memory.capture.live)
      ensures Rewind(memory.simulated, events) == Rewind(old(memory.simulated), old(events))
      ensures Confined(old(memory.simulated), memory.simulated, events[|old(events)|..])
    {
      hide Consistent, PagesWellFormed, SlotsTrue, NamesFit, RegistersFit, EventsKnown, EventsBounded, Performed, LogOf,
           AllPermitted, Rewind, Confined, Announces, Noted, Watched, NearStack, AccessRefused;
      NothingEmulated(memory.simulated, events, memory.regions);
      NothingNoted(events, Sp(), Cpu(windows), memory.stackSlots);
      assert accesses[..0] == [];
      for i := 0 to |accesses|
        invariant Valid() && old(memory.stackSlots) <= memory.stackSlots
        invariant old(events) <= events
        invariant EmulatedTo(old(memory.simulated), memory.simulated, accesses[..i], old(events), events,
                             memory.regions)
        invariant Noted(accesses[..i], old(events), events, Sp(), Cpu(windows), memory.stackSlots)
        invariant Rewind(memory.simulated, events) == Rewind(old(memory.simulated), old(events))
        invariant Confined(old(memory.simulated), memory.simulated, events[|old(events)|..])
      {
        ghost var middle, log, slots := memory.simulated, events, memory.stackSlots;
        failure := Perform(accesses[i], windows);
        ConfinedChains(old(memory.simulated), middle, memory.simulated, old(events), log, events);
        if failure.Some? {
          return;
        }
        EmulatedOneMore(old(memory.simulated), middle, accesses[..i], accesses[i], old(events), log, events,
                        memory.regions);
        NotedOneMore(accesses[..i], accesses[i], old(events), log, events, middle, Sp(), Cpu(windows), slots,
                     memory.stackSlots);
        assert accesses[..i] + [accesses[i]] == accesses[..i + 1];
      }
      assert accesses[..|accesses|] == accesses;
      return None;
    }

    /** Give every store logged since `from` the bytes its range holds now. */
    method Finalize(from: nat)
      requires Valid() && from <= |events|
      modifies `events
      ensures Valid() && |events| == |old(events)| && events[..from] == old(events)[..from]
      ensures forall k :: 0 <= k < |events| ==> SameBefore(events[k], old(events)[k])
      ensures Finalized(memory.simulated, events[from..])
    {
      hide Consistent, PagesWellFormed, SlotsTrue, NamesFit, RegistersFit, EventsKnown, EventsBounded, Final, Finalized;
      NothingFinalized(memory.simulated, events, from);
      for index := from to |events|
        invariant Valid() && |events| == |old(events)| && events[..from] == old(events)[..from]
        invariant forall k :: 0 <= k < |events| ==> SameBefore(events[k], old(events)[k])
        invariant Finalized(memory.simulated, events[from..index])
      {
        ghost var log := events;
        var e := FinalEvent(index);
        ChargedSame(pastBytes, pastCount, events, index, e, eventBytes, eventCount);
        UpdateKeeps(memory.pages, events, memory.limit, memory.capture.live, index, e);
        events := events[index := e];
        FinalizedOneMore(memory.simulated, log, from, index, e);
      }
      WholeTail(events, from);
    }

    /** One logged event with the bytes its range holds now. */
    method FinalEvent(index: nat) returns (e: Event)
      requires Valid() && index < |events|
      ensures SameBefore(e, events[index]) && |e.after| == |e.before| && Final(memory.simulated, e)
    {
      e := events[index];
      if e.write {
        KnownSlices(memory.capture.live, memory.pages, memory.uc, memory.simulated, e.address, |e.before|);
        var after := Slice(memory.uc, e.address, |e.before|);
        BytesAreSlice(memory.simulated, e.address, after);
        e := e.(after := after);
      }
    }

    /** Undo every logged store, last one first. */
    method Rollback()
      requires Valid()
      modifies memory
      ensures Valid() && memory.simulated == Rewind(old(memory.simulated), events)
      ensures memory.stackSlots == old(memory.stackSlots)
    {
      hide Consistent, PagesWellFormed, SlotsTrue, NamesFit, RegistersFit, EventsBounded, Final;
      var k := |events|;
      assert events[..k] == events;
      while k > 0
        invariant 0 <= k <= |events| && Valid() && memory.stackSlots == old(memory.stackSlots)
        invariant Rewind(memory.simulated, events[..k]) == Rewind(old(memory.simulated), events)
      {
        k := k - 1;
        assert events[..k + 1][..k] == events[..k];
        var e := events[k];
        if e.write {
          memory.Store(e.address, e.before);
        }
      }
    }

    /**
     One iteration: its accesses, its outcome, and the final bytes of its stores.
     `done` are the accesses of the iterations before it.
     */
    method Iterate(it: Iteration, windows: seq<(nat, nat)>, ghost base: map<nat, Byte>, ghost done: seq<Access>)
      returns (failure: Option<Status>)
      requires Valid() && Accounted(base, memory.simulated, done, events) && AllPermitted(memory.regions, done)
      requires AllWatched(events, memory.stackSlots, memory.width)
      modifies `registers, `events, `eventBytes, `eventCount, memory, memory.capture
      ensures Valid() && old(memory.stackSlots) <= memory.stackSlots
      ensures Rewind(memory.simulated, events) == base
      ensures failure.None? ==>
                && it.fault.None? && Current() == Iterated(old(Current()), it)
                && Accounted(base, memory.simulated, done + it.accesses, events)
                && AllPermitted(memory.regions, done + it.accesses)
                && AllWatched(events, memory.stackSlots, memory.width)
                && Flags(events) == old(Flags(events)) + AccessMarks(it.accesses, old(Sp()), memory.limit, windows)
      ensures failure.Some? ==>
                && registers == old(registers)
                && IterationStops(it, failure.value, memory.capture.struck, memory.regions, memory.capture.live)
    {
      hide Consistent, PagesWellFormed, SlotsTrue, NamesFit, EventsBounded, Permitted, Performed, LogOf, Noted, Watched,
           AllWatched, AccessMarks, Flags, AccessRefused;
      var eventStart := |events|;
      ghost var before, log, slots := memory.simulated, events, memory.stackSlots;
      failure := Emulate(it.accesses, windows);
      if failure.Some? {
        return;
      }
      if it.fault.Some? {
        return it.fault;
      }
      registers := ReadBack(registers, it.registers);
      ghost var pending := events;
      Finalize(eventStart);
      IterationAccounted(base, before, memory.simulated, done, it.accesses, log, pending, events, memory.regions);
      IterationNoted(log, pending, events, it.accesses, old(Sp()), Cpu(windows), slots, memory.stackSlots);
    }

    /**
     Repeat the instruction until it stops repeating. The script of iterations runs
     dry only when the wall clock does.
     */
    method RunIterations(address: nat, repeats: bool, iterations: seq<Iteration>, windows: seq<(nat, nat)>)
      returns (failure: Option<Status>, ghost done: seq<Access>)
      requires Valid() && events == []
      modifies `registers, `events, `eventBytes, `eventCount, memory, memory.capture
      ensures Valid() && old(memory.stackSlots) <= memory.stackSlots
      ensures Rewind(memory.simulated, events) == old(memory.simulated)
      ensures failure.None? ==>
                && Retired(old(Current()), address, repeats, pcName, iterations) == Some(Outcome(Current(), done))
                && Accounted(old(memory.simulated), memory.simulated, done, events)
                && AllPermitted(memory.regions, done)
                && AllWatched(events, memory.stackSlots, memory.width)
                && Flags(events) == Marks(old(Current()), address, repeats, Cpu(windows), iterations)
      ensures failure.Some? ==>
                InstructionStops(old(Current()), address, repeats, iterations, failure.value, memory.capture.struck,
                                 Cpu(windows), memory.capture.live)
    {
      hide Consistent, PagesWellFormed, SlotsTrue, NamesFit, RegistersFit, EventsKnown, EventsBounded, Retired,
           Accounted, AllPermitted, AllWatched, Marks, Flags, IterationStops;
      var i, more := 0, true;
      done := [];
      PrecededByNone(Retired(Current(), address, repeats, pcName, iterations));
      NothingAccounted(memory.simulated, memory.regions);
      NothingFlagged(Marks(Current(), address, repeats, Cpu(windows), iterations), memory.stackSlots, memory.width);
      assert iterations[0..] == iterations;
      while i < |iterations|
        invariant 0 <= i <= |iterations| && Valid() && old(memory.stackSlots) <= memory.stackSlots
        invariant Rewind(memory.simulated, events) == old(memory.simulated)
        invariant Running(old(Current()), address, repeats, iterations, iterations[i..], windows, done)
      {
        failure := memory.capture.Check();
        if failure.Some? {
          return;
        }
        if i >= MAX_EVENTS {
          memory.capture.struck := memory.capture.struck + {MemoryLimit};
          return Some(MemoryLimit), done;
        }
        failure, more, done := RunOne(old(Current()), address, repeats, iterations, i, windows, done);
        if failure.Some? {
          return;
        }
        if !more {
          failure := memory.capture.Check();
          return;
        }
        i := i + 1;
      }
      RanDry(old(Current()), Current(), address, repeats, pcName, iterations, iterations[i..], done);
      return Some(Timeout), done;
    }

    /** After the accesses `done`, the iterations in `rest` decide what the instruction that began in `start` does. */
    ghost predicate Running(start: Machined, address: nat, repeats: bool, iterations: seq<Iteration>,
                            rest: seq<Iteration>, windows: seq<(nat, nat)>, done: seq<Access>)
      requires memory.width > 0
      reads this, memory
    {
      && AllWatched(events, memory.stackSlots, memory.width)
      && Marks(start, address, repeats, Cpu(windows), iterations)
         == Flags(events) + Marks(Current(), address, repeats, Cpu(windows), rest)
      && Accounted(start.simulated, memory.simulated, done, events) && AllPermitted(memory.regions, done)
      && Retired(start, address, repeats, pcName, iterations)
         == Preceded(done, Retired(Current(), address, repeats, pcName, rest))
    }

    method RunOne(ghost start: Machined, address: nat, repeats: bool, iterations: seq<Iteration>, i: nat,
                  windows: seq<(nat, nat)>, ghost done: seq<Access>)
      returns (failure: Option<Status>, more: bool, ghost grown: seq<Access>)
      requires i < |iterations| && Valid()
               && Running(start, address, repeats, iterations, iterations[i..], windows, done)
      modifies `registers, `events, `eventBytes, `eventCount, memory, memory.capture
      ensures Valid() && old(memory.stackSlots) <= memory.stackSlots
      ensures Rewind(memory.simulated, events) == start.simulated
      ensures failure.None? && more ==>
                Running(start, address, repeats, iterations, iterations[i + 1..], windows, grown)
      ensures failure.None? && !more ==>
                && Retired(start, address, repeats, pcName, iterations) == Some(Outcome(Current(), grown))
                && Accounted(start.simulated, memory.simulated, grown, events) && AllPermitted(memory.regions, grown)
                && AllWatched(events, memory.stackSlots, memory.width)
                && Flags(events) == Marks(start, address, repeats, Cpu(windows), iterations)
      ensures failure.Some? ==>
                IterationStops(iterations[i], failure.value, memory.capture.struck, memory.regions, memory.capture.live)
    {
      hide Consistent, PagesWellFormed, SlotsTrue, EventsKnown, EventsBounded, AllPermitted, Accounted, AllWatched,
           Marks, Flags, AccessMarks, IterationStops;
      ghost var s, flags := Current(), Flags(events);
      failure := Iterate(iterations[i], windows, start.simulated, done);
      more, grown := repeats && Pc() == address, done + iterations[i].accesses;
      if failure.None? {
        RetiredStep(s, address, repeats, pcName, iterations[i..], done);
        MarksStep(s, address, repeats, Cpu(windows), iterations[i..], flags);
        assert iterations[i..][1..] == iterations[i + 1..];
      }
    }

    /**
     Execute one instruction. On success its row replays to the new state and
     rewinds to the old one; on failure the machine is exactly as before.
     */
    method Step(decoded: Decoded, iterations: seq<Iteration>, windows: seq<(nat, nat)>)
      returns (result: Result<Row, Status>)
      requires Valid() && |decoded.bytes| <= MAX_INSTRUCTION_BYTES
      modifies this, memory, memory.capture
      ensures Valid() && old(memory.stackSlots) <= memory.stackSlots
      ensures SpentBytes() == old(SpentBytes()) + EventBytes(events) && SpentCount() == old(SpentCount()) + |events|
      ensures result.Success? ==> result.value.accesses == events
      ensures result.Success? ==>
                && Explains(result.value, old(Current()), Current(), pcName, spName)
                && Executes(result.value, old(Current()), Current(), decoded.repeats, iterations, Cpu(windows))
                && RowReadable(result.value, memory.limit, |names|, memory.capture.live)
                && AllWatched(result.value.accesses, memory.stackSlots, memory.width)
      ensures result.Success? ==>
                result.value.flow == decoded.flow && result.value.bytes == decoded.bytes
                    && result.value.text == decoded.text
      ensures result.Failure? ==>
                && Current() == old(Current())
                && InstructionStops(Current(), Pc(), decoded.repeats, iterations, result.error, memory.capture.struck,
                                    Cpu(windows), memory.capture.live)
    {
      hide Consistent, PagesWellFormed, SlotsTrue, LogOf, AllPermitted, Retired, Accounted, RegistersFit, Explains,
           Executes, RowReadable, AllWatched, Marks, Flags, InstructionStops;
      var address, before := Pc(), registers;
      pastBytes, pastCount := SpentBytes(), SpentCount();
      events := [];
      var failure;
      ghost var done;
      failure, done := RunIterations(address, decoded.repeats, iterations, windows);
      if failure.Some? {
        Rollback();
        registers := before;
        return Failure(failure.value);
      }
      NamesPresent(names, before, registers);
      var row := Row(address, Pc(), before[spName], Sp(), decoded.bytes, decoded.text, decoded.flow, true,
                     Changes(names, before, registers), events);
      RetiredRow(row, old(Current()), Current(), decoded.repeats, iterations, done, Cpu(windows), memory.limit,
                 memory.capture.live);
      result := Success(row);
    }

    /** The fixed parts of this machine, and the windows a recorder watches. */
    ghost function Cpu(windows: seq<(nat, nat)>): Processor {
      Processor(names, pcName, spName, memory.regions, memory.width, memory.limit, windows)
    }

    /**
     Fetch one byte at a time until the disassembler accepts what was fetched;
     `shape` is its verdict, None when no prefix is an instruction.
     */
    method Decode(shape: Option<Decoded>) returns (result: Result<Decoded, Status>)
      requires Valid() && (shape.Some? ==> 0 < |shape.value.bytes|)
      modifies memory, memory.capture
      ensures Valid() && Current() == old(Current()) && memory.stackSlots == old(memory.stackSlots)
      ensures result.Success? ==> Fetches(result.value, shape, Current(), pcName, memory.regions)
      ensures result.Failure? ==>
                FetchStops(shape, Pc(), result.error, memory.capture.struck, memory.regions, memory.capture.live)
    {
      hide Consistent, PagesWellFormed, SlotsTrue, NamesFit, RegistersFit, EventsBounded, Permitted, Refused;
      var raw: seq<Byte> := [];
      while |raw| < MAX_INSTRUCTION_BYTES
        invariant |raw| <= MAX_INSTRUCTION_BYTES && Valid() && Current() == old(Current())
        invariant memory.stackSlots == old(memory.stackSlots)
        invariant BytesAt(memory.simulated, Pc(), raw) && RangePermitted(memory.regions, Pc(), |raw|, Kind.Execute)
        invariant shape.Some? ==> |raw| < |shape.value.bytes|
        decreases MAX_INSTRUCTION_BYTES - |raw|
      {
        var fetched := memory.Read(Pc() + |raw|, 1, Kind.Execute);
        if fetched.Failure? {
          assert ByteRefused(Pc(), |raw|, fetched.error, memory.capture.struck, memory.regions, memory.capture.live);
          return Failure(fetched.error);
        }
        BytesJoin(memory.simulated, Pc(), raw, fetched.value);
        raw := raw + fetched.value;
        if shape.Some? && |shape.value.bytes| == |raw| {
          return Success(shape.value.(bytes := raw));
        }
      }
      return Failure(UnsupportedInstruction);
    }

    /** A return captures the slot it is about to pop. */
    method CaptureReturn(flow: Flow) returns (failure: Option<Status>)
      requires Valid()
      modifies memory, memory.capture
      ensures Valid() && Current() == old(Current()) && old(memory.stackSlots) <= memory.stackSlots
      ensures failure.None? && flow == Return ==> Slotted(memory.stackSlots, Sp())
      ensures failure.Some? ==> Halted(failure.value, memory.capture.struck)
    {
      failure := None;
      if flow == Return {
        var slot;
        slot, failure := memory.CaptureSlot(Sp());
      }
    }

    /** The synthetic return: capture the word it pops and load both pointers. */
    method PopReturn(stackAddress: nat) returns (failure: Option<Status>)
      requires Valid() && pcName != spName && stackAddress + memory.width <= memory.limit
      modifies `registers, memory, memory.capture
      ensures Valid() && memory.simulated == old(memory.simulated) && old(memory.stackSlots) <= memory.stackSlots
      ensures failure.None? ==>
                && Present(memory.capture.live, stackAddress, memory.width)
                && var popped := LittleEndian(Slice(memory.capture.live, stackAddress, memory.width));
                   registers == old(registers)[pcName := popped]
                                              [spName := (stackAddress + memory.width) % memory.limit]
      ensures failure.None? ==> Slotted(memory.stackSlots, stackAddress)
      ensures failure.Some? ==> registers == old(registers)
      ensures failure.Some? ==>
                || Halted(failure.value, memory.capture.struck)
                || (failure.value == InvalidRead
                    && (stackAddress !in old(memory.slots) ==> memory.Unreadable(stackAddress)))
    {
      hide Consistent, PagesWellFormed, SlotsTrue, RegistersFit, EventsBounded;
      var slot;
      slot, failure := memory.CaptureSlot(stackAddress);
      if failure.None? && !slot.readable {
        failure := Some(InvalidRead);
      }
      if failure.None? {
        PointersKeep(names, registers, pcName, slot.value);
        registers := registers[pcName := slot.value];
        PointersKeep(names, registers, spName, (stackAddress + memory.width) % memory.limit);
        registers := registers[spName := (stackAddress + memory.width) % memory.limit];
      }
    }

    ghost function Current(): Machined
      reads this, memory
    {
      Machined(registers, memory.simulated)
    }
  }

  /** An instruction as decoded: the disassembler's verdict on the executable bytes at the program counter. */
  ghost predicate Fetches(decoded: Decoded, shape: Option<Decoded>, at: Machined, pcName: string,
                          regions: seq<Region>) {
    && shape.Some? && |decoded.bytes| == |shape.value.bytes| && decoded == shape.value.(bytes := decoded.bytes)
    && 0 < |decoded.bytes| <= MAX_INSTRUCTION_BYTES && pcName in at.registers
    && BytesAt(at.simulated, at.registers[pcName], decoded.bytes)
    && RangePermitted(regions, at.registers[pcName], |decoded.bytes|, Kind.Execute)
  }

  /** No instruction within reach, or a byte of it that cannot be fetched. */
  ghost predicate FetchStops(shape: Option<Decoded>, address: nat, status: Status, struck: set<Status>,
                             regions: seq<Region>, live: map<nat, Byte>) {
    || (status == UnsupportedInstruction && (shape.Some? ==> MAX_INSTRUCTION_BYTES < |shape.value.bytes|))
    || exists k: nat :: k < FetchedBytes(shape) && ByteRefused(address, k, status, struck, regions, live)
  }

  function FetchedBytes(shape: Option<Decoded>): nat {
    if shape.Some? && |shape.value.bytes| < MAX_INSTRUCTION_BYTES then |shape.value.bytes| else MAX_INSTRUCTION_BYTES
  }

  ghost predicate ByteRefused(address: nat, k: nat, status: Status, struck: set<Status>, regions: seq<Region>,
                              live: map<nat, Byte>) {
    Refused(status, struck, regions, live, address + k, 1, Kind.Execute)
  }

  /**
   A row is exactly what its instruction does: the state after it is the one the
   scripted iterations lead to, its accesses are those they make, each permitted and
   marked by the stack pointer of its iteration, its register changes are the
   registers that differ, and it tells what the iterations wrote last.
   */
  ghost predicate Executes(row: Row, before: Machined, after: Machined, repeats: bool, iterations: seq<Iteration>,
                           cpu: Processor) {
    var outcome := Retired(before, row.address, repeats, cpu.pcName, iterations);
    && outcome.Some? && outcome.value.state == after
    && LogOf(before.simulated, outcome.value.accesses, row.accesses)
    && AllPermitted(cpu.regions, outcome.value.accesses)
    && Flags(row.accesses) == Marks(before, row.address, repeats, cpu, iterations)
    && ChangesBetween(row.registerChanges, cpu.names, before.registers, after.registers)
    && exists n: nat :: n <= |iterations| && Tells(row, before, after, repeats, iterations[..n], cpu)
  }

  /**
   Said of a row without carrying its iterations out: they run as `Ran` says, the row
   leads to the program counter and stack pointer they write last, and it logs their
   accesses one for one.
   */
  ghost predicate Tells(row: Row, before: Machined, after: Machined, repeats: bool, ran: seq<Iteration>,
                        cpu: Processor) {
    && Ran(before, row.address, repeats, cpu.pcName, ran, after)
    && LastWritten(cpu.pcName, row.address, ran, row.nextAddress)
    && LastWritten(cpu.spName, row.spBefore, ran, row.spAfter)
    && |row.accesses| == |Made(ran)|
    && forall k :: 0 <= k < |row.accesses| ==> LogsAccess(row.accesses[k], Made(ran)[k])
  }

  ghost predicate LogsAccess(e: Event, access: Access) {
    e.address == access.address && e.write == access.Store? && |e.before| == access.Size()
  }

  /** What the iterations of an instruction do is what its row tells. */
  lemma RetiredTells(row: Row, before: Machined, after: Machined, repeats: bool, iterations: seq<Iteration>,
                     cpu: Processor)
    requires RegistersFit(cpu.names, before.registers)
    requires cpu.pcName in before.registers && row.address == before.registers[cpu.pcName]
    requires cpu.spName in before.registers && row.spBefore == before.registers[cpu.spName]
    requires cpu.pcName in after.registers && row.nextAddress == after.registers[cpu.pcName]
    requires cpu.spName in after.registers && row.spAfter == after.registers[cpu.spName]
    requires var outcome := Retired(before, row.address, repeats, cpu.pcName, iterations);
             && outcome.Some? && outcome.value.state == after
             && LogOf(before.simulated, outcome.value.accesses, row.accesses)
    ensures exists n: nat :: n <= |iterations| && Tells(row, before, after, repeats, iterations[..n], cpu)
  {
    hide Retired, Made, LastWritten, BytesLeft, BackAt, Performed;
    var n := RetiredRan(before, row.address, repeats, cpu.pcName, iterations);
    var outcome := Retired(before, row.address, repeats, cpu.pcName, iterations).value;
    forall k | 0 <= k < |row.accesses| ensures LogsAccess(row.accesses[k], Made(iterations[..n])[k]) {
      assert Entry(before.simulated, outcome.accesses, row.accesses, k);
    }
    assert Tells(row, before, after, repeats, iterations[..n], cpu);
  }

  ghost predicate ChangesBetween(changes: seq<Change>, names: seq<string>, before: map<string, nat>,
                                 after: map<string, nat>) {
    && (forall i :: 0 <= i < |names| ==> names[i] in before && names[i] in after)
    && changes == Changes(names, before, after)
  }

  lemma NothingFinalized(m: map<nat, Byte>, events: seq<Event>, from: nat)
    requires from <= |events|
    ensures Finalized(m, events[from..from])
  {
  }

  lemma FinalizedOneMore(m: map<nat, Byte>, log: seq<Event>, from: nat, index: nat, e: Event)
    requires from <= index < |log| && Finalized(m, log[from..index]) && Final(m, e)
    ensures Finalized(m, log[index := e][from..index + 1]) && log[index := e][..from] == log[..from]
  {
    assert log[index := e][from..index + 1] == log[from..index] + [e];
  }

  lemma WholeTail(events: seq<Event>, from: nat)
    requires from <= |events|
    ensures events[from..|events|] == events[from..]
  {
  }

  /** A log and the accesses it is of lead from `base` to `now`, and back. */
  ghost predicate Accounted(base: map<nat, Byte>, now: map<nat, Byte>, accesses: seq<Access>, events: seq<Event>) {
    && now == Performed(base, accesses) && LogOf(base, accesses, events)
    && Rewind(now, events) == base && Replay(base, events) == now
  }

  /** The accesses of an iteration so far: carried out, logged after `log`, and permitted. */
  ghost predicate EmulatedTo(base: map<nat, Byte>, now: map<nat, Byte>, accesses: seq<Access>,
                             log: seq<Event>, events: seq<Event>, regions: seq<Region>) {
    && now == Performed(base, accesses) && log <= events && LogOf(base, accesses, events[|log|..])
    && AllPermitted(regions, accesses)
  }

  lemma NothingEmulated(m: map<nat, Byte>, log: seq<Event>, regions: seq<Region>)
    ensures EmulatedTo(m, m, [], log, log, regions) && Confined(m, m, log[|log|..])
  {
  }

  lemma NothingAccounted(m: map<nat, Byte>, regions: seq<Region>)
    ensures Accounted(m, m, [], []) && AllPermitted(regions, [])
  {
  }

  /**
   The accesses of an iteration so far, as logged: marked by the stack pointer, and the words of
   marked ones captured.
   */
  ghost predicate Noted(accesses: seq<Access>, log: seq<Event>, events: seq<Event>, sp: nat, cpu: Processor,
                        slots: seq<Slot>)
    requires cpu.width > 0
  {
    && log <= events && Flags(events[|log|..]) == AccessMarks(accesses, sp, cpu.limit, cpu.windows)
    && AllWatched(events[|log|..], slots, cpu.width)
  }

  lemma NothingNoted(log: seq<Event>, sp: nat, cpu: Processor, slots: seq<Slot>)
    requires cpu.width > 0
    ensures Noted([], log, log, sp, cpu, slots)
  {
  }

  lemma NothingFlagged(marks: seq<bool>, slots: seq<Slot>, width: nat)
    requires width > 0
    ensures AllWatched([], slots, width) && marks == Flags([]) + marks
  {
  }

  lemma NotedOneMore(accesses: seq<Access>, access: Access, start: seq<Event>, log: seq<Event>, events: seq<Event>,
                     m: map<nat, Byte>, sp: nat, cpu: Processor, before: seq<Slot>, after: seq<Slot>)
    requires cpu.width > 0 && Noted(accesses, start, log, sp, cpu, before) && before <= after
    requires LogGrew(log, events, access, m) && events != log
    requires var e := events[|events| - 1];
             (e.stack <==> NearStack(e.address, |e.before|, sp, cpu.limit, cpu.windows)) && Watched(e, after, cpu.width)
    ensures Noted(accesses + [access], start, events, sp, cpu, after)
  {
    var e := events[|log|];
    assert events == log + [e];
    WatchedStay(log[|start|..], before, after, cpu.width);
    assert events[|start|..] == log[|start|..] + [e];
    FlagsJoin(log[|start|..], [e]);
    assert AccessMarks(accesses + [access], sp, cpu.limit, cpu.windows)
        == AccessMarks(accesses, sp, cpu.limit, cpu.windows) + [e.stack];
    assert Flags([e]) == [e.stack];
  }

  /** Finalizing changes no mark, and captured words stay captured. */
  lemma IterationNoted(log: seq<Event>, pending: seq<Event>, events: seq<Event>, accesses: seq<Access>, sp: nat,
                       cpu: Processor, before: seq<Slot>, after: seq<Slot>)
    requires cpu.width > 0 && AllWatched(log, before, cpu.width) && before <= after
    requires Noted(accesses, log, pending, sp, cpu, after) && |events| == |pending|
    requires forall k :: 0 <= k < |events| ==> SameBefore(events[k], pending[k])
    ensures Flags(events) == Flags(log) + AccessMarks(accesses, sp, cpu.limit, cpu.windows)
    ensures AllWatched(events, after, cpu.width)
  {
    WatchedStay(log, before, after, cpu.width);
    assert pending == log + pending[|log|..];
    FlagsJoin(log, pending[|log|..]);
    forall k | 0 <= k < |events| ensures events[k].stack == pending[k].stack && Watched(events[k], after, cpu.width) {
      assert SameBefore(events[k], pending[k]);
      if k < |log| {
        assert Watched(log[k], after, cpu.width);
      } else {
        assert Watched(pending[|log|..][k - |log|], after, cpu.width);
      }
    }
    assert Flags(events) == Flags(pending);
  }

  /** What one more iteration adds to the marks so far. */
  lemma MarksStep(s: Machined, address: nat, repeats: bool, cpu: Processor, iterations: seq<Iteration>,
                  flags: seq<bool>)
    requires iterations != [] && iterations[0].fault.None? && cpu.spName in s.registers
    ensures var next := Iterated(s, iterations[0]);
            var more := flags + AccessMarks(iterations[0].accesses, s.registers[cpu.spName], cpu.limit, cpu.windows);
            flags + Marks(s, address, repeats, cpu, iterations) ==
            if Loops(next, address, repeats, cpu.pcName) then
              more + Marks(next, address, repeats, cpu, iterations[1..]) else more
  {
    var next := Iterated(s, iterations[0]);
    var own := AccessMarks(iterations[0].accesses, s.registers[cpu.spName], cpu.limit, cpu.windows);
    if Loops(next, address, repeats, cpu.pcName) {
      assert flags + (own + Marks(next, address, repeats, cpu, iterations[1..]))
          == (flags + own) + Marks(next, address, repeats, cpu, iterations[1..]);
    } else {
      assert own + [] == own;
    }
  }

  /** When the script of iterations is used up, it never led to an end of the instruction. */
  lemma RanDry(start: Machined, now: Machined, address: nat, repeats: bool, pcName: string, iterations: seq<Iteration>,
               rest: seq<Iteration>, done: seq<Access>)
    requires Retired(start, address, repeats, pcName, iterations)
             == Preceded(done, Retired(now, address, repeats, pcName, rest))
    requires rest == []
    ensures Retired(start, address, repeats, pcName, iterations) == None
  {
  }

  lemma EmulatedOneMore(base: map<nat, Byte>, middle: map<nat, Byte>, accesses: seq<Access>, access: Access,
                        start: seq<Event>, log: seq<Event>, events: seq<Event>, regions: seq<Region>)
    requires EmulatedTo(base, middle, accesses, start, log, regions) && AccessPermitted(regions, access)
    requires LogGrew(log, events, access, middle) && events != log
    ensures EmulatedTo(base, Carried(middle, access), accesses + [access], start, events, regions)
  {
    PerformedLast(base, accesses, access);
    LogOfLast(base, accesses, log[|start|..], access, events[|log|]);
    assert events == log + [events[|log|]];
    assert events[|start|..] == log[|start|..] + [events[|log|]];
  }

  /** Finalizing an iteration keeps the account of its accesses. */
  lemma IterationAccounted(base: map<nat, Byte>, before: map<nat, Byte>, after: map<nat, Byte>, done: seq<Access>,
                           accesses: seq<Access>, log: seq<Event>, pending: seq<Event>, events: seq<Event>,
                           regions: seq<Region>)
    requires Accounted(base, before, done, log) && AllPermitted(regions, done)
    requires EmulatedTo(before, after, accesses, log, pending, regions)
    requires |events| == |pending| && events[..|log|] == log
    requires forall k :: 0 <= k < |events| ==> SameBefore(events[k], pending[k])
    requires Confined(before, after, pending[|log|..]) && Finalized(after, events[|log|..])
    requires Rewind(after, pending) == base
    ensures Accounted(base, after, done + accesses, events) && AllPermitted(regions, done + accesses)
  {
    IterationReplays(base, before, after, log, pending, events);
    PerformedConcat(base, done, accesses);
    LogOfConcat(base, done, accesses, log, pending[|log|..]);
    assert log + pending[|log|..] == pending;
    LogOfSame(base, done + accesses, pending, events);
  }

  lemma PrecededByNone(outcome: Option<Outcome>)
    ensures Preceded([], outcome) == outcome
  {
    if outcome.Some? {
      assert [] + outcome.value.accesses == outcome.value.accesses;
    }
  }

  /** What one more iteration adds to the accesses done so far. */
  lemma RetiredStep(s: Machined, address: nat, repeats: bool, pcName: string, iterations: seq<Iteration>,
                    done: seq<Access>)
    requires iterations != [] && iterations[0].fault.None?
    ensures var next := Iterated(s, iterations[0]);
            Preceded(done, Retired(s, address, repeats, pcName, iterations)) ==
            if Loops(next, address, repeats, pcName) then
              Preceded(done + iterations[0].accesses, Retired(next, address, repeats, pcName, iterations[1..]))
            else Some(Outcome(next, done + iterations[0].accesses))
  {
    PrecededTwice(done, iterations[0].accesses,
                  Retired(Iterated(s, iterations[0]), address, repeats, pcName, iterations[1..]));
  }

  /** A completed row carries one state to the next, and back. */
  ghost predicate Explains(row: Row, before: Machined, after: Machined, pcName: string, spName: string) {
    && row.completed
    && pcName in before.registers && row.address == before.registers[pcName]
    && pcName in after.registers && row.nextAddress == after.registers[pcName]
    && spName in before.registers && row.spBefore == before.registers[spName]
    && spName in after.registers && row.spAfter == after.registers[spName]
    && Replay(before.simulated, row.accesses) == after.simulated
    && Rewind(after.simulated, row.accesses) == before.simulated
    && Applied(before.registers, row.registerChanges) == after.registers
    && Reverted(after.registers, row.registerChanges) == before.registers
  }

  lemma NamesPresent(names: seq<string>, before: map<string, nat>, after: map<string, nat>)
    requires RegistersFit(names, before) && RegistersFit(names, after)
    ensures forall i :: 0 <= i < |names| ==> names[i] in before && names[i] in after
  {
    assert forall i :: 0 <= i < |names| ==> names[i] in Elements(names);
  }

  /** The row of a retired instruction: it explains the step, and is exactly what the script did. */
  lemma RetiredRow(row: Row, before: Machined, after: Machined, repeats: bool, iterations: seq<Iteration>,
                   done: seq<Access>, cpu: Processor, limit: nat, live: map<nat, Byte>)
    requires RegistersFit(cpu.names, before.registers) && RegistersFit(cpu.names, after.registers)
    requires NamesFit(cpu.names, cpu.pcName, cpu.spName)
    requires cpu.pcName in before.registers && cpu.spName in before.registers
    requires cpu.pcName in after.registers && cpu.spName in after.registers
    requires row.completed && row.address == before.registers[cpu.pcName]
             && row.nextAddress == after.registers[cpu.pcName]
    requires row.spBefore == before.registers[cpu.spName] && row.spAfter == after.registers[cpu.spName]
    requires forall i :: 0 <= i < |cpu.names| ==> cpu.names[i] in before.registers && cpu.names[i] in after.registers
    requires row.registerChanges == Changes(cpu.names, before.registers, after.registers)
    requires Retired(before, row.address, repeats, cpu.pcName, iterations) == Some(Outcome(after, done))
    requires Accounted(before.simulated, after.simulated, done, row.accesses) && AllPermitted(cpu.regions, done)
    requires Flags(row.accesses) == Marks(before, row.address, repeats, cpu, iterations)
    requires EventsBounded(row.accesses, limit, live) && |row.accesses| <= MAX_EVENTS
             && |row.bytes| <= MAX_INSTRUCTION_BYTES
    ensures Explains(row, before, after, cpu.pcName, cpu.spName)
    ensures Executes(row, before, after, repeats, iterations, cpu) && RowReadable(row, limit, |cpu.names|, live)
  {
    ChangesRoundTrip(cpu.names, before.registers, after.registers);
    ChangesFit(cpu.names, before.registers, after.registers, WORD_LIMIT);
    RetiredTells(row, before, after, repeats, iterations, cpu);
  }

  lemma ChangesRoundTrip(names: seq<string>, before: map<string, nat>, after: map<string, nat>)
    requires before.Keys == after.Keys == Elements(names) && Distinct(names)
    ensures forall i :: 0 <= i < |names| ==> names[i] in before
    ensures Applied(before, Changes(names, before, after)) == after
    ensures Reverted(after, Changes(names, before, after)) == before
  {
    assert forall i :: 0 <= i < |names| ==> names[i] in Elements(names);
    ChangesApply(names, before, after);
    assert forall n :: n in before ==> n in names by {
      assert forall n :: n in Elements(names) ==> n in names;
    }
    assert Mixed(Elements(names), before, after) == after;
  }

  lemma PointersKeep(names: seq<string>, registers: map<string, nat>, name: string, value: nat)
    requires RegistersFit(names, registers) && name in names && value < WORD_LIMIT
    ensures RegistersFit(names, registers[name := value])
  {
    assert name in Elements(names);
  }

  /** Finalizing an iteration turns its log into one that replays, and loses no undo. */
  lemma IterationReplays(base: map<nat, Byte>, before: map<nat, Byte>, after: map<nat, Byte>,
                         log: seq<Event>, pending: seq<Event>, events: seq<Event>)
    requires Replay(base, log) == before && |log| <= |events| == |pending|
    requires events[..|log|] == log
    requires forall k :: 0 <= k < |events| ==> SameBefore(events[k], pending[k])
    requires Confined(before, after, pending[|log|..]) && Finalized(after, events[|log|..])
    ensures Replay(base, events) == after
    ensures Rewind(after, events) == Rewind(after, pending)
  {
    RewindIgnoresAfter(after, events, pending);
    var tail, pendingTail := events[|log|..], pending[|log|..];
    forall k | 0 <= k < |tail| ensures SameBefore(tail[k], pendingTail[k]) {
      assert SameBefore(events[|log| + k], pending[|log| + k]);
    }
    ReplayTail(base, before, after, log, tail, pendingTail);
    assert events == log + tail;
  }

  lemma ReplayTail(base: map<nat, Byte>, before: map<nat, Byte>, after: map<nat, Byte>,
                   log: seq<Event>, tail: seq<Event>, pendingTail: seq<Event>)
    requires Replay(base, log) == before && |tail| == |pendingTail|
    requires forall k :: 0 <= k < |tail| ==> SameBefore(tail[k], pendingTail[k])
    requires Confined(before, after, pendingTail) && Finalized(after, tail)
    ensures Replay(base, log + tail) == after
  {
    ConfinedSame(before, after, pendingTail, tail);
    FinalizedReplay(before, after, tail);
    ReplayConcat(base, log, tail);
  }

  lemma ConfinedSame(a: map<nat, Byte>, b: map<nat, Byte>, first: seq<Event>, second: seq<Event>)
    requires Confined(a, b, first) && |first| == |second|
    requires forall k :: 0 <= k < |first| ==> SameBefore(second[k], first[k])
    ensures Confined(a, b, second)
  {
    forall x | x in a && a[x] != b[x] ensures Touches(second, x) {
      var k :| 0 <= k < |first| && first[k].Covers(x);
      assert SameBefore(second[k], first[k]) && second[k].Covers(x);
    }
  }

  lemma LoggedRewinds(simulated: map<nat, Byte>, log: seq<Event>, events: seq<Event>, access: Access)
    requires LogGrew(log, events, access, simulated)
    ensures log <= events && Rewind(simulated, events) == Rewind(simulated, log)
  {
    if events != log {
      var e := events[|log|];
      assert events == log + [e];
      RewindStore(simulated, log, e, e.before);
      assert forall a :: a in simulated ==> Overlay(simulated, e.address, e.before)[a] == simulated[a] by {
        OverlaySame(simulated, e.address, e.before);
      }
      assert Overlay(simulated, e.address, e.before) == simulated by {
        OverlaySame(simulated, e.address, e.before);
      }
    }
  }

  lemma OverlaySame(m: map<nat, Byte>, address: nat, data: seq<Byte>)
    requires BytesAt(m, address, data)
    ensures Overlay(m, address, data) == m
  {
    forall a | a in m && address <= a < address + |data| ensures data[a - address] == m[a] {
      assert ByteAt(m, address + (a - address), data[a - address]);
    }
  }

  lemma StoredRewinds(simulated: map<nat, Byte>, log: seq<Event>, events: seq<Event>, access: Access)
    requires LogGrew(log, events, access, simulated) && events != log && access.Store?
    ensures var stored := Overlay(simulated, access.address, access.data);
            Rewind(stored, events) == Rewind(simulated, log) && Confined(simulated, stored, events[|log|..])
  {
    var e := events[|log|];
    assert events == log + [e];
    RewindStore(simulated, log, e, access.data);
    var stored := Overlay(simulated, access.address, access.data);
    forall a | a in simulated && simulated[a] != stored[a] ensures Touches(events[|log|..], a) {
      assert events[|log|..][0].Covers(a);
    }
  }

  lemma ConfinedChains(a: map<nat, Byte>, b: map<nat, Byte>, c: map<nat, Byte>,
                       first: seq<Event>, second: seq<Event>, third: seq<Event>)
    requires first <= second <= third
    requires Confined(a, b, second[|first|..]) && Confined(b, c, third[|second|..])
    ensures Confined(a, c, third[|first|..])
  {
    forall x | x in a && a[x] != c[x] ensures Touches(third[|first|..], x) {
      if a[x] != b[x] {
        var k :| 0 <= k < |second[|first|..]| && second[|first|..][k].Covers(x);
        assert third[|first|..][k].Covers(x);
      } else {
        var k :| 0 <= k < |third[|second|..]| && third[|second|..][k].Covers(x);
        assert third[|first|..][k + (|second| - |first|)].Covers(x);
      }
    }
  }

  /** The log is unchanged, or one entry for this access longer. */
  ghost predicate LogGrew(before: seq<Event>, after: seq<Event>, access: Access, simulated: map<nat, Byte>) {
    || after == before
    || (&& |after| == |before| + 1 && after[..|before|] == before && Logged(after[|before|], access, simulated))
  }

  /** A fresh log entry for an access: it records the bytes about to be overwritten. */
  ghost predicate Logged(e: Event, access: Access, simulated: map<nat, Byte>) {
    Announces(e, access, simulated) && e.after == e.before
  }
}
