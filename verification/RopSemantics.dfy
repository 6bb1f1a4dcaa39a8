/**
 What the processor does, on plain memory and registers: the eager reference that the
 lazily capturing simulator is held to.
 */
module RopSemantics {
  import opened Wrappers
  import opened Bytes
  import opened RopMemory
  import opened RopEffects

  /** One access the processor is about to make. */
  datatype Access = Load(address: Address, count: nat) | Store(address: Address, data: seq<Byte>)
  {
    function Size(): nat { if Load? then count else |data| }
    function Purpose(): Kind { if Store? then Kind.Write else Kind.Read }
    predicate StoresTo(a: nat) { Store? && address <= a < address + |data| }
  }

  /**
   What the processor does in one iteration: its accesses in order, then either
   new register values or the fault that stops it (an interrupt, an instruction it
   does not know, its time limit).
   */
  datatype Iteration = Iteration(accesses: seq<Access>, fault: Option<Status>, registers: map<string, nat>)

  /** The simulated state. */
  datatype Machined = Machined(registers: map<string, nat>, simulated: map<nat, Byte>)

  ghost predicate WordsFit(registers: map<string, nat>) {
    forall n :: n in registers ==> registers[n] < WORD_LIMIT
  }

  /** New values for the tracked registers, each read back modulo 2^64. */
  function ReadBack(registers: map<string, nat>, written: map<string, nat>): (r: map<string, nat>)
    ensures r.Keys == registers.Keys && WordsFit(r)
  {
    map n | n in registers :: (if n in written then written[n] else registers[n]) % WORD_LIMIT
  }

  // ---------- Memory ----------

  function Carried(m: map<nat, Byte>, access: Access): map<nat, Byte> {
    if access.Store? then Overlay(m, access.address, access.data) else m
  }

  /** Memory after a list of accesses. */
  ghost function Performed(m: map<nat, Byte>, accesses: seq<Access>): map<nat, Byte> {
    if accesses == [] then m else Carried(Performed(m, accesses[..|accesses| - 1]), accesses[|accesses| - 1])
  }

  lemma PerformedLast(m: map<nat, Byte>, accesses: seq<Access>, last: Access)
    ensures Performed(m, accesses + [last]) == Carried(Performed(m, accesses), last)
  {
    assert (accesses + [last])[..|accesses|] == accesses;
  }

  lemma {:induction false} PerformedConcat(m: map<nat, Byte>, first: seq<Access>, second: seq<Access>)
    ensures Performed(m, first + second) == Performed(Performed(m, first), second)
  {
    if second == [] {
      assert first + second == first;
    } else {
      var front, last := second[..|second| - 1], second[|second| - 1];
      PerformedConcat(m, first, front);
      PerformedLast(m, first + front, last);
      assert (first + front) + [last] == first + second;
    }
  }

  lemma {:induction false} PerformedKeys(m: map<nat, Byte>, accesses: seq<Access>)
    ensures Performed(m, accesses).Keys == m.Keys
  {
    if accesses != [] {
      PerformedKeys(m, accesses[..|accesses| - 1]);
    }
  }

  /** Every byte of an access lies where its kind is permitted. */
  ghost predicate AccessPermitted(regions: seq<Region>, access: Access) {
    RangePermitted(regions, access.address, access.Size(), access.Purpose())
  }

  ghost predicate AllPermitted(regions: seq<Region>, accesses: seq<Access>) {
    forall k :: 0 <= k < |accesses| ==> AccessPermitted(regions, accesses[k])
  }

  // ---------- Logs ----------

  /** A log entry for an access made in memory m: it holds the bytes found there. */
  ghost predicate Announces(e: Event, access: Access, m: map<nat, Byte>) {
    && e.address == access.address && e.write == access.Store? && |e.before| == access.Size()
    && BytesAt(m, e.address, e.before)
  }

  ghost predicate Entry(m: map<nat, Byte>, accesses: seq<Access>, events: seq<Event>, k: nat)
    requires k < |accesses| && k < |events|
  {
    Announces(events[k], accesses[k], Performed(m, accesses[..k]))
  }

  /** One entry for each access, made in the memory that the accesses before it leave. */
  ghost predicate LogOf(m: map<nat, Byte>, accesses: seq<Access>, events: seq<Event>) {
    |accesses| == |events| && forall k :: 0 <= k < |events| ==> Entry(m, accesses, events, k)
  }

  lemma LogOfLast(m: map<nat, Byte>, accesses: seq<Access>, events: seq<Event>, access: Access, e: Event)
    requires LogOf(m, accesses, events) && Announces(e, access, Performed(m, accesses))
    ensures LogOf(m, accesses + [access], events + [e])
  {
    var more, log := accesses + [access], events + [e];
    forall k | 0 <= k < |log| ensures Entry(m, more, log, k) {
      assert more[..k] == accesses[..k];
      assert k < |events| ==> Entry(m, accesses, events, k);
      assert accesses[..|accesses|] == accesses;
    }
  }

  lemma LogOfConcat(m: map<nat, Byte>, first: seq<Access>, second: seq<Access>, head: seq<Event>, tail: seq<Event>)
    requires LogOf(m, first, head) && LogOf(Performed(m, first), second, tail)
    ensures LogOf(m, first + second, head + tail)
  {
    var all, log := first + second, head + tail;
    forall k | 0 <= k < |log| ensures Entry(m, all, log, k) {
      if k < |head| {
        assert Entry(m, first, head, k);
        assert all[..k] == first[..k];
      } else {
        assert Entry(Performed(m, first), second, tail, k - |head|);
        assert all[..k] == first + second[..k - |head|];
        PerformedConcat(m, first, second[..k - |head|]);
      }
    }
  }

  /** The bytes recorded after a store do not matter here. */
  lemma LogOfSame(m: map<nat, Byte>, accesses: seq<Access>, events: seq<Event>, others: seq<Event>)
    requires LogOf(m, accesses, events) && |others| == |events|
    requires forall k :: 0 <= k < |events| ==> SameBefore(others[k], events[k])
    ensures LogOf(m, accesses, others)
  {
    forall k | 0 <= k < |others| ensures Entry(m, accesses, others, k) {
      assert Entry(m, accesses, events, k) && SameBefore(others[k], events[k]);
    }
  }

  lemma LogOfFront(m: map<nat, Byte>, accesses: seq<Access>, events: seq<Event>)
    requires LogOf(m, accesses, events) && accesses != []
    ensures LogOf(m, accesses[..|accesses| - 1], events[..|events| - 1])
    ensures Announces(events[|events| - 1], accesses[|accesses| - 1], Performed(m, accesses[..|accesses| - 1]))
  {
    var front, log := accesses[..|accesses| - 1], events[..|events| - 1];
    forall k | 0 <= k < |front| ensures Entry(m, front, log, k) {
      assert Entry(m, accesses, events, k);
      assert front[..k] == accesses[..k];
    }
    assert Entry(m, accesses, events, |events| - 1);
  }

  /** A log undoes the accesses it is of. */
  lemma {:induction false} LogOfRewinds(m: map<nat, Byte>, accesses: seq<Access>, events: seq<Event>)
    requires LogOf(m, accesses, events)
    ensures Rewind(Performed(m, accesses), events) == m
  {
    if accesses != [] {
      var front, last := accesses[..|accesses| - 1], accesses[|accesses| - 1];
      var log, e := events[..|events| - 1], events[|events| - 1];
      LogOfFront(m, accesses, events);
      LogOfRewinds(m, front, log);
      RewindStore(Performed(m, front), log, e, if last.Store? then last.data else e.before);
      assert log + [e] == events;
    }
  }

  /** Accesses change no byte outside their logged stores. */
  lemma {:induction false} LogOfConfined(m: map<nat, Byte>, accesses: seq<Access>, events: seq<Event>)
    requires LogOf(m, accesses, events)
    ensures Confined(m, Performed(m, accesses), events)
  {
    if accesses != [] {
      var front, log := accesses[..|accesses| - 1], events[..|events| - 1];
      LogOfFront(m, accesses, events);
      LogOfConfined(m, front, log);
      PerformedKeys(m, accesses);
      forall a | a in m && m[a] != Performed(m, accesses)[a] ensures Touches(events, a) {
        TouchesMore(log, events, a);
        if m[a] == Performed(m, front)[a] {
          assert events[|log|].Covers(a);
        }
      }
    }
  }

  lemma TouchesMore(log: seq<Event>, events: seq<Event>, a: nat)
    requires log <= events
    ensures Touches(log, a) ==> Touches(events, a)
  {
    if Touches(log, a) {
      var k :| 0 <= k < |log| && log[k].Covers(a);
      assert events[k].Covers(a);
    }
  }

  // ---------- Instructions ----------

  ghost function Iterated(s: Machined, it: Iteration): Machined {
    Machined(ReadBack(s.registers, it.registers), Performed(s.simulated, it.accesses))
  }

  /** The state an instruction leaves, and all the accesses it made. */
  datatype Outcome = Outcome(state: Machined, accesses: seq<Access>)

  ghost predicate Loops(s: Machined, address: nat, repeats: bool, pcName: string) {
    repeats && pcName in s.registers && s.registers[pcName] == address
  }

  /**
   An instruction runs up to its first iteration that does not repeat; a fault or a missing
   iteration yields nothing.
   */
  ghost function Retired(s: Machined, address: nat, repeats: bool, pcName: string,
                         iterations: seq<Iteration>): Option<Outcome>
    decreases |iterations|
  {
    if iterations == [] || iterations[0].fault.Some? then None
    else
      var next := Iterated(s, iterations[0]);
      if Loops(next, address, repeats, pcName) then
        Preceded(iterations[0].accesses, Retired(next, address, repeats, pcName, iterations[1..]))
      else Some(Outcome(next, iterations[0].accesses))
  }

  function Preceded(accesses: seq<Access>, outcome: Option<Outcome>): Option<Outcome> {
    if outcome.None? then None else Some(outcome.value.(accesses := accesses + outcome.value.accesses))
  }

  lemma PrecededTwice(a: seq<Access>, b: seq<Access>, outcome: Option<Outcome>)
    ensures Preceded(a, Preceded(b, outcome)) == Preceded(a + b, outcome)
  {
    if outcome.Some? {
      assert a + (b + outcome.value.accesses) == (a + b) + outcome.value.accesses;
    }
  }

  /** The memory an instruction leaves is the one its accesses leave. */
  lemma {:induction false} RetiredPerforms(s: Machined, address: nat, repeats: bool, pcName: string,
                                           iterations: seq<Iteration>)
    requires Retired(s, address, repeats, pcName, iterations).Some?
    ensures var o := Retired(s, address, repeats, pcName, iterations).value;
            o.state.simulated == Performed(s.simulated, o.accesses)
    decreases |iterations|
  {
    var next := Iterated(s, iterations[0]);
    if Loops(next, address, repeats, pcName) {
      RetiredPerforms(next, address, repeats, pcName, iterations[1..]);
      PerformedConcat(s.simulated, iterations[0].accesses,
                      Retired(next, address, repeats, pcName, iterations[1..]).value.accesses);
    }
  }

  // ---------- What running a script means ----------

  /** None of the iterations from `from` on writes this register. */
  ghost predicate Unwritten(ran: seq<Iteration>, name: string, from: nat) {
    forall j :: from <= j < |ran| ==> name !in ran[j].registers
  }

  /** The last value written to a register, else the one it had. */
  ghost predicate LastWritten(name: string, old_: nat, ran: seq<Iteration>, value: nat) {
    && (forall j :: 0 <= j < |ran| && name in ran[j].registers && Unwritten(ran, name, j + 1) ==>
          value == ran[j].registers[name] % WORD_LIMIT)
    && (Unwritten(ran, name, 0) ==> value == old_)
  }

  ghost predicate RegistersLeft(before: map<string, nat>, ran: seq<Iteration>, after: map<string, nat>) {
    after.Keys == before.Keys && forall n :: n in before ==> LastWritten(n, before[n], ran, after[n])
  }

  ghost predicate Unstored(accesses: seq<Access>, a: nat, from: nat) {
    forall k :: from <= k < |accesses| ==> !accesses[k].StoresTo(a)
  }

  /** The data of the last store that covers a byte, else what it held. */
  ghost predicate LastStored(a: nat, old_: Byte, accesses: seq<Access>, value: Byte) {
    && (forall k :: 0 <= k < |accesses| && accesses[k].StoresTo(a) && Unstored(accesses, a, k + 1) ==>
          value == accesses[k].data[a - accesses[k].address])
    && (Unstored(accesses, a, 0) ==> value == old_)
  }

  ghost predicate BytesLeft(before: map<nat, Byte>, accesses: seq<Access>, after: map<nat, Byte>) {
    after.Keys == before.Keys && forall a :: a in before ==> LastStored(a, before[a], accesses, after[a])
  }

  /** The accesses of all iterations, in order. */
  function Made(ran: seq<Iteration>): seq<Access> {
    if ran == [] then [] else ran[0].accesses + Made(ran[1..])
  }

  /**
   What a run of iterations means, without carrying it out: every register and every byte
   is as last written, the program counter is back at the instruction before each
   further iteration, and the last one does not repeat.
   */
  ghost predicate Ran(before: Machined, address: nat, repeats: bool, pcName: string, ran: seq<Iteration>,
                      after: Machined) {
    && ran != [] && (forall j :: 0 <= j < |ran| ==> ran[j].fault.None?)
    && RegistersLeft(before.registers, ran, after.registers)
    && BytesLeft(before.simulated, Made(ran), after.simulated)
    && (forall j :: 0 < j < |ran| ==> repeats && BackAt(before, address, pcName, ran, j))
    && (repeats && pcName in after.registers ==> after.registers[pcName] != address)
  }

  /** After j iterations the program counter is back at the instruction. */
  ghost predicate BackAt(before: Machined, address: nat, pcName: string, ran: seq<Iteration>, j: nat)
    requires j <= |ran|
  {
    pcName in before.registers && LastWritten(pcName, before.registers[pcName], ran[..j], address)
  }

  /** One iteration writes the registers it names. */
  lemma OneWritten(registers: map<string, nat>, it: Iteration)
    requires WordsFit(registers)
    ensures RegistersLeft(registers, [it], ReadBack(registers, it.registers))
  {
    var after := ReadBack(registers, it.registers);
    forall n | n in registers ensures LastWritten(n, registers[n], [it], after[n]) {
      assert Unwritten([it], n, 0) ==> n !in [it][0].registers;
    }
  }

  lemma WrittenFirst(name: string, old_: nat, it: Iteration, rest: seq<Iteration>, middle: nat, value: nat)
    requires LastWritten(name, old_, [it], middle) && LastWritten(name, middle, rest, value)
    ensures LastWritten(name, old_, [it] + rest, value)
  {
    var ran := [it] + rest;
    forall j | 0 <= j < |ran| && name in ran[j].registers && Unwritten(ran, name, j + 1)
      ensures value == ran[j].registers[name] % WORD_LIMIT
    {
      forall i | (if j == 0 then 0 else j) <= i < |rest| ensures name !in rest[i].registers {
        assert rest[i] == ran[i + 1];
      }
      if j > 0 {
        assert rest[j - 1] == ran[j] && Unwritten(rest, name, j);
      } else {
        assert Unwritten(rest, name, 0) && Unwritten([it], name, 1);
        assert [it][0] == it;
      }
    }
    if Unwritten(ran, name, 0) {
      assert ran[0] == it && Unwritten([it], name, 0);
      forall i | 0 <= i < |rest| ensures name !in rest[i].registers {
        assert rest[i] == ran[i + 1];
      }
    }
  }

  /** A list of accesses leaves each byte as its last store does. */
  lemma {:induction false} PerformedLeaves(m: map<nat, Byte>, accesses: seq<Access>)
    ensures BytesLeft(m, accesses, Performed(m, accesses))
  {
    PerformedKeys(m, accesses);
    if accesses != [] {
      hide LastStored;
      var front, last := accesses[..|accesses| - 1], accesses[|accesses| - 1];
      PerformedLeaves(m, front);
      PerformedKeys(m, front);
      forall a | a in m ensures LastStored(a, m[a], accesses, Performed(m, accesses)[a]) {
        StoredLast(a, m[a], front, last, Performed(m, front)[a], Performed(m, accesses)[a]);
        assert front + [last] == accesses;
      }
    }
  }

  lemma StoredLast(a: nat, old_: Byte, front: seq<Access>, last: Access, middle: Byte, value: Byte)
    requires LastStored(a, old_, front, middle)
    requires value == if last.StoresTo(a) then last.data[a - last.address] else middle
    ensures LastStored(a, old_, front + [last], value)
  {
    var accesses := front + [last];
    forall k | 0 <= k < |accesses| && accesses[k].StoresTo(a) && Unstored(accesses, a, k + 1)
      ensures value == accesses[k].data[a - accesses[k].address]
    {
      if k < |front| {
        assert !accesses[|front|].StoresTo(a);
        forall i | k + 1 <= i < |front| ensures !front[i].StoresTo(a) {
          assert accesses[i] == front[i];
        }
        assert Unstored(front, a, k + 1);
      }
    }
    if Unstored(accesses, a, 0) {
      assert !accesses[|front|].StoresTo(a);
      forall i | 0 <= i < |front| ensures !front[i].StoresTo(a) {
        assert accesses[i] == front[i];
      }
      assert Unstored(front, a, 0);
    }
  }

  /** A single iteration that does not repeat. */
  lemma RanOnce(s: Machined, address: nat, repeats: bool, pcName: string, it: Iteration)
    requires WordsFit(s.registers) && it.fault.None? && !Loops(Iterated(s, it), address, repeats, pcName)
    ensures Ran(s, address, repeats, pcName, [it], Iterated(s, it)) && Made([it]) == it.accesses
  {
    hide LastWritten, LastStored, BytesLeft, Performed;
    assert Made([it]) == it.accesses by {
      MadeMore(it, []);
      assert [it] + [] == [it];
    }
    OneWritten(s.registers, it);
    PerformedLeaves(s.simulated, it.accesses);
  }

  lemma WrittenMore(before: map<string, nat>, it: Iteration, rest: seq<Iteration>, middle: map<string, nat>,
                    after: map<string, nat>)
    requires RegistersLeft(before, [it], middle) && RegistersLeft(middle, rest, after)
    ensures RegistersLeft(before, [it] + rest, after)
  {
    hide LastWritten;
    forall n | n in before ensures LastWritten(n, before[n], [it] + rest, after[n]) {
      WrittenFirst(n, before[n], it, rest, middle[n], after[n]);
    }
  }

  lemma BackMore(s: Machined, next: Machined, address: nat, pcName: string, it: Iteration, rest: seq<Iteration>, j: nat)
    requires pcName in s.registers && RegistersLeft(s.registers, [it], next.registers)
    requires 0 < j <= |rest| && next.registers[pcName] == address
    requires j > 1 ==> BackAt(next, address, pcName, rest, j - 1)
    ensures BackAt(s, address, pcName, [it] + rest, j)
  {
    hide LastWritten;
    assert ([it] + rest)[..j] == [it] + rest[..j - 1];
    if j == 1 {
      assert [it] + rest[..0] == [it];
    } else {
      WrittenFirst(pcName, s.registers[pcName], it, rest[..j - 1], next.registers[pcName], address);
    }
  }

  /** One iteration more at the front. */
  lemma RanMore(s: Machined, address: nat, pcName: string, it: Iteration, rest: seq<Iteration>, after: Machined)
    requires WordsFit(s.registers) && it.fault.None? && Loops(Iterated(s, it), address, true, pcName)
    requires Ran(Iterated(s, it), address, true, pcName, rest, after)
    requires after.simulated == Performed(s.simulated, Made([it] + rest))
    ensures Ran(s, address, true, pcName, [it] + rest, after)
  {
    hide LastWritten, BytesLeft, RegistersLeft, BackAt, Performed, ReadBack;
    var ran, next := [it] + rest, Iterated(s, it);
    OneWritten(s.registers, it);
    PerformedLeaves(s.simulated, Made(ran));
    WrittenMore(s.registers, it, rest, next.registers, after.registers);
    forall j | 0 < j < |ran| ensures BackAt(s, address, pcName, ran, j) {
      BackMore(s, next, address, pcName, it, rest, j);
    }
  }

  lemma MadeMore(it: Iteration, rest: seq<Iteration>)
    ensures Made([it] + rest) == it.accesses + Made(rest)
  {
    assert ([it] + rest)[1..] == rest;
  }

  /** An instruction that retires has run some of its iterations, from the first one on. */
  lemma {:induction false} RetiredRan(s: Machined, address: nat, repeats: bool, pcName: string,
                                      iterations: seq<Iteration>)
    returns (n: nat)
    requires WordsFit(s.registers)
    requires Retired(s, address, repeats, pcName, iterations).Some?
    ensures var o := Retired(s, address, repeats, pcName, iterations).value;
            && 0 < n <= |iterations| && o.accesses == Made(iterations[..n])
            && Ran(s, address, repeats, pcName, iterations[..n], o.state)
    decreases |iterations|
  {
    hide Ran, Made, Performed, ReadBack;
    var it, next := iterations[0], Iterated(s, iterations[0]);
    if Loops(next, address, repeats, pcName) {
      var o := Retired(next, address, repeats, pcName, iterations[1..]).value;
      n := RetiredRan(next, address, repeats, pcName, iterations[1..]);
      var rest := iterations[1..][..n];
      n := n + 1;
      assert iterations[..n] == [it] + rest;
      MadeMore(it, rest);
      RetiredPerforms(s, address, repeats, pcName, iterations);
      RanMore(s, address, pcName, it, rest, o.state);
    } else {
      n := 1;
      assert iterations[..1] == [it];
      RanOnce(s, address, repeats, pcName, it);
    }
  }

  // ---------- Stack accesses ----------

  /** The fixed parts of a machine that say what a row means. */
  datatype Processor = Processor(names: seq<string>, pcName: string, spName: string, regions: seq<Region>,
                                 width: nat, limit: nat, windows: seq<(nat, nat)>)

  /** Is an access near the stack pointer, or in a watched window? */
  predicate NearStack(address: nat, size: nat, sp: nat, limit: nat, windows: seq<(nat, nat)>) {
    || (sp - 128 <= address && address < sp + 4096 && address < limit)
    || exists w :: w in windows && (w.0 <= address < w.1 || address <= w.0 < address + size)
  }

  /** Byte a belongs to the window and to the access. */
  predicate Shared(window: (nat, nat), address: nat, size: nat, a: nat) {
    window.0 <= a < window.1 && address <= a < address + size
  }

  /** An access that shares a byte with a watched window is near the stack, wherever the stack pointer is. */
  lemma WindowsWatched(address: nat, size: nat, sp: nat, limit: nat, windows: seq<(nat, nat)>)
    requires size > 0 && forall w :: w in windows ==> w.0 < w.1
    ensures NearStack(address, size, sp, limit, windows)
       <==> || (sp - 128 <= address < sp + 4096 && address < limit)
            || exists w, a: nat :: w in windows && Shared(w, address, size, a)
  {
    forall w, a: nat | w in windows && Shared(w, address, size, a)
      ensures NearStack(address, size, sp, limit, windows) {
      assert w.0 <= address < w.1 || address <= w.0 < address + size;
    }
    if w :| w in windows && (w.0 <= address < w.1 || address <= w.0 < address + size) {
      assert Shared(w, address, size, if w.0 <= address < w.1 then address else w.0);
    }
  }

  /** Which of the accesses made with this stack pointer are near the stack. */
  function AccessMarks(accesses: seq<Access>, sp: nat, limit: nat, windows: seq<(nat, nat)>): (marks: seq<bool>)
    ensures |marks| == |accesses|
  {
    seq(|accesses|, k requires 0 <= k < |accesses| =>
      NearStack(accesses[k].address, accesses[k].Size(), sp, limit, windows))
  }

  /**
   The stack marks of all accesses of an instruction: each iteration is judged by the stack pointer
   it starts with.
   */
  ghost function Marks(s: Machined, address: nat, repeats: bool, cpu: Processor, iterations: seq<Iteration>): seq<bool>
    decreases |iterations|
  {
    if iterations == [] || iterations[0].fault.Some? || cpu.spName !in s.registers then []
    else
      var next := Iterated(s, iterations[0]);
      AccessMarks(iterations[0].accesses, s.registers[cpu.spName], cpu.limit, cpu.windows)
      + if Loops(next, address, repeats, cpu.pcName) then Marks(next, address, repeats, cpu, iterations[1..]) else []
  }

  function Flags(events: seq<Event>): (flags: seq<bool>)
    ensures |flags| == |events|
  {
    seq(|events|, k requires 0 <= k < |events| => events[k].stack)
  }

  lemma FlagsJoin(a: seq<Event>, b: seq<Event>)
    ensures Flags(a + b) == Flags(a) + Flags(b)
  {
  }

  /** Every word of a stack access has a slot. */
  ghost predicate Watched(e: Event, slots: seq<Slot>, width: nat)
    requires width > 0
  {
    e.stack ==> WordsCaptured(slots, e.address, |e.before|, width)
  }

  ghost predicate AllWatched(events: seq<Event>, slots: seq<Slot>, width: nat)
    requires width > 0
  {
    forall k :: 0 <= k < |events| ==> Watched(events[k], slots, width)
  }

  lemma WatchedStay(events: seq<Event>, before: seq<Slot>, after: seq<Slot>, width: nat)
    requires width > 0 && before <= after && AllWatched(events, before, width)
    ensures AllWatched(events, after, width)
  {
    hide WordsCaptured;
    forall k | 0 <= k < |events| ensures Watched(events[k], after, width) {
      assert Watched(events[k], before, width);
      if events[k].stack {
        WordsStay(before, after, events[k].address, |events[k].before|, width);
      }
    }
  }

  // ---------- What stops an instruction ----------

  ghost predicate AccessRefused(access: Access, status: Status, struck: set<Status>, regions: seq<Region>,
                                live: map<nat, Byte>) {
    Refused(status, struck, regions, live, access.address, access.Size(), access.Purpose())
  }

  /** The fault of an iteration, or the refusal of one of its accesses. */
  ghost predicate IterationStops(it: Iteration, status: Status, struck: set<Status>, regions: seq<Region>,
                                 live: map<nat, Byte>) {
    || it.fault == Some(status)
    || exists k: nat :: k < |it.accesses| && AccessRefused(it.accesses[k], status, struck, regions, live)
  }

  /** A halt, the fault or refusal of some iteration, or more repetitions than there is time for. */
  ghost predicate InstructionStops(s: Machined, address: nat, repeats: bool, iterations: seq<Iteration>, status: Status,
                                   struck: set<Status>, cpu: Processor, live: map<nat, Byte>) {
    || Halted(status, struck)
    || (status == Timeout && Retired(s, address, repeats, cpu.pcName, iterations) == None)
    || exists i: nat :: i < |iterations| && IterationStops(iterations[i], status, struck, cpu.regions, live)
  }
}
