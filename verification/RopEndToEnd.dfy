/**
 Recorder and viewer together: what the panel shows at cursor k is the simulated
 state after k instructions.
 */
module RopEndToEnd {
  import opened Bytes
  import opened Counting
  import opened RopMemory
  import opened RopEffects
  import opened RopSemantics
  import opened RopMachine
  import opened RopTrace
  import opened RopView

  /** Rows that were executed; only a trailing row can be missing from them. */
  function Executed(rows: seq<Row>): nat {
    if rows != [] && !rows[|rows| - 1].completed then |rows| - 1 else |rows|
  }

  /** The recorded state a cursor stands at. */
  function StateIndex(rows: seq<Row>, cursor: nat): nat {
    if cursor < Executed(rows) then cursor else Executed(rows)
  }

  lemma ExecutedExplained(rows: seq<Row>, history: seq<Machined>, pcName: string, spName: string, k: nat)
    requires Recorded(rows, history, pcName, spName) && k < Executed(rows)
    ensures |history| == Executed(rows) + 1
    ensures Explains(rows[k], history[k], history[k + 1], pcName, spName)
  {
    var done := if Executed(rows) == |rows| then rows else rows[..|rows| - 1];
    assert done[k] == rows[k];
  }

  lemma HistoryLength(rows: seq<Row>, history: seq<Machined>, pcName: string, spName: string)
    requires Recorded(rows, history, pcName, spName)
    ensures |history| == Executed(rows) + 1
  {
  }

  /** Replaying the log before a cursor gives the memory recorded there. */
  lemma {:induction false} LogReplaysHistory(rows: seq<Row>, history: seq<Machined>, pcName: string, spName: string,
                                             cursor: nat)
    requires Recorded(rows, history, pcName, spName) && cursor <= |rows|
    ensures |history| == Executed(rows) + 1
    ensures Replay(history[0].simulated, LogBefore(rows, cursor)) == history[StateIndex(rows, cursor)].simulated
  {
    HistoryLength(rows, history, pcName, spName);
    if cursor > 0 {
      LogReplaysHistory(rows, history, pcName, spName, cursor - 1);
      if cursor <= Executed(rows) {
        ExecutedExplained(rows, history, pcName, spName, cursor - 1);
        ReplayConcat(history[0].simulated, LogBefore(rows, cursor - 1), rows[cursor - 1].accesses);
      } else {
        assert LogBefore(rows, cursor - 1) + [] == LogBefore(rows, cursor - 1);
      }
    }
  }

  lemma {:induction false} AppliedConcat(registers: map<string, nat>, first: seq<Change>, second: seq<Change>)
    ensures Applied(registers, first + second) == Applied(Applied(registers, first), second)
  {
    if second == [] {
      assert first + second == first;
    } else {
      AppliedConcat(registers, first, second[..|second| - 1]);
      assert (first + second)[..|first + second| - 1] == first + second[..|second| - 1];
    }
  }

  lemma {:induction false} ChangesReplayHistory(rows: seq<Row>, history: seq<Machined>, pcName: string, spName: string,
                                                cursor: nat)
    requires Recorded(rows, history, pcName, spName) && cursor <= |rows|
    ensures |history| == Executed(rows) + 1
    ensures Applied(history[0].registers, ChangesBefore(rows, cursor)) == history[StateIndex(rows, cursor)].registers
  {
    HistoryLength(rows, history, pcName, spName);
    if cursor > 0 {
      ChangesReplayHistory(rows, history, pcName, spName, cursor - 1);
      if cursor <= Executed(rows) {
        ExecutedExplained(rows, history, pcName, spName, cursor - 1);
        AppliedConcat(history[0].registers, ChangesBefore(rows, cursor - 1), rows[cursor - 1].registerChanges);
      } else {
        assert ChangesBefore(rows, cursor - 1) + [] == ChangesBefore(rows, cursor - 1);
      }
    }
  }

  // ---------- What the panel shows ----------

  /** A recorded run, as the recorder's guarantees describe it. */
  ghost predicate RecordedRun(trace: Trace, history: seq<Machined>, live: map<nat, Byte>, pcName: string,
                              spName: string, limit: nat, registerCount: nat) {
    && (trace.pointerSize == 4 || trace.pointerSize == 8) && limit <= WORD_LIMIT
    && NodesShaped(trace.nodes) && Recorded(Rows(trace.nodes), history, pcName, spName)
    && history[0].simulated == live
    && (forall n :: 0 <= n < |trace.nodes| ==> NodeReadable(trace.nodes[n], limit, registerCount, live))
    && (forall i :: 0 <= i < |trace.stackSlots| ==> SlotTrue(live, trace.pointerSize, trace.stackSlots[i]))
    && NamesDistinct(trace.initialRegisters)
    && forall i :: 0 <= i < |trace.initialRegisters| ==>
         trace.initialRegisters[i].name in history[0].registers
         && trace.initialRegisters[i].value == history[0].registers[trace.initialRegisters[i].name]
  }

  /**
   Slot bytes: a known byte shows the simulated byte of that moment, and a byte is
   known exactly when it was captured or has been stored to.
   */
  ghost predicate SlotByteTrue(row: SlotRow, offset: nat, state: map<nat, Byte>, log: seq<Event>) {
    && (offset in row.known <==> row.slot.readable || Stored(log, row.slot.address, offset))
    && (offset in row.known ==>
          row.slot.address + offset in state && ByteOf(row.value, offset) == state[row.slot.address + offset])
  }

  ghost predicate EventsIn(live: map<nat, Byte>, events: seq<Event>) {
    forall k :: 0 <= k < |events| ==>
      |events[k].after| == |events[k].before| && Present(live, events[k].address, |events[k].before|)
  }

  lemma {:induction false} StoredIsLive(live: map<nat, Byte>, events: seq<Event>, a: nat)
    requires EventsIn(live, events) && LastWrite(events, a).Some?
    ensures a in live
  {
    var last := events[|events| - 1];
    if !(last.write && Covers(a, last.address, |last.after|)) {
      StoredIsLive(live, events[..|events| - 1], a);
    }
  }

  lemma {:induction false} LogIsLive(live: map<nat, Byte>, rows: seq<Row>, cursor: nat)
    requires cursor <= |rows| && forall k :: 0 <= k < |rows| ==> EventsIn(live, rows[k].accesses)
    ensures EventsIn(live, LogBefore(rows, cursor))
  {
    if cursor > 0 {
      LogIsLive(live, rows, cursor - 1);
    }
  }

  lemma {:induction false} RowsReadable(nodes: seq<Node>, limit: nat, registerCount: nat, live: map<nat, Byte>, k: nat)
    requires NodesReadable(nodes, limit, registerCount, live) && k < |Rows(nodes)|
    ensures RowReadable(Rows(nodes)[k], limit, registerCount, live)
    decreases |nodes|
  {
    var front, last := nodes[..|nodes| - 1], nodes[|nodes| - 1];
    assert NodeReadable(last, limit, registerCount, live);
    if k < |Rows(front)| {
      RowsReadable(front, limit, registerCount, live, k);
    } else {
      assert Rows(nodes)[k] == last.rows[k - |Rows(front)|];
    }
  }

  lemma SlotBytesTrue(row: SlotRow, live: map<nat, Byte>, log: seq<Event>, pointerSize: nat, offset: nat)
    requires SlotShows(row, log, pointerSize) && SlotTrue(live, pointerSize, row.slot) && EventsIn(live, log)
    requires offset < pointerSize
    ensures SlotByteTrue(row, offset, Replay(live, log), log)
  {
    var a := row.slot.address + offset;
    assert ByteShows(row, log, offset);
    ReplayKeys(live, log);
    if LastWrite(log, a).Some? {
      StoredIsLive(live, log, a);
      ReplayIsLastWrite(live, log, a);
    } else if row.slot.readable {
      assert a in live;
      ReplayIsLastWrite(live, log, a);
      LittleEndianByte(Slice(live, row.slot.address, pointerSize), offset);
    }
  }

  /** The viewer's assumptions hold of every recorded run. */
  lemma RecordedIsSane(trace: Trace, history: seq<Machined>, live: map<nat, Byte>, pcName: string, spName: string,
                       limit: nat, registerCount: nat)
    requires RecordedRun(trace, history, live, pcName, spName, limit, registerCount)
    ensures TraceSane(trace)
    ensures forall k :: 0 <= k < |Rows(trace.nodes)| ==> EventsIn(live, Rows(trace.nodes)[k].accesses)
  {
    forall k | 0 <= k < |Rows(trace.nodes)|
      ensures EventsIn(live, Rows(trace.nodes)[k].accesses)
      ensures forall a :: 0 <= a < |Rows(trace.nodes)[k].accesses| ==> AccessSane(Rows(trace.nodes)[k].accesses[a])
    {
      RowsReadable(trace.nodes, limit, registerCount, live, k);
    }
  }

  /** A readable slot shows the whole word that the state holds at its address. */
  ghost predicate SlotWordTrue(row: SlotRow, state: map<nat, Byte>, pointerSize: nat) {
    row.readable ==>
      && Present(state, row.slot.address, pointerSize)
      && row.value == LittleEndian(Slice(state, row.slot.address, pointerSize))
  }

  /** A slot whose bytes are all known shows the word they make. */
  lemma SlotWordFollows(row: SlotRow, state: map<nat, Byte>, log: seq<Event>, pointerSize: nat)
    requires SlotShows(row, log, pointerSize) && row.slot.value < ByteCapacity(pointerSize)
    requires forall offset :: 0 <= offset < pointerSize ==> SlotByteTrue(row, offset, state, log)
    ensures SlotWordTrue(row, state, pointerSize)
  {
    if row.readable {
      forall a: nat | row.slot.address <= a < row.slot.address + pointerSize ensures a in state {
        assert SlotByteTrue(row, a - row.slot.address, state, log) && a - row.slot.address in CompleteWord(pointerSize);
      }
      var bytes := Slice(state, row.slot.address, pointerSize);
      forall k | 0 <= k < pointerSize ensures ByteOf(row.value, k) == bytes[k] {
        assert SlotByteTrue(row, k, state, log) && k in CompleteWord(pointerSize);
      }
      WordOfBytes(row.value, bytes);
    }
  }

  lemma SlotTrueFits(live: map<nat, Byte>, width: nat, slot: Slot)
    requires SlotTrue(live, width, slot)
    ensures slot.value < ByteCapacity(width)
  {
    if slot.readable {
      LittleEndianFits(Slice(live, slot.address, width));
    } else {
      LittleEndianFits(seq(width, _ => 0));
    }
  }

  /** Display and recorded state agree on every register, byte, word and pointer. */
  ghost predicate ShowsState(d: Display, trace: Trace, state: Machined, log: seq<Event>, pcName: string,
                             spName: string) {
    && (forall i, offset :: 0 <= i < |d.slots| && 0 <= offset < trace.pointerSize ==>
          SlotByteTrue(d.slots[i], offset, state.simulated, log))
    && (forall i :: 0 <= i < |d.slots| ==> SlotWordTrue(d.slots[i], state.simulated, trace.pointerSize))
    && (forall i :: 0 <= i < |d.slots| ==>
          (d.slots[i].readable <==> d.slots[i].known == CompleteWord(trace.pointerSize)))
    && (forall i :: 0 <= i < |d.registers| ==>
          d.registers[i].name in state.registers && d.registers[i].value == state.registers[d.registers[i].name])
    && (Rows(trace.nodes) != [] ==>
          && pcName in state.registers && d.pc == state.registers[pcName]
          && spName in state.registers && d.sp == state.registers[spName])
  }

  /** The panel at cursor k shows the simulated state after k instructions. */
  lemma PanelShowsSimulatedState(d: Display, trace: Trace, ordered: seq<Slot>, history: seq<Machined>,
                                 live: map<nat, Byte>, pcName: string, spName: string, limit: nat, registerCount: nat,
                                 cursor: nat)
    requires RecordedRun(trace, history, live, pcName, spName, limit, registerCount)
    requires Ordered(ordered, trace.stackSlots) && Fitting(d, trace, ordered)
    requires cursor <= |Rows(trace.nodes)| && Shows(d, trace, Rows(trace.nodes), cursor, true)
    ensures |history| == Executed(Rows(trace.nodes)) + 1
    ensures ShowsState(d, trace, history[StateIndex(Rows(trace.nodes), cursor)], LogBefore(Rows(trace.nodes), cursor),
                       pcName, spName)
  {
    var steps := Rows(trace.nodes);
    var log := LogBefore(steps, cursor);
    HistoryLength(steps, history, pcName, spName);
    LogReplaysHistory(steps, history, pcName, spName, cursor);
    SlotsTrueAt(d, trace, ordered, history, live, pcName, spName, limit, registerCount, cursor);
    RegistersTrueAt(d, trace, history, pcName, spName, cursor);
    PointersTrueAt(d, trace, history, pcName, spName, cursor);
  }

  lemma SlotTrueAt(row: SlotRow, live: map<nat, Byte>, log: seq<Event>, pointerSize: nat)
    requires SlotShows(row, log, pointerSize) && SlotTrue(live, pointerSize, row.slot) && EventsIn(live, log)
    ensures forall offset :: 0 <= offset < pointerSize ==> SlotByteTrue(row, offset, Replay(live, log), log)
    ensures SlotWordTrue(row, Replay(live, log), pointerSize)
  {
    forall offset | 0 <= offset < pointerSize ensures SlotByteTrue(row, offset, Replay(live, log), log) {
      SlotBytesTrue(row, live, log, pointerSize, offset);
    }
    SlotTrueFits(live, pointerSize, row.slot);
    SlotWordFollows(row, Replay(live, log), log, pointerSize);
  }

  lemma SlotsTrueAt(d: Display, trace: Trace, ordered: seq<Slot>, history: seq<Machined>, live: map<nat, Byte>,
                    pcName: string, spName: string, limit: nat, registerCount: nat, cursor: nat)
    requires RecordedRun(trace, history, live, pcName, spName, limit, registerCount)
    requires Ordered(ordered, trace.stackSlots) && Fitting(d, trace, ordered)
    requires cursor <= |Rows(trace.nodes)| && Shows(d, trace, Rows(trace.nodes), cursor, true)
    ensures forall i, offset :: 0 <= i < |d.slots| && 0 <= offset < trace.pointerSize ==>
              SlotByteTrue(d.slots[i], offset, Replay(live, LogBefore(Rows(trace.nodes), cursor)),
                           LogBefore(Rows(trace.nodes), cursor))
    ensures forall i :: 0 <= i < |d.slots| ==>
              SlotWordTrue(d.slots[i], Replay(live, LogBefore(Rows(trace.nodes), cursor)), trace.pointerSize)
    ensures forall i :: 0 <= i < |d.slots| ==>
              (d.slots[i].readable <==> d.slots[i].known == CompleteWord(trace.pointerSize))
  {
    var log := LogBefore(Rows(trace.nodes), cursor);
    RecordedIsSane(trace, history, live, pcName, spName, limit, registerCount);
    LogIsLive(live, Rows(trace.nodes), cursor);
    forall i | 0 <= i < |d.slots|
      ensures forall offset :: 0 <= offset < trace.pointerSize ==>
                SlotByteTrue(d.slots[i], offset, Replay(live, log), log)
      ensures SlotWordTrue(d.slots[i], Replay(live, log), trace.pointerSize)
      ensures d.slots[i].readable <==> d.slots[i].known == CompleteWord(trace.pointerSize)
    {
      assert SlotShows(d.slots[i], log, trace.pointerSize);
      assert ordered[i] in multiset(ordered) && ordered[i] in trace.stackSlots;
      SlotTrueAt(d.slots[i], live, log, trace.pointerSize);
    }
  }

  /** The register table is the fold of all changes up to the cursor. */
  lemma RegistersTrueAt(d: Display, trace: Trace, history: seq<Machined>, pcName: string, spName: string, cursor: nat)
    requires Recorded(Rows(trace.nodes), history, pcName, spName)
    requires forall i :: 0 <= i < |trace.initialRegisters| ==>
               trace.initialRegisters[i].name in history[0].registers
               && trace.initialRegisters[i].value == history[0].registers[trace.initialRegisters[i].name]
    requires cursor <= |Rows(trace.nodes)| && RegistersAt(d.registers, trace, Rows(trace.nodes), cursor, true)
    ensures |history| == Executed(Rows(trace.nodes)) + 1
    ensures forall i :: 0 <= i < |d.registers| ==>
              d.registers[i].name in history[StateIndex(Rows(trace.nodes), cursor)].registers
              && d.registers[i].value == history[StateIndex(Rows(trace.nodes), cursor)].registers[d.registers[i].name]
  {
    var steps := Rows(trace.nodes);
    ChangesReplayHistory(steps, history, pcName, spName, cursor);
    var older := if cursor > 0 then ChangesBefore(steps, cursor - 1) else ChangesBefore(steps, cursor);
    var newest := if cursor > 0 then ChangesOf(steps, cursor - 1) else [];
    assert older + newest == ChangesBefore(steps, cursor);
    forall i | 0 <= i < |d.registers|
      ensures d.registers[i].name in history[StateIndex(steps, cursor)].registers
      ensures d.registers[i].value == history[StateIndex(steps, cursor)].registers[d.registers[i].name]
    {
      assert RegisterShows(d.registers[i], trace.initialRegisters[i], older, newest);
      AppliedIsLastChange(history[0].registers, ChangesBefore(steps, cursor), d.registers[i].name);
    }
  }

  lemma {:induction false} PointersFollowHistory(rows: seq<Row>, history: seq<Machined>, pcName: string, spName: string,
                                                 start: (nat, nat), cursor: nat)
    requires Recorded(rows, history, pcName, spName) && rows != [] && cursor <= |rows|
    requires start == (rows[0].address, rows[0].spBefore)
    ensures |history| == Executed(rows) + 1
    ensures var state := history[StateIndex(rows, cursor)];
            && pcName in state.registers && PointersAfter(rows, start, cursor).0 == state.registers[pcName]
            && spName in state.registers && PointersAfter(rows, start, cursor).1 == state.registers[spName]
  {
    HistoryLength(rows, history, pcName, spName);
    if cursor == 0 {
      if Executed(rows) > 0 {
        ExecutedExplained(rows, history, pcName, spName, 0);
      }
    } else {
      PointersFollowHistory(rows, history, pcName, spName, start, cursor - 1);
      if cursor <= Executed(rows) {
        ExecutedExplained(rows, history, pcName, spName, cursor - 1);
      }
    }
  }

  lemma {:induction false} FirstRow(nodes: seq<Node>)
    requires NodesShaped(nodes) && Rows(nodes) != []
    ensures nodes != [] && Rows(nodes)[0].address == nodes[0].entryAddress
            && Rows(nodes)[0].spBefore == nodes[0].entrySp
    decreases |nodes|
  {
    assert EntersFirstRow(nodes[0]);
    if |nodes| == 1 {
      assert Rows(nodes[..0]) == [];
      assert Rows(nodes) == nodes[0].rows;
    } else {
      assert Closed(nodes[0]);
      var front := nodes[..|nodes| - 1];
      assert NodesShaped(front) by {
        forall n | 0 <= n < |front| ensures StraightLine(front[n]) && EntersFirstRow(front[n]) {
          assert StraightLine(nodes[n]) && EntersFirstRow(nodes[n]);
        }
        forall n | 0 <= n < |front| - 1 ensures Closed(front[n]) {
          assert Closed(nodes[n]);
        }
      }
      FirstNodeRows(front);
      FirstRow(front);
    }
  }

  lemma {:induction false} FirstNodeRows(nodes: seq<Node>)
    requires nodes != [] && nodes[0].rows != []
    ensures Rows(nodes) != []
    decreases |nodes|
  {
    if |nodes| > 1 {
      FirstNodeRows(nodes[..|nodes| - 1]);
    }
  }

  lemma PointersTrueAt(d: Display, trace: Trace, history: seq<Machined>, pcName: string, spName: string, cursor: nat)
    requires NodesShaped(trace.nodes) && Recorded(Rows(trace.nodes), history, pcName, spName)
    requires cursor <= |Rows(trace.nodes)| && (d.pc, d.sp) == PointersAfter(Rows(trace.nodes), trace.Start(), cursor)
    ensures |history| == Executed(Rows(trace.nodes)) + 1
    ensures Rows(trace.nodes) != [] ==>
              var state := history[StateIndex(Rows(trace.nodes), cursor)];
              && pcName in state.registers && d.pc == state.registers[pcName]
              && spName in state.registers && d.sp == state.registers[spName]
  {
    HistoryLength(Rows(trace.nodes), history, pcName, spName);
    if Rows(trace.nodes) != [] {
      FirstRow(trace.nodes);
      PointersFollowHistory(Rows(trace.nodes), history, pcName, spName, trace.Start(), cursor);
    }
  }

  // ---------- The whole pipeline ----------

  /** The register values at the start, in register order. */
  function InitialList(names: seq<string>, registers: map<string, nat>): (list: seq<Register>)
    requires forall i :: 0 <= i < |names| ==> names[i] in registers
    ensures |list| == |names|
    ensures forall i :: 0 <= i < |list| ==> list[i].name == names[i] && list[i].value == registers[names[i]]
  {
    seq(|names|, i requires 0 <= i < |names| => Register(names[i], registers[names[i]]))
  }

  /**
   A recording of one request: the panel's initial registers are those right after the
   synthetic return, nothing is recorded if that return failed, the script drives every
   completed row from one state to the next, the last state is the machine's own, and
   the slots are all the stack words captured on the way.
   */
  ghost predicate Records(trace: Trace, history: seq<Machined>, machine: Machine, stackAddress: nat, stackBytes: nat,
                          before: map<string, nat>, script: seq<Turn>)
    requires machine.memory.width > 0
    reads machine, machine.memory, machine.memory.capture
  {
    var cpu := machine.Cpu(Watching(machine.memory.width, stackAddress, stackBytes));
    && RecordedRun(trace, history, machine.memory.capture.live, machine.pcName, machine.spName, machine.memory.limit,
                   |machine.names|)
    && trace.pointerSize == machine.memory.width
    && trace.stackSlots == machine.memory.stackSlots && SlotsCover(trace, stackAddress, stackBytes)
    && SlotsChained(trace.nodes, stackAddress)
    && history[|history| - 1] == machine.Current()
    && |history| - 1 <= |script| && Scripted(Rows(trace.nodes), history, script[..|history| - 1], cpu)
    && PendingFromScript(Rows(trace.nodes), history, script, cpu)
    && if trace.initialRegisters == [] then
         trace.nodes == [] && history == [Machined(before, machine.memory.capture.live)]
       else
         && |trace.initialRegisters| == |machine.names|
         && (forall i :: 0 <= i < |machine.names| ==> trace.initialRegisters[i].name == machine.names[i])
         && Returned(machine.memory.capture.live, machine.memory.width, machine.memory.limit, stackAddress,
                     before, history[0].registers, machine.pcName, machine.spName)
  }

  /**
   A slot for the word returned through, for every word of the stack window once the
   run began, for every word of every stack access, and for every word a return popped.
   */
  ghost predicate SlotsCover(trace: Trace, stackAddress: nat, stackBytes: nat)
    requires trace.pointerSize > 0
  {
    && (trace.initialRegisters != [] ==> Slotted(trace.stackSlots, stackAddress))
    && (trace.nodes != [] ==>
          WordsCaptured(trace.stackSlots, stackAddress, WindowStarts(trace.pointerSize, stackBytes), trace.pointerSize))
    && RowsSlotted(Rows(trace.nodes), trace.stackSlots, trace.pointerSize)
  }

  /** Why a recording ended: before its first instruction, or as its run did. */
  ghost predicate TraceEnds(status: Status, trace: Trace, history: seq<Machined>, script: seq<Turn>,
                            maxInstructions: nat, maxNodes: nat, struck: set<Status>, cpu: Processor,
                            live: map<nat, Byte>)
    requires history != []
  {
    || Halted(status, struck)
    || (trace.initialRegisters == [] && status == InvalidRead)
    || (trace.initialRegisters != []
        && RunEnds(status, trace.nodes, |history| - 1, history[|history| - 1], script, maxInstructions, maxNodes,
                   struck, cpu, live))
  }

  /** The panel has a row for the stack word at an address. */
  ghost predicate OnPanel(d: Display, address: nat) {
    exists i :: 0 <= i < |d.slots| && d.slots[i].slot.address == address
  }

  lemma SlottedOnPanel(d: Display, trace: Trace, ordered: seq<Slot>, address: nat)
    requires Ordered(ordered, trace.stackSlots) && Fitting(d, trace, ordered) && Slotted(trace.stackSlots, address)
    ensures OnPanel(d, address)
  {
    var k :| 0 <= k < |trace.stackSlots| && trace.stackSlots[k].address == address;
    assert trace.stackSlots[k] in multiset(trace.stackSlots) && trace.stackSlots[k] in ordered;
    var i :| 0 <= i < |ordered| && ordered[i] == trace.stackSlots[k];
    assert d.slots[i].slot == ordered[i];
  }

  /** A trailing row that was not executed shows what the next turn of the script fetched. */
  ghost predicate PendingFromScript(rows: seq<Row>, history: seq<Machined>, script: seq<Turn>, cpu: Processor) {
    var done := |history| - 1;
    done >= 0 && (|rows| > done ==> done < |script| && ShowsFetched(rows[done], script[done], history[done], cpu))
  }

  /**
   Trace from a stack address and open the panel on the result: at whatever cursor
   it stands, it shows the state the simulator had there.
   */
  method TraceAndShow(machine: Machine, stackAddress: nat, stackBytes: nat, maxInstructions: nat, maxNodes: nat,
                      script: seq<Turn>, cursor: nat, source: (nat, nat))
    returns (status: Status, view: RopView, ghost history: seq<Machined>)
    requires machine.Valid() && machine.pcName != machine.spName
             && machine.memory.simulated == machine.memory.capture.live
    requires stackAddress < WORD_LIMIT && stackAddress + machine.memory.width <= machine.memory.limit
    requires stackAddress + stackBytes <= machine.memory.limit
    requires forall i :: 0 <= i < |script| && script[i].shape.Some? ==> 0 < |script[i].shape.value.bytes|
    modifies machine, machine.memory, machine.memory.capture
    ensures fresh(view) && view.Valid() && view.steps == Rows(view.trace.nodes)
    ensures |view.trace.nodes| <= maxNodes && |view.steps| <= maxInstructions
    ensures machine.Valid() && Records(view.trace, history, machine, stackAddress, stackBytes, old(machine.registers),
                                       script)
    ensures TraceEnds(status, view.trace, history, script, maxInstructions, maxNodes, machine.memory.capture.struck,
                      machine.Cpu(Watching(machine.memory.width, stackAddress, stackBytes)),
                      machine.memory.capture.live)
    ensures view.trace.initialRegisters == [] && stackAddress !in old(machine.memory.slots) ==>
              Halted(status, machine.memory.capture.struck) || machine.memory.Unreadable(stackAddress)
    ensures forall a: nat :: Slotted(view.trace.stackSlots, a) ==> OnPanel(view.display, a)
    ensures ConnectedRun(view.steps)
    ensures view.cursor == if cursor < |view.steps| then cursor else |view.steps|
    ensures |history| == Executed(view.steps) + 1
    ensures ShowsState(view.display, view.trace, history[StateIndex(view.steps, view.cursor)],
                       LogBefore(view.steps, view.cursor), machine.pcName, machine.spName)
  {
    hide Consistent, PagesWellFormed, SlotsTrue, EventsKnown, EventsBounded, NamesFit, RegistersFit, Charged,
         NodesReadable, Scripted, ShowsFetched, ShowsState, Shows, Recorded, TraceSane, TraceEnds, SlotsCover,
         SlotsChained, Slotted, OnPanel;
    var trace;
    status, trace, history := RecordTrace(machine, stackAddress, stackBytes, maxInstructions, maxNodes, script, source);
    RecordedIsSane(trace, history, machine.memory.capture.live, machine.pcName, machine.spName,
                   machine.memory.limit, |machine.names|);
    RecordedIsConnected(Rows(trace.nodes), history, machine.pcName, machine.spName);
    view := new RopView(trace);
    view.SelectCursor(cursor);
    view.Reconstruct();
    PanelShowsSimulatedState(view.display, trace, view.ordered, history, machine.memory.capture.live, machine.pcName,
                             machine.spName, machine.memory.limit, |machine.names|, view.cursor);
    forall a: nat | Slotted(trace.stackSlots, a) ensures OnPanel(view.display, a) {
      SlottedOnPanel(view.display, trace, view.ordered, a);
    }
  }

  method RecordTrace(machine: Machine, stackAddress: nat, stackBytes: nat, maxInstructions: nat, maxNodes: nat,
                     script: seq<Turn>, source: (nat, nat))
    returns (status: Status, trace: Trace, ghost history: seq<Machined>)
    requires machine.Valid() && machine.pcName != machine.spName
             && machine.memory.simulated == machine.memory.capture.live
    requires stackAddress < WORD_LIMIT && stackAddress + machine.memory.width <= machine.memory.limit
    requires stackAddress + stackBytes <= machine.memory.limit
    requires forall i :: 0 <= i < |script| && script[i].shape.Some? ==> 0 < |script[i].shape.value.bytes|
    modifies machine, machine.memory, machine.memory.capture
    ensures machine.Valid() && |trace.nodes| <= maxNodes && |Rows(trace.nodes)| <= maxInstructions
    ensures Afforded(Rows(trace.nodes), MAX_BYTES, MAX_EVENTS)
    ensures Records(trace, history, machine, stackAddress, stackBytes, old(machine.registers), script)
    ensures TraceEnds(status, trace, history, script, maxInstructions, maxNodes, machine.memory.capture.struck,
                      machine.Cpu(Watching(machine.memory.width, stackAddress, stackBytes)),
                      machine.memory.capture.live)
    ensures trace.initialRegisters == [] && stackAddress !in old(machine.memory.slots) ==>
              Halted(status, machine.memory.capture.struck) || machine.memory.Unreadable(stackAddress)
  {
    hide Consistent, PagesWellFormed, SlotsTrue, EventsKnown, EventsBounded, NamesFit, RegistersFit, Charged,
         RecordedRun, Scripted, ShowsFetched, WordsCaptured, Slotted, NamesDistinct, RunEnds, Halted, RowsSlotted,
         SlotsChained;
    var popped, failure := EnterStack(machine, stackAddress, stackBytes);
    history := [machine.Current()];
    NothingSlotted(machine.memory.stackSlots, machine.memory.width, stackAddress);
    if !popped {
      assert NamesDistinct([]) by {
        NoNames();
      }
      NothingRun(machine, [], source);
      trace := Trace(machine.memory.width, [], machine.memory.stackSlots, [], source.0, source.1);
      return failure.value, trace, history;
    }
    NamesRegistered(machine);
    var initial := InitialList(machine.names, machine.registers);
    NamesListedOnce(machine, initial);
    if failure.Some? {
      NothingRun(machine, initial, source);
      trace := Trace(machine.memory.width, initial, machine.memory.stackSlots, [], source.0, source.1);
      return failure.value, trace, history;
    }
    ghost var slots := machine.memory.stackSlots;
    var windows := Watching(machine.memory.width, stackAddress, stackBytes);
    status, trace, history := RunTrace(machine, initial, windows, stackAddress, maxInstructions, maxNodes, script,
                                       source);
    SlottedStays(slots, machine.memory.stackSlots, stackAddress);
    WordsStay(slots, machine.memory.stackSlots, stackAddress, WindowStarts(machine.memory.width, stackBytes),
              machine.memory.width);
  }

  lemma NothingSlotted(slots: seq<Slot>, width: nat, stackAddress: nat)
    requires width > 0
    ensures RowsSlotted([], slots, width) && SlotsChained([], stackAddress)
  {
  }

  lemma NoNames()
    ensures NamesDistinct([])
  {
  }

  lemma NamesRegistered(machine: Machine)
    requires machine.Valid()
    ensures machine.names != [] && forall i :: 0 <= i < |machine.names| ==> machine.names[i] in machine.registers
  {
    assert forall i :: 0 <= i < |machine.names| ==> machine.names[i] in Elements(machine.names);
  }

  lemma NamesListedOnce(machine: Machine, initial: seq<Register>)
    requires machine.Valid() && |initial| == |machine.names|
    requires forall i :: 0 <= i < |initial| ==> initial[i].name == machine.names[i]
    ensures NamesDistinct(initial)
  {
  }

  /** A recording that stopped before its first instruction. */
  lemma NothingRun(machine: Machine, initial: seq<Register>, source: (nat, nat))
    requires machine.Valid() && machine.memory.simulated == machine.memory.capture.live && NamesDistinct(initial)
    requires forall i :: 0 <= i < |initial| ==>
               initial[i].name in machine.registers && initial[i].value == machine.registers[initial[i].name]
    ensures RecordedRun(Trace(machine.memory.width, initial, machine.memory.stackSlots, [], source.0, source.1),
                        [machine.Current()], machine.memory.capture.live, machine.pcName, machine.spName,
                        machine.memory.limit, |machine.names|)
    ensures forall windows :: Scripted([], [machine.Current()], [], machine.Cpu(windows))
  {
  }

  /** A finished recording, as the viewer receives it. */
  lemma FinishedRun(recorder: Recorder, initial: seq<Register>, source: (nat, nat))
    requires recorder.Sound() && recorder.history != []
    requires recorder.history[0].simulated == recorder.machine.memory.capture.live
    requires NamesDistinct(initial)
    requires forall i :: 0 <= i < |initial| ==>
               initial[i].name in recorder.history[0].registers
               && initial[i].value == recorder.history[0].registers[initial[i].name]
    ensures RecordedRun(Trace(recorder.machine.memory.width, initial, recorder.machine.memory.stackSlots,
                              recorder.nodes, source.0, source.1),
                        recorder.history, recorder.machine.memory.capture.live, recorder.machine.pcName,
                        recorder.machine.spName, recorder.machine.memory.limit, |recorder.machine.names|)
  {
  }

  lemma FinishedAffordably(recorder: Recorder)
    requires recorder.Sound()
    ensures Afforded(Rows(recorder.nodes), MAX_BYTES, MAX_EVENTS)
  {
  }

  method RunTrace(machine: Machine, initial: seq<Register>, windows: seq<(nat, nat)>, stackAddress: nat,
                  maxInstructions: nat, maxNodes: nat, script: seq<Turn>, source: (nat, nat))
    returns (status: Status, trace: Trace, ghost history: seq<Machined>)
    requires machine.Valid() && machine.memory.simulated == machine.memory.capture.live && stackAddress < WORD_LIMIT
    requires forall i :: 0 <= i < |script| && script[i].shape.Some? ==> 0 < |script[i].shape.value.bytes|
    requires NamesDistinct(initial)
    requires forall i :: 0 <= i < |initial| ==>
               initial[i].name in machine.registers && initial[i].value == machine.registers[initial[i].name]
    modifies machine, machine.memory, machine.memory.capture
    ensures machine.Valid() && |trace.nodes| <= maxNodes && |Rows(trace.nodes)| <= maxInstructions
    ensures Afforded(Rows(trace.nodes), MAX_BYTES, MAX_EVENTS)
    ensures trace.initialRegisters == initial && trace.pointerSize == machine.memory.width
    ensures RecordedRun(trace, history, machine.memory.capture.live, machine.pcName, machine.spName,
                        machine.memory.limit, |machine.names|)
    ensures history[0] == old(machine.Current()) && history[|history| - 1] == machine.Current()
    ensures |history| - 1 <= |script|
            && Scripted(Rows(trace.nodes), history, script[..|history| - 1], machine.Cpu(windows))
    ensures PendingFromScript(Rows(trace.nodes), history, script, machine.Cpu(windows))
    ensures trace.stackSlots == machine.memory.stackSlots && old(machine.memory.stackSlots) <= machine.memory.stackSlots
    ensures RowsSlotted(Rows(trace.nodes), trace.stackSlots, machine.memory.width)
            && SlotsChained(trace.nodes, stackAddress)
    ensures RunEnds(status, trace.nodes, |history| - 1, machine.Current(), script, maxInstructions, maxNodes,
                    machine.memory.capture.struck, machine.Cpu(windows), machine.memory.capture.live)
  {
    hide Consistent, PagesWellFormed, SlotsTrue, EventsKnown, EventsBounded, NamesFit, RegistersFit, Charged,
         NodesReadable, NodesShaped, Recorded, RecordedRun, ShowsFetched, Between, Afforded, RowsSlotted, SlotsChained,
         RunEnds;
    var recorder := new Recorder(machine, stackAddress, windows);
    ghost var start := recorder.history;
    status := recorder.Run(maxInstructions, maxNodes, script);
    assert recorder.history[0] == start[0];
    FinishedRun(recorder, initial, source);
    FinishedAffordably(recorder);
    trace := Trace(machine.memory.width, initial, machine.memory.stackSlots, recorder.nodes, source.0, source.1);
    history := recorder.history;
    assert script[..|history| - 1] == recorder.turns;
  }
}
