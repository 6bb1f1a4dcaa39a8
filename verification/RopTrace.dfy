/**
 The trace recorder: from a synthetic initial return it steps the machine, groups
 the rows into nodes, and stops at the first boundary.
 */
module RopTrace {
  import opened Wrappers
  import opened Bytes
  import opened RopMemory
  import opened RopEffects
  import opened RopSemantics
  import opened RopMachine

  /** A run of rows up to one control transfer. */
  datatype Node = Node(entryAddress: nat, entrySp: nat, stackSlot: Option<nat>, rows: seq<Row>)

  /** What the processor and disassembler do at one step of the run. */
  datatype Turn = Turn(shape: Option<Decoded>, refusal: Option<Status>, iterations: seq<Iteration>)

  predicate Transfers(flow: Flow) {
    flow == Return || flow == Call || flow == Jump || flow == Branch
  }

  // ---------- The rows of a trace ----------

  function Rows(nodes: seq<Node>): seq<Row> {
    if nodes == [] then [] else Rows(nodes[..|nodes| - 1]) + nodes[|nodes| - 1].rows
  }

  function LastNode(nodes: seq<Node>): Node
    requires nodes != []
  {
    nodes[|nodes| - 1]
  }

  function WithLast(nodes: seq<Node>, rows: seq<Row>): seq<Node>
    requires nodes != []
  {
    nodes[..|nodes| - 1] + [LastNode(nodes).(rows := rows)]
  }

  /** Bytes and accesses that the rows of a trace hold. */
  function LoggedBytes(rows: seq<Row>): nat {
    if rows == [] then 0 else LoggedBytes(rows[..|rows| - 1]) + EventBytes(rows[|rows| - 1].accesses)
  }

  function LoggedCount(rows: seq<Row>): nat {
    if rows == [] then 0 else LoggedCount(rows[..|rows| - 1]) + |rows[|rows| - 1].accesses|
  }

  lemma LoggedLast(rows: seq<Row>, row: Row)
    ensures LoggedBytes(rows + [row]) == LoggedBytes(rows) + EventBytes(row.accesses)
    ensures LoggedCount(rows + [row]) == LoggedCount(rows) + |row.accesses|
  {
    assert (rows + [row])[..|rows|] == rows;
  }

  /** The rows hold no more than was charged. */
  ghost predicate Afforded(rows: seq<Row>, bytes: nat, count: nat) {
    LoggedBytes(rows) <= bytes && LoggedCount(rows) <= count
  }

  lemma AffordedMore(rows: seq<Row>, bytes: nat, count: nat, moreBytes: nat, moreCount: nat)
    requires Afforded(rows, bytes, count) && bytes <= moreBytes && count <= moreCount
    ensures Afforded(rows, moreBytes, moreCount)
  {
  }

  lemma AffordedRow(rows: seq<Row>, row: Row, bytes: nat, count: nat)
    requires Afforded(rows, bytes, count)
    ensures Afforded(rows + [row], bytes + EventBytes(row.accesses), count + |row.accesses|)
  {
    LoggedLast(rows, row);
  }

  lemma AffordedPending(rows: seq<Row>, row: Row, bytes: nat, count: nat)
    requires Afforded(rows, bytes, count) && row.accesses == []
    ensures Afforded(rows + [row], bytes, count)
  {
    LoggedLast(rows, row);
  }

  lemma RowsOfWithLast(nodes: seq<Node>, rows: seq<Row>)
    requires nodes != []
    ensures Rows(WithLast(nodes, rows)) == Rows(nodes[..|nodes| - 1]) + rows
  {
    assert WithLast(nodes, rows)[..|nodes| - 1] == nodes[..|nodes| - 1];
  }

  lemma RowsOfAppend(nodes: seq<Node>, node: Node)
    ensures Rows(nodes + [node]) == Rows(nodes) + node.rows
  {
    assert (nodes + [node])[..|nodes|] == nodes;
  }

  // ---------- The shape of a trace ----------

  /** Only normal rows come before the last row of a node. */
  ghost predicate StraightLine(node: Node) {
    forall k :: 0 <= k < |node.rows| - 1 ==> node.rows[k].flow == Normal
  }

  /** A node records the address and stack pointer its first row starts from. */
  ghost predicate EntersFirstRow(node: Node) {
    node.rows != [] ==> node.entryAddress == node.rows[0].address && node.entrySp == node.rows[0].spBefore
  }

  /** A closed node ends in a control transfer. */
  ghost predicate Closed(node: Node) {
    node.rows != [] && Transfers(node.rows[|node.rows| - 1].flow)
  }

  ghost predicate NodesShaped(nodes: seq<Node>) {
    && (forall n :: 0 <= n < |nodes| ==> StraightLine(nodes[n]) && EntersFirstRow(nodes[n]))
    && (forall n :: 0 <= n < |nodes| - 1 ==> Closed(nodes[n]))
  }

  /** Each completed row leaves the address and stack pointer the next one starts from. */
  ghost predicate ConnectedRun(rows: seq<Row>) {
    forall k :: 0 <= k < |rows| - 1 ==>
      && rows[k].completed
      && rows[k].nextAddress == rows[k + 1].address && rows[k].spAfter == rows[k + 1].spBefore
  }

  /** The state after k instructions explains row k. */
  ghost predicate History(rows: seq<Row>, history: seq<Machined>, pcName: string, spName: string) {
    && |history| == |rows| + 1
    && forall k :: 0 <= k < |rows| ==> Explains(rows[k], history[k], history[k + 1], pcName, spName)
  }

  /** A row that was not executed shows the state it would have started from. */
  ghost predicate Pending(row: Row, at: Machined, pcName: string, spName: string) {
    && !row.completed && row.registerChanges == [] && row.accesses == []
    && pcName in at.registers && row.address == row.nextAddress == at.registers[pcName]
    && spName in at.registers && row.spBefore == row.spAfter == at.registers[spName]
  }

  /** What holds of the rows of any trace, finished or not. */
  ghost predicate Recorded(rows: seq<Row>, history: seq<Machined>, pcName: string, spName: string) {
    if rows != [] && !rows[|rows| - 1].completed then
      && History(rows[..|rows| - 1], history, pcName, spName)
      && Pending(rows[|rows| - 1], history[|history| - 1], pcName, spName)
    else History(rows, history, pcName, spName)
  }

  lemma RecordedIsConnected(rows: seq<Row>, history: seq<Machined>, pcName: string, spName: string)
    requires Recorded(rows, history, pcName, spName)
    ensures ConnectedRun(rows)
  {
    forall k | 0 <= k < |rows| - 1
      ensures rows[k].completed
      ensures rows[k].nextAddress == rows[k + 1].address && rows[k].spAfter == rows[k + 1].spBefore
    {
      var pending := !rows[|rows| - 1].completed;
      var done := if pending then rows[..|rows| - 1] else rows;
      assert done[k] == rows[k] && Explains(done[k], history[k], history[k + 1], pcName, spName);
      if k + 1 < |done| {
        assert done[k + 1] == rows[k + 1] && Explains(done[k + 1], history[k + 1], history[k + 2], pcName, spName);
      }
    }
  }

  // ---------- The script behind a trace ----------

  /** The row shows the instruction that the turn's disassembly finds at the program counter. */
  ghost predicate ShowsFetched(row: Row, turn: Turn, at: Machined, cpu: Processor) {
    && turn.shape.Some?
    && Fetches(Decoded(row.bytes, row.text, row.flow, turn.shape.value.repeats), turn.shape, at, cpu.pcName,
               cpu.regions)
  }

  /** Row k is what turn k of the script makes of state k. */
  ghost predicate Driven(row: Row, turn: Turn, before: Machined, after: Machined, cpu: Processor) {
    && ShowsFetched(row, turn, before, cpu) && turn.refusal.None?
    && Executes(row, before, after, turn.shape.value.repeats, turn.iterations, cpu)
  }

  ghost predicate DrivenAt(rows: seq<Row>, history: seq<Machined>, turns: seq<Turn>, cpu: Processor, k: nat)
    requires k < |turns| <= |rows| && |history| == |turns| + 1
  {
    Driven(rows[k], turns[k], history[k], history[k + 1], cpu)
  }

  /** The turns so far, one for each completed row, drive the states from one to the next. */
  ghost predicate Scripted(rows: seq<Row>, history: seq<Machined>, turns: seq<Turn>, cpu: Processor) {
    && |turns| <= |rows| && |history| == |turns| + 1
    && forall k: nat :: k < |turns| ==> DrivenAt(rows, history, turns, cpu, k)
  }

  /** Each completed row tells what some first iterations of its turn write last. */
  lemma ScriptTold(rows: seq<Row>, history: seq<Machined>, turns: seq<Turn>, cpu: Processor, k: nat)
    requires Scripted(rows, history, turns, cpu) && k < |turns|
    ensures turns[k].shape.Some?
    ensures exists n: nat :: n <= |turns[k].iterations|
                             && Tells(rows[k], history[k], history[k + 1], turns[k].shape.value.repeats,
                                      turns[k].iterations[..n], cpu)
  {
    assert DrivenAt(rows, history, turns, cpu, k);
  }

  lemma FetchedShort(decoded: Decoded, turn: Turn, at: Machined, pcName: string, regions: seq<Region>)
    requires Fetches(decoded, turn.shape, at, pcName, regions)
    ensures turn.shape.Some? && decoded.repeats == turn.shape.value.repeats && |decoded.bytes| <= MAX_INSTRUCTION_BYTES
  {
  }

  /** Executing what was fetched makes the row that the turn drives. */
  lemma FetchedDrives(row: Row, decoded: Decoded, turn: Turn, before: Machined, after: Machined, cpu: Processor)
    requires Fetches(decoded, turn.shape, before, cpu.pcName, cpu.regions) && turn.refusal.None?
    requires row.bytes == decoded.bytes && row.text == decoded.text && row.flow == decoded.flow
    requires Executes(row, before, after, decoded.repeats, turn.iterations, cpu)
    ensures Driven(row, turn, before, after, cpu)
  {
    assert decoded == Decoded(row.bytes, row.text, row.flow, turn.shape.value.repeats);
  }

  lemma ScriptedPending(rows: seq<Row>, history: seq<Machined>, turns: seq<Turn>, cpu: Processor, row: Row)
    requires Scripted(rows, history, turns, cpu)
    ensures Scripted(rows + [row], history, turns, cpu)
  {
    forall k: nat | k < |turns| ensures DrivenAt(rows + [row], history, turns, cpu, k) {
      assert DrivenAt(rows, history, turns, cpu, k);
    }
  }

  lemma ScriptedCompleted(rows: seq<Row>, history: seq<Machined>, turns: seq<Turn>, cpu: Processor,
                          row: Row, turn: Turn, after: Machined)
    requires Scripted(rows, history, turns, cpu) && |history| == |rows| + 1
    requires Driven(row, turn, history[|history| - 1], after, cpu)
    ensures Scripted(rows + [row], history + [after], turns + [turn], cpu)
  {
    var all, states, script := rows + [row], history + [after], turns + [turn];
    forall k: nat | k < |script| ensures DrivenAt(all, states, script, cpu, k) {
      if k < |turns| {
        assert DrivenAt(rows, history, turns, cpu, k);
      }
    }
  }

  // ---------- The stack words behind a trace ----------

  /** Every word of a stack access has a slot, and so has the word that a return popped. */
  ghost predicate RowSlotted(row: Row, slots: seq<Slot>, width: nat)
    requires width > 0
  {
    && AllWatched(row.accesses, slots, width)
    && (row.completed && row.flow == Return ==> Slotted(slots, row.spBefore))
  }

  ghost predicate RowsSlotted(rows: seq<Row>, slots: seq<Slot>, width: nat)
    requires width > 0
  {
    forall k :: 0 <= k < |rows| ==> RowSlotted(rows[k], slots, width)
  }

  lemma RowsStaySlotted(rows: seq<Row>, before: seq<Slot>, after: seq<Slot>, width: nat)
    requires width > 0 && before <= after && RowsSlotted(rows, before, width)
    ensures RowsSlotted(rows, after, width)
  {
    hide AllWatched, Slotted;
    forall k | 0 <= k < |rows| ensures RowSlotted(rows[k], after, width) {
      assert RowSlotted(rows[k], before, width);
      WatchedStay(rows[k].accesses, before, after, width);
      if rows[k].completed && rows[k].flow == Return {
        SlottedStays(before, after, rows[k].spBefore);
      }
    }
  }

  lemma CompletedSlotted(rows: seq<Row>, row: Row, popped: seq<Slot>, slots: seq<Slot>, width: nat,
                         before: Machined, after: Machined, pcName: string, spName: string)
    requires width > 0 && RowsSlotted(rows, slots, width) && AllWatched(row.accesses, slots, width)
    requires popped <= slots && Explains(row, before, after, pcName, spName)
    requires row.flow == Return ==> Slotted(popped, before.registers[spName])
    ensures RowsSlotted(rows + [row], slots, width) && row.spBefore == before.registers[spName]
  {
    if row.flow == Return {
      SlottedStays(popped, slots, row.spBefore);
    }
  }

  lemma PendingSlotted(rows: seq<Row>, row: Row, slots: seq<Slot>, width: nat)
    requires width > 0 && RowsSlotted(rows, slots, width) && !row.completed && row.accesses == []
    ensures RowsSlotted(rows + [row], slots, width)
  {
  }

  /** The stack word that a node was entered through: the start, or the word of the return before it. */
  function SlotAfter(nodes: seq<Node>, stackAddress: nat): Option<nat> {
    if nodes == [] then Some(stackAddress)
    else
      var rows := LastNode(nodes).rows;
      if rows != [] && rows[|rows| - 1].flow == Return then Some(rows[|rows| - 1].spBefore) else None
  }

  ghost predicate Chained(nodes: seq<Node>, stackAddress: nat, n: nat)
    requires n < |nodes|
  {
    nodes[n].stackSlot == SlotAfter(nodes[..n], stackAddress)
  }

  ghost predicate SlotsChained(nodes: seq<Node>, stackAddress: nat) {
    forall n: nat :: n < |nodes| ==> Chained(nodes, stackAddress, n)
  }

  lemma OpenKeepsChain(nodes: seq<Node>, stackAddress: nat, node: Node)
    requires SlotsChained(nodes, stackAddress) && node.stackSlot == SlotAfter(nodes, stackAddress)
    ensures SlotsChained(nodes + [node], stackAddress)
  {
    var entered := nodes + [node];
    forall n: nat | n < |entered| ensures Chained(entered, stackAddress, n) {
      assert entered[..n] == nodes[..n];
      if n < |nodes| {
        assert Chained(nodes, stackAddress, n);
      } else {
        assert nodes[..n] == nodes;
      }
    }
  }

  lemma ExtendKeepsChain(nodes: seq<Node>, stackAddress: nat, rows: seq<Row>)
    requires nodes != [] && SlotsChained(nodes, stackAddress)
    ensures SlotsChained(WithLast(nodes, rows), stackAddress)
  {
    var extended := WithLast(nodes, rows);
    forall n: nat | n < |extended| ensures Chained(extended, stackAddress, n) {
      assert Chained(nodes, stackAddress, n) && extended[..n] == nodes[..n];
    }
  }

  // ---------- Why a trace stops ----------

  /** A turn stops the run: a halt, a failed fetch, a boundary, a refusal, or a failed instruction. */
  ghost predicate TurnStops(turn: Turn, at: Machined, status: Status, struck: set<Status>, cpu: Processor,
                            live: map<nat, Byte>) {
    || Halted(status, struck)
    || turn.refusal == Some(status)
    || (turn.shape.Some? && BoundaryOf(turn.shape.value.flow) == Some(status))
    || (cpu.pcName in at.registers
        && FetchStops(turn.shape, at.registers[cpu.pcName], status, struck, cpu.regions, live))
    || (cpu.pcName in at.registers && turn.shape.Some?
        && InstructionStops(at, at.registers[cpu.pcName], turn.shape.value.repeats, turn.iterations, status, struck,
                            cpu, live))
  }

  /** The run ends at a limit that is reached, with the script, or at the turn after the last completed one. */
  ghost predicate RunEnds(status: Status, nodes: seq<Node>, done: nat, at: Machined, script: seq<Turn>,
                          maxInstructions: nat, maxNodes: nat, struck: set<Status>, cpu: Processor,
                              live: map<nat, Byte>) {
    || Halted(status, struck)
    || (status == InstructionLimit && done == |Rows(nodes)| == maxInstructions)
    || (status == NodeLimit && done == |Rows(nodes)| && |nodes| == maxNodes && AllClosed(nodes))
    || (status == Timeout && done == |script|)
    || (done < |script| && TurnStops(script[done], at, status, struck, cpu, live))
  }

  // ---------- The stages of one turn ----------

  ghost predicate AllClosed(nodes: seq<Node>) {
    forall n :: 0 <= n < |nodes| ==> Closed(nodes[n])
  }

  /** The last node can take another row that starts from this state. */
  ghost predicate Extensible(nodes: seq<Node>, at: Machined, pcName: string, spName: string) {
    && nodes != []
    && (forall k :: 0 <= k < |LastNode(nodes).rows| ==> LastNode(nodes).rows[k].flow == Normal)
    && (LastNode(nodes).rows == [] ==>
          && pcName in at.registers && LastNode(nodes).entryAddress == at.registers[pcName]
          && spName in at.registers && LastNode(nodes).entrySp == at.registers[spName])
  }

  /** Between two turns: all rows done, the history ends at the current state. */
  ghost predicate Between(nodes: seq<Node>, history: seq<Machined>, at: Machined, pcName: string, spName: string) {
    && NodesShaped(nodes) && History(Rows(nodes), history, pcName, spName)
    && history[|history| - 1] == at
  }

  lemma OpenKeeps(nodes: seq<Node>, history: seq<Machined>, at: Machined, slot: Option<nat>, pcName: string,
                  spName: string)
    requires Between(nodes, history, at, pcName, spName) && AllClosed(nodes)
    requires pcName in at.registers && spName in at.registers
    ensures var entered := nodes + [Node(at.registers[pcName], at.registers[spName], slot, [])];
            Between(entered, history, at, pcName, spName) && Extensible(entered, at, pcName, spName)
            && Rows(entered) == Rows(nodes)
  {
    hide Explains, NodesShaped, AllClosed, Rows;
    var node := Node(at.registers[pcName], at.registers[spName], slot, []);
    RowsOfAppend(nodes, node);
    assert Rows(nodes) + [] == Rows(nodes);
    OpenKeepsShape(nodes, node);
  }

  lemma OpenKeepsShape(nodes: seq<Node>, node: Node)
    requires NodesShaped(nodes) && AllClosed(nodes) && node.rows == []
    ensures NodesShaped(nodes + [node])
  {
    hide Closed;
    var entered := nodes + [node];
    forall n | 0 <= n < |entered| ensures StraightLine(entered[n]) && EntersFirstRow(entered[n]) {
      assert n < |nodes| ==> StraightLine(nodes[n]) && EntersFirstRow(nodes[n]);
    }
    forall n | 0 <= n < |entered| - 1 ensures Closed(entered[n]) {
      assert Closed(nodes[n]);
    }
  }

  /** Appending a row to an extensible node keeps the shape of all nodes. */
  lemma ExtendKeepsShape(nodes: seq<Node>, at: Machined, row: Row, pcName: string, spName: string)
    requires NodesShaped(nodes) && Extensible(nodes, at, pcName, spName)
    requires pcName in at.registers && row.address == at.registers[pcName]
    requires spName in at.registers && row.spBefore == at.registers[spName]
    ensures var extended := WithLast(nodes, LastNode(nodes).rows + [row]);
            NodesShaped(extended) && Rows(extended) == Rows(nodes) + [row]
  {
    var extended := WithLast(nodes, LastNode(nodes).rows + [row]);
    RowsOfWithLast(nodes, LastNode(nodes).rows + [row]);
    assert Rows(nodes[..|nodes| - 1]) + (LastNode(nodes).rows + [row]) == Rows(nodes) + [row];
    forall n | 0 <= n < |extended| ensures StraightLine(extended[n]) && EntersFirstRow(extended[n]) {
      assert StraightLine(nodes[n]) && EntersFirstRow(nodes[n]);
    }
  }

  lemma PendingRecorded(rows: seq<Row>, history: seq<Machined>, at: Machined, row: Row, pcName: string, spName: string)
    requires History(rows, history, pcName, spName) && history[|history| - 1] == at && Pending(row, at, pcName, spName)
    ensures Recorded(rows + [row], history, pcName, spName)
  {
    assert (rows + [row])[..|rows|] == rows;
  }

  lemma CompletedRecorded(rows: seq<Row>, history: seq<Machined>, before: Machined, after: Machined, row: Row,
                          pcName: string, spName: string)
    requires History(rows, history, pcName, spName) && history[|history| - 1] == before
    requires Explains(row, before, after, pcName, spName)
    ensures History(rows + [row], history + [after], pcName, spName)
  {
    var all, states := rows + [row], history + [after];
    forall k | 0 <= k < |all| ensures Explains(all[k], states[k], states[k + 1], pcName, spName) {
      assert k < |rows| ==> Explains(rows[k], history[k], history[k + 1], pcName, spName);
    }
  }

  // ---------- What a reader may rely on ----------

  ghost predicate NodeReadable(node: Node, limit: nat, registerCount: nat, live: map<nat, Byte>) {
    && node.entryAddress < WORD_LIMIT && node.entrySp < WORD_LIMIT
    && (node.stackSlot.Some? ==> node.stackSlot.value < WORD_LIMIT)
    && forall k :: 0 <= k < |node.rows| ==> RowReadable(node.rows[k], limit, registerCount, live)
  }

  ghost predicate NodesReadable(nodes: seq<Node>, limit: nat, registerCount: nat, live: map<nat, Byte>) {
    forall n :: 0 <= n < |nodes| ==> NodeReadable(nodes[n], limit, registerCount, live)
  }

  lemma ExtendKeepsReadable(nodes: seq<Node>, row: Row, limit: nat, registerCount: nat, live: map<nat, Byte>)
    requires nodes != [] && NodesReadable(nodes, limit, registerCount, live)
             && RowReadable(row, limit, registerCount, live)
    ensures NodesReadable(WithLast(nodes, LastNode(nodes).rows + [row]), limit, registerCount, live)
  {
    assert NodeReadable(LastNode(nodes), limit, registerCount, live);
  }

  lemma WithLastTwice(nodes: seq<Node>, a: seq<Row>, b: seq<Row>)
    requires nodes != []
    ensures WithLast(WithLast(nodes, a), b) == WithLast(nodes, b)
  {
    assert WithLast(nodes, a)[..|nodes| - 1] == nodes[..|nodes| - 1];
  }

  // ---------- The recorder ----------

  /** Instructions the trace stops in front of. */
  function BoundaryOf(flow: Flow): (failure: Option<Status>)
    ensures failure.None? <==> flow == Normal || Transfers(flow)
  {
    match flow
    case Syscall => Some(Status.Syscall)
    case Stop => Some(Status.Stop)
    case _ => None
  }

  class Recorder {
    const machine: Machine
    const stackAddress: nat
    const windows: seq<(nat, nat)>
    var nodes: seq<Node>
    ghost var history: seq<Machined>
    ghost var turns: seq<Turn>

    ghost predicate Ready()
      reads this, machine, machine.memory, machine.memory.capture
    {
      && machine.Valid() && NodesReadable(nodes, machine.memory.limit, |machine.names|, machine.memory.capture.live)
      && Afforded(Rows(nodes), machine.SpentBytes(), machine.SpentCount())
      && RowsSlotted(Rows(nodes), machine.memory.stackSlots, machine.memory.width) && SlotsChained(nodes, stackAddress)
    }

    ghost function Cpu(): Processor {
      machine.Cpu(windows)
    }

    /** Between two turns, with a node to extend unless the next one opens a node. */
    ghost predicate Poised(newNode: bool)
      reads this, machine, machine.memory, machine.memory.capture
    {
      Ready() && PoisedWith(nodes, machine.Current(), newNode) && Scripted(Rows(nodes), history, turns, Cpu())
    }

    ghost predicate PoisedWith(nodes: seq<Node>, at: Machined, newNode: bool)
      reads `history
    {
      && Between(nodes, history, at, machine.pcName, machine.spName)
      && if newNode then AllClosed(nodes) else Extensible(nodes, at, machine.pcName, machine.spName)
    }

    /**
     Whatever stopped it, the trace so far is well shaped, explained by its history
     up to the machine's own state, and driven by the script.
     */
    ghost predicate Sound()
      reads this, machine, machine.memory, machine.memory.capture
    {
      && Ready() && NodesShaped(nodes) && Recorded(Rows(nodes), history, machine.pcName, machine.spName)
      && Scripted(Rows(nodes), history, turns, Cpu()) && history[|history| - 1] == machine.Current()
    }

    constructor (machine: Machine, stackAddress: nat, windows: seq<(nat, nat)>)
      requires machine.Valid()
      ensures this.machine == machine && this.stackAddress == stackAddress && this.windows == windows && Poised(true)
      ensures nodes == [] && turns == [] && history == [machine.Current()]
    {
      this.machine, this.stackAddress, this.windows := machine, stackAddress, windows;
      nodes, turns := [], [];
      history := [machine.Current()];
    }

    lemma PoisedIsSound(newNode: bool)
      requires Poised(newNode)
      ensures Sound() && |AllRows()| == |turns|
    {
      hide Machine.Valid, NodesReadable, NodesShaped, Driven;
      var rows := Rows(nodes);
      if rows != [] {
        assert Explains(rows[|rows| - 1], history[|rows| - 1], history[|rows|], machine.pcName, machine.spName);
      }
    }

    method OpenNode(slot: Option<nat>)
      requires Poised(true) && slot == SlotAfter(nodes, stackAddress) && (slot.Some? ==> slot.value < WORD_LIMIT)
      modifies `nodes
      ensures Poised(false) && Rows(nodes) == Rows(old(nodes)) && |nodes| == |old(nodes)| + 1
    {
      hide SlotAfter, Chained, SlotsChained, RowsSlotted, Scripted, Afforded;
      OpenKeeps(nodes, history, machine.Current(), slot, machine.pcName, machine.spName);
      OpenKeepsChain(nodes, stackAddress, Node(machine.Pc(), machine.Sp(), slot, []));
      nodes := nodes + [Node(machine.Pc(), machine.Sp(), slot, [])];
    }

    /** Append the row of an instruction that has not been executed yet. */
    method AppendPending(decoded: Decoded, ghost turn: Turn) returns (row: Row)
      requires Poised(false) && Fetches(decoded, turn.shape, machine.Current(), machine.pcName, machine.memory.regions)
      modifies `nodes
      ensures Sound() && nodes == WithLast(old(nodes), LastNode(old(nodes)).rows + [row])
      ensures Rows(nodes) == Rows(old(nodes)) + [row] && ShowsFetched(row, turn, machine.Current(), Cpu())
      ensures |nodes| == |old(nodes)| && row.spBefore == machine.Sp() < WORD_LIMIT
    {
      hide Consistent, PagesWellFormed, SlotsTrue, EventsKnown, NamesFit, NodesReadable, NodesShaped, Recorded,
           Scripted, History, Permitted, Afforded, Charged, SlotsChained, RowsSlotted;
      row := Row(machine.Pc(), machine.Pc(), machine.Sp(), machine.Sp(), decoded.bytes, decoded.text, decoded.flow,
                 false, [], []);
      ExtendKeepsShape(nodes, machine.Current(), row, machine.pcName, machine.spName);
      ExtendKeepsReadable(nodes, row, machine.memory.limit, |machine.names|, machine.memory.capture.live);
      PendingRecorded(Rows(nodes), history, machine.Current(), row, machine.pcName, machine.spName);
      ScriptedPending(Rows(nodes), history, turns, Cpu(), row);
      AffordedPending(Rows(nodes), row, machine.SpentBytes(), machine.SpentCount());
      PendingSlotted(Rows(nodes), row, machine.memory.stackSlots, machine.memory.width);
      ExtendKeepsChain(nodes, stackAddress, LastNode(nodes).rows + [row]);
      nodes := WithLast(nodes, LastNode(nodes).rows + [row]);
    }

    /** Execute the pending row; a boundary leaves it pending and the machine untouched. */
    method Execute(decoded: Decoded, turn: Turn, ghost before: seq<Node>, ghost pending: Row)
      returns (failure: Option<Status>)
      requires PoisedWith(before, machine.Current(), false) && Scripted(Rows(before), history, turns, Cpu())
      requires nodes == WithLast(before, LastNode(before).rows + [pending])
      requires NodesReadable(before, machine.memory.limit, |machine.names|, machine.memory.capture.live)
      requires Afforded(Rows(before), machine.SpentBytes(), machine.SpentCount())
      requires Sound() && Fetches(decoded, turn.shape, machine.Current(), machine.pcName, machine.memory.regions)
      requires decoded.flow == Normal || Transfers(decoded.flow)
      requires RowsSlotted(Rows(before), machine.memory.stackSlots, machine.memory.width)
      requires machine.spName in machine.registers && pending.spBefore == machine.Sp()
      modifies this`nodes, this`history, this`turns, machine, machine.memory, machine.memory.capture
      ensures failure.None? ==>
                && Poised(Transfers(decoded.flow)) && |nodes| == |old(nodes)| && |Rows(nodes)| == |Rows(before)| + 1
                && Rows(before) <= Rows(nodes) && turns == old(turns) + [turn] && old(history) <= history
                && SlotAfter(nodes, stackAddress) == if decoded.flow == Return then Some(pending.spBefore) else None
      ensures failure.Some? ==> Sound() && nodes == old(nodes) && history == old(history) && turns == old(turns)
      ensures failure.Some? ==>
                TurnStops(turn, machine.Current(), failure.value, machine.memory.capture.struck, Cpu(),
                          machine.memory.capture.live)
      ensures old(machine.memory.stackSlots) <= machine.memory.stackSlots
    {
      hide NodesReadable, NodesShaped, Recorded, Scripted, PoisedWith, Explains, Executes, RowReadable, Transfers, Rows,
           Fetches, Driven, Afforded, RowsSlotted, SlotsChained, SlotAfter, AllWatched, Slotted, InstructionStops,
           FetchStops, Halted, Consistent, PagesWellFormed, SlotsTrue, EventsKnown, EventsBounded, NamesFit,
           RegistersFit, Charged;
      ghost var at, bytes, count := machine.Current(), machine.SpentBytes(), machine.SpentCount();
      ghost var rows, slots := Rows(nodes), machine.memory.stackSlots;
      FetchedShort(decoded, turn, at, machine.pcName, machine.memory.regions);
      failure := machine.CaptureReturn(decoded.flow);
      RowsStaySlotted(rows, slots, machine.memory.stackSlots, machine.memory.width);
      if failure.Some? {
        return;
      }
      ghost var popped := machine.memory.stackSlots;
      if turn.refusal.Some? {
        return turn.refusal;
      }
      var result := machine.Step(decoded, turn.iterations, windows);
      RowsStaySlotted(rows, slots, machine.memory.stackSlots, machine.memory.width);
      RowsStaySlotted(Rows(before), slots, machine.memory.stackSlots, machine.memory.width);
      if result.Failure? {
        AffordedMore(Rows(nodes), bytes, count, machine.SpentBytes(), machine.SpentCount());
        return Some(result.error);
      }
      AffordedRow(Rows(before), result.value, bytes, count);
      FetchedDrives(result.value, decoded, turn, at, machine.Current(), Cpu());
      CompletedSlotted(Rows(before), result.value, popped, machine.memory.stackSlots, machine.memory.width, at,
                       machine.Current(), machine.pcName, machine.spName);
      Complete(result.value, turn, before, pending, at);
      return None;
    }

    /** `row.update(...)`: the pending row becomes the completed one. */
    method Complete(row: Row, ghost turn: Turn, ghost before: seq<Node>, ghost pending: Row, ghost at: Machined)
      requires machine.Valid() && PoisedWith(before, at, false) && Scripted(Rows(before), history, turns, Cpu())
      requires Afforded(Rows(before) + [row], machine.SpentBytes(), machine.SpentCount())
      requires RowsSlotted(Rows(before) + [row], machine.memory.stackSlots, machine.memory.width)
      requires SlotsChained(nodes, stackAddress)
      requires nodes == WithLast(before, LastNode(before).rows + [pending])
      requires NodesReadable(before, machine.memory.limit, |machine.names|, machine.memory.capture.live)
      requires Explains(row, at, machine.Current(), machine.pcName, machine.spName)
      requires Driven(row, turn, at, machine.Current(), Cpu())
      requires RowReadable(row, machine.memory.limit, |machine.names|, machine.memory.capture.live)
      requires row.flow == Normal || Transfers(row.flow)
      modifies this`nodes, this`history, this`turns
      ensures Poised(Transfers(row.flow)) && |nodes| == |old(nodes)| && Rows(nodes) == Rows(before) + [row]
      ensures history == old(history) + [machine.Current()] && turns == old(turns) + [turn]
      ensures SlotAfter(nodes, stackAddress) == if row.flow == Return then Some(row.spBefore) else None
    {
      hide NodesReadable, NodesShaped, Scripted, Driven, RowReadable, History, RowsSlotted, SlotsChained, Afforded,
           Consistent, PagesWellFormed, SlotsTrue, EventsKnown, EventsBounded, NamesFit, RegistersFit, Charged;
      WithLastTwice(before, LastNode(before).rows + [pending], LastNode(before).rows + [row]);
      ExtendKeepsShape(before, at, row, machine.pcName, machine.spName);
      ExtendKeepsReadable(before, row, machine.memory.limit, |machine.names|, machine.memory.capture.live);
      CompletedRecorded(Rows(before), history, at, machine.Current(), row, machine.pcName, machine.spName);
      ScriptedCompleted(Rows(before), history, turns, Cpu(), row, turn, machine.Current());
      ExtendKeepsChain(nodes, stackAddress, LastNode(before).rows + [row]);
      var rows := LastNode(nodes).rows;
      nodes := WithLast(nodes, rows[..|rows| - 1] + [row]);
      history, turns := history + [machine.Current()], turns + [turn];
    }

    /** One row was appended. */
    static ghost predicate Grew(before: seq<Row>, after: seq<Row>) {
      |after| == |before| + 1 && before <= after
    }

    /** A boundary leaves the rows as they are, or appends the one that the turn fetched. */
    ghost predicate Stopped(before: seq<Row>, after: seq<Row>, turn: Turn)
      reads machine, machine.memory
    {
      || after == before
      || (Grew(before, after) && ShowsFetched(after[|before|], turn, machine.Current(), Cpu()))
    }

    /** The rows so far, in reading order. */
    function AllRows(): seq<Row>
      reads this
    {
      Rows(nodes)
    }

    /**
     One turn of the run loop. Without a boundary exactly one completed row is
     added; a boundary leaves a sound trace with at most one unexecuted row more.
     */
    method Advance(turn: Turn, newNode: bool, nextSlot: Option<nat>, maxNodes: nat)
      returns (failure: Option<Status>, opensNode: bool, slot: Option<nat>)
      requires Poised(newNode) && |nodes| <= maxNodes
      requires (turn.shape.Some? ==> 0 < |turn.shape.value.bytes|) && (nextSlot.Some? ==> nextSlot.value < WORD_LIMIT)
      requires newNode ==> nextSlot == SlotAfter(nodes, stackAddress)
      modifies this`nodes, this`history, this`turns, machine, machine.memory, machine.memory.capture
      ensures |nodes| <= maxNodes && (slot.Some? ==> slot.value < WORD_LIMIT)
      ensures failure.None? ==>
                && Poised(opensNode) && turns == old(turns) + [turn] && Grew(old(AllRows()), AllRows())
                && old(history) <= history && (opensNode ==> slot == SlotAfter(nodes, stackAddress))
      ensures failure.Some? ==>
                Sound() && turns == old(turns) && Stopped(old(AllRows()), AllRows(), turn) && history == old(history)
      ensures failure.Some? ==>
                || (failure.value == NodeLimit && AllRows() == old(AllRows()) && |nodes| == maxNodes
                    && AllClosed(nodes))
                || TurnStops(turn, machine.Current(), failure.value, machine.memory.capture.struck, Cpu(),
                             machine.memory.capture.live)
      ensures old(machine.memory.stackSlots) <= machine.memory.stackSlots
    {
      hide NodesReadable, NodesShaped, Recorded, Scripted, Fetches, FetchStops, RowsSlotted, SlotsChained, SlotAfter,
           Afforded, Rows, Between, Extensible, InstructionStops, Consistent, PagesWellFormed, SlotsTrue, EventsKnown,
           EventsBounded, NamesFit, RegistersFit, Charged;
      opensNode, slot := newNode, nextSlot;
      PoisedIsSound(newNode);
      failure := machine.memory.capture.Check();
      if failure.Some? {
        return;
      }
      if newNode {
        if |nodes| >= maxNodes {
          failure := Some(NodeLimit);
          return;
        }
        OpenNode(nextSlot);
        PoisedIsSound(false);
      }
      var fetched := machine.Decode(turn.shape);
      if fetched.Failure? {
        failure := Some(fetched.error);
        return;
      }
      failure, opensNode, slot := RunRow(fetched.value, turn);
    }

    /** Append the row of a fetched instruction and execute it unless it is a boundary itself. */
    method RunRow(decoded: Decoded, turn: Turn) returns (failure: Option<Status>, opensNode: bool, slot: Option<nat>)
      requires Poised(false) && Fetches(decoded, turn.shape, machine.Current(), machine.pcName, machine.memory.regions)
      modifies this`nodes, this`history, this`turns, machine, machine.memory, machine.memory.capture
      ensures |nodes| == |old(nodes)| && (slot.Some? ==> slot.value < WORD_LIMIT)
      ensures failure.None? ==>
                && Poised(opensNode) && turns == old(turns) + [turn] && Grew(old(AllRows()), AllRows())
                && old(history) <= history && (opensNode ==> slot == SlotAfter(nodes, stackAddress))
      ensures failure.Some? ==>
                Sound() && turns == old(turns) && Stopped(old(AllRows()), AllRows(), turn) && history == old(history)
      ensures failure.Some? ==>
                TurnStops(turn, machine.Current(), failure.value, machine.memory.capture.struck, Cpu(),
                          machine.memory.capture.live)
      ensures old(machine.memory.stackSlots) <= machine.memory.stackSlots
    {
      hide Memory.Valid, EventsKnown, EventsBounded, NamesFit, RegistersFit, Charged, Afforded, NodesReadable,
           NodesShaped, Recorded, Scripted, ShowsFetched, RowsSlotted, SlotsChained, SlotAfter, InstructionStops,
           FetchStops, Halted;
      ghost var before := nodes;
      var row := AppendPending(decoded, turn);
      opensNode, slot := Transfers(decoded.flow), if decoded.flow == Return then Some(machine.Sp()) else None;
      failure := BoundaryOf(decoded.flow);
      if failure.None? {
        failure := Execute(decoded, turn, before, row);
      }
    }

    /** Step until a boundary; the script of turns runs dry only when the wall clock does. */
    method Run(maxInstructions: nat, maxNodes: nat, script: seq<Turn>) returns (status: Status)
      requires Poised(true) && nodes == [] && turns == [] && stackAddress < WORD_LIMIT
      requires forall i :: 0 <= i < |script| && script[i].shape.Some? ==> 0 < |script[i].shape.value.bytes|
      modifies this`nodes, this`history, this`turns, machine, machine.memory, machine.memory.capture
      ensures Sound() && |nodes| <= maxNodes && |AllRows()| <= maxInstructions
      ensures old(history) <= history && turns <= script
      ensures |AllRows()| > |turns| ==>
                |turns| < |script| && ShowsFetched(AllRows()[|turns|], script[|turns|], machine.Current(), Cpu())
      ensures RunEnds(status, nodes, |turns|, machine.Current(), script, maxInstructions, maxNodes,
                      machine.memory.capture.struck, Cpu(), machine.memory.capture.live)
      ensures old(machine.memory.stackSlots) <= machine.memory.stackSlots
    {
      hide Machine.Valid, NodesReadable, NodesShaped, Recorded, Scripted, PoisedWith, ShowsFetched, TurnStops,
           RowsSlotted, SlotsChained, Afforded;
      var nextSlot: Option<nat> := Some(stackAddress);
      var newNode, count := true, 0;
      for i := 0 to |script|
        invariant Poised(newNode) && |nodes| <= maxNodes && (nextSlot.Some? ==> nextSlot.value < WORD_LIMIT)
        invariant newNode ==> nextSlot == SlotAfter(nodes, stackAddress)
        invariant count == |AllRows()| == |turns| <= maxInstructions && turns == script[..i]
        invariant old(history) <= history
        invariant old(machine.memory.stackSlots) <= machine.memory.stackSlots
      {
        if count >= maxInstructions {
          PoisedIsSound(newNode);
          return InstructionLimit;
        }
        var failure;
        failure, newNode, nextSlot := Advance(script[i], newNode, nextSlot, maxNodes);
        if failure.Some? {
          return failure.value;
        }
        count := count + 1;
      }
      PoisedIsSound(newNode);
      return Timeout;
    }
  }

  // ---------- The synthetic return ----------

  /**
   Enter the chain at a stack address: its word becomes the program counter and
   the stack pointer moves past it. Further words of the window are captured too.
   `popped` says that the registers were loaded, whatever stopped the capture later.
   */
  method EnterStack(machine: Machine, stackAddress: nat, stackBytes: nat)
    returns (popped: bool, failure: Option<Status>)
    requires machine.Valid() && machine.pcName != machine.spName
    requires stackAddress + machine.memory.width <= machine.memory.limit
             && stackAddress + stackBytes <= machine.memory.limit
    modifies machine`registers, machine.memory, machine.memory.capture
    ensures machine.Valid() && machine.memory.simulated == old(machine.memory.simulated)
    ensures popped ==> Returned(machine.memory.capture.live, machine.memory.width, machine.memory.limit, stackAddress,
                                old(machine.registers), machine.registers, machine.pcName, machine.spName)
    ensures !popped ==> failure.Some? && machine.registers == old(machine.registers)
    ensures popped ==> Slotted(machine.memory.stackSlots, stackAddress)
    ensures failure.None? ==>
              && popped
              && WordsCaptured(machine.memory.stackSlots, stackAddress, WindowStarts(machine.memory.width, stackBytes),
                               machine.memory.width)
    ensures failure.Some? ==>
              || Halted(failure.value, machine.memory.capture.struck)
              || (failure.value == InvalidRead && !popped
                  && (stackAddress !in old(machine.memory.slots) ==> machine.memory.Unreadable(stackAddress)))
    ensures old(machine.memory.stackSlots) <= machine.memory.stackSlots
  {
    failure := machine.PopReturn(stackAddress);
    popped := failure.None?;
    if popped {
      ghost var slots := machine.memory.stackSlots;
      failure := CaptureWindow(machine, stackAddress, stackBytes);
      SlottedStays(slots, machine.memory.stackSlots, stackAddress);
    }
  }

  /** The state after a return through the word at a stack address. */
  ghost predicate Returned(live: map<nat, Byte>, width: nat, limit: nat, stackAddress: nat,
                           before: map<string, nat>, after: map<string, nat>, pcName: string, spName: string) {
    && limit > 0 && Present(live, stackAddress, width)
    && var popped := before[pcName := LittleEndian(Slice(live, stackAddress, width))];
       after == popped[spName := (stackAddress + width) % limit]
  }

  /** The window of the stack that a trace watches. */
  function Watching(width: nat, stackAddress: nat, stackBytes: nat): seq<(nat, nat)> {
    [(stackAddress, stackAddress + if width <= stackBytes then stackBytes else width)]
  }

  /** Words of the window start below this offset; there is always the one that is popped. */
  function WindowStarts(width: nat, stackBytes: nat): nat {
    if width <= stackBytes then stackBytes - width + 1 else 1
  }

  /** Captured up to there, all complete words of the window and the word that is popped have slots. */
  lemma WindowWords(slots: seq<Slot>, stackAddress: nat, stackBytes: nat, width: nat, offset: nat)
    requires width > 0 && WordsCaptured(slots, stackAddress, WindowStarts(width, stackBytes), width)
    requires offset % width == 0 && (offset == 0 || offset + width <= stackBytes)
    ensures Slotted(slots, stackAddress + offset)
  {
    assert WordCaptured(slots, stackAddress, offset);
  }

  /** Exactly the bytes of the window and of the word that is popped are watched. */
  lemma WindowBytes(width: nat, stackAddress: nat, stackBytes: nat, a: nat)
    ensures (exists w :: w in Watching(width, stackAddress, stackBytes) && w.0 <= a < w.1)
       <==> stackAddress <= a && (a < stackAddress + width || a < stackAddress + stackBytes)
  {
    var windows := Watching(width, stackAddress, stackBytes);
    assert windows[0] in windows;
  }

  /** No word of the window starts beyond the last offset that was captured. */
  lemma WindowCovered(slots: seq<Slot>, stackAddress: nat, stackBytes: nat, offset: nat, width: nat)
    requires 0 < width <= offset && stackBytes < offset + width && WordsCaptured(slots, stackAddress, offset, width)
    ensures WordsCaptured(slots, stackAddress, WindowStarts(width, stackBytes), width)
  {
    WordsBelow(slots, stackAddress, WindowStarts(width, stackBytes), offset, width);
  }

  method CaptureWindow(machine: Machine, stackAddress: nat, stackBytes: nat) returns (failure: Option<Status>)
    requires machine.Valid() && stackAddress + stackBytes <= machine.memory.limit
    requires Slotted(machine.memory.stackSlots, stackAddress)
    modifies machine.memory, machine.memory.capture
    ensures machine.Valid() && machine.memory.simulated == old(machine.memory.simulated)
    ensures failure.None? ==>
              WordsCaptured(machine.memory.stackSlots, stackAddress, WindowStarts(machine.memory.width, stackBytes),
                            machine.memory.width)
    ensures failure.Some? ==> Halted(failure.value, machine.memory.capture.struck)
    ensures old(machine.memory.stackSlots) <= machine.memory.stackSlots
  {
    hide Consistent, PagesWellFormed, SlotsTrue, EventsBounded, NamesFit, RegistersFit, WordsCaptured, Slotted;
    var offset := machine.memory.width;
    NoWords(machine.memory.stackSlots, stackAddress, machine.memory.width);
    OneMoreWord(machine.memory.stackSlots, machine.memory.stackSlots, stackAddress, 0, machine.memory.width);
    while offset + machine.memory.width <= stackBytes
      invariant machine.Valid() && machine.memory.simulated == old(machine.memory.simulated)
      invariant old(machine.memory.stackSlots) <= machine.memory.stackSlots
      invariant machine.memory.width <= offset && offset % machine.memory.width == 0
      invariant WordsCaptured(machine.memory.stackSlots, stackAddress, offset, machine.memory.width)
      decreases stackBytes - offset
    {
      var slot;
      ghost var before := machine.memory.stackSlots;
      slot, failure := machine.memory.CaptureSlot(stackAddress + offset);
      if failure.Some? {
        return;
      }
      OneMoreWord(before, machine.memory.stackSlots, stackAddress, offset, machine.memory.width);
      offset := offset + machine.memory.width;
    }
    WindowCovered(machine.memory.stackSlots, stackAddress, stackBytes, offset, machine.memory.width);
    return None;
  }
}
