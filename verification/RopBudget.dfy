/**
 Recorder and native reader together: what a recorded trace costs to read, and when
 the byte budget can refuse it.
 */
module RopBudget {
  import opened Wrappers
  import opened Bytes
  import opened RopMemory
  import opened RopEffects
  import opened RopSemantics
  import opened RopMachine
  import opened RopTrace
  import opened RopReader
  import opened RopView
  import opened RopEndToEnd

  // ---------- Sums of charges ----------

  lemma {:induction false} ChargeAdds(a: nat, b: nat, size: nat)
    ensures Charge(a + b, size) == Charge(a, size) + Charge(b, size)
  {
    if b > 0 {
      ChargeAdds(a, b - 1, size);
    }
  }

  lemma {:induction false} ChargeSplits(count: nat, a: nat, b: nat)
    ensures Charge(count, a + b) == Charge(count, a) + Charge(count, b)
  {
    if count > 0 {
      ChargeSplits(count - 1, a, b);
    }
  }

  lemma ChargeRises(a: nat, b: nat, size: nat)
    requires a <= b
    ensures Charge(a, size) <= Charge(b, size)
  {
    ChargeAdds(a, b - a, size);
  }

  // ---------- The cost of rows ----------

  /** The most that a row can cost beside its accesses. */
  function RowCeiling(s: Sizes, registerCount: nat): nat {
    MAX_BYTES_PER_ROW + MAX_TEXT + 7 + Charge(registerCount, s.change + MAX_NAME)
  }

  lemma {:induction false} NamesCost(s: Sizes, changes: seq<Change>)
    requires forall c :: 0 <= c < |changes| ==> |changes[c].name| <= MAX_NAME
    ensures ChangesCost(s, changes) <= Charge(|changes|, MAX_NAME)
  {
    if changes != [] {
      NamesCost(s, changes[..|changes| - 1]);
    }
  }

  lemma {:induction false} AccessesCostIsCharged(s: Sizes, accesses: seq<Event>)
    requires forall k :: 0 <= k < |accesses| ==> |accesses[k].before| == |accesses[k].after|
    ensures AccessesCost(s, accesses) == EventBytes(accesses)
  {
    if accesses != [] {
      AccessesCostIsCharged(s, accesses[..|accesses| - 1]);
    }
  }

  lemma RowAffordable(s: Sizes, row: Row, limit: nat, registerCount: nat, live: map<nat, Byte>)
    requires RowReadable(row, limit, registerCount, live) && TextsShort([row])
    ensures RowCost(s, row) <= RowCeiling(s, registerCount) + Charge(|row.accesses|, s.access)
            + EventBytes(row.accesses)
  {
    assert [row][0] == row;
    NamesCost(s, row.registerChanges);
    ChargeSplits(|row.registerChanges|, s.change, MAX_NAME);
    ChargeRises(|row.registerChanges|, registerCount, s.change + MAX_NAME);
    AccessesCostIsCharged(s, row.accesses);
  }

  lemma {:induction false} RowsAffordable(s: Sizes, rows: seq<Row>, limit: nat, registerCount: nat,
                                          live: map<nat, Byte>)
    requires TextsShort(rows) && forall k :: 0 <= k < |rows| ==> RowReadable(rows[k], limit, registerCount, live)
    ensures RowsCost(s, rows) <= Charge(|rows|, RowCeiling(s, registerCount)) + Charge(LoggedCount(rows), s.access)
            + LoggedBytes(rows)
  {
    if rows != [] {
      var front, last := rows[..|rows| - 1], rows[|rows| - 1];
      RowsAffordable(s, front, limit, registerCount, live);
      assert TextsShort([last]);
      RowAffordable(s, last, limit, registerCount, live);
      ChargeAdds(LoggedCount(front), |last.accesses|, s.access);
    }
  }

  // ---------- The cost of a trace ----------

  lemma {:induction false} RowsCostJoin(s: Sizes, a: seq<Row>, b: seq<Row>)
    ensures RowsCost(s, a + b) == RowsCost(s, a) + RowsCost(s, b)
  {
    if b == [] {
      assert a + b == a;
    } else {
      assert (a + b)[..|a + b| - 1] == a + b[..|b| - 1];
      RowsCostJoin(s, a, b[..|b| - 1]);
    }
  }

  /** How rows are grouped into nodes does not change what they cost. */
  lemma {:induction false} NodesCostIsRows(s: Sizes, nodes: seq<Node>)
    ensures NodesCost(s, nodes) == Charge(|Rows(nodes)|, s.row) + RowsCost(s, Rows(nodes))
  {
    if nodes != [] {
      var front, last := nodes[..|nodes| - 1], nodes[|nodes| - 1];
      NodesCostIsRows(s, front);
      RowsCostJoin(s, Rows(front), last.rows);
      ChargeAdds(|Rows(front)|, |last.rows|, s.row);
    }
  }

  /** The most that a recorded trace can cost: the request's limits, and the limits on logged effects. */
  function Ceiling(s: Sizes, request: Request, registerCount: nat): nat {
    request.maxNodes * s.node + request.maxInstructions * (s.row + RowCeiling(s, registerCount))
    + MAX_EVENTS * s.access + MAX_BYTES
  }

  /** A recorded trace costs no more than its request and the recorder's limits allow. */
  lemma RecordedIsAffordable(s: Sizes, nodes: seq<Node>, request: Request, limit: nat, registerCount: nat,
                             live: map<nat, Byte>)
    requires NodesReadable(nodes, limit, registerCount, live) && TextsShort(Rows(nodes))
    requires |nodes| <= request.maxNodes && |Rows(nodes)| <= request.maxInstructions
    requires Afforded(Rows(nodes), MAX_BYTES, MAX_EVENTS)
    ensures Cost(s, nodes) <= Ceiling(s, request, registerCount)
  {
    hide Ceiling, Charge, RowCeiling, RowsCost, NodesCost, Rows, LoggedBytes, LoggedCount, NodeReadable, RowReadable;
    var rows := Rows(nodes);
    forall k | 0 <= k < |rows| ensures RowReadable(rows[k], limit, registerCount, live) {
      RowsReadable(nodes, limit, registerCount, live, k);
    }
    RowsAffordable(s, rows, limit, registerCount, live);
    NodesCostIsRows(s, nodes);
    ChargeSplits(|rows|, s.row, RowCeiling(s, registerCount));
    ChargeRises(|rows|, request.maxInstructions, s.row + RowCeiling(s, registerCount));
    ChargeRises(|nodes|, request.maxNodes, s.node);
    ChargeRises(LoggedCount(rows), MAX_EVENTS, s.access);
    CeilingIsCharge(s, request, registerCount);
  }

  lemma CeilingIsCharge(s: Sizes, request: Request, registerCount: nat)
    ensures Ceiling(s, request, registerCount) ==
            Charge(request.maxNodes, s.node) + Charge(request.maxInstructions, s.row + RowCeiling(s, registerCount))
            + Charge(MAX_EVENTS, s.access) + MAX_BYTES
  {
    hide Charge, RowCeiling;
    ChargeIsProduct(request.maxNodes, s.node);
    ChargeIsProduct(request.maxInstructions, s.row + RowCeiling(s, registerCount));
    ChargeIsProduct(MAX_EVENTS, s.access);
  }

  /** With the default limits of a request, half the budget is enough for the nodes of any recorded trace. */
  lemma DefaultsFit(s: Sizes, registerCount: nat)
    requires s.node <= 256 && s.row <= 512 && s.change <= 128 && s.access <= 256 && registerCount <= 32
    ensures Ceiling(s, Request(256, 64), registerCount) * 2 <= MAX_TRACE_BYTES
  {
    ChargeIsProduct(registerCount, s.change + MAX_NAME);
    Products(registerCount, 32, s.change + MAX_NAME, 256);
  }

  lemma Products(a: nat, b: nat, c: nat, d: nat)
    requires a <= b && c <= d
    ensures a * c <= b * d
  {
    assert a * c <= b * c;
    assert b * c <= b * d;
  }

  // ---------- Texts ----------

  lemma {:induction false} ChangesNamed(names: seq<string>, before: map<string, nat>, after: map<string, nat>)
    requires forall i :: 0 <= i < |names| ==> names[i] in before && names[i] in after
    ensures forall c :: 0 <= c < |Changes(names, before, after)| ==> Changes(names, before, after)[c].name in names
  {
    if names != [] {
      ChangesNamed(names[..|names| - 1], before, after);
    }
  }

  /** The disassembler's texts keep within the reader's limit. */
  predicate ScriptShort(script: seq<Turn>) {
    forall i :: 0 <= i < |script| && script[i].shape.Some? ==> |script[i].shape.value.text| <= MAX_TEXT
  }

  predicate NamesShort(names: seq<string>) {
    forall i :: 0 <= i < |names| ==> |names[i]| <= MAX_NAME
  }

  /** Rows show what the script disassembles, and change registers by their names only. */
  lemma RecordedTextsShort(rows: seq<Row>, history: seq<Machined>, script: seq<Turn>, cpu: Processor)
    requires Recorded(rows, history, cpu.pcName, cpu.spName) && |history| - 1 <= |script|
    requires Scripted(rows, history, script[..|history| - 1], cpu) && PendingFromScript(rows, history, script, cpu)
    requires ScriptShort(script) && NamesShort(cpu.names)
    ensures TextsShort(rows)
  {
    var done := |history| - 1;
    HistoryLength(rows, history, cpu.pcName, cpu.spName);
    forall k | 0 <= k < |rows|
      ensures |rows[k].text| <= MAX_TEXT
      ensures forall c :: 0 <= c < |rows[k].registerChanges| ==> |rows[k].registerChanges[c].name| <= MAX_NAME
    {
      if k < done {
        assert DrivenAt(rows, history, script[..done], cpu, k);
        ChangesNamed(cpu.names, history[k].registers, history[k + 1].registers);
      }
    }
  }

  // ---------- Recording and reading ----------

  /**
   Trace from a stack address and read the trace natively: no field is ever invalid,
   and the byte budget refuses only what exceeds the ceiling of the request. `charged`
   is what the registers and slots before the nodes have cost already.
   */
  method RecordAndRead(machine: Machine, stackAddress: nat, stackBytes: nat, request: Request, sizes: Sizes,
                       charged: nat, script: seq<Turn>, source: (nat, nat))
    returns (status: Status, trace: Trace, refusal: Option<Refusal>, ghost history: seq<Machined>)
    requires machine.Valid() && machine.pcName != machine.spName
             && machine.memory.simulated == machine.memory.capture.live
    requires stackAddress < WORD_LIMIT && stackAddress + machine.memory.width <= machine.memory.limit
    requires stackAddress + stackBytes <= machine.memory.limit && sizes.Valid() && charged <= MAX_TRACE_BYTES
    requires forall i :: 0 <= i < |script| && script[i].shape.Some? ==> 0 < |script[i].shape.value.bytes|
    requires ScriptShort(script) && NamesShort(machine.names) && |machine.names| <= MAX_REGISTERS
    modifies machine, machine.memory, machine.memory.capture
    ensures machine.Valid() && Records(trace, history, machine, stackAddress, stackBytes, old(machine.registers),
                                       script)
    ensures TraceEnds(status, trace, history, script, request.maxInstructions, request.maxNodes,
                      machine.memory.capture.struck,
                      machine.Cpu(Watching(machine.memory.width, stackAddress, stackBytes)),
                      machine.memory.capture.live)
    ensures trace.initialRegisters == [] && stackAddress !in old(machine.memory.slots) ==>
              Halted(status, machine.memory.capture.struck) || machine.memory.Unreadable(stackAddress)
    ensures Acceptable(trace.nodes, request) && refusal != Some(InvalidField)
    ensures refusal == Some(TooLarge) <==> charged + Cost(sizes, trace.nodes) > MAX_TRACE_BYTES
    ensures charged + Ceiling(sizes, request, |machine.names|) <= MAX_TRACE_BYTES ==> refusal == None
  {
    hide Consistent, PagesWellFormed, SlotsTrue, EventsKnown, EventsBounded, NamesFit, RegistersFit, Charged,
         SlotsCover, SlotsChained, TraceEnds, Scripted, Recorded, PendingFromScript, TextsShort, Afforded, Acceptable,
         Ceiling, Cost, NodesShaped, ShowsFetched;
    status, trace, history := RecordTrace(machine, stackAddress, stackBytes, request.maxInstructions, request.maxNodes,
                                          script, source);
    ghost var live, limit, count := machine.memory.capture.live, machine.memory.limit, |machine.names|;
    ghost var cpu := machine.Cpu(Watching(machine.memory.width, stackAddress, stackBytes));
    RecordedTextsShort(Rows(trace.nodes), history, script, cpu);
    RecordedIsAcceptable(trace.nodes, request, limit, count, live);
    RecordedIsAffordable(sizes, trace.nodes, request, limit, count, live);
    var reader := new TraceReader(sizes, request, charged);
    refusal := reader.ReadNodes(trace.nodes);
  }
}
