/**
 The native reader of a recorded trace: it bounds nodes, rows and bytes before
 copying anything.
 */
module RopReader {
  import opened Wrappers
  import opened Bytes
  import opened RopEffects
  import opened RopMachine
  import opened RopTrace

  const MAX_TRACE_BYTES: nat := 64 * 1024 * 1024
  const MAX_ACCESS_BYTES: nat := 65536
  const MAX_REGISTERS: nat := 256
  const MAX_NAME: nat := 128
  const MAX_TEXT: nat := 4096
  const MAX_BYTES_PER_ROW: nat := 15

  datatype Refusal = InvalidField | TooLarge

  /** Sizes of the native records, which the byte budget charges. */
  datatype Sizes = Sizes(node: nat, row: nat, change: nat, access: nat)
  {
    predicate Valid() { 0 < node && 0 < row && 0 < change && 0 < access }
  }

  datatype Request = Request(maxInstructions: nat, maxNodes: nat)

  // ---------- Which traces are acceptable ----------

  predicate ChangeValid(c: Change) {
    |c.name| <= MAX_NAME && c.before < WORD_LIMIT && c.after < WORD_LIMIT
  }

  predicate AccessValid(e: Event) {
    e.address < WORD_LIMIT && |e.before| <= MAX_ACCESS_BYTES && |e.after| <= MAX_ACCESS_BYTES
  }

  predicate ChangesValid(changes: seq<Change>) {
    changes == [] || (ChangesValid(changes[..|changes| - 1]) && ChangeValid(changes[|changes| - 1]))
  }

  predicate AccessesValid(accesses: seq<Event>) {
    accesses == [] || (AccessesValid(accesses[..|accesses| - 1]) && AccessValid(accesses[|accesses| - 1]))
  }

  predicate RowValid(row: Row) {
    && row.address < WORD_LIMIT && row.nextAddress < WORD_LIMIT && row.spBefore < WORD_LIMIT && row.spAfter < WORD_LIMIT
    && |row.bytes| <= MAX_BYTES_PER_ROW && |row.text| <= MAX_TEXT
    && |row.registerChanges| <= MAX_REGISTERS && |row.accesses| <= MAX_TRACE_BYTES
    && ChangesValid(row.registerChanges) && AccessesValid(row.accesses)
  }

  predicate RowsValid(rows: seq<Row>) {
    rows == [] || (RowsValid(rows[..|rows| - 1]) && RowValid(rows[|rows| - 1]))
  }

  predicate NodeValid(node: Node) {
    && node.entryAddress < WORD_LIMIT && node.entrySp < WORD_LIMIT
    && (node.stackSlot.Some? ==> node.stackSlot.value < WORD_LIMIT)
    && RowsValid(node.rows)
  }

  predicate NodesValid(nodes: seq<Node>) {
    nodes == [] || (NodesValid(nodes[..|nodes| - 1]) && NodeValid(nodes[|nodes| - 1]))
  }

  /** Every field is in range, and nodes and rows stay within the request. */
  predicate Acceptable(nodes: seq<Node>, request: Request) {
    && |nodes| <= request.maxNodes && |Rows(nodes)| <= request.maxInstructions
    && NodesValid(nodes)
  }

  // ---------- What a trace costs ----------

  /** `count` records of one size. */
  function Charge(count: nat, size: nat): nat {
    if count == 0 then 0 else Charge(count - 1, size) + size
  }

  lemma {:induction false} ChargeIsProduct(count: nat, size: nat)
    ensures Charge(count, size) == count * size
  {
    if count > 0 {
      ChargeIsProduct(count - 1, size);
    }
  }

  function ChangesCost(s: Sizes, changes: seq<Change>): nat {
    if changes == [] then 0 else ChangesCost(s, changes[..|changes| - 1]) + |changes[|changes| - 1].name|
  }

  function AccessesCost(s: Sizes, accesses: seq<Event>): nat {
    if accesses == [] then 0
    else
      var last := accesses[|accesses| - 1];
      AccessesCost(s, accesses[..|accesses| - 1]) + |last.before| + |last.after|
  }

  function FlowText(flow: Flow): string {
    match flow
    case Normal => "normal"
    case Return => "return"
    case Call => "call"
    case Jump => "jump"
    case Branch => "branch"
    case Syscall => "syscall"
    case Stop => "stop"
  }

  function RowCost(s: Sizes, row: Row): nat {
    |row.bytes| + |row.text| + |FlowText(row.flow)|
    + Charge(|row.registerChanges|, s.change) + ChangesCost(s, row.registerChanges)
    + Charge(|row.accesses|, s.access) + AccessesCost(s, row.accesses)
  }

  function RowsCost(s: Sizes, rows: seq<Row>): nat {
    if rows == [] then 0 else RowsCost(s, rows[..|rows| - 1]) + RowCost(s, rows[|rows| - 1])
  }

  function NodeCost(s: Sizes, node: Node): nat {
    Charge(|node.rows|, s.row) + RowsCost(s, node.rows)
  }

  function NodesCost(s: Sizes, nodes: seq<Node>): nat {
    if nodes == [] then 0 else NodesCost(s, nodes[..|nodes| - 1]) + NodeCost(s, nodes[|nodes| - 1])
  }

  function Cost(s: Sizes, nodes: seq<Node>): nat {
    Charge(|nodes|, s.node) + NodesCost(s, nodes)
  }

  // ---------- The reader ----------

  class TraceReader {
    const sizes: Sizes
    const request: Request
    var bytesLeft: nat
    var instructionsLeft: nat

    /** A reader that has come to the nodes: `charged` bytes went to what stands before them. */
    constructor (sizes: Sizes, request: Request, charged: nat)
      requires sizes.Valid() && charged <= MAX_TRACE_BYTES
      ensures this.sizes == sizes && this.request == request
      ensures bytesLeft == MAX_TRACE_BYTES - charged && instructionsLeft == request.maxInstructions
    {
      this.sizes, this.request := sizes, request;
      bytesLeft, instructionsLeft := MAX_TRACE_BYTES - charged, request.maxInstructions;
    }

    /** Charge the byte budget, or refuse without charging. */
    method Consume(bytes: nat) returns (refusal: Option<Refusal>)
      modifies `bytesLeft
      ensures refusal.None? <==> bytes <= old(bytesLeft)
      ensures refusal.None? ==> bytesLeft == old(bytesLeft) - bytes
      ensures refusal.Some? ==> refusal.value == TooLarge && bytesLeft == old(bytesLeft)
    {
      if bytes > bytesLeft {
        return Some(TooLarge);
      }
      bytesLeft := bytesLeft - bytes;
      return None;
    }

    /** The length checks of a list, before any element is read. */
    method OpenSequence(length: nat, maximum: nat, size: nat) returns (refusal: Option<Refusal>)
      requires 0 < size
      modifies `bytesLeft
      ensures refusal.None? <==> length <= maximum && Charge(length, size) <= old(bytesLeft)
      ensures refusal.None? ==> bytesLeft == old(bytesLeft) - Charge(length, size)
      ensures refusal.Some? ==> bytesLeft == old(bytesLeft)
      ensures refusal == Some(InvalidField) ==> length > maximum
      ensures refusal == Some(TooLarge) ==> Charge(length, size) > old(bytesLeft)
    {
      if length > maximum {
        return Some(InvalidField);
      }
      DivisionBound(length, bytesLeft, size);
      ChargeIsProduct(length, size);
      if length > bytesLeft / size {
        return Some(TooLarge);
      }
      refusal := Consume(length * size);
    }

    /** An outcome is exactly right: accepted and charged, out of range, or over budget. */
    static ghost predicate Settled(refusal: Option<Refusal>, valid: bool, cost: nat, before: nat, after: nat) {
      match refusal
      case None => valid && cost <= before && after == before - cost
      case Some(InvalidField) => !valid
      case Some(TooLarge) => cost > before
    }

    method ReadChanges(changes: seq<Change>) returns (refusal: Option<Refusal>)
      requires sizes.Valid()
      modifies `bytesLeft
      ensures Settled(refusal, |changes| <= MAX_REGISTERS && ChangesValid(changes),
                      Charge(|changes|, sizes.change) + ChangesCost(sizes, changes), old(bytesLeft), bytesLeft)
    {
      refusal := OpenSequence(|changes|, MAX_REGISTERS, sizes.change);
      if refusal.Some? {
        return;
      }
      ghost var opened' := bytesLeft;
      for i := 0 to |changes|
        invariant ChangesValid(changes[..i])
        invariant bytesLeft + ChangesCost(sizes, changes[..i]) == opened'
      {
        ChangesCostStep(sizes, changes, i);
        if !ChangeValid(changes[i]) {
          return Some(InvalidField);
        }
        refusal := Consume(|changes[i].name|);
        if refusal.Some? {
          return;
        }
      }
      assert changes[..|changes|] == changes;
      return None;
    }

    method ReadAccesses(accesses: seq<Event>) returns (refusal: Option<Refusal>)
      requires sizes.Valid()
      modifies `bytesLeft
      ensures Settled(refusal, |accesses| <= MAX_TRACE_BYTES && AccessesValid(accesses),
                      Charge(|accesses|, sizes.access) + AccessesCost(sizes, accesses), old(bytesLeft), bytesLeft)
    {
      refusal := OpenSequence(|accesses|, MAX_TRACE_BYTES, sizes.access);
      if refusal.Some? {
        return;
      }
      ghost var opened' := bytesLeft;
      for i := 0 to |accesses|
        invariant AccessesValid(accesses[..i])
        invariant bytesLeft + AccessesCost(sizes, accesses[..i]) == opened'
      {
        AccessesCostStep(sizes, accesses, i);
        if !AccessValid(accesses[i]) {
          return Some(InvalidField);
        }
        refusal := Consume(|accesses[i].before|);
        if refusal.None? {
          refusal := Consume(|accesses[i].after|);
        }
        if refusal.Some? {
          return;
        }
      }
      assert accesses[..|accesses|] == accesses;
      return None;
    }

    /** The scalar fields, bytes and texts of a row. */
    method ReadRowHead(row: Row) returns (refusal: Option<Refusal>)
      modifies `bytesLeft
      ensures Settled(refusal, HeadValid(row), |row.bytes| + |row.text| + |FlowText(row.flow)|, old(bytesLeft),
                      bytesLeft)
    {
      if !HeadValid(row) {
        return Some(InvalidField);
      }
      refusal := Consume(|row.bytes|);
      if refusal.None? {
        refusal := Consume(|row.text|);
      }
      if refusal.None? {
        refusal := Consume(|FlowText(row.flow)|);
      }
    }

    method ReadRow(row: Row) returns (refusal: Option<Refusal>)
      requires sizes.Valid()
      modifies `bytesLeft
      ensures Settled(refusal, RowValid(row), RowCost(sizes, row), old(bytesLeft), bytesLeft)
    {
      refusal := ReadRowHead(row);
      if refusal.None? {
        refusal := ReadChanges(row.registerChanges);
      }
      if refusal.None? {
        refusal := ReadAccesses(row.accesses);
      }
    }

    method ReadRows(rows: seq<Row>) returns (refusal: Option<Refusal>)
      requires sizes.Valid()
      modifies `bytesLeft
      ensures Settled(refusal, RowsValid(rows), RowsCost(sizes, rows), old(bytesLeft), bytesLeft)
    {
      for i := 0 to |rows|
        invariant RowsValid(rows[..i])
        invariant bytesLeft + RowsCost(sizes, rows[..i]) == old(bytesLeft)
      {
        RowsCostStep(sizes, rows, i);
        refusal := ReadRow(rows[i]);
        if refusal.Some? {
          return;
        }
      }
      assert rows[..|rows|] == rows;
      return None;
    }

    method ReadNode(node: Node) returns (refusal: Option<Refusal>)
      requires sizes.Valid()
      modifies `bytesLeft, `instructionsLeft
      ensures Settled(refusal, NodeValid(node) && |node.rows| <= old(instructionsLeft), NodeCost(sizes, node),
                      old(bytesLeft), bytesLeft)
      ensures refusal.None? ==> instructionsLeft == old(instructionsLeft) - |node.rows|
    {
      if node.entryAddress >= WORD_LIMIT || node.entrySp >= WORD_LIMIT
         || (node.stackSlot.Some? && node.stackSlot.value >= WORD_LIMIT) {
        return Some(InvalidField);
      }
      refusal := OpenSequence(|node.rows|, instructionsLeft, sizes.row);
      if refusal.None? {
        refusal := ReadRows(node.rows);
      }
      if refusal.None? {
        instructionsLeft := instructionsLeft - |node.rows|;
      }
    }

    /** Read the nodes of a trace: accepted exactly when acceptable and affordable. */
    method ReadNodes(nodes: seq<Node>) returns (refusal: Option<Refusal>)
      requires sizes.Valid() && instructionsLeft == request.maxInstructions
      modifies `bytesLeft, `instructionsLeft
      ensures Settled(refusal, Acceptable(nodes, request), Cost(sizes, nodes), old(bytesLeft), bytesLeft)
    {
      refusal := OpenSequence(|nodes|, request.maxNodes, sizes.node);
      if refusal.None? {
        refusal := ReadEach(nodes);
      }
    }

    method ReadEach(nodes: seq<Node>) returns (refusal: Option<Refusal>)
      requires sizes.Valid() && instructionsLeft == request.maxInstructions
      modifies `bytesLeft, `instructionsLeft
      ensures Settled(refusal, |Rows(nodes)| <= request.maxInstructions && NodesValid(nodes),
                      NodesCost(sizes, nodes), old(bytesLeft), bytesLeft)
    {
      for i := 0 to |nodes|
        invariant NodesValid(nodes[..i])
        invariant instructionsLeft + |Rows(nodes[..i])| == request.maxInstructions
        invariant bytesLeft + NodesCost(sizes, nodes[..i]) == old(bytesLeft)
      {
        NodesCostStep(sizes, nodes, i);
        refusal := ReadNode(nodes[i]);
        if refusal.Some? {
          return;
        }
      }
      assert nodes[..|nodes|] == nodes;
      return None;
    }
  }

  predicate HeadValid(row: Row) {
    && row.address < WORD_LIMIT && row.nextAddress < WORD_LIMIT && row.spBefore < WORD_LIMIT && row.spAfter < WORD_LIMIT
    && |row.bytes| <= MAX_BYTES_PER_ROW && |row.text| <= MAX_TEXT
  }

  /** One more element: what it adds to the cost and to the validity of the list. */
  lemma {:induction false} ChangesCostStep(s: Sizes, changes: seq<Change>, i: nat)
    requires i < |changes|
    ensures ChangesCost(s, changes[..i + 1]) == ChangesCost(s, changes[..i]) + |changes[i].name|
    ensures ChangesCost(s, changes[..i + 1]) <= ChangesCost(s, changes)
    ensures ChangesValid(changes[..i + 1]) <==> ChangesValid(changes[..i]) && ChangeValid(changes[i])
    ensures ChangesValid(changes) ==> ChangesValid(changes[..i + 1])
    decreases |changes| - i
  {
    assert changes[..i + 1][..i] == changes[..i];
    if i + 1 < |changes| {
      ChangesCostStep(s, changes, i + 1);
    } else {
      assert changes[..i + 1] == changes;
    }
  }

  /** One more element: what it adds to the cost and to the validity of the list. */
  lemma {:induction false} AccessesCostStep(s: Sizes, accesses: seq<Event>, i: nat)
    requires i < |accesses|
    ensures AccessesCost(s, accesses[..i + 1])
            == AccessesCost(s, accesses[..i]) + |accesses[i].before| + |accesses[i].after|
    ensures AccessesCost(s, accesses[..i + 1]) <= AccessesCost(s, accesses)
    ensures AccessesValid(accesses[..i + 1]) <==> AccessesValid(accesses[..i]) && AccessValid(accesses[i])
    ensures AccessesValid(accesses) ==> AccessesValid(accesses[..i + 1])
    decreases |accesses| - i
  {
    assert accesses[..i + 1][..i] == accesses[..i];
    if i + 1 < |accesses| {
      AccessesCostStep(s, accesses, i + 1);
    } else {
      assert accesses[..i + 1] == accesses;
    }
  }

  /** One more element: what it adds to the cost and to the validity of the list. */
  lemma {:induction false} RowsCostStep(s: Sizes, rows: seq<Row>, i: nat)
    requires i < |rows|
    ensures RowsCost(s, rows[..i + 1]) == RowsCost(s, rows[..i]) + RowCost(s, rows[i])
    ensures RowsCost(s, rows[..i + 1]) <= RowsCost(s, rows)
    ensures RowsValid(rows[..i + 1]) <==> RowsValid(rows[..i]) && RowValid(rows[i])
    ensures RowsValid(rows) ==> RowsValid(rows[..i + 1])
    decreases |rows| - i
  {
    assert rows[..i + 1][..i] == rows[..i];
    if i + 1 < |rows| {
      RowsCostStep(s, rows, i + 1);
    } else {
      assert rows[..i + 1] == rows;
    }
  }

  /** One more element: what it adds to the cost and to the validity of the list. */
  lemma {:induction false} NodesCostStep(s: Sizes, nodes: seq<Node>, i: nat)
    requires i < |nodes|
    ensures NodesCost(s, nodes[..i + 1]) == NodesCost(s, nodes[..i]) + NodeCost(s, nodes[i])
    ensures NodesCost(s, nodes[..i + 1]) <= NodesCost(s, nodes)
    ensures NodesValid(nodes[..i + 1]) <==> NodesValid(nodes[..i]) && NodeValid(nodes[i])
    ensures NodesValid(nodes) ==> NodesValid(nodes[..i + 1])
    ensures |Rows(nodes[..i + 1])| == |Rows(nodes[..i])| + |nodes[i].rows|
    ensures |Rows(nodes[..i + 1])| <= |Rows(nodes)|
    decreases |nodes| - i
  {
    assert nodes[..i + 1][..i] == nodes[..i];
    if i + 1 < |nodes| {
      NodesCostStep(s, nodes, i + 1);
    } else {
      assert nodes[..i + 1] == nodes;
    }
  }

  lemma DivisionBound(length: nat, budget: nat, size: nat)
    requires 0 < size
    ensures length <= budget / size <==> length * size <= budget
  {
    assert budget == (budget / size) * size + budget % size;
    if length <= budget / size {
      assert length * size <= (budget / size) * size;
    } else {
      assert (budget / size + 1) * size <= length * size;
      assert (budget / size + 1) * size == (budget / size) * size + size;
    }
  }

  // ---------- Recorder and reader agree ----------

  /** Disassembly text and register names keep within the reader's text limits. */
  ghost predicate TextsShort(rows: seq<Row>) {
    forall k :: 0 <= k < |rows| ==>
      && |rows[k].text| <= MAX_TEXT
      && forall c :: 0 <= c < |rows[k].registerChanges| ==> |rows[k].registerChanges[c].name| <= MAX_NAME
  }

  lemma RecordedRowValid(row: Row, limit: nat, registerCount: nat, live: map<nat, Byte>)
    requires RowReadable(row, limit, registerCount, live) && registerCount <= MAX_REGISTERS
    requires |row.text| <= MAX_TEXT
    requires forall c :: 0 <= c < |row.registerChanges| ==> |row.registerChanges[c].name| <= MAX_NAME
    ensures RowValid(row)
  {
    AllChangesValid(row.registerChanges);
    AllAccessesValid(row.accesses, limit, live);
  }

  lemma {:induction false} AllChangesValid(changes: seq<Change>)
    requires forall k :: 0 <= k < |changes| ==> ChangeValid(changes[k])
    ensures ChangesValid(changes)
  {
    if changes != [] {
      AllChangesValid(changes[..|changes| - 1]);
    }
  }

  lemma {:induction false} AllAccessesValid(accesses: seq<Event>, limit: nat, live: map<nat, Byte>)
    requires EventsBounded(accesses, limit, live)
    ensures AccessesValid(accesses)
  {
    if accesses != [] {
      AllAccessesValid(accesses[..|accesses| - 1], limit, live);
    }
  }

  lemma {:induction false} AllRowsValid(rows: seq<Row>, limit: nat, registerCount: nat, live: map<nat, Byte>)
    requires registerCount <= MAX_REGISTERS && TextsShort(rows)
    requires forall k :: 0 <= k < |rows| ==> RowReadable(rows[k], limit, registerCount, live)
    ensures RowsValid(rows)
  {
    if rows != [] {
      AllRowsValid(rows[..|rows| - 1], limit, registerCount, live);
      RecordedRowValid(rows[|rows| - 1], limit, registerCount, live);
    }
  }

  /**
   A recorded trace within the request's limits is always acceptable: reading it
   back can fail on the byte budget only, never on a node, row or field limit.
   */
  lemma RecordedIsAcceptable(nodes: seq<Node>, request: Request, limit: nat, registerCount: nat, live: map<nat, Byte>)
    requires NodesReadable(nodes, limit, registerCount, live) && registerCount <= MAX_REGISTERS
    requires |nodes| <= request.maxNodes && |Rows(nodes)| <= request.maxInstructions
    requires TextsShort(Rows(nodes))
    ensures Acceptable(nodes, request)
  {
    AllNodesValid(nodes, limit, registerCount, live);
  }

  lemma {:induction false} AllNodesValid(nodes: seq<Node>, limit: nat, registerCount: nat, live: map<nat, Byte>)
    requires NodesReadable(nodes, limit, registerCount, live) && registerCount <= MAX_REGISTERS
    requires TextsShort(Rows(nodes))
    ensures NodesValid(nodes)
  {
    if nodes != [] {
      var front, last := nodes[..|nodes| - 1], nodes[|nodes| - 1];
      assert NodeReadable(last, limit, registerCount, live);
      forall k | 0 <= k < |Rows(front)| ensures Rows(nodes)[k] == Rows(front)[k] {
      }
      AllNodesValid(front, limit, registerCount, live);
      forall k | 0 <= k < |last.rows| ensures Rows(nodes)[|Rows(front)| + k] == last.rows[k] {
      }
      assert TextsShort(last.rows) by {
        assert last.rows == Rows(nodes)[|Rows(front)|..];
      }
      AllRowsValid(last.rows, limit, registerCount, live);
    }
  }
}
