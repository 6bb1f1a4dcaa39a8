/**
 The time-travel viewer: it replays the recorded effects of the instructions
 before the cursor into word-sized stack slots and registers.
 */
module RopView {
  import opened Wrappers
  import opened Bytes
  import opened RopMemory
  import opened RopEffects
  import opened RopMachine
  import opened RopTrace

  // ---------- Bytes of a word ----------

  /** Byte k of a word, least significant first. */
  function ByteOf(word: nat, k: nat): Byte {
    if k == 0 then word % 256 else ByteOf(word / 256, k - 1)
  }

  /** The word with byte k replaced: `(word & ~(0xff << 8k)) | (b << 8k)`. */
  function WithByte(word: nat, k: nat, b: Byte): nat {
    if k == 0 then word / 256 * 256 + b else WithByte(word / 256, k - 1, b) * 256 + word % 256
  }

  lemma {:induction false} WithByteAt(word: nat, k: nat, b: Byte, j: nat)
    ensures ByteOf(WithByte(word, k, b), j) == if j == k then b else ByteOf(word, j)
  {
    var next := WithByte(word, k, b);
    if k == 0 {
      assert next % 256 == b && next / 256 == word / 256;
    } else {
      assert next % 256 == word % 256 && next / 256 == WithByte(word / 256, k - 1, b);
      if j > 0 {
        WithByteAt(word / 256, k - 1, b, j - 1);
      }
    }
  }

  lemma {:induction false} LittleEndianByte(bytes: seq<Byte>, k: nat)
    requires k < |bytes|
    ensures ByteOf(LittleEndian(bytes), k) == bytes[k]
  {
    var word := LittleEndian(bytes);
    assert word % 256 == bytes[0] && word / 256 == LittleEndian(bytes[1..]);
    if k > 0 {
      LittleEndianByte(bytes[1..], k - 1);
    }
  }

  /** Replacing a byte of a word that fits leaves one that fits. */
  lemma {:induction false} WithByteFits(word: nat, k: nat, b: Byte, size: nat)
    requires k < size && word < ByteCapacity(size)
    ensures WithByte(word, k, b) < ByteCapacity(size)
  {
    var high := if k == 0 then word / 256 else WithByte(word / 256, k - 1, b);
    var low: Byte := if k == 0 then b else word % 256;
    assert high < ByteCapacity(size - 1) by {
      assert word / 256 < ByteCapacity(size - 1);
      if k > 0 {
        WithByteFits(word / 256, k - 1, b, size - 1);
      }
    }
    assert WithByte(word, k, b) == high * 256 + low;
  }

  /** A word that fits is the little-endian value of its bytes. */
  lemma {:induction false} WordOfBytes(word: nat, bytes: seq<Byte>)
    requires word < ByteCapacity(|bytes|) && forall k :: 0 <= k < |bytes| ==> ByteOf(word, k) == bytes[k]
    ensures word == LittleEndian(bytes)
  {
    if bytes != [] {
      forall k | 0 <= k < |bytes[1..]| ensures ByteOf(word / 256, k) == bytes[1..][k] {
        assert ByteOf(word, k + 1) == bytes[k + 1];
      }
      WordOfBytes(word / 256, bytes[1..]);
      assert ByteOf(word, 0) == bytes[0];
    }
  }

  // ---------- What the log says about one byte ----------

  predicate Covers(address: int, start: nat, size: nat) {
    start <= address < start + size
  }

  /** The byte the last logged store left at an address. */
  function LastWrite(events: seq<Event>, a: nat): Option<Byte> {
    if events == [] then None
    else
      var last := events[|events| - 1];
      if last.write && Covers(a, last.address, |last.after|) then Some(last.after[a - last.address])
      else LastWrite(events[..|events| - 1], a)
  }

  /** The log of all completed instructions among the first `cursor` rows. */
  function LogBefore(steps: seq<Row>, cursor: nat): seq<Event>
    requires cursor <= |steps|
  {
    if cursor == 0 then []
    else LogBefore(steps, cursor - 1) + if steps[cursor - 1].completed then steps[cursor - 1].accesses else []
  }

  function ChangesBefore(steps: seq<Row>, cursor: nat): seq<Change>
    requires cursor <= |steps|
  {
    if cursor == 0 then []
    else ChangesBefore(steps, cursor - 1) + if steps[cursor - 1].completed then steps[cursor - 1].registerChanges
                                            else []
  }

  /** Replaying a log leaves at each address what its last store put there. */
  lemma {:induction false} ReplayIsLastWrite(m: map<nat, Byte>, events: seq<Event>, a: nat)
    requires a in m
    ensures a in Replay(m, events)
    ensures Replay(m, events)[a] == match LastWrite(events, a) case Some(b) => b case None => m[a]
  {
    ReplayKeys(m, events);
    if events != [] {
      ReplayKeys(m, events[..|events| - 1]);
      ReplayIsLastWrite(m, events[..|events| - 1], a);
    }
  }

  // ---------- Slots ----------

  /** A displayed slot; `known` is the mask of its known bytes. */
  datatype SlotRow = SlotRow(slot: Slot, value: nat, readable: bool, changed: bool, known: set<nat>)

  function CompleteWord(pointerSize: nat): (s: set<nat>)
    ensures forall k :: k in s <==> 0 <= k < pointerSize
  {
    if pointerSize == 0 then {} else CompleteWord(pointerSize - 1) + {pointerSize - 1}
  }

  function Initial(slot: Slot, pointerSize: nat): SlotRow {
    SlotRow(slot, slot.value, slot.readable, false, if slot.readable then CompleteWord(pointerSize) else {})
  }

  /** Byte `offset` of a slot shows the log's last store there, else the captured byte. */
  ghost predicate ByteShows(row: SlotRow, events: seq<Event>, offset: nat) {
    match LastWrite(events, row.slot.address + offset)
    case Some(b) => offset in row.known && ByteOf(row.value, offset) == b
    case None =>
      && (offset in row.known <==> row.slot.readable)
      && ByteOf(row.value, offset) == ByteOf(row.slot.value, offset)
  }

  /** The log stored to byte `offset` of the slot at an address. */
  ghost predicate Stored(events: seq<Event>, address: nat, offset: nat) {
    LastWrite(events, address + offset).Some?
  }

  /** The value stays within the pointer size if the captured one was. */
  ghost predicate Fits(row: SlotRow, pointerSize: nat) {
    row.slot.value < ByteCapacity(pointerSize) ==> row.value < ByteCapacity(pointerSize)
  }

  /** A slot is readable exactly when each of its bytes was captured or written. */
  ghost predicate SlotShows(row: SlotRow, events: seq<Event>, pointerSize: nat) {
    && (forall offset :: 0 <= offset < pointerSize ==> ByteShows(row, events, offset))
    && (row.readable <==> row.known == CompleteWord(pointerSize))
    && (row.changed <==> exists offset :: 0 <= offset < pointerSize && Stored(events, row.slot.address, offset))
    && row.known <= CompleteWord(pointerSize) && Fits(row, pointerSize)
  }

  lemma InitialShows(slot: Slot, pointerSize: nat)
    requires 0 < pointerSize
    ensures SlotShows(Initial(slot, pointerSize), [], pointerSize)
  {
    assert 0 in CompleteWord(pointerSize);
    assert forall offset :: 0 <= offset < pointerSize ==> !Stored([], slot.address, offset);
  }

  /** The bytes before `offset` show the access, the others do not yet. */
  ghost predicate Partly(row: SlotRow, row0: SlotRow, access: Event, events: seq<Event>, offset: nat,
                         pointerSize: nat) {
    && row.slot == row0.slot && row.known <= CompleteWord(pointerSize) && Fits(row, pointerSize)
    && (forall k :: 0 <= k < offset ==> ByteShows(row, events + [access], k))
    && (forall k :: offset <= k < pointerSize ==> ByteShows(row, events, k))
    && (row.changed <==> row0.changed || exists k :: 0 <= k < offset && Hits(access, row.slot.address, k))
  }

  /** Store the covered bytes of one access into a slot, then settle whether it is readable. */
  method UpdateSlot(row0: SlotRow, access: Event, pointerSize: nat, ghost events: seq<Event>) returns (row: SlotRow)
    requires SlotShows(row0, events, pointerSize) && access.write && pointerSize <= 8
    requires access.address + |access.after| <= WORD_LIMIT && |access.after| <= MAX_ACCESS
    requires row0.slot.address < WORD_LIMIT && row0.slot.address < access.address + |access.after|
    ensures row.slot == row0.slot && SlotShows(row, events + [access], pointerSize)
  {
    row := row0;
    for offset := 0 to pointerSize
      invariant Partly(row, row0, access, events, offset, pointerSize)
    {
      row := UpdateByte(row, row0, access, offset, pointerSize, events);
    }
    ghost var filled := row;
    row := row.(readable := row.known == CompleteWord(pointerSize));
    forall k | 0 <= k < pointerSize ensures ByteShows(row, events + [access], k) {
      assert ByteShows(filled, events + [access], k);
    }
    ChangedAppend(events, access, row.slot.address, pointerSize);
  }

  method UpdateByte(row1: SlotRow, ghost row0: SlotRow, access: Event, offset: nat, pointerSize: nat,
                    ghost events: seq<Event>)
    returns (row: SlotRow)
    requires Partly(row1, row0, access, events, offset, pointerSize) && access.write && offset < pointerSize <= 8
    requires access.address + |access.after| <= WORD_LIMIT && |access.after| <= MAX_ACCESS
    requires row1.slot.address < WORD_LIMIT && row1.slot.address < access.address + |access.after|
    ensures Partly(row, row0, access, events, offset + 1, pointerSize)
  {
    row := row1;
    assert ByteShows(row, events, offset);
    var address := (row.slot.address + offset) % WORD_LIMIT;
    WrapHarmless(row.slot.address, offset, access);
    LastWriteAppend(events, access, row.slot.address, offset);
    if Covers(address, access.address, |access.after|) {
      row := StoreByte(row, access, offset, pointerSize, events);
      OthersShow(row1, row, access, events, offset, pointerSize);
      assert Hits(access, row.slot.address, offset);
    }
    assert ByteShows(row, events + [access], offset);
  }

  /** Storing one byte leaves what the others show. */
  lemma OthersShow(before: SlotRow, row: SlotRow, access: Event, events: seq<Event>, offset: nat, pointerSize: nat)
    requires row == before.(value := row.value, known := before.known + {offset}, changed := true)
    requires forall k :: 0 <= k < pointerSize && k != offset ==> ByteOf(row.value, k) == ByteOf(before.value, k)
    ensures forall k :: 0 <= k < pointerSize && k != offset ==>
              (ByteShows(before, events, k) ==> ByteShows(row, events, k))
    ensures forall k :: 0 <= k < pointerSize && k != offset ==>
              (ByteShows(before, events + [access], k) ==> ByteShows(row, events + [access], k))
  {
  }

  ghost predicate Hits(access: Event, address: nat, offset: nat) {
    access.write && Covers(address + offset, access.address, |access.after|)
  }

  /** A slot that starts below the end of a short access cannot wrap around into it. */
  lemma WrapHarmless(address: nat, offset: nat, access: Event)
    requires offset < 8 && address < WORD_LIMIT && address < access.address + |access.after|
    requires access.address + |access.after| <= WORD_LIMIT && |access.after| <= MAX_ACCESS
    ensures Covers((address + offset) % WORD_LIMIT, access.address, |access.after|)
       <==> Covers(address + offset, access.address, |access.after|)
    ensures Covers(address + offset, access.address, |access.after|) ==>
              (address + offset) % WORD_LIMIT == address + offset
  {
    if address + offset >= WORD_LIMIT {
      assert (address + offset) % WORD_LIMIT == address + offset - WORD_LIMIT;
    }
  }

  lemma LastWriteAppend(events: seq<Event>, access: Event, address: nat, offset: nat)
    ensures LastWrite(events + [access], address + offset) ==
            if Hits(access, address, offset) then Some(access.after[address + offset - access.address])
            else LastWrite(events, address + offset)
  {
    assert (events + [access])[..|events|] == events;
  }

  lemma ChangedAppend(events: seq<Event>, access: Event, address: nat, pointerSize: nat)
    ensures (exists k :: 0 <= k < pointerSize && Stored(events + [access], address, k))
       <==> (exists k :: 0 <= k < pointerSize && Stored(events, address, k))
            || (exists k :: 0 <= k < pointerSize && Hits(access, address, k))
  {
    forall k | 0 <= k < pointerSize
      ensures Stored(events + [access], address, k) <==> Stored(events, address, k) || Hits(access, address, k)
    {
      LastWriteAppend(events, access, address, k);
    }
  }

  method StoreByte(row0: SlotRow, access: Event, offset: nat, pointerSize: nat, ghost events: seq<Event>)
    returns (row: SlotRow)
    requires access.write && offset < pointerSize && row0.known <= CompleteWord(pointerSize)
    requires Covers(row0.slot.address + offset, access.address, |access.after|)
    ensures row == row0.(value := row.value, known := row0.known + {offset}, changed := true)
    ensures Fits(row0, pointerSize) ==> Fits(row, pointerSize)
    ensures ByteShows(row, events + [access], offset)
    ensures forall k :: 0 <= k < pointerSize && k != offset ==> ByteOf(row.value, k) == ByteOf(row0.value, k)
  {
    row := row0.(value := WithByte(row0.value, offset, access.after[row0.slot.address + offset - access.address]),
                 known := row0.known + {offset}, changed := true);
    LastWriteAppend(events, access, row0.slot.address, offset);
    if row0.value < ByteCapacity(pointerSize) {
      WithByteFits(row0.value, offset, access.after[row0.slot.address + offset - access.address], pointerSize);
    }
    forall k | 0 <= k < pointerSize
      ensures ByteOf(row.value, k) == if k == offset then access.after[row0.slot.address + offset - access.address]
                                      else ByteOf(row0.value, k)
    {
      WithByteAt(row0.value, offset, access.after[row0.slot.address + offset - access.address], k);
    }
  }

  /** An access that reaches no byte of a slot leaves what it shows right. */
  lemma MissedSlotShows(row: SlotRow, events: seq<Event>, access: Event, pointerSize: nat)
    requires SlotShows(row, events, pointerSize)
    requires forall k :: 0 <= k < pointerSize ==> !Hits(access, row.slot.address, k)
    ensures SlotShows(row, events + [access], pointerSize)
  {
    forall k | 0 <= k < pointerSize
      ensures ByteShows(row, events + [access], k)
    {
      LastWriteAppend(events, access, row.slot.address, k);
      assert ByteShows(row, events, k);
    }
    ChangedAppend(events, access, row.slot.address, pointerSize);
  }

  // ---------- The slot window ----------

  ghost predicate SlotsSorted(slots: seq<SlotRow>) {
    forall i, j :: 0 <= i < j < |slots| ==> slots[i].slot.address <= slots[j].slot.address
  }

  /** `std::lower_bound` by slot address. */
  method LowerBound(slots: seq<SlotRow>, address: int) returns (at: nat)
    requires SlotsSorted(slots)
    ensures at <= |slots|
    ensures forall i :: 0 <= i < at ==> slots[i].slot.address < address
    ensures forall i :: at <= i < |slots| ==> address <= slots[i].slot.address
  {
    at := 0;
    var end := |slots|;
    while at < end
      invariant at <= end <= |slots|
      invariant forall i :: 0 <= i < at ==> slots[i].slot.address < address
      invariant forall i :: end <= i < |slots| ==> address <= slots[i].slot.address
    {
      var middle := (at + end) / 2;
      if slots[middle].slot.address < address {
        at := middle + 1;
      } else {
        end := middle;
      }
    }
  }

  ghost predicate AllShow(slots: seq<SlotRow>, events: seq<Event>, pointerSize: nat) {
    forall i :: 0 <= i < |slots| ==> SlotShows(slots[i], events, pointerSize)
  }

  ghost predicate SameSlots(a: seq<SlotRow>, b: seq<SlotRow>) {
    |a| == |b| && forall i :: 0 <= i < |a| ==> a[i].slot == b[i].slot
  }

  ghost predicate SlotsInRange(slots: seq<SlotRow>) {
    forall i :: 0 <= i < |slots| ==> slots[i].slot.address < WORD_LIMIT
  }

  /** Stores a trace may contain: short, and not wrapping around the address space. */
  ghost predicate AccessSane(access: Event) {
    access.address + |access.after| <= WORD_LIMIT && |access.after| <= MAX_ACCESS
  }

  /** Apply one access to every slot it overlaps, found by binary search. */
  method ApplyAccess(slots0: seq<SlotRow>, access: Event, pointerSize: nat, ghost events: seq<Event>)
    returns (slots: seq<SlotRow>)
    requires SlotsSorted(slots0) && SlotsInRange(slots0) && AllShow(slots0, events, pointerSize)
    requires 0 < pointerSize <= 8 && AccessSane(access)
    ensures SameSlots(slots, slots0) && AllShow(slots, events + [access], pointerSize)
  {
    slots := slots0;
    if !access.write || |access.after| == 0 {
      forall i | 0 <= i < |slots| ensures SlotShows(slots[i], events + [access], pointerSize) {
        MissedSlotShows(slots[i], events, access, pointerSize);
      }
      return;
    }
    var start := if access.address >= pointerSize then access.address - pointerSize + 1 else 0;
    var at := LowerBound(slots, start);
    var lastByte := (access.address + |access.after| - 1) % WORD_LIMIT;
    forall i | 0 <= i < at ensures SlotShows(slots[i], events + [access], pointerSize) {
      MissedSlotShows(slots[i], events, access, pointerSize);
    }
    while at < |slots| && slots[at].slot.address <= lastByte
      invariant at <= |slots| && SameSlots(slots, slots0)
      invariant forall i :: 0 <= i < at ==> SlotShows(slots[i], events + [access], pointerSize)
      invariant forall i :: at <= i < |slots| ==> slots[i] == slots0[i]
    {
      assert SlotShows(slots0[at], events, pointerSize);
      var row := UpdateSlot(slots[at], access, pointerSize, events);
      slots := slots[at := row];
      at := at + 1;
    }
    forall i | at <= i < |slots| ensures SlotShows(slots[i], events + [access], pointerSize) {
      assert slots0[at].slot.address <= slots0[i].slot.address;
      assert SlotShows(slots0[i], events, pointerSize);
      MissedSlotShows(slots[i], events, access, pointerSize);
    }
  }

  /** Apply all accesses of one instruction. */
  method ApplyAccesses(slots0: seq<SlotRow>, accesses: seq<Event>, pointerSize: nat, ghost events: seq<Event>)
    returns (slots: seq<SlotRow>)
    requires SlotsSorted(slots0) && SlotsInRange(slots0) && AllShow(slots0, events, pointerSize)
    requires 0 < pointerSize <= 8 && forall k :: 0 <= k < |accesses| ==> AccessSane(accesses[k])
    ensures SameSlots(slots, slots0) && AllShow(slots, events + accesses, pointerSize)
  {
    slots := slots0;
    assert events + accesses[..0] == events;
    for k := 0 to |accesses|
      invariant SameSlots(slots, slots0) && AllShow(slots, events + accesses[..k], pointerSize)
    {
      slots := ApplyAccess(slots, accesses[k], pointerSize, events + accesses[..k]);
      assert events + accesses[..k] + [accesses[k]] == events + accesses[..k + 1];
    }
    assert accesses[..|accesses|] == accesses;
  }

  // ---------- Registers ----------

  datatype Register = Register(name: string, value: nat)

  /** `before` is set while the cursor stands right after a change. */
  datatype RegisterRow = RegisterRow(name: string, value: nat, before: Option<nat>)

  /** The last recorded change of a register. */
  function LastChange(changes: seq<Change>, name: string): Option<Change> {
    if changes == [] then None
    else if changes[|changes| - 1].name == name then Some(changes[|changes| - 1])
    else LastChange(changes[..|changes| - 1], name)
  }

  ghost predicate RegisterShows(row: RegisterRow, initial: Register, older: seq<Change>, newest: seq<Change>) {
    && row.name == initial.name
    && row.value == (match LastChange(older + newest, initial.name) case Some(c) => c.after case None => initial.value)
    && row.before == (match LastChange(newest, initial.name) case Some(c) => Some(c.before) case None => None)
  }

  ghost predicate RegistersShow(rows: seq<RegisterRow>, initial: seq<Register>, older: seq<Change>,
                                newest: seq<Change>) {
    && |rows| == |initial|
    && forall i :: 0 <= i < |rows| ==> RegisterShows(rows[i], initial[i], older, newest)
  }

  ghost predicate NamesDistinct(initial: seq<Register>) {
    forall i, j :: 0 <= i < j < |initial| ==> initial[i].name != initial[j].name
  }

  /** Replaying changes leaves each register with its last change. */
  lemma {:induction false} AppliedIsLastChange(registers: map<string, nat>, changes: seq<Change>, name: string)
    requires name in registers
    ensures name in Applied(registers, changes)
    ensures Applied(registers, changes)[name]
            == match LastChange(changes, name) case Some(c) => c.after case None => registers[name]
  {
    if changes != [] {
      AppliedIsLastChange(registers, changes[..|changes| - 1], name);
    }
  }

  lemma LastChangeAppend(changes: seq<Change>, c: Change, name: string)
    ensures LastChange(changes + [c], name) == if c.name == name then Some(c) else LastChange(changes, name)
  {
    assert (changes + [c])[..|changes|] == changes;
  }

  /** Find the register of one change and update it; the newest instruction also sets `before`. */
  method ApplyChange(rows0: seq<RegisterRow>, c: Change, newestRow: bool, ghost initial: seq<Register>,
                     ghost older: seq<Change>, ghost newest: seq<Change>) returns (rows: seq<RegisterRow>)
    requires RegistersShow(rows0, initial, older, newest) && NamesDistinct(initial)
    requires !newestRow ==> newest == []
    ensures RegistersShow(rows, initial, if newestRow then older else older + [c],
                          if newestRow then newest + [c] else [])
  {
    rows := rows0;
    var i := 0;
    while i < |rows| && rows[i].name != c.name
      invariant i <= |rows| && forall k :: 0 <= k < i ==> rows[k].name != c.name
    {
      i := i + 1;
    }
    if i < |rows| {
      rows := rows[i := rows[i].(value := c.after, before := if newestRow then Some(c.before) else rows[i].before)];
    }
    assert older + newest + [c] == older + (newest + [c]);
    assert older + [] == older && older + [c] + [] == older + [c];
    forall k | 0 <= k < |rows|
      ensures RegisterShows(rows[k], initial[k], if newestRow then older else older + [c],
                            if newestRow then newest + [c] else [])
    {
      assert RegisterShows(rows0[k], initial[k], older, newest);
      LastChangeAppend(older + newest, c, initial[k].name);
      LastChangeAppend(newest, c, initial[k].name);
    }
  }

  method ApplyChanges(rows0: seq<RegisterRow>, changes: seq<Change>, newestRow: bool, ghost initial: seq<Register>,
                      ghost older: seq<Change>) returns (rows: seq<RegisterRow>)
    requires RegistersShow(rows0, initial, older, []) && NamesDistinct(initial)
    ensures RegistersShow(rows, initial, if newestRow then older else older + changes,
                          if newestRow then changes else [])
  {
    rows := rows0;
    assert older + changes[..0] == older && changes[..0] == [];
    for k := 0 to |changes|
      invariant RegistersShow(rows, initial, if newestRow then older else older + changes[..k],
                              if newestRow then changes[..k] else [])
    {
      rows := ApplyChange(rows, changes[k], newestRow, initial,
                          if newestRow then older else older + changes[..k], if newestRow then changes[..k] else []);
      assert changes[..k] + [changes[k]] == changes[..k + 1];
      assert older + changes[..k] + [changes[k]] == older + changes[..k + 1];
    }
    assert changes[..|changes|] == changes;
  }

  // ---------- The view ----------

  /** The captured slots, each as often, by rising address. */
  ghost predicate Ordered(ordered: seq<Slot>, captured: seq<Slot>) {
    && multiset(ordered) == multiset(captured)
    && forall i, j :: 0 <= i < j < |ordered| ==> ordered[i].address <= ordered[j].address
  }

  ghost predicate ShowSlots(slots: seq<SlotRow>, ordered: seq<Slot>) {
    |slots| == |ordered| && forall i :: 0 <= i < |slots| ==> slots[i].slot == ordered[i]
  }

  /** `std::sort` by address, as an insertion sort. */
  method SortSlots(captured: seq<Slot>) returns (sorted: seq<Slot>)
    ensures Ordered(sorted, captured)
  {
    hide Ordered;
    sorted := [];
    NothingOrdered();
    assert captured[..0] == [];
    for n := 0 to |captured|
      invariant Ordered(sorted, captured[..n])
    {
      var at := InsertionPoint(sorted, captured[..n], captured[n].address);
      InsertOrdered(sorted, captured[..n], captured[n], at);
      assert captured[..n] + [captured[n]] == captured[..n + 1];
      sorted := sorted[..at] + [captured[n]] + sorted[at..];
    }
    assert captured[..|captured|] == captured;
  }

  lemma NothingOrdered()
    ensures Ordered([], [])
  {
  }

  /** Where a slot belongs, searched from the end. */
  method InsertionPoint(sorted: seq<Slot>, ghost captured: seq<Slot>, address: nat) returns (at: nat)
    requires Ordered(sorted, captured)
    ensures at <= |sorted| && (forall i :: 0 <= i < at ==> sorted[i].address <= address)
    ensures forall i :: at <= i < |sorted| ==> address < sorted[i].address
  {
    at := |sorted|;
    while at > 0 && address < sorted[at - 1].address
      invariant at <= |sorted|
      invariant forall i :: at <= i < |sorted| ==> address < sorted[i].address
    {
      at := at - 1;
    }
    if at > 0 {
      var last := sorted[at - 1];
      assert forall i :: 0 <= i < at - 1 ==> sorted[i].address <= last.address;
    }
  }

  lemma InsertOrdered(sorted: seq<Slot>, captured: seq<Slot>, slot: Slot, at: nat)
    requires Ordered(sorted, captured) && at <= |sorted|
    requires forall i :: 0 <= i < at ==> sorted[i].address <= slot.address
    requires forall i :: at <= i < |sorted| ==> slot.address < sorted[i].address
    ensures Ordered(sorted[..at] + [slot] + sorted[at..], captured + [slot])
  {
    assert sorted == sorted[..at] + sorted[at..];
    InsertRises(sorted, slot, at);
  }

  lemma InsertRises(sorted: seq<Slot>, slot: Slot, at: nat)
    requires at <= |sorted| && forall i, j :: 0 <= i < j < |sorted| ==> sorted[i].address <= sorted[j].address
    requires forall i :: 0 <= i < at ==> sorted[i].address <= slot.address
    requires forall i :: at <= i < |sorted| ==> slot.address < sorted[i].address
    ensures var r := sorted[..at] + [slot] + sorted[at..];
            forall i, j :: 0 <= i < j < |r| ==> r[i].address <= r[j].address
  {
    var r := sorted[..at] + [slot] + sorted[at..];
    forall i, j | 0 <= i < j < |r| ensures r[i].address <= r[j].address {
      assert r[i] == if i < at then sorted[i] else if i == at then slot else sorted[i - 1];
      assert r[j] == if j < at then sorted[j] else if j == at then slot else sorted[j - 1];
    }
  }

  method InitialSlots(slots0: seq<SlotRow>, pointerSize: nat) returns (slots: seq<SlotRow>)
    requires 0 < pointerSize
    ensures SameSlots(slots, slots0) && AllShow(slots, [], pointerSize)
  {
    slots := slots0;
    for i := 0 to |slots|
      invariant SameSlots(slots, slots0)
      invariant forall k :: 0 <= k < i ==> SlotShows(slots[k], [], pointerSize)
    {
      InitialShows(slots[i].slot, pointerSize);
      slots := slots[i := Initial(slots[i].slot, pointerSize)];
    }
  }

  method InitialRegisters(rows0: seq<RegisterRow>, initial: seq<Register>) returns (rows: seq<RegisterRow>)
    requires |rows0| == |initial| && forall i :: 0 <= i < |rows0| ==> rows0[i].name == initial[i].name
    ensures RegistersShow(rows, initial, [], [])
  {
    rows := rows0;
    for i := 0 to |rows|
      invariant |rows| == |initial|
      invariant forall k :: 0 <= k < i ==> RegisterShows(rows[k], initial[k], [], [])
      invariant forall k :: i <= k < |rows| ==> rows[k].name == initial[k].name
    {
      rows := rows[i := rows[i].(value := initial[i].value, before := None)];
      ghost var none: seq<Change> := [];
      assert none + none == none;
    }
  }

  /** The recorded effects of row k, none when it was not executed. */
  function ChangesOf(steps: seq<Row>, k: nat): seq<Change>
    requires k < |steps|
  {
    if steps[k].completed then steps[k].registerChanges else []
  }

  /** Where the simulated program counter and stack pointer stand after k rows. */
  function PointersAfter(steps: seq<Row>, start: (nat, nat), k: nat): (nat, nat)
    requires k <= |steps|
  {
    if k == 0 then start
    else if steps[k - 1].completed then (steps[k - 1].nextAddress, steps[k - 1].spAfter)
    else PointersAfter(steps, start, k - 1)
  }

  /** What a trace hands to the viewer. */
  datatype Trace = Trace(pointerSize: nat, initialRegisters: seq<Register>, stackSlots: seq<Slot>, nodes: seq<Node>,
                         sourcePc: nat, sourceSp: nat)
  {
    function Start(): (nat, nat) {
      if nodes == [] then (sourcePc, sourceSp) else (nodes[0].entryAddress, nodes[0].entrySp)
    }
  }

  /** What the recorder guarantees of the traces it hands over. */
  ghost predicate TraceSane(trace: Trace) {
    && (trace.pointerSize == 4 || trace.pointerSize == 8)
    && NamesDistinct(trace.initialRegisters)
    && (forall i :: 0 <= i < |trace.stackSlots| ==> trace.stackSlots[i].address < WORD_LIMIT)
    && forall k, a :: 0 <= k < |Rows(trace.nodes)| && 0 <= a < |Rows(trace.nodes)[k].accesses| ==>
         AccessSane(Rows(trace.nodes)[k].accesses[a])
  }

  /** What the panel displays. */
  datatype Display = Display(slots: seq<SlotRow>, registers: seq<RegisterRow>, pc: nat, sp: nat)

  /** The display has the trace's slots and registers, whatever their values. */
  ghost predicate Fitting(d: Display, trace: Trace, ordered: seq<Slot>) {
    && ShowSlots(d.slots, ordered) && |d.registers| == |trace.initialRegisters|
    && forall i :: 0 <= i < |d.registers| ==> d.registers[i].name == trace.initialRegisters[i].name
  }

  /** The registers after k rows; `before` values are shown for the newest row only. */
  ghost predicate RegistersAt(rows: seq<RegisterRow>, trace: Trace, steps: seq<Row>, k: nat, newest: bool)
    requires k <= |steps|
  {
    if newest && k > 0 then RegistersShow(rows, trace.initialRegisters, ChangesBefore(steps, k - 1),
                                          ChangesOf(steps, k - 1))
    else RegistersShow(rows, trace.initialRegisters, ChangesBefore(steps, k), [])
  }

  /** The display is the state after k rows. */
  ghost predicate Shows(d: Display, trace: Trace, steps: seq<Row>, k: nat, newest: bool)
    requires k <= |steps|
  {
    && AllShow(d.slots, LogBefore(steps, k), trace.pointerSize)
    && (d.pc, d.sp) == PointersAfter(steps, trace.Start(), k)
    && RegistersAt(d.registers, trace, steps, k, newest)
  }

  lemma OrderedInRange(ordered: seq<Slot>, captured: seq<Slot>)
    requires Ordered(ordered, captured) && forall i :: 0 <= i < |captured| ==> captured[i].address < WORD_LIMIT
    ensures forall i :: 0 <= i < |ordered| ==> ordered[i].address < WORD_LIMIT
  {
    forall i | 0 <= i < |ordered| ensures ordered[i].address < WORD_LIMIT {
      assert ordered[i] in multiset(ordered);
      assert ordered[i] in captured;
    }
  }

  /** Rewind everything to the captured state. */
  method Reset(d0: Display, trace: Trace, ordered: seq<Slot>, steps: seq<Row>) returns (d: Display)
    requires Fitting(d0, trace, ordered) && 0 < trace.pointerSize
    ensures Fitting(d, trace, ordered) && Shows(d, trace, steps, 0, false)
  {
    var slots := InitialSlots(d0.slots, trace.pointerSize);
    var registers := InitialRegisters(d0.registers, trace.initialRegisters);
    d := Display(slots, registers, trace.Start().0, trace.Start().1);
  }

  /** Replay the effects of one completed row. */
  method ReplayRow(d0: Display, trace: Trace, ordered: seq<Slot>, steps: seq<Row>, index: nat, newest: bool)
    returns (d: Display)
    requires TraceSane(trace) && steps == Rows(trace.nodes) && index < |steps|
    requires Ordered(ordered, trace.stackSlots) && Fitting(d0, trace, ordered)
    requires Shows(d0, trace, steps, index, false)
    ensures Fitting(d, trace, ordered) && Shows(d, trace, steps, index + 1, newest)
  {
    var row := steps[index];
    d := d0;
    if row.completed {
      OrderedInRange(ordered, trace.stackSlots);
      var registers := ApplyChanges(d.registers, row.registerChanges, newest, trace.initialRegisters,
                                    ChangesBefore(steps, index));
      var slots := ApplyAccesses(d.slots, row.accesses, trace.pointerSize, LogBefore(steps, index));
      d := Display(slots, registers, row.nextAddress, row.spAfter);
    } else {
      assert ChangesBefore(steps, index) + [] == ChangesBefore(steps, index);
      assert LogBefore(steps, index) + [] == LogBefore(steps, index);
    }
  }

  class RopView {
    const trace: Trace
    const ordered: seq<Slot>
    const steps: seq<Row>
    var display: Display
    var cursor: nat
    var reconstructed: Option<nat>

    /** The flattened rows, the sorted slots, and a reconstruction that is right if there is one. */
    ghost predicate Valid()
      reads this
    {
      && TraceSane(trace) && steps == Rows(trace.nodes) && Ordered(ordered, trace.stackSlots)
      && Fitting(display, trace, ordered) && cursor <= |steps|
      && (reconstructed.Some? ==>
            reconstructed.value <= |steps| && Shows(display, trace, steps, reconstructed.value, true))
    }

    /** `build_trace_rows`: flatten the nodes, sort the slots, and put the cursor at the start. */
    constructor (trace: Trace)
      requires TraceSane(trace)
      ensures Valid() && this.trace == trace && cursor == 0
    {
      this.trace := trace;
      steps := Rows(trace.nodes);
      var sorted := SortSlots(trace.stackSlots);
      ordered := sorted;
      display := Display(seq(|sorted|, i requires 0 <= i < |sorted| => Initial(sorted[i], trace.pointerSize)),
                         seq(|trace.initialRegisters|, i requires 0 <= i < |trace.initialRegisters| =>
                           RegisterRow(trace.initialRegisters[i].name, trace.initialRegisters[i].value, None)), 0, 0);
      cursor, reconstructed := 0, None;
    }

    method SelectCursor(at: nat)
      requires Valid()
      modifies `cursor
      ensures Valid() && cursor == if at < |steps| then at else |steps|
    {
      cursor := if at < |steps| then at else |steps|;
    }

    /** Replay the effects of every completed row before the cursor. */
    method Reconstruct()
      requires Valid()
      modifies `display, `reconstructed
      ensures Valid() && reconstructed == Some(cursor) && Shows(display, trace, steps, cursor, true)
    {
      if reconstructed == Some(cursor) {
        return;
      }
      hide AllShow, RegistersAt, Ordered, TraceSane;
      var d := Reset(display, trace, ordered, steps);
      for index := 0 to cursor
        invariant Fitting(d, trace, ordered)
        invariant Shows(d, trace, steps, index, index == cursor && index > 0)
      {
        d := ReplayRow(d, trace, ordered, steps, index, index + 1 == cursor);
      }
      display, reconstructed := d, Some(cursor);
    }
  }
}
