/**
 Lazily captured memory for the trace simulator: pages are mapped on demand and
 only the bytes actually read from the live target count as known.
 */
module RopMemory {
  import opened Wrappers
  import opened Bytes

  const PAGE: nat := 4096
  const MAX_BYTES: nat := 8 * 1024 * 1024
  const MAX_ACCESS: nat := 65536
  const MAX_EVENTS: nat := 65536
  /** An address a processor can form. */
  type Address = a: nat | a < WORD_LIMIT

  datatype Kind = Read | Write | Execute

  /** The statuses of a trace boundary. */
  datatype Status =
    | InvalidRead | InvalidWrite | InvalidTarget | MemoryLimit
    | Cancelled | Timeout | Stale
    | UnavailableState | UnsupportedInstruction
    | Syscall | Stop | InstructionLimit | NodeLimit

  datatype Region = Region(start: nat, end: nat, readable: bool, writable: bool, executable: bool)
  {
    predicate Holds(address: nat) { start <= address < end }
    predicate Allows(kind: Kind) {
      match kind
      case Read => readable
      case Write => writable
      case Execute => executable
    }
  }

  function Denied(kind: Kind): Status {
    match kind
    case Read => InvalidRead
    case Write => InvalidWrite
    case Execute => InvalidTarget
  }

  /** The first region that holds an address decides about it. */
  ghost predicate Permitted(regions: seq<Region>, address: nat, kind: Kind) {
    exists i :: 0 <= i < |regions| && regions[i].Holds(address) && regions[i].Allows(kind)
                && forall j :: 0 <= j < i ==> !regions[j].Holds(address)
  }

  ghost predicate RangePermitted(regions: seq<Region>, address: nat, size: nat, kind: Kind) {
    forall a: nat :: address <= a < address + size ==> Permitted(regions, a, kind)
  }

  /** Regions are kept by rising start address. */
  ghost predicate SortedRegions(regions: seq<Region>) {
    forall i, j :: 0 <= i < j < |regions| ==> regions[i].start <= regions[j].start
  }

  ghost predicate Interruption(status: Status) {
    status == Cancelled || status == Timeout || status == Stale
  }

  /** Nothing to do with the access: an interruption or a limit of the trace, and one that struck. */
  ghost predicate Halted(status: Status, struck: set<Status>) {
    status in struck && (Interruption(status) || status == MemoryLimit)
  }

  /** Why a range of memory can be refused. */
  ghost predicate Refused(status: Status, struck: set<Status>, regions: seq<Region>, live: map<nat, Byte>, address: nat,
                          size: nat, kind: Kind) {
    || Halted(status, struck)
    || (status == InvalidRead && !Present(live, address, size))
    || (status == Denied(kind) && !RangePermitted(regions, address, size, kind))
  }

  // ---------- Byte maps ----------

  /** A memory with the bytes from `address` on replaced; its domain stays the same. */
  function Overlay(m: map<nat, Byte>, address: nat, data: seq<Byte>): (r: map<nat, Byte>)
    ensures r.Keys == m.Keys
    ensures forall a :: a in m ==> r[a] == if address <= a < address + |data| then data[a - address] else m[a]
  {
    map a | a in m :: if address <= a < address + |data| then data[a - address] else m[a]
  }

  ghost predicate Present(m: map<nat, Byte>, address: nat, size: nat) {
    forall a: nat :: address <= a < address + size ==> a in m
  }

  /** The bytes of m at [address, address + size). */
  function Slice(m: map<nat, Byte>, address: nat, size: nat): (s: seq<Byte>)
    requires Present(m, address, size)
    ensures |s| == size && forall i :: 0 <= i < size ==> s[i] == m[address + i]
  {
    seq(size, i requires 0 <= i < size => m[address + i])
  }

  /** m holds exactly these bytes from `address` on. */
  ghost predicate BytesAt(m: map<nat, Byte>, address: nat, data: seq<Byte>) {
    forall i :: 0 <= i < |data| ==> ByteAt(m, address + i, data[i])
  }

  ghost predicate ByteAt(m: map<nat, Byte>, address: nat, b: Byte) {
    address in m && m[address] == b
  }

  lemma BytesAreSlice(m: map<nat, Byte>, address: nat, data: seq<Byte>)
    requires BytesAt(m, address, data)
    ensures Present(m, address, |data|) && data == Slice(m, address, |data|)
  {
    forall a: nat | address <= a < address + |data| ensures a in m {
      assert ByteAt(m, address + (a - address), data[a - address]);
    }
  }

  lemma BytesJoin(m: map<nat, Byte>, address: nat, data: seq<Byte>, more: seq<Byte>)
    requires BytesAt(m, address, data) && BytesAt(m, address + |data|, more)
    ensures BytesAt(m, address, data + more)
  {
    var all: seq<Byte> := data + more;
    forall i | 0 <= i < |all| ensures ByteAt(m, address + i, all[i]) {
      if i < |data| {
        assert ByteAt(m, address + i, data[i]);
      } else {
        assert ByteAt(m, address + |data| + (i - |data|), more[i - |data|]);
      }
    }
  }

  // ---------- Pages ----------

  /** `original` never receives simulated writes; `known` masks what was captured. */
  datatype Page = Page(original: seq<Byte>, known: seq<bool>)

  function Base(address: nat): (b: nat)
    ensures b <= address < b + PAGE && b % PAGE == 0
  {
    address - address % PAGE
  }

  /** Pages are page-aligned, so two of them never share an address. */
  ghost predicate PagesWellFormed(pages: map<nat, Page>) {
    && (forall b :: b in pages ==> b % PAGE == 0 && |pages[b].original| == PAGE && |pages[b].known| == PAGE)
    && (forall b, c :: b in pages && c in pages ==> Apart(b, c))
  }

  ghost predicate Apart(b: nat, c: nat) {
    b == c || b + PAGE <= c || c + PAGE <= b
  }

  lemma AlignedApart(b: nat, c: nat)
    requires b % PAGE == 0 && c % PAGE == 0
    ensures Apart(b, c)
  {
  }

  ghost predicate IsKnown(pages: map<nat, Page>, address: nat)
    requires PagesWellFormed(pages)
  {
    exists b :: b in pages && b <= address < b + PAGE && pages[b].known[address - b]
  }

  /** Overwrite part of a page with captured bytes and mark them known. */
  function Captured(page: Page, offset: nat, data: seq<Byte>): (r: Page)
    requires |page.original| == |page.known| == PAGE && offset + |data| <= PAGE
    ensures |r.original| == |r.known| == PAGE
    ensures forall i :: 0 <= i < PAGE ==>
              && r.known[i] == (page.known[i] || offset <= i < offset + |data|)
              && r.original[i] == if offset <= i < offset + |data| then data[i - offset] else page.original[i]
  {
    Page(page.original[..offset] + data + page.original[offset + |data|..],
         page.known[..offset] + seq(|data|, _ => true) + page.known[offset + |data|..])
  }

  // ---------- What lazy capture means ----------

  /**
   `simulated` is the memory an eager simulator would hold: the live bytes with
   every simulated store applied. Known bytes hold exactly that, their originals
   are the live bytes, and unknown bytes have never been stored to.
   */
  ghost predicate Consistent(live: map<nat, Byte>, pages: map<nat, Page>, uc: map<nat, Byte>,
                             simulated: map<nat, Byte>) {
    && PagesWellFormed(pages)
    && simulated.Keys == live.Keys
    && (forall b, i :: b in pages && 0 <= i < PAGE ==> Backed(live, pages[b], uc, simulated, b, i))
    && (forall a: nat :: a in live && simulated[a] != live[a] ==> IsKnown(pages, a))
  }

  /** Byte i of the page at b is mapped and, once known, agrees with both memories. */
  ghost predicate Backed(live: map<nat, Byte>, page: Page, uc: map<nat, Byte>, simulated: map<nat, Byte>, b: nat,
                         i: nat)
    requires simulated.Keys == live.Keys && |page.original| == |page.known| == PAGE && i < PAGE
  {
    && b + i in uc
    && (page.known[i] ==> b + i in live && page.original[i] == live[b + i] && uc[b + i] == simulated[b + i])
  }

  ghost predicate KnownRange(pages: map<nat, Page>, address: nat, size: nat)
    requires PagesWellFormed(pages)
  {
    forall a: nat :: address <= a < address + size ==> IsKnown(pages, a)
  }

  ghost predicate KnowsMore(before: map<nat, Page>, after: map<nat, Page>)
    requires PagesWellFormed(before) && PagesWellFormed(after)
  {
    && before.Keys <= after.Keys
    && forall a: nat :: IsKnown(before, a) ==> IsKnown(after, a)
  }

  const BLANK: Page := Page(seq(PAGE, _ => 0), seq(PAGE, _ => false))

  function Addresses(base: nat, size: nat): (s: set<nat>)
    ensures forall a: nat :: a in s <==> base <= a < base + size
  {
    if size == 0 then {} else Addresses(base, size - 1) + {base + (size - 1)}
  }

  function ZeroFilled(uc: map<nat, Byte>, base: nat): (r: map<nat, Byte>)
    ensures forall a: nat :: a in r <==> a in uc || base <= a < base + PAGE
    ensures forall a :: a in uc && !(base <= a < base + PAGE) ==> r[a] == uc[a]
  {
    uc + map a: nat | a in Addresses(base, PAGE) :: 0
  }

  /** Mapping a page makes nothing known. */
  lemma MapKeeps(live: map<nat, Byte>, pages: map<nat, Page>, uc: map<nat, Byte>, simulated: map<nat, Byte>, base: nat)
    requires Consistent(live, pages, uc, simulated)
    requires base % PAGE == 0 && base !in pages
    ensures Consistent(live, pages[base := BLANK], ZeroFilled(uc, base), simulated)
    ensures forall a: nat :: IsKnown(pages[base := BLANK], a) <==> IsKnown(pages, a)
  {
    var mapped := pages[base := BLANK];
    forall c | c in pages ensures Apart(base, c) {
      AlignedApart(base, c);
    }
    var zeroed := ZeroFilled(uc, base);
    forall b, i | b in mapped && 0 <= i < PAGE ensures Backed(live, mapped[b], zeroed, simulated, b, i) {
      if b != base {
        assert Apart(base, b) && Backed(live, pages[b], uc, simulated, b, i);
      }
    }
    forall a: nat ensures IsKnown(mapped, a) <==> IsKnown(pages, a) {
      MapKnowsSame(pages, base, a);
    }
  }

  lemma MapKnowsSame(pages: map<nat, Page>, base: nat, a: nat)
    requires PagesWellFormed(pages) && base !in pages && PagesWellFormed(pages[base := BLANK])
    ensures IsKnown(pages[base := BLANK], a) <==> IsKnown(pages, a)
  {
    var mapped := pages[base := BLANK];
    if IsKnown(pages, a) {
      var b :| b in pages && b <= a < b + PAGE && pages[b].known[a - b];
      assert b in mapped && mapped[b] == pages[b];
    }
  }

  /** Capturing live bytes into a hole changes no simulated value. */
  lemma CaptureKeeps(live: map<nat, Byte>, pages: map<nat, Page>, uc: map<nat, Byte>, simulated: map<nat, Byte>,
                     base: nat, offset: nat, data: seq<Byte>)
    requires Consistent(live, pages, uc, simulated)
    requires base in pages && offset + |data| <= PAGE
    requires forall i :: offset <= i < offset + |data| ==> !pages[base].known[i]
    requires BytesAt(live, base + offset, data)
    ensures var filled := pages[base := Captured(pages[base], offset, data)];
            && Consistent(live, filled, Overlay(uc, base + offset, data), simulated)
            && KnowsMore(pages, filled) && KnownRange(filled, base + offset, |data|)
  {
    var filled := pages[base := Captured(pages[base], offset, data)];
    var stored := Overlay(uc, base + offset, data);
    forall b, i | b in filled && 0 <= i < PAGE ensures Backed(live, filled[b], stored, simulated, b, i) {
      if b == base && offset <= i < offset + |data| {
        HoleUnknown(pages, base, i);
        assert base + i in live;
      }
      assert Apart(base, b) && Backed(live, pages[b], uc, simulated, b, i);
    }
    CaptureKnows(pages, base, offset, data);
  }

  lemma CaptureKnows(pages: map<nat, Page>, base: nat, offset: nat, data: seq<Byte>)
    requires PagesWellFormed(pages) && base in pages && offset + |data| <= PAGE
    ensures var filled := pages[base := Captured(pages[base], offset, data)];
            PagesWellFormed(filled) && KnowsMore(pages, filled) && KnownRange(filled, base + offset, |data|)
  {
    var filled := pages[base := Captured(pages[base], offset, data)];
    forall a: nat | IsKnown(pages, a) ensures IsKnown(filled, a) {
      var b :| b in pages && b <= a < b + PAGE && pages[b].known[a - b];
      assert b in filled && filled[b].known[a - b];
    }
    forall a: nat | base + offset <= a < base + offset + |data| ensures IsKnown(filled, a) {
      assert base in filled && filled[base].known[a - base];
    }
  }

  /** A byte masked out in its own page is known nowhere. */
  lemma HoleUnknown(pages: map<nat, Page>, base: nat, i: nat)
    requires PagesWellFormed(pages) && base in pages && i < PAGE && !pages[base].known[i]
    ensures !IsKnown(pages, base + i)
  {
    forall b | b in pages && b <= base + i < b + PAGE ensures b == base {
      assert Apart(b, base);
    }
  }

  /** A store to known bytes goes through to both memories. */
  lemma StoreKeeps(live: map<nat, Byte>, pages: map<nat, Page>, uc: map<nat, Byte>, simulated: map<nat, Byte>,
                   address: nat, data: seq<Byte>)
    requires Consistent(live, pages, uc, simulated) && KnownRange(pages, address, |data|)
    ensures Consistent(live, pages, Overlay(uc, address, data), Overlay(simulated, address, data))
  {
    var stored, next := Overlay(uc, address, data), Overlay(simulated, address, data);
    forall b, i | b in pages && 0 <= i < PAGE ensures Backed(live, pages[b], stored, next, b, i) {
      assert Backed(live, pages[b], uc, simulated, b, i);
    }
  }

  /** The deciding region stays the deciding one up to its end. */
  lemma SameRegion(regions: seq<Region>, i: nat, address: nat, kind: Kind)
    requires SortedRegions(regions) && i < |regions| && regions[i].Holds(address) && regions[i].Allows(kind)
    requires forall j :: 0 <= j < i ==> !regions[j].Holds(address)
    ensures forall a: nat :: address <= a < regions[i].end ==> Permitted(regions, a, kind)
  {
    forall a: nat | address <= a < regions[i].end ensures Permitted(regions, a, kind) {
      assert regions[i].Holds(a) && regions[i].Allows(kind);
      assert forall j :: 0 <= j < i ==> !regions[j].Holds(a);
    }
  }

  // ---------- The capture and the memory ----------

  /** Reads the live target; `live` holds the bytes that can be read at all. */
  class Capture {
    const live: map<nat, Byte>
    var copied: nat
    /** What checks and limits have struck with so far. */
    ghost var struck: set<Status>

    constructor (live: map<nat, Byte>)
      ensures this.live == live && copied == 0 && struck == {}
    {
      this.live := live;
      copied, struck := 0, {};
    }

    /** Cancellation, the deadline and a moved target can strike at any check. */
    method Check() returns (failure: Option<Status>)
      modifies `struck
      ensures failure.Some? ==> Interruption(failure.value) && struck == old(struck) + {failure.value}
      ensures failure.None? ==> struck == old(struck)
    {
      var status: Status := *;
      failure := if status == Cancelled || status == Timeout || status == Stale then Some(status) else None;
      struck := if failure.Some? then struck + {failure.value} else struck;
    }

    /** A bounded live read: all bytes, or a boundary. */
    method Read(address: nat, size: nat) returns (result: Result<seq<Byte>, Status>)
      requires copied <= MAX_BYTES
      modifies `copied, `struck
      ensures old(copied) <= copied <= MAX_BYTES
      ensures result.Success? ==> |result.value| == size && BytesAt(live, address, result.value)
      ensures result.Failure? ==>
                || (Interruption(result.error) && result.error in struck)
                || (result.error == MemoryLimit && MemoryLimit in struck && old(copied) + size > MAX_BYTES)
                || (result.error == InvalidRead && !Present(live, address, size))
    {
      var failure := Check();
      if failure.Some? {
        return Failure(failure.value);
      }
      if copied + size > MAX_BYTES {
        struck := struck + {MemoryLimit};
        return Failure(MemoryLimit);
      }
      copied := copied + size;
      var present := forall a: nat | address <= a < address + size :: a in live;
      failure := Check();
      if failure.Some? {
        return Failure(failure.value);
      }
      result := if present then Success(Slice(live, address, size)) else Failure(InvalidRead);
    }
  }

  /** A captured stack word. */
  datatype Slot = Slot(address: nat, value: nat, readable: bool)

  class Memory {
    const capture: Capture
    const regions: seq<Region>
    const width: nat
    const limit: nat
    var pages: map<nat, Page>
    var uc: map<nat, Byte>
    ghost var simulated: map<nat, Byte>
    var slots: map<nat, Slot>
    var stackSlots: seq<Slot>

    /** The captured part: pages, masks and the simulator agree. */
    ghost predicate Coherent()
      reads this, capture
    {
      && (width == 4 || width == 8) && limit == (if width == 8 then WORD_LIMIT else 0x1_0000_0000)
      && SortedRegions(regions) && capture.copied <= MAX_BYTES
      && PagesWellFormed(pages) && Consistent(capture.live, pages, uc, simulated)
    }

    ghost predicate Valid()
      reads this, capture
    {
      Coherent() && SlotsTrue(capture.live, width, slots, stackSlots)
    }

    constructor (capture: Capture, regions: seq<Region>, width: nat)
      requires capture.copied <= MAX_BYTES && (width == 4 || width == 8) && SortedRegions(regions)
      ensures this.capture == capture && this.regions == regions && this.width == width
      ensures Valid() && simulated == capture.live
    {
      this.capture := capture;
      this.regions := regions;
      this.width := width;
      limit := if width == 8 then WORD_LIMIT else 0x1_0000_0000;
      pages, uc := map[], map[];
      simulated := capture.live;
      slots, stackSlots := map[], [];
    }

    /** The first region holding an address, if it permits the access. */
    method FindRegion(address: nat, kind: Kind) returns (result: Result<Region, Status>)
      requires SortedRegions(regions)
      ensures result.Success? ==>
                && result.value.Holds(address)
                && forall a: nat :: address <= a < result.value.end ==> Permitted(regions, a, kind)
      ensures result.Success? <==> Permitted(regions, address, kind)
      ensures result.Failure? ==> result.error == Denied(kind)
    {
      for i := 0 to |regions|
        invariant forall j :: 0 <= j < i ==> !regions[j].Holds(address)
      {
        if regions[i].Holds(address) {
          if !regions[i].Allows(kind) {
            return Failure(Denied(kind));
          }
          SameRegion(regions, i, address, kind);
          return Success(regions[i]);
        }
      }
      return Failure(Denied(kind));
    }

    /** Why a capture may fail: outside events, exhausted limits, or a hole in the target. */
    ghost predicate Explained(failure: Status, address: nat, size: nat)
      reads this, capture
    {
      || (Interruption(failure) && failure in capture.struck)
      || (failure == MemoryLimit && MemoryLimit in capture.struck
          && (capture.copied + PAGE > MAX_BYTES || |pages| * PAGE >= MAX_BYTES))
      || (failure == InvalidRead && !Present(capture.live, address, size))
    }

    method AddBlank(base: nat)
      requires Coherent() && base % PAGE == 0 && base !in pages
      modifies `pages, `uc
      ensures Coherent() && KnowsMore(old(pages), pages) && pages == old(pages)[base := BLANK]
    {
      MapKeeps(capture.live, pages, uc, simulated, base);
      pages, uc := pages[base := BLANK], ZeroFilled(uc, base);
    }

    /** Map the page at `base` and try to capture all of it that lies in `region`. */
    method MapPage(base: nat, region: Region, ghost cursor: nat) returns (failure: Option<Status>)
      requires Coherent() && base % PAGE == 0 && base !in pages
      requires region.Holds(cursor) && base <= cursor < base + PAGE
      modifies `pages, `uc, capture`copied, capture`struck
      ensures Coherent() && KnowsMore(old(pages), pages)
      ensures failure.None? ==> base in pages
      ensures failure.Some? ==> failure.value != InvalidRead && Explained(failure.value, 0, 0)
    {
      hide Consistent, Present, BytesAt;
      if |pages| * PAGE >= MAX_BYTES {
        capture.struck := capture.struck + {MemoryLimit};
        return Some(MemoryLimit);
      }
      AddBlank(base);
      var start := if base < region.start then region.start else base;
      var stop := if base + PAGE < region.end then base + PAGE else region.end;
      var data := capture.Read(start, stop - start);
      match data {
        case Failure(InvalidRead) =>
          return None;
        case Failure(status) =>
          return Some(status);
        case Success(bytes) =>
          Fill(base, start - base, bytes);
          return None;
      }
    }

    /** Record captured bytes in the page masks and in the simulator. */
    method Fill(base: nat, offset: nat, data: seq<Byte>)
      requires Coherent() && base in pages && offset + |data| <= PAGE
      requires forall i :: offset <= i < offset + |data| ==> !pages[base].known[i]
      requires BytesAt(capture.live, base + offset, data)
      modifies `pages, `uc
      ensures Coherent() && pages.Keys == old(pages.Keys)
      ensures KnowsMore(old(pages), pages) && KnownRange(pages, base + offset, |data|)
      ensures forall i :: offset + |data| <= i < PAGE ==> pages[base].known[i] == old(pages[base].known[i])
    {
      CaptureKeeps(capture.live, pages, uc, simulated, base, offset, data);
      pages := pages[base := Captured(pages[base], offset, data)];
      uc := Overlay(uc, base + offset, data);
    }

    /** The end of the run of unknown bytes that starts at `offset`. */
    static method HoleEnd(known: seq<bool>, offset: nat, to: nat) returns (missingEnd: nat)
      requires offset < to <= |known| && !known[offset]
      ensures offset < missingEnd <= to
      ensures forall i :: offset <= i < missingEnd ==> !known[i]
      ensures missingEnd < to ==> known[missingEnd]
    {
      missingEnd := offset + 1;
      while missingEnd < to && !known[missingEnd]
        invariant offset < missingEnd <= to
        invariant forall i :: offset <= i < missingEnd ==> !known[i]
      {
        missingEnd := missingEnd + 1;
      }
    }

    /** Capture each run of unknown bytes of [from, to) in the page at `base`. */
    method FillHoles(base: nat, from: nat, to: nat) returns (failure: Option<Status>)
      requires Coherent() && base in pages && from <= to <= PAGE
      modifies `pages, `uc, capture`copied, capture`struck
      ensures Coherent() && KnowsMore(old(pages), pages)
      ensures failure.None? ==> KnownRange(pages, base + from, to - from)
      ensures failure.Some? ==> Explained(failure.value, base + from, to - from)
    {
      hide Consistent, IsKnown;
      var offset := from;
      while offset < to
        invariant Coherent() && base in pages && from <= offset <= to && KnowsMore(old(pages), pages)
        invariant KnownRange(pages, base + from, offset - from)
      {
        if pages[base].known[offset] {
          KnownByte(pages, base, offset);
          KnownJoin(pages, base + from, offset - from, 1);
          offset := offset + 1;
          continue;
        }
        var missingEnd := HoleEnd(pages[base].known, offset, to);
        var data := capture.Read(base + offset, missingEnd - offset);
        if data.Failure? {
          return Some(data.error);
        }
        assert |data.value| == missingEnd - offset;
        Fill(base, offset, data.value);
        KnownJoin(pages, base + from, offset - from, missingEnd - offset);
        offset := missingEnd;
      }
      return None;
    }

    ghost predicate InRange(address: int, size: int) {
      0 <= size <= MAX_ACCESS && 0 <= address && address + size <= limit
    }

    /**
     Make a range known, page by page and region by region. Success means every
     byte is known and lies where the access is permitted; the simulated memory
     itself never changes.
     */
    method Ensure(address: int, size: int, kind: Kind) returns (failure: Option<Status>)
      requires Coherent()
      modifies `pages, `uc, capture`copied, capture`struck
      ensures Coherent() && KnowsMore(old(pages), pages)
      ensures failure.None? ==>
                InRange(address, size) && KnownRange(pages, address, size)
                    && RangePermitted(regions, address, size, kind)
      ensures !InRange(address, size) ==> failure.Some? && Halted(failure.value, capture.struck)
      ensures failure.Some? && InRange(address, size) ==>
                || Explained(failure.value, address, size)
                || (failure.value == Denied(kind)
                    && exists a: nat :: address <= a < address + size && !Permitted(regions, a, kind))
    {
      failure := capture.Check();
      if failure.Some? {
        return;
      }
      if size < 0 || size > MAX_ACCESS || address < 0 || address + size > limit {
        capture.struck := capture.struck + {MemoryLimit};
        return Some(MemoryLimit);
      }
      var cursor := address;
      while cursor < address + size
        invariant Coherent() && KnowsMore(old(pages), pages)
        invariant address <= cursor <= address + size
        invariant KnownRange(pages, address, cursor - address)
        invariant forall a: nat :: address <= a < cursor ==> Permitted(regions, a, kind)
      {
        var region := FindRegion(cursor, kind);
        if region.Failure? {
          return Some(region.error);
        }
        var base := Base(cursor);
        var end := ChunkEnd(cursor, address + size, base, region.value);
        if base !in pages {
          failure := MapPage(base, region.value, cursor);
          if failure.Some? {
            return;
          }
        }
        failure := FillHoles(base, cursor - base, end - base);
        if failure.Some? {
          return;
        }
        cursor := end;
      }
      return None;
    }

    /** A simulated store to bytes already made known. */
    method Store(address: nat, data: seq<Byte>)
      requires Valid() && KnownRange(pages, address, |data|)
      modifies `uc, `simulated
      ensures Valid() && simulated == Overlay(old(simulated), address, data)
    {
      StoreKeeps(capture.live, pages, uc, simulated, address, data);
      uc := Overlay(uc, address, data);
      simulated := Overlay(simulated, address, data);
    }

    /** Current simulated bytes. */
    method Read(address: int, size: int, kind: Kind) returns (result: Result<seq<Byte>, Status>)
      requires Coherent()
      modifies `pages, `uc, capture`copied, capture`struck
      ensures Coherent() && KnowsMore(old(pages), pages)
      ensures result.Success? ==>
                && InRange(address, size) && KnownRange(pages, address, size)
                && |result.value| == size && BytesAt(simulated, address, result.value)
                && RangePermitted(regions, address, size, kind)
      ensures result.Failure? && 0 <= address && 0 <= size ==>
                Refused(result.error, capture.struck, regions, capture.live, address, size, kind)
    {
      var failure := Ensure(address, size, kind);
      if failure.Some? {
        return Failure(failure.value);
      }
      KnownSlices(capture.live, pages, uc, simulated, address, size);
      return Success(Slice(uc, address, size));
    }

    /** Bytes of the live target, whatever has been stored since. */
    method Original(address: int, size: int) returns (result: Result<seq<Byte>, Status>)
      requires Coherent()
      modifies `pages, `uc, capture`copied, capture`struck
      ensures Coherent() && KnowsMore(old(pages), pages)
      ensures result.Success? ==>
                && InRange(address, size) && |result.value| == size && BytesAt(capture.live, address, result.value)
      ensures result.Failure? && !InRange(address, size) ==> Halted(result.error, capture.struck)
      ensures result.Failure? && InRange(address, size) ==>
                || Explained(result.error, address, size)
                || (result.error == InvalidRead
                    && exists a: nat :: address <= a < address + size && !Permitted(regions, a, Kind.Read))
    {
      var failure := Ensure(address, size, Kind.Read);
      if failure.Some? {
        return Failure(failure.value);
      }
      var data := GatherOriginals(address, size);
      return Success(data);
    }

    method GatherOriginals(address: nat, size: nat) returns (data: seq<Byte>)
      requires Coherent() && KnownRange(pages, address, size)
      ensures |data| == size && BytesAt(capture.live, address, data)
    {
      hide Consistent, IsKnown;
      data := [];
      while |data| < size
        invariant |data| <= size && BytesAt(capture.live, address, data)
        decreases size - |data|
      {
        var cursor: nat := address + |data|;
        var rest := PAGE - (cursor - Base(cursor));
        var chunk := OriginalChunk(cursor, if size - |data| < rest then size - |data| else rest);
        BytesJoin(capture.live, address, data, chunk);
        data := data + chunk;
      }
    }

    method OriginalChunk(cursor: nat, count: nat) returns (chunk: seq<Byte>)
      requires Coherent() && KnownRange(pages, cursor, count)
      requires 0 < count && cursor + count <= Base(cursor) + PAGE
      ensures |chunk| == count && BytesAt(capture.live, cursor, chunk)
    {
      KnownOriginals(capture.live, pages, uc, simulated, cursor, count);
      chunk := pages[Base(cursor)].original[cursor - Base(cursor)..cursor - Base(cursor) + count];
    }

    /** Some byte of the word is missing from the target, or is not readable there. */
    ghost predicate Unreadable(address: nat)
      reads this, capture
    {
      || !Present(capture.live, address, width)
      || exists a: nat :: address <= a < address + width && !Permitted(regions, a, Kind.Read)
    }

    /** The original value of a stack word, or a slot marked unreadable. */
    method CaptureWord(address: nat) returns (slot: Slot, failure: Option<Status>)
      requires Coherent() && address < WORD_LIMIT
      modifies `pages, `uc, capture`copied, capture`struck
      ensures Coherent() && KnowsMore(old(pages), pages)
      ensures slot.address == address && SlotTrue(capture.live, width, slot)
      ensures failure.None? && !slot.readable && InRange(address, width) ==> Unreadable(address)
      ensures failure.Some? ==> Halted(failure.value, capture.struck)
    {
      slot := Slot(address, 0, false);
      var data := Original(address, width);
      if data.Success? {
        BytesAreSlice(capture.live, address, data.value);
        WordFits(data.value);
        return Slot(address, LittleEndian(data.value), true), None;
      }
      failure := if data.error != InvalidRead then Some(data.error) else None;
    }

    /** Look a stack word up, capturing its original value the first time. */
    method CaptureSlot(address: nat) returns (slot: Slot, failure: Option<Status>)
      requires Valid() && address < WORD_LIMIT
      modifies `pages, `uc, capture`copied, capture`struck, `slots, `stackSlots
      ensures Valid() && KnowsMore(old(pages), pages)
      ensures old(stackSlots) <= stackSlots
      ensures forall i :: |old(stackSlots)| <= i < |stackSlots| ==> stackSlots[i].address == address
      ensures failure.None? ==> slot in stackSlots && slot.address == address && address in slots
      ensures failure.None? ==> SlotTrue(capture.live, width, slot) && Slotted(stackSlots, address)
      ensures failure.Some? ==> Halted(failure.value, capture.struck)
      ensures old(slots).Keys <= slots.Keys
      ensures failure.None? && !slot.readable && address !in old(slots) && InRange(address, width) ==>
                Unreadable(address)
    {
      slot := Slot(address, 0, false);
      if address in slots {
        assert Indexed(slots, stackSlots, address);
        return slots[address], None;
      }
      if |slots| >= MAX_EVENTS {
        capture.struck := capture.struck + {MemoryLimit};
        return slot, Some(MemoryLimit);
      }
      slot, failure := CaptureWord(address);
      SlotAdded(capture.live, width, slots, stackSlots, slot);
      slots, stackSlots := slots[address := slot], stackSlots + [slot];
    }

    /** Capture every stack word that starts within an access, one pointer apart. */
    method CaptureSlots(address: nat, size: nat) returns (failure: Option<Status>)
      requires Valid() && address + size <= limit
      modifies `pages, `uc, capture`copied, capture`struck, `slots, `stackSlots
      ensures Valid() && KnowsMore(old(pages), pages)
      ensures old(stackSlots) <= stackSlots
      ensures failure.None? ==> WordsCaptured(stackSlots, address, size, width)
      ensures failure.Some? ==> Halted(failure.value, capture.struck)
    {
      hide Consistent, PagesWellFormed, SlotsTrue, IsKnown, WordsCaptured, Slotted;
      var offset := 0;
      NoWords(stackSlots, address, width);
      while offset < size
        invariant Valid() && KnowsMore(old(pages), pages)
        invariant old(stackSlots) <= stackSlots
        invariant offset % width == 0 && WordsCaptured(stackSlots, address, offset, width)
        decreases size - offset
      {
        var slot;
        ghost var before := stackSlots;
        slot, failure := CaptureSlot(address + offset);
        if failure.Some? {
          return;
        }
        OneMoreWord(before, stackSlots, address, offset, width);
        offset := offset + width;
      }
      WordsBelow(stackSlots, address, size, offset, width);
      return None;
    }
  }

  /** A word at this address was captured. */
  ghost predicate Slotted(slots: seq<Slot>, address: nat) {
    exists k :: 0 <= k < |slots| && slots[k].address == address
  }

  /** Every pointer-sized step inside a range starts a captured word. */
  ghost predicate WordsCaptured(slots: seq<Slot>, address: nat, size: nat, width: nat)
    requires width > 0
  {
    forall o: nat :: o < size && o % width == 0 ==> WordCaptured(slots, address, o)
  }

  ghost predicate WordCaptured(slots: seq<Slot>, address: nat, offset: nat) { Slotted(slots, address + offset) }

  /** A captured word stays captured. */
  lemma SlottedStays(before: seq<Slot>, after: seq<Slot>, address: nat)
    requires before <= after && Slotted(before, address)
    ensures Slotted(after, address)
  {
    var k :| 0 <= k < |before| && before[k].address == address;
    assert after[k].address == address;
  }

  lemma WordsStay(before: seq<Slot>, after: seq<Slot>, address: nat, size: nat, width: nat)
    requires width > 0 && before <= after && WordsCaptured(before, address, size, width)
    ensures WordsCaptured(after, address, size, width)
  {
    forall o: nat | o < size && o % width == 0 ensures WordCaptured(after, address, o) {
      assert WordCaptured(before, address, o);
      SlottedStays(before, after, address + o);
    }
  }

  lemma NoWords(slots: seq<Slot>, address: nat, width: nat)
    requires width > 0
    ensures WordsCaptured(slots, address, 0, width)
  {
  }

  lemma WordsBelow(slots: seq<Slot>, address: nat, size: nat, more: nat, width: nat)
    requires width > 0 && size <= more && WordsCaptured(slots, address, more, width)
    ensures WordsCaptured(slots, address, size, width)
  {
  }

  lemma OneMoreWord(before: seq<Slot>, slots: seq<Slot>, address: nat, offset: nat, width: nat)
    requires (width == 4 || width == 8) && offset % width == 0 && WordsCaptured(before, address, offset, width)
    requires before <= slots && Slotted(slots, address + offset)
    ensures (offset + width) % width == 0 && WordsCaptured(slots, address, offset + width, width)
  {
    WordsStay(before, slots, address, offset, width);
    forall o: nat | o < offset + width && o % width == 0 ensures WordCaptured(slots, address, o) {
      assert o < offset || o == offset;
    }
  }

  lemma SlotAdded(live: map<nat, Byte>, width: nat, slots: map<nat, Slot>, list: seq<Slot>, slot: Slot)
    requires SlotsTrue(live, width, slots, list) && SlotTrue(live, width, slot)
    requires slot.address !in slots && |slots| < MAX_EVENTS
    ensures SlotsTrue(live, width, slots[slot.address := slot], list + [slot])
    ensures (list + [slot])[|list|] == slot
  {
    var index, all := slots[slot.address := slot], list + [slot];
    forall i | 0 <= i < |list|
      ensures Listed(index, list[i]) && list[i].address != slot.address
    {
      assert Listed(slots, list[i]);
    }
    forall i, j | 0 <= i < j < |all| ensures SlotsDiffer(all, i, j) {
      assert j < |list| ==> SlotsDiffer(list, i, j);
    }
    forall a | a in index ensures Indexed(index, all, a) {
      if a == slot.address {
        assert all[|list|] == slot;
      } else {
        assert Indexed(slots, list, a);
      }
    }
  }

  /** On known bytes the simulator agrees with the eager memory. */
  lemma KnownSlices(live: map<nat, Byte>, pages: map<nat, Page>, uc: map<nat, Byte>, simulated: map<nat, Byte>,
                    address: nat, size: nat)
    requires Consistent(live, pages, uc, simulated) && KnownRange(pages, address, size)
    ensures Present(uc, address, size) && BytesAt(simulated, address, Slice(uc, address, size))
  {
    forall a: nat | address <= a < address + size ensures a in uc && a in simulated && uc[a] == simulated[a] {
      assert IsKnown(pages, a);
      var b :| b in pages && b <= a < b + PAGE && pages[b].known[a - b];
      assert Backed(live, pages[b], uc, simulated, b, a - b);
    }
  }

  lemma KnownOriginal(live: map<nat, Byte>, pages: map<nat, Page>, uc: map<nat, Byte>, simulated: map<nat, Byte>,
                      base: nat, a: nat)
    requires Consistent(live, pages, uc, simulated) && IsKnown(pages, a)
    requires base % PAGE == 0 && base <= a < base + PAGE
    ensures base in pages && ByteAt(live, a, pages[base].original[a - base])
  {
    var b :| b in pages && b <= a < b + PAGE && pages[b].known[a - b];
    AlignedApart(b, base);
    assert Backed(live, pages[b], uc, simulated, b, a - b);
  }

  /** On known bytes of one page the page's originals are the live bytes. */
  lemma KnownOriginals(live: map<nat, Byte>, pages: map<nat, Page>, uc: map<nat, Byte>, simulated: map<nat, Byte>,
                       cursor: nat, count: nat)
    requires Consistent(live, pages, uc, simulated) && KnownRange(pages, cursor, count) && 0 < count
    requires cursor + count <= Base(cursor) + PAGE
    ensures Base(cursor) in pages
    ensures BytesAt(live, cursor, pages[Base(cursor)].original[cursor - Base(cursor)..cursor - Base(cursor) + count])
  {
    var base := Base(cursor);
    KnownOriginal(live, pages, uc, simulated, base, cursor);
    var part := pages[base].original[cursor - base..cursor - base + count];
    forall i | 0 <= i < count ensures ByteAt(live, cursor + i, part[i]) {
      KnownOriginal(live, pages, uc, simulated, base, cursor + i);
      assert part[i] == pages[base].original[cursor + i - base];
    }
  }

  // ---------- Stack slots ----------

  /** A readable slot holds the little-endian word of its live bytes. */
  ghost predicate SlotTrue(live: map<nat, Byte>, width: nat, slot: Slot) {
    && slot.address < WORD_LIMIT && slot.value < WORD_LIMIT
    && if slot.readable then
         Present(live, slot.address, width) && slot.value == LittleEndian(Slice(live, slot.address, width))
       else slot.value == 0
  }

  /** The list in capture order and the index by address hold the same slots, once each. */
  ghost predicate SlotsTrue(live: map<nat, Byte>, width: nat, slots: map<nat, Slot>, list: seq<Slot>) {
    && |list| == |slots| <= MAX_EVENTS
    && (forall i :: 0 <= i < |list| ==> Listed(slots, list[i]))
    && (forall i, j :: 0 <= i < j < |list| ==> SlotsDiffer(list, i, j))
    && (forall i :: 0 <= i < |list| ==> SlotTrue(live, width, list[i]))
    && (forall a :: a in slots ==> Indexed(slots, list, a))
  }

  ghost predicate Listed(slots: map<nat, Slot>, slot: Slot) {
    slot.address in slots && slots[slot.address] == slot
  }

  ghost predicate SlotsDiffer(list: seq<Slot>, i: nat, j: nat)
    requires i < j < |list|
  {
    list[i].address != list[j].address
  }

  ghost predicate Indexed(slots: map<nat, Slot>, list: seq<Slot>, a: nat)
    requires a in slots
  {
    slots[a].address == a && slots[a] in list
  }

  /** The end of the part of a range that stays within one page and one region. */
  function ChunkEnd(cursor: nat, stop: nat, base: nat, region: Region): (end: nat)
    requires cursor < stop && base <= cursor < base + PAGE && region.Holds(cursor)
    ensures cursor < end <= stop && end <= base + PAGE && end <= region.end
  {
    var pageEnd := if stop < base + PAGE then stop else base + PAGE;
    if pageEnd < region.end then pageEnd else region.end
  }

  lemma KnownByte(pages: map<nat, Page>, base: nat, offset: nat)
    requires PagesWellFormed(pages) && base in pages && offset < PAGE && pages[base].known[offset]
    ensures KnownRange(pages, base + offset, 1)
  {
    assert pages[base].known[base + offset - base];
  }

  lemma KnownJoin(pages: map<nat, Page>, address: nat, size: nat, more: nat)
    requires PagesWellFormed(pages) && KnownRange(pages, address, size) && KnownRange(pages, address + size, more)
    ensures KnownRange(pages, address, size + more)
  {
  }
}
