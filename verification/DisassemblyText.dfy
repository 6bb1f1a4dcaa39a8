/**
 Coloured and linked disassembly text: a growing text with a list of spans that is
 extended, merged and split in place.
 */
module DisassemblyText {
  import opened Wrappers
  import opened Sequences

  datatype Kind =
    | Plain | Mnemonic | ControlFlow | Register | Number | Punctuation | Type | Symbol | String | Comment | Runtime

  datatype Span = Span(begin: nat, end: nat, kind: Kind, target: Option<nat>)

  // ---------- Tiling ----------

  /** Span i + 1 starts where span i ends. */
  ghost predicate Meets(tokens: seq<Span>, i: nat)
    requires i + 1 < |tokens|
  {
    tokens[i].end == tokens[i + 1].begin
  }

  /** The spans are non-empty, in order and contiguous, and cover [0, size) exactly. */
  ghost predicate Tiles(tokens: seq<Span>, size: nat) {
    && (forall i :: 0 <= i < |tokens| ==> tokens[i].begin < tokens[i].end)
    && (forall i :: 0 <= i < |tokens| - 1 ==> Meets(tokens, i))
    && (if tokens == [] then size == 0 else tokens[0].begin == 0 && tokens[|tokens| - 1].end == size)
  }

  lemma {:induction false} SpansOrdered(tokens: seq<Span>, size: nat, i: nat, j: nat)
    requires Tiles(tokens, size) && i < j < |tokens|
    ensures tokens[i].end <= tokens[j].begin
  {
    assert Meets(tokens, j - 1);
    if i < j - 1 {
      SpansOrdered(tokens, size, i, j - 1);
    }
  }

  lemma SpanInText(tokens: seq<Span>, size: nat, i: nat)
    requires Tiles(tokens, size) && i < |tokens|
    ensures tokens[i].end <= size
  {
    if i < |tokens| - 1 {
      SpansOrdered(tokens, size, i, |tokens| - 1);
    }
  }

  // ---------- What each byte shows ----------

  /** Kind and target of every byte. */
  datatype Paint = Paint(kind: Kind, target: Option<nat>)

  function PaintOf(s: Span): Paint { Paint(s.kind, s.target) }

  ghost function Painted(tokens: seq<Span>): seq<Paint> {
    if tokens == [] then []
    else
      var last := tokens[|tokens| - 1];
      Painted(tokens[..|tokens| - 1])
          + Repeat(PaintOf(last), if last.begin < last.end then last.end - last.begin else 0)
  }

  lemma {:induction false} TilesFront(tokens: seq<Span>, size: nat)
    requires Tiles(tokens, size) && tokens != []
    ensures Tiles(tokens[..|tokens| - 1], tokens[|tokens| - 1].begin)
  {
    var front := tokens[..|tokens| - 1];
    forall i | 0 <= i < |front| - 1 ensures Meets(front, i) {
      assert Meets(tokens, i);
    }
    if front != [] {
      assert Meets(tokens, |front| - 1);
    }
  }

  lemma {:induction false} PaintedSize(tokens: seq<Span>, size: nat)
    requires Tiles(tokens, size)
    ensures |Painted(tokens)| == size
  {
    if tokens != [] {
      TilesFront(tokens, size);
      PaintedSize(tokens[..|tokens| - 1], tokens[|tokens| - 1].begin);
    }
  }

  /** A byte shows the paint of the span that holds it. */
  lemma {:induction false} PaintedAt(tokens: seq<Span>, size: nat, i: nat, b: nat)
    requires Tiles(tokens, size) && i < |tokens| && tokens[i].begin <= b < tokens[i].end
    ensures b < |Painted(tokens)| && Painted(tokens)[b] == PaintOf(tokens[i])
  {
    TilesFront(tokens, size);
    PaintedSize(tokens, size);
    PaintedSize(tokens[..|tokens| - 1], tokens[|tokens| - 1].begin);
    SpanInText(tokens, size, i);
    if i < |tokens| - 1 {
      PaintedAt(tokens[..|tokens| - 1], tokens[|tokens| - 1].begin, i, b);
    }
  }

  /** Every byte of a tiled text lies in a span. */
  lemma {:induction false} SpanOf(tokens: seq<Span>, size: nat, b: nat) returns (i: nat)
    requires Tiles(tokens, size) && b < size
    ensures i < |tokens| && tokens[i].begin <= b < tokens[i].end
  {
    i := |tokens| - 1;
    if b < tokens[i].begin {
      TilesFront(tokens, size);
      i := SpanOf(tokens[..i], tokens[i].begin, b);
    }
  }

  /** Every byte of a span has the span's paint. */
  ghost predicate Shows(s: Span, paint: seq<Paint>) {
    s.end <= |paint| && forall b :: s.begin <= b < s.end ==> paint[b] == PaintOf(s)
  }

  /** Spans agree with a byte-wise painting. */
  ghost predicate Agrees(tokens: seq<Span>, paint: seq<Paint>) {
    forall i :: 0 <= i < |tokens| ==> Shows(tokens[i], paint)
  }

  lemma AgreesWithPainted(tokens: seq<Span>, size: nat)
    requires Tiles(tokens, size)
    ensures Agrees(tokens, Painted(tokens)) && |Painted(tokens)| == size
  {
    PaintedSize(tokens, size);
    forall i | 0 <= i < |tokens| ensures Shows(tokens[i], Painted(tokens)) {
      SpanInText(tokens, size, i);
      forall b | tokens[i].begin <= b < tokens[i].end ensures Painted(tokens)[b] == PaintOf(tokens[i]) {
        PaintedAt(tokens, size, i, b);
      }
    }
  }

  lemma AgreementIsPainted(tokens: seq<Span>, size: nat, paint: seq<Paint>)
    requires Tiles(tokens, size) && |paint| == size && Agrees(tokens, paint)
    ensures Painted(tokens) == paint
  {
    PaintedSize(tokens, size);
    forall b | 0 <= b < size ensures Painted(tokens)[b] == paint[b] {
      var i := SpanOf(tokens, size, b);
      assert Shows(tokens[i], paint);
      PaintedAt(tokens, size, i, b);
    }
  }

  // ---------- Words ----------

  predicate WordCharacter(c: char) {
    'a' <= c <= 'z' || 'A' <= c <= 'Z' || '0' <= c <= '9' || c == '_' || c == '.' || c == '$' || c == '@' || c == '?'
  }

  predicate Occurs(text: string, value: string, at: nat) {
    at + |value| <= |text| && text[at..at + |value|] == value
  }

  /** `value` stands at a position, not inside a longer word. */
  predicate WordBounded(text: string, value: string, at: nat) {
    && Occurs(text, value, at)
    && (at > 0 ==> !WordCharacter(text[at - 1]))
    && (at + |value| < |text| ==> !WordCharacter(text[at + |value|]))
  }

  // ---------- Linking one occurrence ----------

  /** The paint with every byte of [at, end) that is not plain linked to an address. */
  ghost function Linked(paint: seq<Paint>, at: nat, end: nat, address: nat): (r: seq<Paint>)
    ensures |r| == |paint|
    ensures forall b :: 0 <= b < |paint| ==>
              r[b] == if at <= b < end && paint[b].kind != Plain then paint[b].(target := Some(address)) else paint[b]
  {
    seq(|paint|, b requires 0 <= b < |paint| =>
      if at <= b < end && paint[b].kind != Plain then paint[b].(target := Some(address)) else paint[b])
  }

  /** Spans before i show the new paint, the others still the old one. */
  ghost predicate Halfway(tokens: seq<Span>, i: nat, before: seq<Paint>, after: seq<Paint>) {
    && i <= |tokens|
    && (forall k :: 0 <= k < i ==> Shows(tokens[k], after))
    && (forall k :: i <= k < |tokens| ==> Shows(tokens[k], before))
  }

  /** Cut span i in two at a position inside it. */
  function Split(tokens: seq<Span>, i: nat, at: nat): seq<Span>
    requires i < |tokens|
  {
    tokens[..i] + [tokens[i].(end := at), tokens[i].(begin := at)] + tokens[i + 1..]
  }

  lemma SplitTiles(tokens: seq<Span>, size: nat, i: nat, at: nat)
    requires Tiles(tokens, size) && i < |tokens| && tokens[i].begin < at < tokens[i].end
    ensures Tiles(Split(tokens, i, at), size) && |Split(tokens, i, at)| == |tokens| + 1
    ensures forall k {:trigger Split(tokens, i, at)[k]} :: 0 <= k < i ==> Split(tokens, i, at)[k] == tokens[k]
    ensures Split(tokens, i, at)[i] == tokens[i].(end := at) && Split(tokens, i, at)[i + 1] == tokens[i].(begin := at)
    ensures forall k {:trigger Split(tokens, i, at)[k]} :: i + 1 < k <= |tokens| ==>
              Split(tokens, i, at)[k] == tokens[k - 1]
  {
    var cut := Split(tokens, i, at);
    forall k | 0 <= k < |cut| - 1 ensures Meets(cut, k) {
      if k < i {
        assert Meets(tokens, k);
      } else if k > i {
        assert Meets(tokens, k - 1);
      }
    }
  }

  /** Cutting changes no paint. */
  lemma SplitHalfway(tokens: seq<Span>, size: nat, i: nat, at: nat, before: seq<Paint>, after: seq<Paint>)
    requires Tiles(tokens, size) && Halfway(tokens, i, before, after)
    requires i < |tokens| && tokens[i].begin < at < tokens[i].end
    ensures Halfway(Split(tokens, i, at), i, before, after)
  {
    SplitTiles(tokens, size, i, at);
    var cut := Split(tokens, i, at);
    assert Shows(tokens[i], before);
    assert Shows(cut[i], before) && Shows(cut[i + 1], before);
    forall k | i + 1 < k < |cut| ensures Shows(cut[k], before) {
      assert Shows(tokens[k - 1], before);
    }
  }

  /** A span whose bytes keep their paint can be passed over. */
  lemma PassHalfway(tokens: seq<Span>, i: nat, before: seq<Paint>, after: seq<Paint>)
    requires Halfway(tokens, i, before, after) && i < |tokens| && |before| == |after|
    requires forall b :: tokens[i].begin <= b < tokens[i].end && b < |before| ==> after[b] == before[b]
    ensures Halfway(tokens, i + 1, before, after)
  {
    assert Shows(tokens[i], before);
  }

  method LinkOccurrence(tokens0: seq<Span>, size: nat, at: nat, end: nat, address: nat) returns (tokens: seq<Span>)
    requires Tiles(tokens0, size) && at < end
    ensures Tiles(tokens, size)
    ensures Painted(tokens) == Linked(Painted(tokens0), at, end, address)
  {
    tokens := tokens0;
    ghost var before := Painted(tokens0);
    ghost var after := Linked(before, at, end, address);
    AgreesWithPainted(tokens0, size);
    var i: nat := 0;
    while i < |tokens|
      invariant Tiles(tokens, size) && Halfway(tokens, i, before, after)
      decreases if i < |tokens| then |before| - tokens[i].begin else 0
    {
      SpanInText(tokens, size, i);
      tokens, i := LinkSpan(tokens, size, i, at, end, address, before, after);
      if i < |tokens| {
        SpanInText(tokens, size, i);
      }
    }
    AgreementIsPainted(tokens, size, after);
  }

  /** Cut span i to the occurrence, link what lies inside, and step past it. */
  method LinkSpan(tokens0: seq<Span>, size: nat, i0: nat, at: nat, end: nat, address: nat,
                  ghost before: seq<Paint>, ghost after: seq<Paint>) returns (tokens: seq<Span>, i: nat)
    requires Tiles(tokens0, size) && at < end && i0 < |tokens0| && Halfway(tokens0, i0, before, after)
    requires |before| == size && after == Linked(before, at, end, address)
    ensures Tiles(tokens, size) && Halfway(tokens, i, before, after)
    ensures i < |tokens| ==> tokens0[i0].begin < tokens[i].begin
  {
    tokens, i := tokens0, i0;
    SpanInText(tokens, size, i);
    if tokens[i].end <= at || tokens[i].begin >= end {
      PassHalfway(tokens, i, before, after);
    } else {
      tokens, i := CutFront(tokens, size, i, at, end, address, before, after);
      tokens := CutBack(tokens, size, i, end, before, after);
      LinkInside(tokens, size, i, at, end, address, before, after);
      if tokens[i].kind != Plain {
        tokens := tokens[i := tokens[i].(target := Some(address))];
      }
    }
    if i < |tokens| - 1 {
      assert Meets(tokens, i);
    }
    i := i + 1;
  }

  /** Cut off what lies before the occurrence. */
  method CutFront(tokens0: seq<Span>, size: nat, i0: nat, at: nat, end: nat, address: nat,
                  ghost before: seq<Paint>, ghost after: seq<Paint>) returns (tokens: seq<Span>, i: nat)
    requires Tiles(tokens0, size) && i0 < |tokens0| && Halfway(tokens0, i0, before, after)
    requires |before| == size && after == Linked(before, at, end, address)
    requires at < end && at < tokens0[i0].end && tokens0[i0].begin < end
    ensures Tiles(tokens, size) && i < |tokens| && Halfway(tokens, i, before, after)
    ensures at <= tokens[i].begin < end && tokens0[i0].begin <= tokens[i].begin
  {
    tokens, i := tokens0, i0;
    if tokens[i].begin < at {
      SplitTiles(tokens, size, i, at);
      SplitHalfway(tokens, size, i, at, before, after);
      tokens := Split(tokens, i, at);
      PassHalfway(tokens, i, before, after);
      i := i + 1;
    }
  }

  /** Cut off what lies after the occurrence. */
  method CutBack(tokens0: seq<Span>, size: nat, i: nat, end: nat, ghost before: seq<Paint>, ghost after: seq<Paint>)
    returns (tokens: seq<Span>)
    requires Tiles(tokens0, size) && i < |tokens0| && Halfway(tokens0, i, before, after) && tokens0[i].begin < end
    ensures Tiles(tokens, size) && i < |tokens| && Halfway(tokens, i, before, after)
    ensures tokens[i] == tokens0[i].(end := tokens[i].end) && tokens[i].end <= end
  {
    tokens := tokens0;
    if tokens[i].end > end {
      SplitTiles(tokens, size, i, end);
      SplitHalfway(tokens, size, i, end, before, after);
      tokens := Split(tokens, i, end);
    }
  }

  /** A span inside the occurrence takes the new paint. */
  lemma LinkInside(tokens: seq<Span>, size: nat, i: nat, at: nat, end: nat, address: nat, before: seq<Paint>,
                   after: seq<Paint>)
    requires Tiles(tokens, size) && i < |tokens| && Halfway(tokens, i, before, after)
    requires at <= tokens[i].begin && tokens[i].end <= end
    requires |before| == size && after == Linked(before, at, end, address)
    ensures var linked := if tokens[i].kind != Plain then tokens[i := tokens[i].(target := Some(address))] else tokens;
            Tiles(linked, size) && Halfway(linked, i + 1, before, after)
  {
    var linked := if tokens[i].kind != Plain then tokens[i := tokens[i].(target := Some(address))] else tokens;
    forall k | 0 <= k < |linked| - 1 ensures Meets(linked, k) {
      assert Meets(tokens, k);
    }
    assert Shows(tokens[i], before);
    forall b | linked[i].begin <= b < linked[i].end ensures after[b] == PaintOf(linked[i]) {
      assert before[b] == PaintOf(tokens[i]);
    }
    assert Shows(linked[i], after);
  }

  // ---------- Adding spans ----------

  /** The list after recording [begin, end): the last span grows if it matches, else a new one follows. */
  function Recorded(tokens: seq<Span>, begin: nat, end: nat, kind: Kind, target: Option<nat>): seq<Span> {
    if begin == end then tokens
    else if tokens != [] && tokens[|tokens| - 1].kind == kind && tokens[|tokens| - 1].end == begin
            && tokens[|tokens| - 1].target == target then
      tokens[..|tokens| - 1] + [tokens[|tokens| - 1].(end := end)]
    else tokens + [Span(begin, end, kind, target)]
  }

  lemma RecordedTiles(tokens: seq<Span>, begin: nat, end: nat, kind: Kind, target: Option<nat>)
    requires Tiles(tokens, begin) && begin <= end
    ensures Tiles(Recorded(tokens, begin, end, kind, target), end)
    ensures Painted(Recorded(tokens, begin, end, kind, target))
            == Painted(tokens) + Repeat(Paint(kind, target), end - begin)
  {
    var longer := Recorded(tokens, begin, end, kind, target);
    forall k | 0 <= k < |longer| - 1 ensures Meets(longer, k) {
      if k < |tokens| - 1 {
        assert Meets(tokens, k);
      }
    }
    if begin < end && |longer| == |tokens| {
      assert longer[..|longer| - 1] == tokens[..|tokens| - 1];
    } else if begin < end {
      assert longer[..|longer| - 1] == tokens;
    }
  }

  // ---------- Occurrences of a name ----------

  ghost predicate NoneIn(text: string, value: string, from: nat, to: nat) {
    forall k :: from <= k < to ==> !Occurs(text, value, k)
  }

  /** `std::string::find`: the first occurrence at or after a position. */
  method Find(text: string, value: string, from: nat) returns (at: Option<nat>)
    ensures at.Some? ==> from <= at.value && Occurs(text, value, at.value)
    ensures NoneIn(text, value, from, if at.Some? then at.value else |text| + 1)
  {
    var k := from;
    while k + |value| <= |text|
      invariant from <= k && NoneIn(text, value, from, k)
      decreases |text| - k
    {
      if text[k..k + |value|] == value {
        return Some(k);
      }
      k := k + 1;
    }
    return None;
  }

  ghost predicate FoundBefore(text: string, value: string, limit: nat) {
    exists at: nat :: at < limit && WordBounded(text, value, at)
  }

  /** Some word-bounded occurrence that starts before `limit` holds byte b. */
  ghost predicate Reached(text: string, value: string, limit: nat, b: nat) {
    exists at: nat :: at < limit && WordBounded(text, value, at) && at <= b < at + |value|
  }

  /** The paint after linking all word-bounded occurrences that start before `limit`. */
  ghost predicate LinkedUpTo(text: string, value: string, address: nat, limit: nat, before: seq<Paint>,
                             after: seq<Paint>) {
    && |after| == |before|
    && forall b :: 0 <= b < |before| ==>
         after[b] == if Reached(text, value, limit, b) && before[b].kind != Plain
                     then before[b].(target := Some(address)) else before[b]
  }

  lemma LinkedNext(text: string, value: string, address: nat, at: nat, before: seq<Paint>, middle: seq<Paint>)
    requires LinkedUpTo(text, value, address, at, before, middle) && WordBounded(text, value, at)
    ensures LinkedUpTo(text, value, address, at + 1, before, Linked(middle, at, at + |value|, address))
  {
    var after := Linked(middle, at, at + |value|, address);
    forall b | 0 <= b < |before|
      ensures after[b] == if Reached(text, value, at + 1, b) && before[b].kind != Plain
                          then before[b].(target := Some(address)) else before[b]
    {
      if at <= b < at + |value| {
        assert Reached(text, value, at + 1, b);
      } else {
        ReachedSkips(text, value, at, b);
      }
    }
  }

  lemma ReachedSkips(text: string, value: string, at: nat, b: nat)
    requires !WordBounded(text, value, at) || !(at <= b < at + |value|)
    ensures Reached(text, value, at + 1, b) <==> Reached(text, value, at, b)
  {
  }

  /** An occurrence inside a longer word links nothing. */
  lemma LinkedPasses(text: string, value: string, address: nat, at: nat, before: seq<Paint>, after: seq<Paint>)
    requires LinkedUpTo(text, value, address, at, before, after) && !WordBounded(text, value, at)
    ensures LinkedUpTo(text, value, address, at + 1, before, after)
  {
    forall b | 0 <= b < |before| ensures Reached(text, value, at + 1, b) <==> Reached(text, value, at, b) {
      ReachedSkips(text, value, at, b);
    }
  }

  lemma LinkedSkips(text: string, value: string, address: nat, from: nat, to: nat, before: seq<Paint>,
                    after: seq<Paint>)
    requires LinkedUpTo(text, value, address, from, before, after) && from <= to
    requires NoneIn(text, value, from, to)
    ensures LinkedUpTo(text, value, address, to, before, after)
    ensures FoundBefore(text, value, to) <==> FoundBefore(text, value, from)
  {
    forall b | 0 <= b < |before| ensures Reached(text, value, to, b) <==> Reached(text, value, from, b) {
    }
  }

  // ---------- The text object ----------

  class StyledText {
    var text: string
    var tokens: seq<Span>

    ghost predicate Valid()
      reads this
    {
      Tiles(tokens, |text|)
    }

    constructor ()
      ensures Valid() && text == "" && tokens == []
    {
      text, tokens := "", [];
    }

    method AddToken(begin: nat, end: nat, kind: Kind, target: Option<nat>)
      requires Tiles(tokens, begin) && begin <= end
      modifies `tokens
      ensures Tiles(tokens, end) && tokens == Recorded(old(tokens), begin, end, kind, target)
      ensures Painted(tokens) == Painted(old(tokens)) + Repeat(Paint(kind, target), end - begin)
    {
      RecordedTiles(tokens, begin, end, kind, target);
      if begin == end {
        return;
      }
      var last := |tokens| - 1;
      if tokens != [] && tokens[last].kind == kind && tokens[last].end == begin && tokens[last].target == target {
        tokens := tokens[..last] + [tokens[last].(end := end)];
      } else {
        tokens := tokens + [Span(begin, end, kind, target)];
      }
    }

    method Append(value: string, kind: Kind, target: Option<nat>)
      requires Valid()
      modifies this
      ensures Valid() && text == old(text) + value
      ensures tokens == Recorded(old(tokens), |old(text)|, |text|, kind, target)
      ensures Painted(tokens) == Painted(old(tokens)) + Repeat(Paint(kind, target), |value|)
    {
      var begin := |text|;
      text := text + value;
      AddToken(begin, |text|, kind, target);
    }

    /** Add text and tokenize it. */
    method AppendTokenized(value: string, architecture: Architecture, comment: bool, tables: Tables)
      requires Valid()
      modifies this
      ensures Valid() && text == old(text) + value
      ensures tokens == Tokenized(text, old(tokens), |old(text)|, architecture, Scan(comment, false), tables)
      ensures |old(text)| <= |Painted(tokens)| && Painted(tokens)[..|old(text)|] == Painted(old(tokens))
      ensures FreshlyTokenized(text, Painted(tokens), |old(text)|)
    {
      var start := |text|;
      text := text + value;
      tokens := TokenizeFrom(text, tokens, start, architecture, comment, tables);
    }

    /**
     Link every word-bounded occurrence of a name: the spans still tile the text, no
     byte changes kind, and the targets change exactly on the non-plain bytes of the
     occurrences.
     */
    method LinkReference(value: string, address: nat) returns (found: bool)
      requires Valid()
      modifies `tokens
      ensures Valid() && |Painted(tokens)| == |text|
      ensures found <==> value != "" && FoundBefore(text, value, |text| + 1)
      ensures value == "" ==> tokens == old(tokens)
      ensures value != "" ==> LinkedUpTo(text, value, address, |text| + 1, Painted(old(tokens)), Painted(tokens))
    {
      PaintedSize(tokens, |text|);
      if value == "" {
        return false;
      }
      tokens, found := LinkAll(text, tokens, value, address);
      PaintedSize(tokens, |text|);
    }
  }

  /** The search loop: from one occurrence to the next, overlapping ones included. */
  method LinkAll(text: string, tokens0: seq<Span>, value: string, address: nat) returns (tokens: seq<Span>, found: bool)
    requires Tiles(tokens0, |text|) && value != ""
    ensures Tiles(tokens, |text|)
    ensures LinkedUpTo(text, value, address, |text| + 1, Painted(tokens0), Painted(tokens))
    ensures found <==> FoundBefore(text, value, |text| + 1)
  {
    tokens, found := tokens0, false;
    ghost var limit: nat := 0;
    var at := Find(text, value, 0);
    while at.Some?
      invariant Tiles(tokens, |text|) && limit <= |text|
      invariant LinkedUpTo(text, value, address, limit, Painted(tokens0), Painted(tokens))
      invariant at.Some? ==> limit <= at.value && Occurs(text, value, at.value)
      invariant NoneIn(text, value, limit, if at.Some? then at.value else |text| + 1)
      invariant found <==> FoundBefore(text, value, limit)
      decreases if at.Some? then |text| + 1 - at.value else 0
    {
      var bounded;
      LinkedSkips(text, value, address, limit, at.value, Painted(tokens0), Painted(tokens));
      tokens, bounded := LinkHere(text, tokens, value, address, at.value, Painted(tokens0));
      found := found || bounded;
      limit := at.value + 1;
      at := Find(text, value, at.value + 1);
    }
    LinkedSkips(text, value, address, limit, |text| + 1, Painted(tokens0), Painted(tokens));
  }

  /** Link one occurrence unless it stands inside a longer word. */
  method LinkHere(text: string, tokens0: seq<Span>, value: string, address: nat, at: nat, ghost before: seq<Paint>)
    returns (tokens: seq<Span>, bounded: bool)
    requires Tiles(tokens0, |text|) && value != "" && Occurs(text, value, at)
    requires LinkedUpTo(text, value, address, at, before, Painted(tokens0))
    ensures Tiles(tokens, |text|) && LinkedUpTo(text, value, address, at + 1, before, Painted(tokens))
    ensures FoundBefore(text, value, at + 1) <==> FoundBefore(text, value, at) || bounded
  {
    tokens, bounded := tokens0, WordBounded(text, value, at);
    if bounded {
      tokens := LinkOccurrence(tokens0, |text|, at, at + |value|, address);
      LinkedNext(text, value, address, at, before, Painted(tokens0));
    } else {
      LinkedPasses(text, value, address, at, before, Painted(tokens0));
    }
  }

  // ---------- Tokenizing ----------

  datatype Architecture = X86 | Arm | Arm64 | RiscV | Mips | PowerPC | Sparc | LoongArch | SystemZ | OtherArchitecture

  /** The register tables and number parsers, taken as given. */
  datatype Tables = Tables(isRegister: string -> bool, isNumber: string -> bool, addressLiteral: string -> Option<nat>)

  predicate IsSpace(c: char) { c == ' ' || 9 <= c as int <= 13 }

  const SIZE_WORDS: set<string> :=
    {"byte", "word", "dword", "qword", "tbyte", "xword", "xmmword", "ymmword", "zmmword", "ptr", "offset"}

  /** What the tokenizer carries from one token to the next. */
  datatype Scan = Scan(comment: bool, brackets: bool)

  predicate IsQuote(c: char) { c == '"' || c == '\'' }

  /** Past the next quote that no backslash escapes, or at the end of the text. */
  function QuoteEnd(text: string, quote: char, i: nat): (end: nat)
    ensures end <= |text| && (i <= |text| ==> i <= end)
    decreases |text| - i
  {
    if i >= |text| then |text|
    else if text[i] == '\\' && i + 1 < |text| then QuoteEnd(text, quote, i + 2)
    else if text[i] == quote then i + 1
    else QuoteEnd(text, quote, i + 1)
  }

  /** How many backslashes stand right before k, from i on. */
  function Backslashes(text: string, i: nat, k: nat): nat
    requires k <= |text|
  {
    if k > i && text[k - 1] == '\\' then Backslashes(text, i, k - 1) + 1 else 0
  }

  /** An odd number of backslashes escapes what stands after them. */
  predicate Unescaped(text: string, i: nat, k: nat)
    requires k <= |text|
  {
    Backslashes(text, i, k) % 2 == 0
  }

  lemma {:induction false} PairSkipped(text: string, i: nat, k: nat)
    requires i + 2 <= k <= |text| && text[i] == '\\'
    ensures Unescaped(text, i, k) <==> Unescaped(text, i + 2, k)
    decreases k
  {
    if k > i + 2 && text[k - 1] == '\\' {
      PairSkipped(text, i, k - 1);
    } else if k == i + 2 {
      assert Backslashes(text, i, i + 1) == 1;
    }
  }

  lemma {:induction false} PlainSkipped(text: string, i: nat, k: nat)
    requires i + 1 <= k <= |text| && text[i] != '\\'
    ensures Backslashes(text, i, k) == Backslashes(text, i + 1, k)
    decreases k
  {
    if k > i + 1 {
      PlainSkipped(text, i, k - 1);
    }
  }

  /** A quote stands at k that no backslash escapes. */
  predicate ClosesAt(text: string, quote: char, i: nat, k: nat) {
    k < |text| && text[k] == quote && Unescaped(text, i, k)
  }

  /** A quoted string ends past its first quote that is not escaped; without one it takes all the text. */
  lemma {:induction false} QuoteEndsFirst(text: string, quote: char, i: nat)
    requires i <= |text| && quote != '\\'
    ensures var end := QuoteEnd(text, quote, i);
            && (forall k :: i <= k < end - 1 ==> !ClosesAt(text, quote, i, k))
            && (if end > i && ClosesAt(text, quote, i, end - 1) then true
                else end == |text| && forall k :: i <= k < |text| ==> !ClosesAt(text, quote, i, k))
    decreases |text| - i
  {
    if i < |text| {
      var step := if text[i] == '\\' && i + 1 < |text| then 2 else 1;
      assert Backslashes(text, i, i) == 0;
      if step == 2 {
        QuoteEndsFirst(text, quote, i + 2);
        assert Backslashes(text, i, i + 1) == 1;
        forall k | i + 2 <= k < |text| ensures ClosesAt(text, quote, i, k) <==> ClosesAt(text, quote, i + 2, k) {
          PairSkipped(text, i, k);
        }
      } else if text[i] != '\\' && text[i] != quote {
        QuoteEndsFirst(text, quote, i + 1);
        forall k | i + 1 <= k < |text| ensures ClosesAt(text, quote, i, k) <==> ClosesAt(text, quote, i + 1, k) {
          PlainSkipped(text, i, k);
        }
      }
    }
  }

  method StringEnd(text: string, begin: nat) returns (end: nat)
    requires begin < |text| && IsQuote(text[begin])
    ensures begin < end <= |text| && end == QuoteEnd(text, text[begin], begin + 1)
  {
    end := begin + 1;
    while end < |text|
      invariant begin < end <= |text|
      invariant QuoteEnd(text, text[begin], end) == QuoteEnd(text, text[begin], begin + 1)
    {
      var next := text[end];
      end := end + 1;
      if next == '\\' && end < |text| {
        end := end + 1;
      } else if next == text[begin] {
        return;
      }
    }
  }

  /** The end of a word: letters, digits and name punctuation, with `::` between parts. */
  function WordRest(text: string, i: nat): (end: nat)
    ensures i <= end && (i <= |text| ==> end <= |text|)
    decreases |text| - i
  {
    if i < |text| && WordCharacter(text[i]) then WordRest(text, i + 1)
    else if i + 1 < |text| && text[i] == ':' && text[i + 1] == ':' then WordRest(text, i + 2)
    else i
  }

  method WordEnd(text: string, begin: nat) returns (end: nat)
    requires begin < |text|
    ensures begin < end <= |text| && end == WordRest(text, begin + 1)
  {
    end := begin + 1;
    while end < |text|
      invariant begin < end <= |text| && WordRest(text, end) == WordRest(text, begin + 1)
    {
      if WordCharacter(text[end]) {
        end := end + 1;
      } else if text[end] == ':' && end + 1 < |text| && text[end + 1] == ':' {
        end := end + 2;
      } else {
        break;
      }
    }
  }

  predicate StartsComment(text: string, begin: nat, architecture: Architecture)
    requires begin < |text|
  {
    || text[begin] == ';'
    || (text[begin] == '#' && architecture != Arm && architecture != Arm64)
    || (text[begin] == '/' && begin + 1 < |text| && text[begin + 1] == '/')
  }

  /** A word, unless a quote, a comment or the sigil of an immediate comes first. */
  predicate StartsWord(text: string, begin: nat, architecture: Architecture, scan: Scan)
    requires begin < |text|
  {
    && (WordCharacter(text[begin]) || text[begin] == '%')
    && !(!scan.comment && StartsComment(text, begin, architecture))
    && !(text[begin] == '$' && architecture == X86 && !scan.comment)
  }

  predicate Immediate(text: string, begin: nat, architecture: Architecture)
    requires begin < |text|
  {
    architecture == X86 && begin > 0 && text[begin - 1] == '$'
  }

  function WordKind(word: string, immediate: bool, scan: Scan, tables: Tables): Kind {
    if !scan.comment && !scan.brackets && !immediate && tables.isRegister(word) then Register
    else if tables.isNumber(word) then Number
    else if scan.comment then Comment
    else if word in SIZE_WORDS then Punctuation
    else Symbol
  }

  /** Where a token ends, its kind, and the scan state after it. */
  datatype Step = Step(end: nat, kind: Kind, next: Scan)

  function NextStep(text: string, begin: nat, architecture: Architecture, scan: Scan, tables: Tables): (step: Step)
    requires begin < |text|
    ensures begin < step.end <= |text|
  {
    if IsQuote(text[begin]) then Step(QuoteEnd(text, text[begin], begin + 1), String, scan)
    else if !scan.comment && StartsComment(text, begin, architecture) then
      Step(begin + 1, Comment, scan.(comment := true))
    else if StartsWord(text, begin, architecture, scan) then
      var end := WordRest(text, begin + 1);
      Step(end, WordKind(text[begin..end], Immediate(text, begin, architecture), scan, tables), scan)
    else if scan.comment then Step(begin + 1, Comment, scan)
    else
      Step(begin + 1, if IsSpace(text[begin]) then Plain else Punctuation,
           if text[begin] in {'<', '>'} then scan.(brackets := text[begin] == '<') else scan)
  }

  /** The spans after tokenizing the text from a position on, one step after the other. */
  function Tokenized(text: string, tokens: seq<Span>, at: nat, architecture: Architecture, scan: Scan,
                     tables: Tables): seq<Span>
    decreases |text| - at
  {
    if at >= |text| then tokens
    else
      var step := NextStep(text, at, architecture, scan, tables);
      Tokenized(text, Recorded(tokens, at, step.end, step.kind, None), step.end, architecture, step.next, tables)
  }

  /** One token: its end, its kind, and whether a comment or angle bracket is open after it. */
  method NextToken(text: string, begin: nat, architecture: Architecture, scan: Scan, tables: Tables)
    returns (end: nat, kind: Kind, next: Scan)
    requires begin < |text|
    ensures begin < end <= |text| && Step(end, kind, next) == NextStep(text, begin, architecture, scan, tables)
    ensures kind == Plain ==> end == begin + 1 && IsSpace(text[begin]) && !scan.comment
    ensures scan.comment ==> next == scan
    ensures kind != Mnemonic && kind != ControlFlow && kind != Type && kind != Runtime
    ensures IsQuote(text[begin]) ==> kind == String && end == QuoteEnd(text, text[begin], begin + 1) && next == scan
    ensures !IsQuote(text[begin]) && !scan.comment && StartsComment(text, begin, architecture) ==>
              kind == Comment && next == scan.(comment := true)
    ensures StartsWord(text, begin, architecture, scan) ==>
              end == WordRest(text, begin + 1) && next == scan
              && kind == WordKind(text[begin..end], Immediate(text, begin, architecture), scan, tables)
    ensures !IsQuote(text[begin]) && !StartsWord(text, begin, architecture, scan) ==> end == begin + 1
    ensures text[begin] in {'<', '>'} && !scan.comment ==> next == scan.(brackets := text[begin] == '<')
  {
    var c := text[begin];
    end, kind, next := begin + 1, if scan.comment then Comment else Punctuation, scan;
    if c == '"' || c == '\'' {
      end := StringEnd(text, begin);
      kind := String;
    } else if !scan.comment && StartsComment(text, begin, architecture) {
      kind, next := Comment, scan.(comment := true);
    } else if c == '$' && architecture == X86 && !scan.comment {
      // The sigil of an immediate, not part of the literal or symbol after it.
    } else if WordCharacter(c) || c == '%' {
      end := WordEnd(text, begin);
      kind := WordKind(text[begin..end], Immediate(text, begin, architecture), scan, tables);
    } else if !scan.comment {
      next := scan.(brackets := if c == '<' then true else if c == '>' then false else scan.brackets);
      if IsSpace(c) {
        kind := Plain;
      }
    }
  }

  /** Fresh spans carry no target, and only white space stays plain. */
  ghost predicate FreshlyTokenized(text: string, paint: seq<Paint>, start: nat) {
    |paint| == |text| && forall b :: start <= b < |text| ==> Untargeted(text, paint, b)
  }

  /** Tokenize the untokenized rest of a text. */
  method TokenizeFrom(text: string, tokens0: seq<Span>, start: nat, architecture: Architecture, comment: bool,
                      tables: Tables)
    returns (tokens: seq<Span>)
    requires Tiles(tokens0, start) && start <= |text|
    ensures Tiles(tokens, |text|)
            && tokens == Tokenized(text, tokens0, start, architecture, Scan(comment, false), tables)
    ensures FreshlyTokenized(text, Painted(tokens), start) && Painted(tokens)[..start] == Painted(tokens0)
  {
    tokens := tokens0;
    var at, scan := start, Scan(comment, false);
    PaintedSize(tokens0, start);
    while at < |text|
      invariant TokenizedTo(text, tokens0, tokens, start, at)
      invariant Tokenized(text, tokens, at, architecture, scan, tables)
             == Tokenized(text, tokens0, start, architecture, Scan(comment, false), tables)
    {
      var end, kind;
      var begin := at;
      end, kind, scan := NextToken(text, begin, architecture, scan, tables);
      TokenizedStep(text, tokens0, tokens, start, begin, end, kind);
      tokens := Recorded(tokens, begin, end, kind, None);
      at := end;
    }
  }

  /** The bytes from `start` to `at` are tokenized without targets; the ones before keep their paint. */
  ghost predicate TokenizedTo(text: string, tokens0: seq<Span>, tokens: seq<Span>, start: nat, at: nat) {
    && start <= at <= |text| && Tiles(tokens, at)
    && |Painted(tokens)| == at && Painted(tokens)[..start] == Painted(tokens0)
    && (forall b :: start <= b < at ==> Untargeted(text, Painted(tokens), b))
  }

  ghost predicate Untargeted(text: string, paint: seq<Paint>, b: nat) {
    b < |paint| && b < |text| && paint[b].target == None && (paint[b].kind == Plain ==> IsSpace(text[b]))
  }

  lemma TokenizedStep(text: string, tokens0: seq<Span>, tokens: seq<Span>, start: nat, begin: nat, end: nat, kind: Kind)
    requires TokenizedTo(text, tokens0, tokens, start, begin) && begin < end <= |text|
    requires kind == Plain ==> end == begin + 1 && IsSpace(text[begin])
    ensures TokenizedTo(text, tokens0, Recorded(tokens, begin, end, kind, None), start, end)
  {
    RecordedTiles(tokens, begin, end, kind, None);
    var longer := Recorded(tokens, begin, end, kind, None);
    forall b | start <= b < end ensures Untargeted(text, Painted(longer), b) {
      assert b < begin ==> Untargeted(text, Painted(tokens), b);
    }
  }
}
