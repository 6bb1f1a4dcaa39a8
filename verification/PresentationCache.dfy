/**
 The per-row cache of measured presentations: whatever the history of snapshots, fonts
 and widths, the rows it returns are the ones that a fresh computation would give.
 */
module PresentationCache {
  import opened Wrappers
  import opened DisassemblyText
  import opened Presentation

  // ---------- Comparing rows ----------

  predicate SameFunction(a: Option<FunctionInfo>, b: Option<FunctionInfo>) {
    (a.None? && b.None?) || (a.Some? && b.Some? && a.value == b.value)
  }

  predicate SameScope(a: Option<Scope>, b: Option<Scope>)
    decreases a
  {
    || (a.None? && b.None?)
    || (&& a.Some? && b.Some?
        && SameFunction(a.value.function_, b.value.function_)
        && a.value.declarations == b.value.declarations
        && a.value.inlineName == b.value.inlineName
        && a.value.callSite == b.value.callSite
        && SameScope(a.value.parent, b.value.parent))
  }

  predicate SameReference(a: Reference, b: Reference) {
    && a.address == b.address && a.symbol == b.symbol && a.preview == b.preview && a.runtime == b.runtime
    && a.declaration == b.declaration && SameFunction(a.function_, b.function_)
  }

  predicate SameReferences(a: seq<Reference>, b: seq<Reference>) {
    |a| == |b| && forall k :: 0 <= k < |a| ==> SameReference(a[k], b[k])
  }

  predicate Matches(a: Shown, b: Shown) {
    && a.mnemonic == b.mnemonic && a.operands == b.operands && a.comment == b.comment && a.userComment == b.userComment
    && a.flow == b.flow && a.flowTarget == b.flowTarget && a.bytes == b.bytes
    && (a.source == b.source) && SameScope(a.debugScope, b.debugScope)
    && a.beginsSource == b.beginsSource && a.beginsFunction == b.beginsFunction
    && a.beginsDebugScope == b.beginsDebugScope
    && SameReferences(a.references, b.references)
  }

  /** Walking the parents compares scopes completely. */
  lemma {:induction false} SameScopeIff(a: Option<Scope>, b: Option<Scope>)
    ensures SameScope(a, b) <==> a == b
    decreases a
  {
    if a.Some? && b.Some? {
      SameScopeIff(a.value.parent, b.value.parent);
    }
  }

  /** A cached row matches exactly when nothing that its presentation reads has changed. */
  lemma MatchesIff(a: Shown, b: Shown)
    ensures Matches(a, b) <==> a == b
  {
    SameScopeIff(a.debugScope, b.debugScope);
    if SameReferences(a.references, b.references) {
      forall k | 0 <= k < |a.references| ensures a.references[k] == b.references[k] {
        assert SameReference(a.references[k], b.references[k]);
      }
      assert a.references == b.references;
    }
  }

  // ---------- Measured rows ----------

  datatype Styled = Styled(text: string, tokens: seq<Span>)

  datatype Run = Run(span: Span, x: real, y: real)

  datatype Layout = Layout(runs: seq<Run>, width: real, height: real)

  /** A text with the layout that was measured for it last. */
  datatype Cell = Cell(content: Styled, layout: Layout)

  datatype Row = Row(instruction: Cell, annotation: Cell, bytes: string)

  const NOTHING: Styled := Styled("", [])
  const FLAT: Layout := Layout([], 0.0, 0.0)
  const BLANK_ROW: Row := Row(Cell(NOTHING, FLAT), Cell(NOTHING, FLAT), "")

  datatype Made = Made(instruction: Styled, annotation: Styled, bytes: string)

  /** A font with its size. */
  datatype Font = Font(id: nat, size: real)

  /** How presentations are made and measured; measuring reads the content only. */
  datatype Tools = Tools(make: (Shown, string) -> Made, measure: (Styled, Font, real) -> Layout)

  /** What the cells were made and measured for. */
  datatype Keys = Keys(architecture: string, font: Option<Font>, wrap: real)

  /** Blank rows make blank presentations, and a blank text has no extent, whatever the keys. */
  ghost predicate BlankStaysBlank(tools: Tools) {
    && (forall architecture :: tools.make(BLANK, architecture) == Made(NOTHING, NOTHING, ""))
    && (forall font, wrap :: tools.measure(NOTHING, font, wrap) == FLAT)
  }

  function Measured(content: Styled, font: Option<Font>, wrap: real, tools: Tools): Cell {
    Cell(content, if font.Some? then tools.measure(content, font.value, wrap) else FLAT)
  }

  /** A row made and measured from scratch; instructions do not wrap. */
  function Fresh(shown: Shown, keys: Keys, tools: Tools): Row {
    var made := tools.make(shown, keys.architecture);
    Row(Measured(made.instruction, keys.font, 0.0, tools), Measured(made.annotation, keys.font, keys.wrap, tools),
        made.bytes)
  }

  ghost predicate IsFresh(row: Row, shown: Shown, keys: Keys, tools: Tools) { row == Fresh(shown, keys, tools) }

  ghost predicate AllFresh(rows: seq<Row>, sources: seq<Shown>, keys: Keys, tools: Tools) {
    |rows| == |sources| && forall k :: 0 <= k < |rows| ==> IsFresh(rows[k], sources[k], keys, tools)
  }

  lemma BlankIsFresh(keys: Keys, tools: Tools)
    requires BlankStaysBlank(tools)
    ensures IsFresh(BLANK_ROW, BLANK, keys, tools)
  {
  }

  // ---------- Bringing the rows up to date ----------

  function Resized<T>(s: seq<T>, size: nat, blank: T): (r: seq<T>)
    ensures |r| == size
    ensures forall k :: 0 <= k < size ==> r[k] == if k < |s| then s[k] else blank
  {
    if size <= |s| then s[..size] else s + seq(size - |s|, _ => blank)
  }

  /** One row: remake it if its source or the architecture changed, and measure what the change reaches. */
  method RefreshRow(row0: Row, source: Shown, shown: Shown, before: Keys, now: Keys, tools: Tools) returns (row: Row)
    requires now.font.Some? && IsFresh(row0, source, before, tools)
    ensures IsFresh(row, shown, now, tools)
  {
    row := row0;
    MatchesIff(source, shown);
    var changed := before.architecture != now.architecture || !Matches(source, shown);
    var fontChanged := before.font != now.font;
    if changed {
      var made := tools.make(shown, now.architecture);
      row := Row(Cell(made.instruction, FLAT), Cell(made.annotation, FLAT), made.bytes);
    }
    if changed || fontChanged {
      var layout := tools.measure(row.instruction.content, now.font.value, 0.0);
      row := row.(instruction := row.instruction.(layout := layout));
    }
    if changed || fontChanged || before.wrap != now.wrap {
      var layout := tools.measure(row.annotation.content, now.font.value, now.wrap);
      row := row.(annotation := row.annotation.(layout := layout));
    }
  }

  method RefreshRows(rows0: seq<Row>, sources0: seq<Shown>, shown: seq<Shown>, before: Keys, now: Keys, tools: Tools)
    returns (rows: seq<Row>, sources: seq<Shown>)
    requires BlankStaysBlank(tools) && now.font.Some? && AllFresh(rows0, sources0, before, tools)
    ensures sources == shown && AllFresh(rows, shown, now, tools)
  {
    rows, sources := Resized(rows0, |shown|, BLANK_ROW), Resized(sources0, |shown|, BLANK);
    BlankIsFresh(before, tools);
    forall k | 0 <= k < |rows| ensures IsFresh(rows[k], sources[k], before, tools) {
      if k < |rows0| {
        assert IsFresh(rows0[k], sources0[k], before, tools);
      }
    }
    for i := 0 to |shown|
      invariant |rows| == |sources| == |shown|
      invariant forall k :: 0 <= k < i ==> sources[k] == shown[k] && IsFresh(rows[k], shown[k], now, tools)
      invariant forall k :: i <= k < |shown| ==> IsFresh(rows[k], sources[k], before, tools)
    {
      var row := RefreshRow(rows[i], sources[i], shown[i], before, now, tools);
      MatchesIff(sources[i], shown[i]);
      rows := rows[i := row];
      if before.architecture != now.architecture || !Matches(sources[i], shown[i]) {
        sources := sources[i := shown[i]];
      }
    }
  }

  // ---------- The cache ----------

  const NO_REVISION: nat := 0xFFFF_FFFF_FFFF_FFFF

  class Cache {
    var revision: nat
    var keys: Keys
    var sources: seq<Shown>
    var rows: seq<Row>

    ghost predicate Valid(tools: Tools)
      reads this
    {
      AllFresh(rows, sources, keys, tools)
    }

    constructor (tools: Tools)
      ensures Valid(tools) && sources == [] && revision == NO_REVISION
    {
      revision, keys, sources, rows := NO_REVISION, Keys("", None, 0.0), [], [];
    }

    /**
     The rows of a snapshot. A snapshot that repeats the cached revision and row count
     is taken to hold the cached rows.
     */
    method Present(shown: seq<Shown>, revision: nat, architecture: string, font: Font, width: real, tools: Tools)
      returns (presented: seq<Row>)
      requires Valid(tools) && BlankStaysBlank(tools)
      requires revision == this.revision && |shown| == |sources| ==> shown == sources
      modifies this
      ensures Valid(tools) && sources == shown && this.revision == revision && presented == rows
      ensures keys == Keys(architecture, Some(font), if width < 1.0 then 1.0 else width)
      ensures AllFresh(presented, shown, Keys(architecture, Some(font), if width < 1.0 then 1.0 else width), tools)
    {
      var now := Keys(architecture, Some(font), if width < 1.0 then 1.0 else width);
      if keys == now && this.revision == revision && |rows| == |shown| {
        return rows;
      }
      rows, sources := RefreshRows(rows, sources, shown, keys, now, tools);
      this.revision, keys := revision, now;
      presented := rows;
    }
  }

  // ---------- Runs ----------

  /** One frame's request. */
  datatype Request = Request(shown: seq<Shown>, revision: nat, architecture: string, font: Font, width: real)

  function KeysOf(request: Request): Keys {
    Keys(request.architecture, Some(request.font), if request.width < 1.0 then 1.0 else request.width)
  }

  /** Equal revision and row count mean equal rows. */
  predicate Repeats(a: Request, b: Request) {
    a.revision == b.revision && |a.shown| == |b.shown| ==> a.shown == b.shown
  }

  ghost predicate Answers(rows: seq<Row>, request: Request, tools: Tools) {
    AllFresh(rows, request.shown, KeysOf(request), tools)
  }

  /** Over any run of requests through one cache, every answer is what a fresh computation gives. */
  method Serve(requests: seq<Request>, tools: Tools) returns (answers: seq<seq<Row>>)
    requires BlankStaysBlank(tools)
    requires forall j, k :: 0 <= j < k < |requests| ==> Repeats(requests[j], requests[k])
    ensures |answers| == |requests| && forall k :: 0 <= k < |requests| ==> Answers(answers[k], requests[k], tools)
  {
    var cache := new Cache(tools);
    answers := [];
    for i := 0 to |requests|
      invariant fresh(cache) && cache.Valid(tools) && |answers| == i
      invariant if i == 0 then cache.sources == [] && cache.revision == NO_REVISION
                else cache.sources == requests[i - 1].shown && cache.revision == requests[i - 1].revision
      invariant forall k :: 0 <= k < i ==> Answers(answers[k], requests[k], tools)
    {
      var request := requests[i];
      assert i > 0 ==> Repeats(requests[i - 1], requests[i]);
      var rows := cache.Present(request.shown, request.revision, request.architecture, request.font, request.width,
                                tools);
      answers := answers + [rows];
    }
  }
}
