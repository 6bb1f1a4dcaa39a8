/**
 The two cells of a disassembly row: the instruction with its operand links, and the
 annotation with its references, source position and debug scopes.
 */
module Presentation {
  import opened Wrappers
  import opened Bytes
  import opened Sequences
  import opened DisassemblyText
  import opened OperandLinks
  import HexText

  // ---------- Rows ----------

  datatype Declaration = Declaration(name: string, type_: string, parameter: bool)

  datatype FunctionInfo = FunctionInfo(address: Option<nat>, name: string, type_: string, parameters: seq<Declaration>)

  datatype SourceLocation = SourceLocation(path: string, line: nat, column: nat)

  datatype Scope = Scope(function_: Option<FunctionInfo>, parent: Option<Scope>, declarations: seq<Declaration>,
                         inlineName: string, callSite: SourceLocation)

  datatype Reference = Reference(address: nat, symbol: string, preview: string, runtime: bool, declaration: Declaration,
                                 function_: Option<FunctionInfo>)

  /** The fields of an instruction row that its presentation reads. */
  datatype Shown = Shown(mnemonic: string, operands: string, comment: string, userComment: string, flow: Flow,
                         flowTarget: Option<nat>, bytes: seq<Byte>, references: seq<Reference>,
                         source: Option<SourceLocation>, debugScope: Option<Scope>, beginsSource: bool,
                         beginsFunction: bool, beginsDebugScope: bool)

  /** A value-initialized row. */
  const BLANK: Shown := Shown("", "", "", "", Other, None, [], [], None, None, false, false, false)

  /** The localized words of an annotation. */
  datatype Labels = Labels(currentState: string, parameters: string, locals: string, inlined: string, comment: string)

  function LowerHex(n: nat): string {
    if n < 16 then [HexText.Digit(n, false)] else LowerHex(n / 16) + [HexText.Digit(n % 16, false)]
  }

  function AddressText(n: nat): string { "0x" + LowerHex(n) }

  lemma {:induction false} LowerHexValue(n: nat)
    ensures LowerHex(n) != "" && HexText.AllDigits(LowerHex(n), true) && HexText.Radix(LowerHex(n), true) == n
  {
    if n >= 16 {
      LowerHexValue(n / 16);
      FrontOf(LowerHex(n / 16), HexText.Digit(n % 16, false));
    } else {
      assert LowerHex(n)[..0] == "";
    }
  }

  /** An address shown reads back as the address. */
  lemma AddressReadsBack(n: nat)
    requires n < WORD_LIMIT
    ensures HexText.NumberOf(AddressText(n)) == Some(n)
  {
    LowerHexValue(n);
    assert AddressText(n)[2..] == LowerHex(n);
  }

  // ---------- The instruction cell ----------

  function MnemonicKind(flow: Flow): Kind { if flow == Other then Mnemonic else ControlFlow }

  /** A target is the branch destination, or the literal that its span spells. */
  predicate OwnTarget(text: string, span: Span, flowTarget: Option<nat>, tables: Tables)
    requires span.begin <= span.end <= |text|
  {
    span.target.Some? ==> span.target == flowTarget || span.target == tables.addressLiteral(WordOf(text, span))
  }

  lemma TilesInText(text: string, tokens: seq<Span>)
    requires Tiles(tokens, |text|)
    ensures InText(text, tokens)
  {
    forall i | 0 <= i < |tokens| ensures tokens[i].begin <= tokens[i].end <= |text| {
      SpanInText(tokens, |text|, i);
    }
  }

  /** Linking operands leaves the bytes before them as they were. */
  lemma FrontKeepsPaint(text: string, before: seq<Span>, after: seq<Span>, start: nat, operands: seq<Range>,
                        control: Control, tables: Tables, b: nat)
    requires Tiles(before, |text|) && Tiles(after, |text|) && InText(text, before)
    requires OperandsLinked(text, before, after, operands, control, tables) && IsSplit(text, start, operands)
    requires b < start <= |text|
    ensures |Painted(after)| == |Painted(before)| == |text| && Painted(after)[b] == Painted(before)[b]
  {
    PaintedSize(before, |text|);
    PaintedSize(after, |text|);
    var i := SpanOf(before, |text|, b);
    OutsideKeepsTarget(text, before, after, start, operands, i, control, tables);
    PaintedAt(before, |text|, i, b);
    PaintedAt(after, |text|, i, b);
  }

  /** A linked span has its own target. */
  lemma LinkedOwnTarget(text: string, before: seq<Span>, after: seq<Span>, operands: seq<Range>, control: Control,
                        tables: Tables, i: nat)
    requires InText(text, before) && OperandsLinked(text, before, after, operands, control, tables) && i < |before|
    requires OwnTarget(text, before[i], control.target, tables)
    ensures after[i].begin <= after[i].end <= |text| && OwnTarget(text, after[i], control.target, tables)
  {
    assert SpanLinked(text, before, after[i], operands, |operands|, i, control, tables);
    if exists o: nat :: o < |operands| && Inside(before[i], operands[o]) {
      var o: nat :| o < |operands| && Inside(before[i], operands[o]);
      assert after[i].target == OperandTarget(text, before, operands[o], o, before[i], control, tables);
    }
  }

  /** The operands after `start` are linked as the operand rules ask. */
  ghost predicate CellLinked(text: string, start: nat, before: seq<Span>, after: seq<Span>, shown: Shown,
                             architecture: Architecture, tables: Tables) {
    && InText(text, before)
    && exists operands ::
         IsSplit(text, start, operands)
         && OperandsLinked(text, before, after, operands, ControlOf(shown, architecture, |operands|), tables)
  }

  function ControlOf(shown: Shown, architecture: Architecture, count: nat): Control {
    Control(shown.flow, shown.flowTarget,
            if shown.flowTarget.Some? && count > 0 then Destination(architecture, shown.mnemonic, count) else None)
  }

  /** Link freshly tokenized operands; the bytes before them keep kind and target. */
  method LinkCell(text: string, tokens0: seq<Span>, start: nat, shown: Shown, architecture: Architecture,
                  tables: Tables)
    returns (tokens: seq<Span>)
    requires Tiles(tokens0, |text|) && start <= |text|
    ensures Tiles(tokens, |text|) && |Painted(tokens)| == |Painted(tokens0)| == |text|
    ensures Painted(tokens)[..start] == Painted(tokens0)[..start]
    ensures |tokens| == |tokens0| && InText(text, tokens)
    ensures CellLinked(text, start, tokens0, tokens, shown, architecture, tables)
    ensures (forall i :: 0 <= i < |tokens0| && tokens0[i].begin >= start ==> tokens0[i].target == None) ==>
              forall i :: 0 <= i < |tokens0| && tokens0[i].begin >= start ==>
                OwnTarget(text, tokens[i], shown.flowTarget, tables)
  {
    hide IsSplit, OperandsLinked, SpanLinked;
    TilesInText(text, tokens0);
    ghost var operands, control;
    tokens, operands, control :=
      LinkOperands(text, tokens0, start, shown.mnemonic, shown.flow, shown.flowTarget, architecture, tables);
    assert CellLinked(text, start, tokens0, tokens, shown, architecture, tables) by {
      assert control == ControlOf(shown, architecture, |operands|);
    }
    TilesInText(text, tokens);
    PaintedSize(tokens0, |text|);
    PaintedSize(tokens, |text|);
    forall b: nat | b < start ensures Painted(tokens)[b] == Painted(tokens0)[b] {
      FrontKeepsPaint(text, tokens0, tokens, start, operands, control, tables, b);
    }
    forall i | 0 <= i < |tokens0| && tokens0[i].target == None
      ensures OwnTarget(text, tokens[i], shown.flowTarget, tables) {
      LinkedOwnTarget(text, tokens0, tokens, operands, control, tables, i);
    }
  }

  /** The operands after the spans `head` are tokenized step by step, then linked. */
  ghost predicate OperandsShown(text: string, head: seq<Span>, start: nat, tokens: seq<Span>, shown: Shown,
                                architecture: Architecture, tables: Tables) {
    CellLinked(text, start, Tokenized(text, head, start, architecture, Scan(false, false), tables), tokens, shown,
               architecture, tables)
  }

  /** The spans of the mnemonic and the space after it. */
  function HeadSpans(shown: Shown): seq<Span> {
    var size := |shown.mnemonic|;
    Recorded(Recorded([], 0, size, MnemonicKind(shown.flow), shown.flowTarget), size, size + 1, Plain, None)
  }

  method AddOperands(cell: StyledText, shown: Shown, architecture: Architecture, tables: Tables)
    requires cell.Valid()
    modifies cell
    ensures cell.Valid() && cell.text == old(cell.text) + " " + shown.operands
    ensures |old(cell.text)| <= |Painted(cell.tokens)|
            && Painted(cell.tokens)[..|old(cell.text)|] == Painted(old(cell.tokens))
    ensures OperandsShown(cell.text, Recorded(old(cell.tokens), |old(cell.text)|, |old(cell.text)| + 1, Plain, None),
                          |old(cell.text)| + 1, cell.tokens, shown, architecture, tables)
  {
    hide CellLinked, FreshlyTokenized, Tokenized, Recorded;
    ghost var size := |cell.text|;
    ghost var paint := Painted(cell.tokens);
    PaintedSize(cell.tokens, size);
    cell.Append(" ", Plain, None);
    var start := |cell.text|;
    ghost var spaced := Painted(cell.tokens);
    assert spaced[..size] == paint;
    cell.AppendTokenized(shown.operands, architecture, false, tables);
    ghost var recent := Painted(cell.tokens);
    var tokens := LinkCell(cell.text, cell.tokens, start, shown, architecture, tables);
    cell.tokens := tokens;
    assert Painted(tokens)[..size] == Painted(tokens)[..start][..size] == recent[..start][..size] == paint;
  }

  method MakeInstruction(shown: Shown, architecture: Architecture, tables: Tables) returns (cell: StyledText)
    ensures fresh(cell) && cell.Valid() && |Painted(cell.tokens)| == |cell.text|
    ensures cell.text == shown.mnemonic + (if shown.operands == "" then "" else " " + shown.operands)
    ensures Painted(cell.tokens)[..|shown.mnemonic|]
            == Repeat(Paint(MnemonicKind(shown.flow), shown.flowTarget), |shown.mnemonic|)
    ensures shown.operands != "" ==>
              OperandsShown(cell.text, HeadSpans(shown), |shown.mnemonic| + 1, cell.tokens, shown, architecture, tables)
    ensures shown.mnemonic == "" && shown.operands == "" ==> cell.tokens == []
  {
    hide OperandsShown;
    cell := new StyledText();
    assert "" + shown.mnemonic == shown.mnemonic;
    cell.Append(shown.mnemonic, MnemonicKind(shown.flow), shown.flowTarget);
    ghost var paint := Repeat(Paint(MnemonicKind(shown.flow), shown.flowTarget), |shown.mnemonic|);
    assert Painted(cell.tokens) == paint;
    if shown.operands != "" {
      AddOperands(cell, shown, architecture, tables);
    }
    PaintedSize(cell.tokens, |cell.text|);
  }

  // ---------- The annotation cell ----------

  /** A cell at some earlier moment. */
  datatype Moment = Moment(text: string, tokens: seq<Span>)

  /** Byte k keeps its kind, and its link unless it got one to these addresses. */
  ghost predicate Kept(a: seq<Paint>, b: seq<Paint>, k: nat, addresses: set<nat>) {
    && k < |a| && k < |b| && a[k].kind == b[k].kind
    && (b[k].target == a[k].target || (b[k].target.Some? && b[k].target.value in addresses))
  }

  ghost predicate Allowed(paint: seq<Paint>, k: nat, addresses: set<nat>)
    requires k < |paint|
  {
    paint[k].target.Some? ==> paint[k].target.value in addresses
  }

  /** The cell only grew: its bytes keep their kinds, and every new link leads to one of these addresses. */
  ghost predicate Grown(base: Moment, text: string, tokens: seq<Span>, addresses: set<nat>) {
    && Tiles(tokens, |text|) && |Painted(tokens)| == |text|
    && base.text <= text
    && (forall k: nat :: k < |base.text| ==> Kept(Painted(base.tokens), Painted(tokens), k, addresses))
    && (forall k: nat :: |base.text| <= k < |text| ==> Allowed(Painted(tokens), k, addresses))
  }

  lemma NothingGrown(text: string, tokens: seq<Span>, addresses: set<nat>)
    requires Tiles(tokens, |text|)
    ensures Grown(Moment(text, tokens), text, tokens, addresses)
  {
    PaintedSize(tokens, |text|);
    forall k: nat | k < |text| ensures Kept(Painted(tokens), Painted(tokens), k, addresses) {
    }
  }

  lemma GrownChain(base: Moment, middle: Moment, text: string, tokens: seq<Span>, first: set<nat>, second: set<nat>,
                   all: set<nat>)
    requires Grown(base, middle.text, middle.tokens, first) && Grown(middle, text, tokens, second)
    requires first <= all && second <= all
    ensures Grown(base, text, tokens, all)
  {
    forall k: nat | k < |base.text| ensures Kept(Painted(base.tokens), Painted(tokens), k, all) {
      assert Kept(Painted(base.tokens), Painted(middle.tokens), k, first)
             && Kept(Painted(middle.tokens), Painted(tokens), k, second);
    }
    forall k: nat | |base.text| <= k < |text| ensures Allowed(Painted(tokens), k, all) {
      if k < |middle.text| {
        assert Allowed(Painted(middle.tokens), k, first) && Kept(Painted(middle.tokens), Painted(tokens), k, second);
      } else {
        assert Allowed(Painted(tokens), k, second);
      }
    }
  }

  lemma GrownByAppend(base: Moment, text: string, tokens: seq<Span>, addresses: set<nat>, value: string, paint: Paint,
                      longer: seq<Span>)
    requires Grown(base, text, tokens, addresses) && (paint.target.Some? ==> paint.target.value in addresses)
    requires Tiles(longer, |text + value|) && Painted(longer) == Painted(tokens) + Repeat(paint, |value|)
    ensures Grown(base, text + value, longer, addresses)
  {
    PaintedSize(longer, |text + value|);
    forall k: nat | k < |base.text| ensures Kept(Painted(base.tokens), Painted(longer), k, addresses) {
      assert Kept(Painted(base.tokens), Painted(tokens), k, addresses);
    }
    forall k: nat | |base.text| <= k < |text + value| ensures Allowed(Painted(longer), k, addresses) {
      if k < |text| {
        assert Allowed(Painted(tokens), k, addresses);
      }
    }
  }

  lemma GrownByLink(base: Moment, text: string, tokens: seq<Span>, addresses: set<nat>, value: string, address: nat,
                    linked: seq<Span>)
    requires Grown(base, text, tokens, addresses) && address in addresses
    requires Tiles(linked, |text|) && LinkedUpTo(text, value, address, |text| + 1, Painted(tokens), Painted(linked))
    ensures Grown(base, text, linked, addresses)
  {
    forall k: nat | k < |base.text| ensures Kept(Painted(base.tokens), Painted(linked), k, addresses) {
      assert Kept(Painted(base.tokens), Painted(tokens), k, addresses);
    }
    forall k: nat | |base.text| <= k < |text| ensures Allowed(Painted(linked), k, addresses) {
      assert Allowed(Painted(tokens), k, addresses);
    }
  }

  method Add(cell: StyledText, value: string, kind: Kind, target: Option<nat>, ghost base: Moment,
             ghost addresses: set<nat>)
    requires Grown(base, cell.text, cell.tokens, addresses) && (target.Some? ==> target.value in addresses)
    modifies cell
    ensures Grown(base, cell.text, cell.tokens, addresses) && cell.text == old(cell.text) + value
  {
    ghost var text, tokens := cell.text, cell.tokens;
    cell.Append(value, kind, target);
    GrownByAppend(base, text, tokens, addresses, value, Paint(kind, target), cell.tokens);
  }

  method Link(cell: StyledText, value: string, address: nat, ghost base: Moment, ghost addresses: set<nat>)
    returns (found: bool)
    requires Grown(base, cell.text, cell.tokens, addresses) && address in addresses
    modifies cell
    ensures Grown(base, cell.text, cell.tokens, addresses) && cell.text == old(cell.text)
    ensures found <==> value != "" && FoundBefore(cell.text, value, |cell.text| + 1)
    ensures found ==> LinkedTo(cell.text, cell.tokens, value, {address})
  {
    ghost var tokens := cell.tokens;
    found := cell.LinkReference(value, address);
    if value != "" {
      GrownByLink(base, cell.text, tokens, addresses, value, address, cell.tokens);
      if found {
        FoundIsLinked(cell.text, tokens, cell.tokens, value, address);
      }
    }
  }

  /** Append a text that links to an address. */
  method AddLinked(cell: StyledText, value: string, kind: Kind, address: nat, ghost base: Moment,
                   ghost addresses: set<nat>)
    requires Grown(base, cell.text, cell.tokens, addresses) && address in addresses
    modifies cell
    ensures Grown(base, cell.text, cell.tokens, addresses) && cell.text == old(cell.text) + value
    ensures LinkedTo(cell.text, cell.tokens, value, {address})
  {
    ghost var text, tokens := cell.text, cell.tokens;
    cell.Append(value, kind, Some(address));
    GrownByAppend(base, text, tokens, addresses, value, Paint(kind, Some(address)), cell.tokens);
    AddedIsLinked(text, tokens, value, kind, address, cell.tokens);
  }

  // ---------- Links that stay ----------

  /** Byte b leads to one of these addresses; white space leads nowhere. */
  ghost predicate LinkedByte(paint: seq<Paint>, b: nat, addresses: set<nat>) {
    b < |paint| && (paint[b].kind == Plain || (paint[b].target.Some? && paint[b].target.value in addresses))
  }

  ghost predicate LinkedHere(text: string, paint: seq<Paint>, value: string, at: nat, addresses: set<nat>) {
    Occurs(text, value, at) && forall b: nat :: at <= b < at + |value| ==> LinkedByte(paint, b, addresses)
  }

  /** The text stands somewhere in the cell, linked to one of these addresses throughout. */
  ghost predicate LinkedTo(text: string, tokens: seq<Span>, value: string, addresses: set<nat>) {
    exists at: nat :: LinkedHere(text, Painted(tokens), value, at, addresses)
  }

  lemma AddedIsLinked(text: string, tokens: seq<Span>, value: string, kind: Kind, address: nat, longer: seq<Span>)
    requires Tiles(tokens, |text|) && Painted(longer) == Painted(tokens) + Repeat(Paint(kind, Some(address)), |value|)
    ensures LinkedTo(text + value, longer, value, {address})
  {
    PaintedSize(tokens, |text|);
    forall b: nat | |text| <= b < |text| + |value| ensures LinkedByte(Painted(longer), b, {address}) {
      assert Painted(longer)[b] == Repeat(Paint(kind, Some(address)), |value|)[b - |text|];
    }
    assert Occurs(text + value, value, |text|);
    assert LinkedHere(text + value, Painted(longer), value, |text|, {address});
  }

  lemma FoundIsLinked(text: string, before: seq<Span>, after: seq<Span>, value: string, address: nat)
    requires |Painted(before)| == |text| && FoundBefore(text, value, |text| + 1)
    requires LinkedUpTo(text, value, address, |text| + 1, Painted(before), Painted(after))
    ensures LinkedTo(text, after, value, {address})
  {
    var at: nat :| at < |text| + 1 && WordBounded(text, value, at);
    forall b: nat | at <= b < at + |value| ensures LinkedByte(Painted(after), b, {address}) {
      assert Reached(text, value, |text| + 1, b);
    }
    assert LinkedHere(text, Painted(after), value, at, {address});
  }

  /** A link stays while the cell grows, but for bytes that are linked anew. */
  lemma LinkedStays(base: Moment, text: string, tokens: seq<Span>, recent: set<nat>, value: string, addresses: set<nat>)
    requires Grown(base, text, tokens, recent) && recent <= addresses && |Painted(base.tokens)| == |base.text|
    requires LinkedTo(base.text, base.tokens, value, addresses)
    ensures LinkedTo(text, tokens, value, addresses)
  {
    var at: nat :| LinkedHere(base.text, Painted(base.tokens), value, at, addresses);
    forall b: nat | at <= b < at + |value| ensures LinkedByte(Painted(tokens), b, addresses) {
      assert LinkedByte(Painted(base.tokens), b, addresses) && Kept(Painted(base.tokens), Painted(tokens), b, recent);
    }
    assert text[at..at + |value|] == base.text[at..at + |value|];
    assert LinkedHere(text, Painted(tokens), value, at, addresses);
  }

  lemma LinkedMore(text: string, tokens: seq<Span>, value: string, addresses: set<nat>, more: set<nat>)
    requires LinkedTo(text, tokens, value, addresses) && addresses <= more
    ensures LinkedTo(text, tokens, value, more)
  {
    var at: nat :| LinkedHere(text, Painted(tokens), value, at, addresses);
    forall b: nat | at <= b < at + |value| ensures LinkedByte(Painted(tokens), b, more) {
      assert LinkedByte(Painted(tokens), b, addresses);
    }
    assert LinkedHere(text, Painted(tokens), value, at, more);
  }

  lemma LinkedIsContained(text: string, tokens: seq<Span>, value: string, addresses: set<nat>)
    requires LinkedTo(text, tokens, value, addresses)
    ensures Contains(text, value)
  {
    var at: nat :| LinkedHere(text, Painted(tokens), value, at, addresses);
    assert 0 <= at <= |text| && Occurs(text, value, at);
  }

  method NewLine(cell: StyledText, ghost base: Moment, ghost addresses: set<nat>)
    requires Grown(base, cell.text, cell.tokens, addresses)
    modifies cell
    ensures Grown(base, cell.text, cell.tokens, addresses)
    ensures cell.text == NewLined(old(cell.text)) && old(cell.text) <= cell.text
  {
    if cell.text != "" {
      Add(cell, "\n", Plain, None, base, addresses);
    }
  }

  function SourceText(source: SourceLocation): string {
    var column := if source.column == 0 then "" else ":" + HexText.Decimal(source.column);
    source.path + (if source.line == 0 then "" else ":" + HexText.Decimal(source.line) + column)
  }

  /** Lines added to a cell: each starts on a new line unless the cell is still empty. */
  function Joined(text: string, lines: seq<string>): string {
    if lines == [] then text
    else NewLined(Joined(text, lines[..|lines| - 1])) + lines[|lines| - 1]
  }

  function NewLined(text: string): string { text + if text == "" then "" else "\n" }

  lemma JoinedNone(text: string)
    ensures Joined(text, []) == text
  {
  }

  lemma JoinedOne(text: string, line: string)
    ensures Joined(text, [line]) == NewLined(text) + line
  {
    assert [line][..0] == [];
  }

  lemma {:induction false} JoinedConcat(text: string, a: seq<string>, b: seq<string>)
    ensures Joined(text, a + b) == Joined(Joined(text, a), b)
  {
    if b == [] {
      assert a + b == a;
    } else {
      assert (a + b)[..|a + b| - 1] == a + b[..|b| - 1];
      JoinedConcat(text, a, b[..|b| - 1]);
    }
  }

  function DeclarationText(declaration: Declaration): string {
    declaration.name + (if declaration.name != "" && declaration.type_ != "" then " : " else "") + declaration.type_
  }

  function FunctionText(info: FunctionInfo): string {
    info.name + if info.type_ == "" then "" else " : " + info.type_
  }

  /** The declarations of one sort, separated by commas. */
  function Listing(declarations: seq<Declaration>, parameters: bool): string {
    if declarations == [] then ""
    else
      var front, last := declarations[..|declarations| - 1], declarations[|declarations| - 1];
      if last.parameter != parameters then Listing(front, parameters)
      else Listing(front, parameters) + (if AnyOf(front, parameters) then ", " else "") + DeclarationText(last)
  }

  predicate AnyOf(declarations: seq<Declaration>, parameters: bool) {
    exists k :: 0 <= k < |declarations| && declarations[k].parameter == parameters
  }

  function SortLabel(parameters: bool, labels: Labels): string {
    if parameters then labels.parameters else labels.locals
  }

  /** One line for the declarations of one sort, if there are any. */
  function DeclarationLines(declarations: seq<Declaration>, parameters: bool, labels: Labels): seq<string> {
    if AnyOf(declarations, parameters) then [SortLabel(parameters, labels) + Listing(declarations, parameters)] else []
  }

  /** What the declarations of a line of their own, or in brackets, add. */
  function WithDeclarations(text: string, declarations: seq<Declaration>, parameters: bool, newLine: bool,
                            labels: Labels): string {
    if newLine then Joined(text, DeclarationLines(declarations, parameters, labels))
    else if AnyOf(declarations, parameters) then
      text + "  [" + (SortLabel(parameters, labels) + Listing(declarations, parameters)) + "]"
    else text
  }

  /** The scopes from the outermost one to this one. */
  function Nesting(scope: Scope): (scopes: seq<Scope>)
    ensures scopes != []
  {
    (if scope.parent.Some? then Nesting(scope.parent.value) else []) + [scope]
  }

  /** Each scope comes right after the one around it. */
  lemma {:induction false} OuterScopesFirst(scope: Scope)
    ensures var scopes := Nesting(scope);
            && scopes[0].parent == None && scopes[|scopes| - 1] == scope
            && forall k :: 0 <= k < |scopes| - 1 ==> Encloses(scopes[k], scopes[k + 1])
    decreases scope
  {
    if scope.parent.Some? {
      OuterScopesFirst(scope.parent.value);
      var outer := Nesting(scope.parent.value);
      assert Nesting(scope) == outer + [scope];
      assert Encloses(outer[|outer| - 1], scope);
    }
  }

  predicate Encloses(outer: Scope, inner: Scope) { inner.parent == Some(outer) }

  function InlineText(scope: Scope, labels: Labels): string {
    labels.inlined + scope.inlineName + if scope.callSite.path == "" then "" else " @ " + SourceText(scope.callSite)
  }

  /** What one scope says of itself: where it was inlined, its parameters, its locals. */
  function OwnLines(scope: Scope, labels: Labels): seq<string> {
    (if scope.inlineName != "" then [InlineText(scope, labels)] else [])
    + DeclarationLines(scope.declarations, true, labels) + DeclarationLines(scope.declarations, false, labels)
  }

  function ScopeLines(scopes: seq<Scope>, labels: Labels): seq<string> {
    if scopes == [] then [] else ScopeLines(scopes[..|scopes| - 1], labels) + OwnLines(scopes[|scopes| - 1], labels)
  }

  method AddSource(cell: StyledText, source: SourceLocation, ghost base: Moment, ghost addresses: set<nat>)
    requires Grown(base, cell.text, cell.tokens, addresses)
    modifies cell
    ensures Grown(base, cell.text, cell.tokens, addresses)
    ensures cell.text == old(cell.text) + SourceText(source)
  {
    hide Grown;
    Add(cell, source.path, Comment, None, base, addresses);
    if source.line != 0 {
      Add(cell, ":", Punctuation, None, base, addresses);
      Add(cell, HexText.Decimal(source.line), Number, None, base, addresses);
      if source.column != 0 {
        Add(cell, ":", Punctuation, None, base, addresses);
        Add(cell, HexText.Decimal(source.column), Number, None, base, addresses);
      }
    }
  }

  method AddDeclaration(cell: StyledText, declaration: Declaration, ghost base: Moment, ghost addresses: set<nat>)
    requires Grown(base, cell.text, cell.tokens, addresses)
    modifies cell
    ensures Grown(base, cell.text, cell.tokens, addresses)
    ensures cell.text == old(cell.text) + DeclarationText(declaration)
  {
    if declaration.name != "" {
      Add(cell, declaration.name, Symbol, None, base, addresses);
      if declaration.type_ != "" {
        Add(cell, " : ", Punctuation, None, base, addresses);
      }
    }
    Add(cell, declaration.type_, Type, None, base, addresses);
  }

  method AddFunction(cell: StyledText, info: FunctionInfo, target: Option<nat>, ghost base: Moment,
                     ghost addresses: set<nat>)
    requires Grown(base, cell.text, cell.tokens, addresses) && (target.Some? ==> target.value in addresses)
    modifies cell
    ensures Grown(base, cell.text, cell.tokens, addresses)
    ensures cell.text == old(cell.text) + FunctionText(info)
    ensures target.Some? ==> LinkedTo(cell.text, cell.tokens, info.name, {target.value})
  {
    hide Grown, LinkedTo;
    match target {
      case Some(address) => AddLinked(cell, info.name, Symbol, address, base, addresses);
      case None => Add(cell, info.name, Symbol, None, base, addresses);
    }
    if info.type_ != "" {
      ghost var named := Moment(cell.text, cell.tokens);
      GrownTiles(base, cell.text, cell.tokens, addresses);
      NothingGrown(cell.text, cell.tokens, {});
      Add(cell, " : ", Punctuation, None, named, {});
      Add(cell, info.type_, Type, None, named, {});
      GrownChain(base, named, cell.text, cell.tokens, addresses, {}, addresses);
      if target.Some? {
        LinkedStays(named, cell.text, cell.tokens, {}, info.name, {target.value});
      }
    }
  }

  lemma GrownTiles(base: Moment, text: string, tokens: seq<Span>, addresses: set<nat>)
    requires Grown(base, text, tokens, addresses)
    ensures Tiles(tokens, |text|) && |Painted(tokens)| == |text| && base.text <= text
  {
  }

  /** The declarations of one sort, on a line of their own or in brackets. */
  method AddDeclarations(cell: StyledText, declarations: seq<Declaration>, parameters: bool, newLine: bool,
                         labels: Labels, ghost base: Moment, ghost addresses: set<nat>)
    requires Grown(base, cell.text, cell.tokens, addresses)
    modifies cell
    ensures Grown(base, cell.text, cell.tokens, addresses) && old(cell.text) <= cell.text
    ensures cell.text == WithDeclarations(old(cell.text), declarations, parameters, newLine, labels)
  {
    hide Grown, Listing, AnyOf, Joined, NewLined;
    var first := true;
    ghost var text := cell.text;
    NothingListedYet(text, parameters, newLine, labels);
    assert declarations[..0] == [];
    for k := 0 to |declarations|
      invariant Grown(base, cell.text, cell.tokens, addresses)
      invariant ListedTo(text, declarations[..k], parameters, newLine, labels, first, cell.text)
    {
      ghost var before := cell.text;
      if declarations[k].parameter == parameters {
        StartDeclaration(cell, parameters, newLine, first, labels, base, addresses);
        AddDeclaration(cell, declarations[k], base, addresses);
        ListedOneMore(text, declarations, k, parameters, newLine, labels, first, before);
        first := false;
      } else {
        ListedPasses(text, declarations, k, parameters, newLine, labels, first, before);
      }
    }
    assert declarations[..|declarations|] == declarations;
    if !first && !newLine {
      Add(cell, "]", Punctuation, None, base, addresses);
    }
    DeclarationsLaidOut(text, declarations, parameters, newLine, labels, first);
  }

  /** The text before the first declaration of a sort. */
  function Headed(text: string, parameters: bool, newLine: bool, labels: Labels): string {
    (if newLine then NewLined(text) else text + "  [") + SortLabel(parameters, labels)
  }

  /** The text while the declarations are being listed. */
  ghost predicate ListedTo(text: string, done: seq<Declaration>, parameters: bool, newLine: bool, labels: Labels,
                           first: bool, now: string) {
    && (first <==> !AnyOf(done, parameters))
    && now == if first then text else Headed(text, parameters, newLine, labels) + Listing(done, parameters)
  }

  lemma NothingListedYet(text: string, parameters: bool, newLine: bool, labels: Labels)
    ensures ListedTo(text, [], parameters, newLine, labels, true, text)
  {
  }

  lemma ListedOneMore(text: string, declarations: seq<Declaration>, k: nat, parameters: bool, newLine: bool,
                      labels: Labels, first: bool, before: string)
    requires k < |declarations| && declarations[k].parameter == parameters
    requires ListedTo(text, declarations[..k], parameters, newLine, labels, first, before)
    ensures ListedTo(text, declarations[..k + 1], parameters, newLine, labels, false,
                     (if first then Headed(before, parameters, newLine, labels) else before + ", ")
                         + DeclarationText(declarations[k]))
  {
    ListingGrows(declarations, parameters, k);
    if !first {
      var head, listed, last := Headed(text, parameters, newLine, labels), Listing(declarations[..k], parameters),
          DeclarationText(declarations[k]);
      Associates(head, listed, ", ");
      Associates(head, listed + ", ", last);
    }
  }

  lemma ListedPasses(text: string, declarations: seq<Declaration>, k: nat, parameters: bool, newLine: bool,
                     labels: Labels, first: bool, before: string)
    requires k < |declarations| && declarations[k].parameter != parameters
    requires ListedTo(text, declarations[..k], parameters, newLine, labels, first, before)
    ensures ListedTo(text, declarations[..k + 1], parameters, newLine, labels, first, before)
  {
    ListingGrows(declarations, parameters, k);
  }

  /** What stands before a declaration: a heading, or a comma. */
  method StartDeclaration(cell: StyledText, parameters: bool, newLine: bool, first: bool, labels: Labels,
                          ghost base: Moment, ghost addresses: set<nat>)
    requires Grown(base, cell.text, cell.tokens, addresses)
    modifies cell
    ensures Grown(base, cell.text, cell.tokens, addresses)
    ensures cell.text == if first then Headed(old(cell.text), parameters, newLine, labels) else old(cell.text) + ", "
  {
    hide Grown, NewLined;
    if first {
      if newLine {
        NewLine(cell, base, addresses);
      } else {
        Add(cell, "  [", Punctuation, None, base, addresses);
      }
      Add(cell, if parameters then labels.parameters else labels.locals, Comment, None, base, addresses);
    } else {
      Add(cell, ", ", Punctuation, None, base, addresses);
    }
  }

  lemma ListingGrows(declarations: seq<Declaration>, parameters: bool, k: nat)
    requires k < |declarations|
    ensures var front, last := declarations[..k], declarations[k];
            && Listing(declarations[..k + 1], parameters) ==
               (if last.parameter != parameters then Listing(front, parameters) else
                  Listing(front, parameters) + (if AnyOf(front, parameters) then ", " else "") + DeclarationText(last))
            && (AnyOf(declarations[..k + 1], parameters) <==> AnyOf(front, parameters) || last.parameter == parameters)
            && (!AnyOf(front, parameters) ==> Listing(front, parameters) == "")
  {
    assert declarations[..k + 1][..k] == declarations[..k] && declarations[..k + 1][k] == declarations[k];
    if !AnyOf(declarations[..k], parameters) {
      NothingListed(declarations[..k], parameters);
    } else {
      var j :| 0 <= j < k && declarations[..k][j].parameter == parameters;
      assert declarations[..k + 1][j].parameter == parameters;
    }
    if AnyOf(declarations[..k + 1], parameters) && declarations[k].parameter != parameters {
      var j :| 0 <= j < k + 1 && declarations[..k + 1][j].parameter == parameters;
      assert declarations[..k][j].parameter == parameters;
    }
  }

  lemma {:induction false} NothingListed(declarations: seq<Declaration>, parameters: bool)
    requires !AnyOf(declarations, parameters)
    ensures Listing(declarations, parameters) == ""
  {
    if declarations != [] {
      var front := declarations[..|declarations| - 1];
      assert forall k :: 0 <= k < |front| ==> front[k] == declarations[k];
      NothingListed(front, parameters);
    }
  }

  lemma DeclarationsLaidOut(text: string, declarations: seq<Declaration>, parameters: bool, newLine: bool,
                            labels: Labels, first: bool)
    requires first <==> !AnyOf(declarations, parameters)
    ensures var now := if first then text
                       else Headed(text, parameters, newLine, labels) + Listing(declarations, parameters);
            && WithDeclarations(text, declarations, parameters, newLine, labels)
            == (if first || newLine then now else now + "]")
            && text <= WithDeclarations(text, declarations, parameters, newLine, labels)
  {
    var heading, listing := SortLabel(parameters, labels), Listing(declarations, parameters);
    JoinedOne(text, heading + listing);
    Associates(NewLined(text), heading, listing);
    Associates(text + "  [", heading, listing);
  }

  /** The scope and the scopes around it, outermost first: each adds its own lines. */
  method AddScope(cell: StyledText, scope: Scope, labels: Labels, ghost base: Moment, ghost addresses: set<nat>)
    requires Grown(base, cell.text, cell.tokens, addresses)
    modifies cell
    ensures Grown(base, cell.text, cell.tokens, addresses) && old(cell.text) <= cell.text
    ensures cell.text == Joined(old(cell.text), ScopeLines(Nesting(scope), labels))
    decreases scope
  {
    hide Grown;
    if scope.parent.Some? {
      AddScope(cell, scope.parent.value, labels, base, addresses);
    }
    ghost var outer := if scope.parent.Some? then Nesting(scope.parent.value) else [];
    assert cell.text == Joined(old(cell.text), ScopeLines(outer, labels));
    AddOwnLines(cell, scope, labels, base, addresses);
    JoinedConcat(old(cell.text), ScopeLines(outer, labels), OwnLines(scope, labels));
    assert Nesting(scope) == outer + [scope] && (outer + [scope])[..|outer|] == outer;
  }

  method AddOwnLines(cell: StyledText, scope: Scope, labels: Labels, ghost base: Moment, ghost addresses: set<nat>)
    requires Grown(base, cell.text, cell.tokens, addresses)
    modifies cell
    ensures Grown(base, cell.text, cell.tokens, addresses) && old(cell.text) <= cell.text
    ensures cell.text == Joined(old(cell.text), OwnLines(scope, labels))
  {
    hide Grown, DeclarationLines, Joined, InlineText, NewLined;
    JoinedNone(cell.text);
    ghost var inlined := if scope.inlineName != "" then [InlineText(scope, labels)] else [];
    if scope.inlineName != "" {
      AddInlined(cell, scope, labels, base, addresses);
      JoinedOne(old(cell.text), InlineText(scope, labels));
    }
    assert cell.text == Joined(old(cell.text), inlined);
    AddDeclarations(cell, scope.declarations, true, true, labels, base, addresses);
    ghost var parameters := DeclarationLines(scope.declarations, true, labels);
    JoinedConcat(old(cell.text), inlined, parameters);
    AddDeclarations(cell, scope.declarations, false, true, labels, base, addresses);
    JoinedConcat(old(cell.text), inlined + parameters, DeclarationLines(scope.declarations, false, labels));
  }

  method AddInlined(cell: StyledText, scope: Scope, labels: Labels, ghost base: Moment, ghost addresses: set<nat>)
    requires Grown(base, cell.text, cell.tokens, addresses)
    modifies cell
    ensures Grown(base, cell.text, cell.tokens, addresses) && old(cell.text) <= cell.text
    ensures cell.text == NewLined(old(cell.text)) + InlineText(scope, labels)
  {
    hide Grown, SourceText, NewLined;
    NewLine(cell, base, addresses);
    Add(cell, labels.inlined, Comment, None, base, addresses);
    Add(cell, scope.inlineName, Symbol, None, base, addresses);
    if scope.callSite.path != "" {
      Add(cell, " @ ", Punctuation, None, base, addresses);
      AddSource(cell, scope.callSite, base, addresses);
    }
  }

  // ---------- References ----------

  /** The address of a reference, its preview, and its symbol unless a function name replaces it. */
  ghost predicate ReferenceShown(text: string, reference: Reference) {
    && Contains(text, AddressText(reference.address))
    && (reference.preview != "" ==> Contains(text, reference.preview))
    && (reference.symbol != "" && reference.function_.None? ==> Contains(text, reference.symbol))
  }

  /** A branch inside the function it stands in. */
  predicate LocalBranch(shown: Shown, reference: Reference) {
    && (shown.flow == Jump || shown.flow == ConditionalJump)
    && shown.debugScope.Some? && shown.debugScope.value.function_.Some? && reference.function_.Some?
    && reference.function_.value.address == shown.debugScope.value.function_.value.address
  }

  /** The address, the preview and the name of a reference stand in the cell, linked to one of these addresses. */
  ghost predicate ReferenceLinked(text: string, tokens: seq<Span>, shown: Shown, reference: Reference,
                                  addresses: set<nat>) {
    && LinkedTo(text, tokens, AddressText(reference.address), addresses)
    && (reference.preview != "" ==> LinkedTo(text, tokens, reference.preview, addresses))
    && (reference.symbol != "" && reference.function_.None? ==> LinkedTo(text, tokens, reference.symbol, addresses))
    && (reference.function_.Some? && !LocalBranch(shown, reference) ==>
          LinkedTo(text, tokens, reference.function_.value.name, addresses))
  }

  lemma ReferenceStaysLinked(base: Moment, text: string, tokens: seq<Span>, recent: set<nat>, shown: Shown,
                             reference: Reference, addresses: set<nat>)
    requires Grown(base, text, tokens, recent) && recent <= addresses && |Painted(base.tokens)| == |base.text|
    requires ReferenceLinked(base.text, base.tokens, shown, reference, addresses)
    ensures ReferenceLinked(text, tokens, shown, reference, addresses)
  {
    hide LinkedTo, Grown;
    LinkedStays(base, text, tokens, recent, AddressText(reference.address), addresses);
    if reference.preview != "" {
      LinkedStays(base, text, tokens, recent, reference.preview, addresses);
    }
    if reference.symbol != "" && reference.function_.None? {
      LinkedStays(base, text, tokens, recent, reference.symbol, addresses);
    }
    if reference.function_.Some? && !LocalBranch(shown, reference) {
      LinkedStays(base, text, tokens, recent, reference.function_.value.name, addresses);
    }
  }

  lemma ReferenceLinkedMore(text: string, tokens: seq<Span>, shown: Shown, reference: Reference, addresses: set<nat>,
                            more: set<nat>)
    requires ReferenceLinked(text, tokens, shown, reference, addresses) && addresses <= more
    ensures ReferenceLinked(text, tokens, shown, reference, more)
  {
    hide LinkedTo;
    LinkedMore(text, tokens, AddressText(reference.address), addresses, more);
    if reference.preview != "" {
      LinkedMore(text, tokens, reference.preview, addresses, more);
    }
    if reference.symbol != "" && reference.function_.None? {
      LinkedMore(text, tokens, reference.symbol, addresses, more);
    }
    if reference.function_.Some? && !LocalBranch(shown, reference) {
      LinkedMore(text, tokens, reference.function_.value.name, addresses, more);
    }
  }

  lemma LinkedReferenceShown(text: string, tokens: seq<Span>, shown: Shown, reference: Reference, addresses: set<nat>)
    requires ReferenceLinked(text, tokens, shown, reference, addresses)
    ensures ReferenceShown(text, reference)
  {
    hide LinkedTo;
    LinkedIsContained(text, tokens, AddressText(reference.address), addresses);
    if reference.preview != "" {
      LinkedIsContained(text, tokens, reference.preview, addresses);
    }
    if reference.symbol != "" && reference.function_.None? {
      LinkedIsContained(text, tokens, reference.symbol, addresses);
    }
  }

  /** The address, set apart from what stands before it. */
  method AddAddress(cell: StyledText, reference: Reference, labels: Labels, ghost base: Moment,
                    ghost addresses: set<nat>)
    requires Grown(base, cell.text, cell.tokens, addresses) && reference.address in addresses
    modifies cell
    ensures Grown(base, cell.text, cell.tokens, addresses)
    ensures LinkedTo(cell.text, cell.tokens, AddressText(reference.address), {reference.address})
  {
    hide Grown, LinkedTo;
    if cell.text != "" {
      Add(cell, "  |  ", Punctuation, None, base, addresses);
    }
    if reference.runtime {
      Add(cell, labels.currentState, Runtime, None, base, addresses);
    }
    var found := Link(cell, AddressText(reference.address), reference.address, base, addresses);
    AddLinked(cell, AddressText(reference.address), Number, reference.address, base, addresses);
  }

  method AddName(cell: StyledText, shown: Shown, reference: Reference, present: bool, labels: Labels,
                 ghost base: Moment)
    requires Grown(base, cell.text, cell.tokens, {reference.address})
    modifies cell
    ensures Grown(base, cell.text, cell.tokens, {reference.address})
    ensures reference.function_.None? && reference.symbol != "" && !present ==>
              LinkedTo(cell.text, cell.tokens, reference.symbol, {reference.address})
    ensures reference.function_.Some? && !LocalBranch(shown, reference) ==>
              LinkedTo(cell.text, cell.tokens, reference.function_.value.name, {reference.address})
  {
    hide Grown, LinkedTo;
    ghost var own := {reference.address};
    if reference.function_.Some? && !LocalBranch(shown, reference) {
      var info := reference.function_.value;
      Add(cell, " <", Punctuation, None, base, own);
      AddFunction(cell, info, Some(reference.address), base, own);
      ghost var named := Moment(cell.text, cell.tokens);
      GrownTiles(base, cell.text, cell.tokens, own);
      NothingGrown(cell.text, cell.tokens, {});
      Add(cell, ">", Punctuation, None, named, {});
      AddDeclarations(cell, info.parameters, true, false, labels, named, {});
      GrownChain(base, named, cell.text, cell.tokens, own, {}, own);
      LinkedStays(named, cell.text, cell.tokens, {}, info.name, own);
    } else if reference.symbol != "" && !present {
      Add(cell, " <", Punctuation, None, base, own);
      AddLinked(cell, reference.symbol, Symbol, reference.address, base, own);
      ghost var named := Moment(cell.text, cell.tokens);
      GrownTiles(base, cell.text, cell.tokens, own);
      NothingGrown(cell.text, cell.tokens, {});
      Add(cell, ">", Punctuation, None, named, {});
      GrownChain(base, named, cell.text, cell.tokens, own, {}, own);
      LinkedStays(named, cell.text, cell.tokens, {}, reference.symbol, own);
    }
  }

  /** The declared type and the preview of the value. */
  method AddDetails(cell: StyledText, reference: Reference, present: bool, ghost base: Moment)
    requires Grown(base, cell.text, cell.tokens, {reference.address})
    modifies cell
    ensures Grown(base, cell.text, cell.tokens, {reference.address})
    ensures reference.preview != "" && !present ==>
              LinkedTo(cell.text, cell.tokens, reference.preview, {reference.address})
  {
    hide Grown, LinkedTo;
    ghost var own := {reference.address};
    if reference.declaration.type_ != "" {
      Add(cell, "  [", Punctuation, None, base, own);
      AddDeclaration(cell, reference.declaration, base, own);
      Add(cell, "]", Punctuation, None, base, own);
    }
    if reference.preview != "" && !present {
      Add(cell, " ", Plain, None, base, own);
      AddLinked(cell, reference.preview, String, reference.address, base, own);
    }
  }

  /** Link what the annotation already says of a reference, and append the rest, linked too. */
  method AddReference(cell: StyledText, shown: Shown, reference: Reference, labels: Labels)
    requires cell.Valid()
    modifies cell
    ensures Grown(Moment(old(cell.text), old(cell.tokens)), cell.text, cell.tokens, {reference.address})
    ensures ReferenceLinked(cell.text, cell.tokens, shown, reference, {reference.address})
  {
    hide Grown, LinkedTo;
    ghost var own, start := {reference.address}, Moment(cell.text, cell.tokens);
    NothingGrown(cell.text, cell.tokens, own);
    var symbolPresent := Link(cell, reference.symbol, reference.address, start, own);
    ghost var found := Settled(cell, start, own);
    var previewPresent := Link(cell, reference.preview, reference.address, found, own);
    ghost var previewed := Settled(cell, found, own);
    AddAddress(cell, reference, labels, previewed, own);
    ghost var addressed := Settled(cell, previewed, own);
    AddName(cell, shown, reference, symbolPresent, labels, addressed);
    ghost var named := Settled(cell, addressed, own);
    AddDetails(cell, reference, previewPresent, named);
    GrownTiles(named, cell.text, cell.tokens, own);
    ReferenceSettles(start, found, previewed, addressed, named, Moment(cell.text, cell.tokens), shown, reference,
                     symbolPresent, previewPresent);
  }

  /** The cell at this moment, from which it goes on growing. */
  ghost method Settled(cell: StyledText, base: Moment, addresses: set<nat>) returns (now: Moment)
    requires Grown(base, cell.text, cell.tokens, addresses)
    ensures now == Moment(cell.text, cell.tokens) && Grown(now, cell.text, cell.tokens, addresses)
    ensures |Painted(cell.tokens)| == |cell.text|
  {
    NothingGrown(cell.text, cell.tokens, addresses);
    now := Moment(cell.text, cell.tokens);
  }

  /** Each text that was linked on the way is linked at the end. */
  lemma ReferenceSettles(start: Moment, found: Moment, previewed: Moment, addressed: Moment, named: Moment, end: Moment,
                         shown: Shown, reference: Reference, symbolPresent: bool, previewPresent: bool)
    requires Grown(start, found.text, found.tokens, {reference.address})
    requires Grown(found, previewed.text, previewed.tokens, {reference.address})
    requires Grown(previewed, addressed.text, addressed.tokens, {reference.address})
    requires Grown(addressed, named.text, named.tokens, {reference.address})
    requires Grown(named, end.text, end.tokens, {reference.address})
    requires symbolPresent ==> LinkedTo(found.text, found.tokens, reference.symbol, {reference.address})
    requires previewPresent ==> LinkedTo(previewed.text, previewed.tokens, reference.preview, {reference.address})
    requires LinkedTo(addressed.text, addressed.tokens, AddressText(reference.address), {reference.address})
    requires reference.function_.None? && reference.symbol != "" && !symbolPresent ==>
               LinkedTo(named.text, named.tokens, reference.symbol, {reference.address})
    requires reference.function_.Some? && !LocalBranch(shown, reference) ==>
               LinkedTo(named.text, named.tokens, reference.function_.value.name, {reference.address})
    requires reference.preview != "" && !previewPresent ==>
               LinkedTo(end.text, end.tokens, reference.preview, {reference.address})
    ensures Grown(start, end.text, end.tokens, {reference.address})
    ensures ReferenceLinked(end.text, end.tokens, shown, reference, {reference.address})
  {
    hide Grown, LinkedTo;
    var own := {reference.address};
    GrownChain(addressed, named, end.text, end.tokens, own, own, own);
    GrownChain(previewed, addressed, end.text, end.tokens, own, own, own);
    GrownChain(found, previewed, end.text, end.tokens, own, own, own);
    GrownChain(start, found, end.text, end.tokens, own, own, own);
    GrownTiles(start, found.text, found.tokens, own);
    GrownTiles(found, previewed.text, previewed.tokens, own);
    GrownTiles(previewed, addressed.text, addressed.tokens, own);
    GrownTiles(addressed, named.text, named.tokens, own);
    LinkedStays(addressed, end.text, end.tokens, own, AddressText(reference.address), own);
    if symbolPresent {
      LinkedStays(found, end.text, end.tokens, own, reference.symbol, own);
    } else if reference.symbol != "" && reference.function_.None? {
      LinkedStays(named, end.text, end.tokens, own, reference.symbol, own);
    }
    if reference.function_.Some? && !LocalBranch(shown, reference) {
      LinkedStays(named, end.text, end.tokens, own, reference.function_.value.name, own);
    }
    if previewPresent {
      LinkedStays(previewed, end.text, end.tokens, own, reference.preview, own);
    }
  }

  // ---------- The whole presentation ----------

  function Addresses(references: seq<Reference>): set<nat> { set r | r in references :: r.address }

  lemma AddressAmong(references: seq<Reference>, j: nat, k: nat)
    requires j <= k < |references|
    ensures references[k].address in Addresses(references[j..]) && references[k].address in Addresses(references)
  {
    assert references[j..][k - j] == references[k];
  }

  /** Every reference stands linked, to its own address or to that of a later reference that names the same bytes. */
  ghost predicate ReferencesLinked(text: string, tokens: seq<Span>, shown: Shown, count: nat)
    requires count <= |shown.references|
  {
    forall k :: 0 <= k < count ==> LinkedFrom(text, tokens, shown, k)
  }

  ghost predicate LinkedFrom(text: string, tokens: seq<Span>, shown: Shown, k: nat)
    requires k < |shown.references|
  {
    ReferenceLinked(text, tokens, shown, shown.references[k], Addresses(shown.references[k..]))
  }

  method AddReferences(cell: StyledText, shown: Shown, labels: Labels, ghost base: Moment)
    requires Grown(base, cell.text, cell.tokens, Addresses(shown.references))
    modifies cell
    ensures Grown(base, cell.text, cell.tokens, Addresses(shown.references))
    ensures ReferencesLinked(cell.text, cell.tokens, shown, |shown.references|)
    ensures shown.references == [] ==> cell.text == old(cell.text) && cell.tokens == old(cell.tokens)
  {
    hide Grown, ReferenceLinked, Addresses;
    for k := 0 to |shown.references|
      invariant Grown(base, cell.text, cell.tokens, Addresses(shown.references))
      invariant ReferencesLinked(cell.text, cell.tokens, shown, k)
      invariant k == 0 ==> cell.text == old(cell.text) && cell.tokens == old(cell.tokens)
    {
      ghost var before := Moment(cell.text, cell.tokens);
      GrownTiles(base, cell.text, cell.tokens, Addresses(shown.references));
      AddReference(cell, shown, shown.references[k], labels);
      OneMoreLinked(base, before, Moment(cell.text, cell.tokens), shown, k);
    }
  }

  lemma OneMoreLinked(base: Moment, before: Moment, after: Moment, shown: Shown, k: nat)
    requires k < |shown.references| && |Painted(before.tokens)| == |before.text|
    requires Grown(base, before.text, before.tokens, Addresses(shown.references))
    requires Grown(before, after.text, after.tokens, {shown.references[k].address})
    requires ReferencesLinked(before.text, before.tokens, shown, k)
    requires ReferenceLinked(after.text, after.tokens, shown, shown.references[k], {shown.references[k].address})
    ensures Grown(base, after.text, after.tokens, Addresses(shown.references))
    ensures ReferencesLinked(after.text, after.tokens, shown, k + 1)
  {
    hide Grown, ReferenceLinked, Addresses;
    var own := {shown.references[k].address};
    AddressAmong(shown.references, k, k);
    GrownChain(base, before, after.text, after.tokens, Addresses(shown.references), own, Addresses(shown.references));
    forall j | 0 <= j < k + 1 ensures LinkedFrom(after.text, after.tokens, shown, j) {
      AddressAmong(shown.references, j, k);
      if j < k {
        assert LinkedFrom(before.text, before.tokens, shown, j);
        ReferenceStaysLinked(before, after.text, after.tokens, own, shown, shown.references[j],
                             Addresses(shown.references[j..]));
      } else {
        ReferenceLinkedMore(after.text, after.tokens, shown, shown.references[k], own,
                            Addresses(shown.references[k..]));
      }
    }
  }

  lemma ReferencesStayLinked(base: Moment, text: string, tokens: seq<Span>, shown: Shown)
    requires Grown(base, text, tokens, {}) && |Painted(base.tokens)| == |base.text|
    requires ReferencesLinked(base.text, base.tokens, shown, |shown.references|)
    ensures ReferencesLinked(text, tokens, shown, |shown.references|)
  {
    hide Grown, ReferenceLinked, Addresses;
    forall k | 0 <= k < |shown.references| ensures LinkedFrom(text, tokens, shown, k) {
      assert LinkedFrom(base.text, base.tokens, shown, k);
      ReferenceStaysLinked(base, text, tokens, {}, shown, shown.references[k], Addresses(shown.references[k..]));
    }
  }

  lemma LinkedReferencesShown(text: string, tokens: seq<Span>, shown: Shown)
    requires ReferencesLinked(text, tokens, shown, |shown.references|)
    ensures forall k :: 0 <= k < |shown.references| ==> ReferenceShown(text, shown.references[k])
  {
    forall k | 0 <= k < |shown.references| ensures ReferenceShown(text, shown.references[k]) {
      assert LinkedFrom(text, tokens, shown, k);
      LinkedReferenceShown(text, tokens, shown, shown.references[k], Addresses(shown.references[k..]));
    }
  }

  /** The lines of context a row shows: source, function and scopes, where it begins them. */
  function ContextLines(shown: Shown, labels: Labels): seq<string> {
    (if shown.beginsSource && shown.source.Some? then [SourceText(shown.source.value)] else [])
    + (if shown.debugScope.Some? then FunctionLines(shown, shown.debugScope.value, labels) else [])
    + (if shown.debugScope.Some? && shown.beginsDebugScope then ScopeLines(Nesting(shown.debugScope.value), labels)
       else [])
  }

  function FunctionLines(shown: Shown, scope: Scope, labels: Labels): seq<string> {
    if shown.beginsFunction && scope.function_.Some? then
      [FunctionText(scope.function_.value)] + DeclarationLines(scope.function_.value.parameters, true, labels)
    else []
  }

  /** Source position, function and scopes, where a row begins them. */
  method AddContext(cell: StyledText, shown: Shown, labels: Labels, ghost base: Moment, ghost addresses: set<nat>)
    requires Grown(base, cell.text, cell.tokens, addresses)
    modifies cell
    ensures Grown(base, cell.text, cell.tokens, addresses) && old(cell.text) <= cell.text
    ensures cell.text == Joined(old(cell.text), ContextLines(shown, labels))
    ensures !shown.beginsSource && shown.debugScope.None? ==>
              cell.text == old(cell.text) && cell.tokens == old(cell.tokens)
  {
    hide Grown, DeclarationLines, ScopeLines, Nesting, Joined, FunctionLines, SourceText, NewLined;
    JoinedNone(cell.text);
    ghost var source := if shown.beginsSource && shown.source.Some? then [SourceText(shown.source.value)] else [];
    if shown.beginsSource && shown.source.Some? {
      NewLine(cell, base, addresses);
      AddSource(cell, shown.source.value, base, addresses);
      JoinedOne(old(cell.text), SourceText(shown.source.value));
    }
    assert cell.text == Joined(old(cell.text), source);
    if shown.debugScope.Some? {
      var scope := shown.debugScope.value;
      AddFunctionLines(cell, shown, scope, labels, base, addresses);
      ghost var functions := FunctionLines(shown, scope, labels);
      JoinedConcat(old(cell.text), source, functions);
      if shown.beginsDebugScope {
        AddScope(cell, scope, labels, base, addresses);
        JoinedConcat(old(cell.text), source + functions, ScopeLines(Nesting(scope), labels));
      } else {
        assert source + functions + [] == source + functions;
      }
    } else {
      assert source + [] + [] == source;
    }
  }

  method AddFunctionLines(cell: StyledText, shown: Shown, scope: Scope, labels: Labels, ghost base: Moment,
                          ghost addresses: set<nat>)
    requires Grown(base, cell.text, cell.tokens, addresses)
    modifies cell
    ensures Grown(base, cell.text, cell.tokens, addresses) && old(cell.text) <= cell.text
    ensures cell.text == Joined(old(cell.text), FunctionLines(shown, scope, labels))
  {
    hide Grown, DeclarationLines;
    if shown.beginsFunction && scope.function_.Some? {
      var info := scope.function_.value;
      NewLine(cell, base, addresses);
      AddFunction(cell, info, None, base, addresses);
      JoinedOne(old(cell.text), FunctionText(info));
      AddDeclarations(cell, info.parameters, true, true, labels, base, addresses);
      JoinedConcat(old(cell.text), [FunctionText(info)], DeclarationLines(info.parameters, true, labels));
    }
  }

  /** The user's own comment is a line of its own. */
  function UserLines(shown: Shown, labels: Labels): seq<string> {
    if shown.userComment == "" then [] else [labels.comment + shown.userComment]
  }

  method AddUserComment(cell: StyledText, shown: Shown, labels: Labels, ghost base: Moment, ghost addresses: set<nat>)
    requires Grown(base, cell.text, cell.tokens, addresses)
    modifies cell
    ensures Grown(base, cell.text, cell.tokens, addresses) && old(cell.text) <= cell.text
    ensures shown.userComment == "" ==> cell.text == old(cell.text) && cell.tokens == old(cell.tokens)
    ensures cell.text == Joined(old(cell.text), UserLines(shown, labels))
  {
    hide Grown;
    if shown.userComment != "" {
      NewLine(cell, base, addresses);
      Add(cell, labels.comment, Comment, None, base, addresses);
      Add(cell, shown.userComment, Comment, None, base, addresses);
      JoinedOne(old(cell.text), labels.comment + shown.userComment);
    }
  }

  /** Growing from untargeted text, every link leads to one of the addresses. */
  lemma AllAllowed(base: Moment, text: string, tokens: seq<Span>, addresses: set<nat>)
    requires Grown(base, text, tokens, addresses) && FreshlyTokenized(base.text, Painted(base.tokens), 0)
    ensures forall k: nat :: k < |text| ==> k < |Painted(tokens)| && Allowed(Painted(tokens), k, addresses)
  {
    forall k: nat | k < |text| ensures Allowed(Painted(tokens), k, addresses) {
      if k < |base.text| {
        assert Untargeted(base.text, Painted(base.tokens), k)
               && Kept(Painted(base.tokens), Painted(tokens), k, addresses);
      }
    }
  }

  /**
   The annotation: the comment, every reference, then the lines of context and the
   user's own comment.
   */
  ghost predicate Annotates(text: string, shown: Shown, labels: Labels) {
    exists referenced ::
      References(referenced, shown)
      && text == Joined(referenced, ContextLines(shown, labels) + UserLines(shown, labels))
  }

  /** The comment with every reference after it. */
  ghost predicate References(text: string, shown: Shown) {
    && shown.comment <= text && (shown.references == [] ==> text == shown.comment)
    && forall k :: 0 <= k < |shown.references| ==> ReferenceShown(text, shown.references[k])
  }

  /**
   The annotation starts with the tokenized comment, shows and links every reference,
   ends with the user's own comment, and links only to addresses of its references.
   */
  method MakeAnnotation(shown: Shown, tables: Tables, labels: Labels)
    returns (cell: StyledText, ghost comment: seq<Span>)
    ensures fresh(cell) && Grown(Moment(shown.comment, comment), cell.text, cell.tokens, Addresses(shown.references))
    ensures comment == Tokenized(shown.comment, [], 0, OtherArchitecture, Scan(true, false), tables)
    ensures FreshlyTokenized(shown.comment, Painted(comment), 0)
    ensures Annotates(cell.text, shown, labels) && ReferencesLinked(cell.text, cell.tokens, shown, |shown.references|)
    ensures shown == BLANK ==> cell.text == "" && cell.tokens == []
  {
    hide ReferenceShown, ContextLines, UserLines, Grown, ReferencesLinked, Tokenized, FreshlyTokenized, Addresses;
    cell := new StyledText();
    assert "" + shown.comment == shown.comment;
    cell.AppendTokenized(shown.comment, OtherArchitecture, true, tables);
    comment := cell.tokens;
    ghost var base := Moment(cell.text, cell.tokens);
    ghost var addresses := Addresses(shown.references);
    NothingGrown(cell.text, cell.tokens, addresses);
    AddReferences(cell, shown, labels, base);
    ghost var referenced := Moment(cell.text, cell.tokens);
    GrownTiles(base, cell.text, cell.tokens, addresses);
    NothingGrown(cell.text, cell.tokens, {});
    AddContext(cell, shown, labels, referenced, {});
    AddUserComment(cell, shown, labels, referenced, {});
    JoinedConcat(referenced.text, ContextLines(shown, labels), UserLines(shown, labels));
    LinkedReferencesShown(referenced.text, referenced.tokens, shown);
    assert References(referenced.text, shown);
    ReferencesStayLinked(referenced, cell.text, cell.tokens, shown);
    GrownChain(base, referenced, cell.text, cell.tokens, addresses, {}, addresses);
  }

  /** Both cells and the byte column; a value-initialized row shows nothing. */
  method MakePresentation(shown: Shown, architecture: Architecture, tables: Tables, labels: Labels)
    returns (instruction: StyledText, annotation: StyledText, bytes: string)
    ensures instruction.Valid() && annotation.Valid() && instruction != annotation
    ensures instruction.text == shown.mnemonic + (if shown.operands == "" then "" else " " + shown.operands)
    ensures |shown.mnemonic| <= |Painted(instruction.tokens)|
    ensures Painted(instruction.tokens)[..|shown.mnemonic|] ==
            Repeat(Paint(MnemonicKind(shown.flow), shown.flowTarget), |shown.mnemonic|)
    ensures shown.operands != "" ==>
              OperandsShown(instruction.text, HeadSpans(shown), |shown.mnemonic| + 1, instruction.tokens, shown,
                            architecture, tables)
    ensures Annotates(annotation.text, shown, labels)
    ensures ReferencesLinked(annotation.text, annotation.tokens, shown, |shown.references|)
    ensures forall k: nat :: k < |annotation.text| ==>
              k < |Painted(annotation.tokens)| && Allowed(Painted(annotation.tokens), k, Addresses(shown.references))
    ensures bytes == HexText.Listed(shown.bytes, "", " ", false)
    ensures shown == BLANK ==> instruction.text == annotation.text == bytes == ""
    ensures shown == BLANK ==> instruction.tokens == annotation.tokens == []
  {
    hide OperandsShown, Annotates, ReferencesLinked, Tokenized, FreshlyTokenized;
    instruction := MakeInstruction(shown, architecture, tables);
    ghost var comment;
    annotation, comment := MakeAnnotation(shown, tables, labels);
    AllAllowed(Moment(shown.comment, comment), annotation.text, annotation.tokens, Addresses(shown.references));
    bytes := HexText.BytesAsHex(shown.bytes);
  }
}
