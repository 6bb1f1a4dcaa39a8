/**
 Links inside an operand list: the branch target goes on the destination operand, and
 a literal address on an operand that holds nothing else.
 */
module OperandLinks {
  import opened Wrappers
  import opened DisassemblyText

  // ---------- Splitting at top-level commas ----------

  predicate Opens(c: char) { c == '[' || c == '(' || c == '{' || c == '<' }

  predicate Closes(c: char) { c == ']' || c == ')' || c == '}' || c == '>' }

  /** How many brackets are open before position i; surplus closing ones are ignored. */
  function Depth(text: string, start: nat, i: nat): nat
    requires start <= i <= |text|
  {
    if i == start then 0
    else
      var before := Depth(text, start, i - 1);
      if Opens(text[i - 1]) then before + 1
      else if Closes(text[i - 1]) && before > 0 then before - 1
      else before
  }

  predicate TopComma(text: string, start: nat, i: nat)
    requires start <= i < |text|
  {
    text[i] == ',' && Depth(text, start, i) == 0
  }

  /** Opening brackets minus closing ones between two positions. */
  function Surplus(text: string, i: nat, j: nat): int
    requires i <= j <= |text|
    decreases j
  {
    if j == i then 0
    else
      Surplus(text, i, j - 1)
      + (if text[j - 1] in {'[', '(', '{', '<'} then 1 else if text[j - 1] in {']', ')', '}', '>'} then -1 else 0)
  }

  lemma {:induction false} DepthCounts(text: string, start: nat, i: nat, j: nat)
    requires start <= i <= j <= |text|
    requires forall k :: i <= k <= j ==> Depth(text, start, i) + Surplus(text, i, k) >= 0
    ensures Depth(text, start, j) == Depth(text, start, i) + Surplus(text, i, j)
    decreases j
  {
    if i < j {
      DepthCounts(text, start, i, j - 1);
      assert Depth(text, start, i) + Surplus(text, i, j) >= 0;
    }
  }

  /** No comma between an opening bracket and the closing one that matches it separates operands. */
  lemma BracketsHoldOperand(text: string, start: nat, i: nat, j: nat, k: nat)
    requires start <= i <= k < j <= |text| && text[k] == ','
    requires Surplus(text, i, j) == 0 && forall m :: i < m < j ==> Surplus(text, i, m) > 0
    requires text[i] in {'[', '(', '{', '<'}
    ensures !TopComma(text, start, k)
  {
    forall m | i <= m <= k ensures Depth(text, start, i) + Surplus(text, i, m) >= 0 {
      assert m == i ==> Surplus(text, i, m) == 0;
    }
    DepthCounts(text, start, i, k);
  }

  /** Where no bracket has been left open or closed too often, every comma separates operands. */
  lemma OutsideBracketsSplits(text: string, start: nat, k: nat)
    requires start <= k < |text| && text[k] == ','
    requires Surplus(text, start, k) == 0 && forall m :: start <= m <= k ==> Surplus(text, start, m) >= 0
    ensures TopComma(text, start, k)
  {
    DepthCounts(text, start, start, k);
  }

  datatype Range = Range(first: nat, last: nat)

  ghost predicate Follows(text: string, start: nat, a: Range, b: Range) {
    start <= a.last < |text| && TopComma(text, start, a.last) && b.first == a.last + 1
  }

  ghost predicate Unbroken(text: string, start: nat, r: Range) {
    start <= r.first <= r.last <= |text| && forall i :: r.first <= i < r.last ==> !TopComma(text, start, i)
  }

  /** The ranges cover the text up to a position; exactly the top-level commas lie between them. */
  ghost predicate SplitUpTo(text: string, start: nat, operands: seq<Range>, begin: nat) {
    && (forall k :: 0 <= k < |operands| ==> Unbroken(text, start, operands[k]))
    && (forall k :: 0 <= k < |operands| - 1 ==> Adjacent(text, start, operands, k))
    && (if operands == [] then begin == start
        else operands[0].first == start && Follows(text, start, operands[|operands| - 1], Range(begin, begin)))
  }

  ghost predicate Adjacent(text: string, start: nat, operands: seq<Range>, k: nat)
    requires k + 1 < |operands|
  {
    Follows(text, start, operands[k], operands[k + 1])
  }

  ghost predicate IsSplit(text: string, start: nat, operands: seq<Range>) {
    && operands != []
    && SplitUpTo(text, start, operands[..|operands| - 1], operands[|operands| - 1].first)
    && Unbroken(text, start, operands[|operands| - 1]) && operands[|operands| - 1].last == |text|
  }

  lemma SplitGrows(text: string, start: nat, operands: seq<Range>, begin: nat, i: nat)
    requires SplitUpTo(text, start, operands, begin) && Unbroken(text, start, Range(begin, i)) && i < |text|
    requires TopComma(text, start, i)
    ensures SplitUpTo(text, start, operands + [Range(begin, i)], i + 1)
  {
    var longer := operands + [Range(begin, i)];
    forall k | 0 <= k < |longer| - 1 ensures Adjacent(text, start, longer, k) {
      if k < |operands| - 1 {
        assert Adjacent(text, start, operands, k);
      }
    }
  }

  method SplitOperands(text: string, start: nat) returns (operands: seq<Range>)
    requires start <= |text|
    ensures IsSplit(text, start, operands)
  {
    operands := [];
    var begin: nat, depth: nat := start, 0;
    for i := start to |text|
      invariant SplitUpTo(text, start, operands, begin) && Unbroken(text, start, Range(begin, i))
      invariant depth == Depth(text, start, i)
    {
      var c := text[i];
      if Opens(c) {
        depth := depth + 1;
      } else if Closes(c) && depth > 0 {
        depth := depth - 1;
      } else if c == ',' && depth == 0 {
        SplitGrows(text, start, operands, begin, i);
        operands := operands + [Range(begin, i)];
        begin := i + 1;
      }
    }
    operands := operands + [Range(begin, |text|)];
    assert operands[..|operands| - 1] + [Range(begin, |text|)] == operands;
  }

  /** Later operands lie after earlier ones, with a comma between. */
  lemma {:induction false} OperandsOrdered(text: string, start: nat, operands: seq<Range>, i: nat, j: nat)
    requires IsSplit(text, start, operands) && i < j < |operands|
    ensures operands[i].last < operands[j].first
  {
    var front := operands[..|operands| - 1];
    if j - 1 < |front| - 1 {
      assert Adjacent(text, start, front, j - 1);
    }
    assert operands[j - 1].last < operands[j].first;
    if i < j - 1 {
      assert Unbroken(text, start, front[j - 1]);
      OperandsOrdered(text, start, operands, i, j - 1);
    }
  }

  // ---------- The destination operand ----------

  datatype Flow = Other | Call | Return | Jump | ConditionalJump | Syscall

  predicate Contains(text: string, part: string) {
    exists k :: 0 <= k <= |text| && Occurs(text, part, k)
  }

  /** Which operand of a control instruction names its destination. */
  function Destination(architecture: Architecture, mnemonic: string, count: nat): Option<nat>
    requires count > 0
  {
    if architecture == PowerPC && (Contains(mnemonic, "lr") || Contains(mnemonic, "ctr")) then None
    else if count == 1 then Some(0)
    else
      match architecture
      case Arm => Some(if mnemonic in {"braa", "brab", "blraa", "blrab"} then 0 else count - 1)
      case Arm64 => Some(if mnemonic in {"braa", "brab", "blraa", "blrab"} then 0 else count - 1)
      case RiscV => Some(if mnemonic == "jalr" && count == 3 then 1 else count - 1)
      case Mips => Some(count - 1)
      case SystemZ => Some(count - 1)
      case Sparc => Some(if mnemonic == "jmpl" then 0 else count - 1)
      case LoongArch => Some(if mnemonic == "jirl" then 1 else count - 1)
      case PowerPC => Some(count - 1)
      case X86 => None
      case OtherArchitecture => None
  }

  // ---------- Targets of operand spans ----------

  predicate Inside(span: Span, operand: Range) { operand.first <= span.begin && span.end <= operand.last }

  const POINTER_WORDS: set<string> := {"byte", "word", "dword", "qword", "tbyte", "xword", "ptr", "offset"}

  predicate Decoration(word: string) {
    || word in POINTER_WORDS
    || forall k :: 0 <= k < |word| ==>
         word[k] == '[' || word[k] == ']' || word[k] == '$' || word[k] == '#' || word[k] == '*' || IsSpace(word[k])
  }

  function WordOf(text: string, span: Span): string
    requires span.begin <= span.end <= |text|
  {
    text[span.begin..span.end]
  }

  /** A neighbour that leaves the literal the whole operand: decoration, or white space. */
  predicate Harmless(text: string, operand: Range, span: Span, other: Span)
    requires other.begin <= other.end <= |text|
  {
    || !Inside(other, operand) || other.begin == span.begin || other.kind == Plain
    || (other.kind == Punctuation && Decoration(WordOf(text, other)))
  }

  predicate InText(text: string, tokens: seq<Span>) {
    forall i :: 0 <= i < |tokens| ==> tokens[i].begin <= tokens[i].end <= |text|
  }

  predicate Alone(text: string, tokens: seq<Span>, operand: Range, span: Span)
    requires InText(text, tokens)
  {
    forall j :: 0 <= j < |tokens| ==> Harmless(text, operand, span, tokens[j])
  }

  datatype Control = Control(flow: Flow, target: Option<nat>, destination: Option<nat>)

  /** The target of a span that lies in operand `index`. */
  function OperandTarget(text: string, tokens: seq<Span>, operand: Range, index: nat, span: Span, control: Control,
                         tables: Tables)
    : Option<nat>
    requires InText(text, tokens) && span.begin <= span.end <= |text|
  {
    if control.destination == Some(index) && span.kind != Plain && span.kind != Comment then control.target
    else if control.flow != Other || span.kind != Number then span.target
    else if tables.addressLiteral(WordOf(text, span)).Some? && Alone(text, tokens, operand, span)
      then tables.addressLiteral(WordOf(text, span))
    else span.target
  }

  /** Only targets differ. */
  predicate SameSpan(a: Span, b: Span) { a.begin == b.begin && a.end == b.end && a.kind == b.kind }

  ghost predicate SameSpans(a: seq<Span>, b: seq<Span>) {
    |a| == |b| && forall i :: 0 <= i < |a| ==> SameSpan(a[i], b[i])
  }

  lemma AloneSame(text: string, a: seq<Span>, b: seq<Span>, operand: Range, span: Span)
    requires SameSpans(a, b) && InText(text, a)
    ensures InText(text, b) && (Alone(text, a, operand, span) <==> Alone(text, b, operand, span))
  {
    forall j | 0 <= j < |a| ensures b[j].begin <= b[j].end <= |text| {
      assert SameSpan(a[j], b[j]);
    }
    forall j | 0 <= j < |a| ensures Harmless(text, operand, span, a[j]) <==> Harmless(text, operand, span, b[j]) {
      assert SameSpan(a[j], b[j]);
    }
  }

  lemma {:induction false} SameTiles(a: seq<Span>, b: seq<Span>, size: nat)
    requires SameSpans(a, b) && Tiles(a, size)
    ensures Tiles(b, size)
  {
    forall i | 0 <= i < |b| ensures b[i].begin < b[i].end {
      assert SameSpan(a[i], b[i]);
    }
    forall i | 0 <= i < |b| - 1 ensures Meets(b, i) {
      assert SameSpan(a[i], b[i]) && SameSpan(a[i + 1], b[i + 1]) && Meets(a, i);
    }
    if b != [] {
      assert SameSpan(a[0], b[0]) && SameSpan(a[|a| - 1], b[|b| - 1]);
    }
  }

  /** What linking the first `count` operands does to span i. */
  ghost predicate SpanLinked(text: string, before: seq<Span>, after: Span, operands: seq<Range>, count: nat, i: nat,
                             control: Control, tables: Tables)
    requires i < |before| && count <= |operands| && InText(text, before)
  {
    && SameSpan(before[i], after)
    && (forall o: nat :: o < count && Inside(before[i], operands[o]) ==>
          after.target == OperandTarget(text, before, operands[o], o, before[i], control, tables))
    && ((forall o: nat :: o < count ==> !Inside(before[i], operands[o])) ==> after.target == before[i].target)
  }

  ghost predicate OperandsLinked(text: string, before: seq<Span>, after: seq<Span>, operands: seq<Range>,
                                 control: Control, tables: Tables)
    requires InText(text, before)
  {
    && |after| == |before|
    && forall i :: 0 <= i < |before| ==> SpanLinked(text, before, after[i], operands, |operands|, i, control, tables)
  }

  /** One span, one operand. */
  lemma LinkStep(text: string, before: seq<Span>, current: Span, operands: seq<Range>, o: nat, i: nat, start: nat,
                 control: Control, tables: Tables)
    requires InText(text, before) && i < |before| && before[i].begin < before[i].end
    requires IsSplit(text, start, operands) && o < |operands|
    requires SpanLinked(text, before, current, operands, o, i, control, tables)
    ensures var next := if Inside(before[i], operands[o])
              then
                current.(target := OperandTarget(text, before, operands[o], o, before[i], control, tables))
              else current;
            SpanLinked(text, before, next, operands, o + 1, i, control, tables)
    ensures Inside(before[i], operands[o]) ==> current.target == before[i].target
  {
    if Inside(before[i], operands[o]) {
      forall p: nat | p < o ensures !Inside(before[i], operands[p]) {
        OperandsOrdered(text, start, operands, p, o);
      }
    }
  }

  method LinkOperands(text: string, tokens0: seq<Span>, start: nat, mnemonic: string, flow: Flow,
                      flowTarget: Option<nat>, architecture: Architecture, tables: Tables)
    returns (tokens: seq<Span>, ghost operands: seq<Range>, ghost control: Control)
    requires Tiles(tokens0, |text|) && start <= |text| && InText(text, tokens0)
    ensures Tiles(tokens, |text|) && IsSplit(text, start, operands)
    ensures control == Control(flow, flowTarget,
                               if flowTarget.Some? then Destination(architecture, mnemonic, |operands|) else None)
    ensures OperandsLinked(text, tokens0, tokens, operands, control, tables)
  {
    var ranges := SplitOperands(text, start);
    var destination := if flowTarget.Some? then Destination(architecture, mnemonic, |ranges|) else None;
    operands := ranges;
    control := Control(flow, flowTarget, destination);
    tokens := tokens0;
    for o := 0 to |ranges|
      invariant |tokens| == |tokens0|
      invariant forall i :: 0 <= i < |tokens0| ==> SpanLinked(text, tokens0, tokens[i], operands, o, i, control, tables)
    {
      tokens := LinkOperand(text, tokens0, tokens, start, ranges, o, Control(flow, flowTarget, destination), tables);
    }
    assert SameSpans(tokens0, tokens) by {
      forall i | 0 <= i < |tokens0| ensures SameSpan(tokens0[i], tokens[i]) {
        assert SpanLinked(text, tokens0, tokens[i], operands, |operands|, i, control, tables);
      }
    }
    SameTiles(tokens0, tokens, |text|);
  }

  /** The inner loop: every span against one operand. */
  method LinkOperand(text: string, ghost before: seq<Span>, tokens0: seq<Span>, ghost start: nat, operands: seq<Range>,
                     o: nat, control: Control, tables: Tables)
    returns (tokens: seq<Span>)
    requires InText(text, before) && Tiles(before, |text|) && IsSplit(text, start, operands) && o < |operands|
    requires |tokens0| == |before|
    requires forall i :: 0 <= i < |before| ==> SpanLinked(text, before, tokens0[i], operands, o, i, control, tables)
    ensures |tokens| == |before|
    ensures forall i :: 0 <= i < |before| ==> SpanLinked(text, before, tokens[i], operands, o + 1, i, control, tables)
  {
    tokens := tokens0;
    for i := 0 to |tokens|
      invariant |tokens| == |before|
      invariant forall k :: 0 <= k < i ==> SpanLinked(text, before, tokens[k], operands, o + 1, k, control, tables)
      invariant forall k :: i <= k < |before| ==> SpanLinked(text, before, tokens[k], operands, o, k, control, tables)
    {
      SameAfter(text, before, tokens, operands, o, i, control, tables);
      var span := LinkHere(text, before, tokens, start, operands, o, i, control, tables);
      tokens := tokens[i := span];
    }
  }

  lemma SameAfter(text: string, before: seq<Span>, tokens: seq<Span>, operands: seq<Range>, o: nat, i: nat,
                  control: Control, tables: Tables)
    requires InText(text, before) && |tokens| == |before| && i <= |before| && o < |operands|
    requires forall k :: 0 <= k < i ==> SpanLinked(text, before, tokens[k], operands, o + 1, k, control, tables)
    requires forall k :: i <= k < |before| ==> SpanLinked(text, before, tokens[k], operands, o, k, control, tables)
    ensures SameSpans(before, tokens)
  {
    forall k | 0 <= k < |before| ensures SameSpan(before[k], tokens[k]) {
      if k < i {
        assert SpanLinked(text, before, tokens[k], operands, o + 1, k, control, tables);
      } else {
        assert SpanLinked(text, before, tokens[k], operands, o, k, control, tables);
      }
    }
  }

  /** One span against one operand, judged by the spans as they are now. */
  method LinkHere(text: string, ghost before: seq<Span>, tokens: seq<Span>, ghost start: nat, operands: seq<Range>,
                  o: nat, i: nat, control: Control, tables: Tables)
    returns (span: Span)
    requires InText(text, before) && Tiles(before, |text|) && IsSplit(text, start, operands) && o < |operands|
    requires SameSpans(before, tokens) && i < |tokens|
    requires SpanLinked(text, before, tokens[i], operands, o, i, control, tables)
    ensures SpanLinked(text, before, span, operands, o + 1, i, control, tables)
  {
    span := tokens[i];
    AloneSame(text, before, tokens, operands[o], span);
    LinkStep(text, before, span, operands, o, i, start, control, tables);
    if Inside(span, operands[o]) {
      span := span.(target := OperandTarget(text, tokens, operands[o], o, span, control, tables));
    }
  }

  // ---------- What the links mean ----------

  /** Spans before the operands keep their targets, and so does every span across a comma. */
  lemma OutsideKeepsTarget(text: string, before: seq<Span>, after: seq<Span>, start: nat, operands: seq<Range>, i: nat,
                           control: Control, tables: Tables)
    requires InText(text, before) && OperandsLinked(text, before, after, operands, control, tables)
    requires IsSplit(text, start, operands) && i < |before|
    requires before[i].begin < start
             || exists c :: before[i].begin <= c < before[i].end && start <= c < |text| && TopComma(text, start, c)
    ensures after[i] == before[i]
  {
    assert SpanLinked(text, before, after[i], operands, |operands|, i, control, tables);
    forall o: nat | o < |operands| ensures !Inside(before[i], operands[o]) {
      OperandUnbroken(text, start, operands, o);
    }
  }

  lemma OperandUnbroken(text: string, start: nat, operands: seq<Range>, o: nat)
    requires IsSplit(text, start, operands) && o < |operands|
    ensures Unbroken(text, start, operands[o])
  {
    if o < |operands| - 1 {
      assert Unbroken(text, start, operands[..|operands| - 1][o]);
    }
  }

  /** A literal is linked only when its operand decorates nothing else; two literals in one operand link neither. */
  lemma TwoLiteralsLinkNeither(text: string, before: seq<Span>, after: seq<Span>, operands: seq<Range>, o: nat, i: nat,
                               j: nat, control: Control, tables: Tables)
    requires InText(text, before) && OperandsLinked(text, before, after, operands, control, tables)
    requires i < |before| && j < |before| && o < |operands| && before[i].begin != before[j].begin
    requires Inside(before[i], operands[o]) && Inside(before[j], operands[o])
    requires before[i].kind == Number && before[j].kind == Number && control.destination != Some(o)
    ensures after[i].target == before[i].target && after[j].target == before[j].target
  {
    assert SpanLinked(text, before, after[i], operands, |operands|, i, control, tables);
    assert SpanLinked(text, before, after[j], operands, |operands|, j, control, tables);
    assert !Harmless(text, operands[o], before[i], before[j]);
    assert !Harmless(text, operands[o], before[j], before[i]);
  }

  // ---------- What standing alone says of the text ----------

  predicate Overlaps(span: Span, operand: Range) { span.begin < operand.last && operand.first < span.end }

  /** The span reaches into the operand, and beyond it. */
  predicate Straddles(span: Span, operand: Range) { Overlaps(span, operand) && !Inside(span, operand) }

  /** Decoration, or white space. */
  predicate Trivial(text: string, span: Span)
    requires span.begin <= span.end <= |text|
  {
    span.kind == Plain || (span.kind == Punctuation && Decoration(WordOf(text, span)))
  }

  /** Every byte of the operand belongs to the span, or to decoration and white space. */
  predicate NothingElse(text: string, tokens: seq<Span>, operand: Range, span: Span)
    requires InText(text, tokens)
  {
    forall j :: 0 <= j < |tokens| && Overlaps(tokens[j], operand) ==>
      tokens[j].begin == span.begin || Trivial(text, tokens[j])
  }

  /** Standing alone is judged by the spans inside the operand; what a span reaches over its ends is not looked at. */
  lemma NothingElseIff(text: string, tokens: seq<Span>, operand: Range, span: Span)
    requires InText(text, tokens) && (forall j :: 0 <= j < |tokens| ==> tokens[j].begin < tokens[j].end)
    requires Inside(span, operand)
    ensures NothingElse(text, tokens, operand, span)
       <==> && Alone(text, tokens, operand, span)
            && forall j :: 0 <= j < |tokens| && Straddles(tokens[j], operand) ==>
                 tokens[j].begin == span.begin || Trivial(text, tokens[j])
  {
    if NothingElse(text, tokens, operand, span) {
      forall j | 0 <= j < |tokens| ensures Harmless(text, operand, span, tokens[j]) {
        assert Inside(tokens[j], operand) ==> Overlaps(tokens[j], operand);
      }
    }
    if Alone(text, tokens, operand, span) {
      forall j | 0 <= j < |tokens| && Overlaps(tokens[j], operand) && !Straddles(tokens[j], operand)
        ensures tokens[j].begin == span.begin || Trivial(text, tokens[j])
      {
        assert Harmless(text, operand, span, tokens[j]);
      }
    }
  }

  /**
   A minus that merges with the comma before it is overlooked: the number is linked although a sign
   stands before it.
   */
  lemma SignIsOverlooked(tables: Tables)
    requires tables.isRegister("eax") && !tables.isRegister("0x10") && tables.isNumber("0x10")
    ensures var text := "eax,-0x10";
            var tokens := [Span(0, 3, Register, None), Span(3, 5, Punctuation, None), Span(5, 9, Number, None)];
            && tokens == Tokenized(text, [], 0, X86, Scan(false, false), tables)
            && Tiles(tokens, |text|) && InText(text, tokens) && IsSplit(text, 0, [Range(0, 3), Range(4, 9)])
            && Alone(text, tokens, Range(4, 9), tokens[2]) && !NothingElse(text, tokens, Range(4, 9), tokens[2])
  {
    hide Tokenized, Depth;
    var text := "eax,-0x10";
    var tokens := [Span(0, 3, Register, None), Span(3, 5, Punctuation, None), Span(5, 9, Number, None)];
    var operands := [Range(0, 3), Range(4, 9)];
    forall i | 0 <= i < |tokens| - 1 ensures Meets(tokens, i) {
    }
    CommaAfterRegister(text);
    SignTokenized(tables);
    assert operands[..1] == [Range(0, 3)];
    assert Overlaps(tokens[1], Range(4, 9)) && WordOf(text, tokens[1])[0] == ',';
  }

  lemma SignTokenized(tables: Tables)
    requires tables.isRegister("eax") && !tables.isRegister("0x10") && tables.isNumber("0x10")
    ensures Tokenized("eax,-0x10", [], 0, X86, Scan(false, false), tables)
         == [Span(0, 3, Register, None), Span(3, 5, Punctuation, None), Span(5, 9, Number, None)]
  {
    var text, scan := "eax,-0x10", Scan(false, false);
    var first, second := Span(0, 3, Register, None), Span(3, 4, Punctuation, None);
    assert WordRest(text, 3) == 3 && WordRest(text, 2) == 3 && WordRest(text, 1) == 3 && text[0..3] == "eax";
    assert NextStep(text, 0, X86, scan, tables) == Step(3, Register, scan);
    assert NextStep(text, 3, X86, scan, tables) == Step(4, Punctuation, scan);
    assert NextStep(text, 4, X86, scan, tables) == Step(5, Punctuation, scan);
    assert WordRest(text, 9) == 9 && WordRest(text, 8) == 9 && WordRest(text, 7) == 9 && WordRest(text, 6) == 9;
    assert text[5..9] == "0x10";
    assert NextStep(text, 5, X86, scan, tables) == Step(9, Number, scan);
    assert Recorded([first], 3, 4, Punctuation, None) == [first, second];
    assert Recorded([first, second], 4, 5, Punctuation, None) == [first, second.(end := 5)];
  }

  lemma CommaAfterRegister(text: string)
    requires text == "eax,-0x10"
    ensures text[3] == ',' && TopComma(text, 0, 3)
    ensures forall i :: 0 <= i < |text| && i != 3 ==> !TopComma(text, 0, i)
  {
    assert Depth(text, 0, 1) == Depth(text, 0, 2) == Depth(text, 0, 3) == 0;
  }
}
