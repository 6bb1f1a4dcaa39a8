/**
 The line-by-line Python lexer: a stack of string, replacement and format contexts
 that survives line breaks. Text is a sequence of bytes, one character each.
 */
module PythonLexer {
  import opened Wrappers
  import opened Bytes

  // ---------- Character classes ----------

  predicate IdentifierStart(c: char) {
    'a' <= c <= 'z' || 'A' <= c <= 'Z' || c == '_' || c as int >= 0x80
  }

  predicate IdentifierPart(c: char) { IdentifierStart(c) || IsDecimal(c) }

  predicate Space(c: char) { c == ' ' || c == '\t' || c as int == 12 || c == '\r' }

  predicate Quote(c: char) { c == '\'' || c == '"' }

  /** At most n bytes of the text from a position on, as `substr` gives them. */
  function Part(text: string, pos: nat, n: nat): string
    requires pos <= |text|
  {
    if pos + n <= |text| then text[pos..pos + n] else text[pos..]
  }

  // ---------- Tokens and contexts ----------

  datatype Kind = Word | Number | String | Escape | Punctuation | Comment

  datatype Token = Token(begin: nat, end: nat, kind: Kind, outer: bool)

  datatype Mode = InString | InReplacement | InFormat

  datatype Context = Context(mode: Mode, quote: char, triple: bool, raw: bool, bytes: bool, interpolated: bool,
                             outer: bool, escapedNewline: bool, depth: nat)

  /** Is the next byte read as literal text rather than as Python? */
  predicate InLiteral(contexts: seq<Context>) {
    contexts != [] && contexts[|contexts| - 1].mode != InReplacement
  }

  /** What may sit directly on what. */
  predicate SitsOn(upper: Context, lower: Context) {
    match upper.mode
    case InString => lower.mode == InReplacement
    case InReplacement => lower.mode == InFormat || (lower.mode == InString && lower.interpolated)
    case InFormat => lower.mode == InFormat || (lower.mode == InString && lower.interpolated)
  }

  /** Context i sits on the one below it. */
  predicate Seated(contexts: seq<Context>, i: nat)
    requires 0 < i < |contexts|
  {
    SitsOn(contexts[i], contexts[i - 1])
  }

  ghost predicate WellStacked(contexts: seq<Context>) {
    && (contexts != [] ==> contexts[0].mode == InString)
    && (forall i :: 0 < i < |contexts| ==> Seated(contexts, i))
    && (forall i :: 0 <= i < |contexts| ==> Sane(contexts, i))
  }

  /** Only the outermost context is an outer one, only strings can be plain, and only fields have a depth. */
  ghost predicate Sane(contexts: seq<Context>, i: nat)
    requires i < |contexts|
  {
    var context := contexts[i];
    && (context.outer <==> i == 0) && Quote(context.quote)
    && (context.mode != InString ==> context.interpolated) && (context.mode != InReplacement ==> context.depth == 0)
  }

  ghost predicate NoFlag(contexts: seq<Context>) {
    forall i :: 0 <= i < |contexts| ==> !contexts[i].escapedNewline
  }

  /** An ordinary string is innermost, with no escaped line break to carry it on. */
  predicate Unterminated(contexts: seq<Context>) {
    contexts != [] && var top := contexts[|contexts| - 1]; top.mode == InString && !top.triple && !top.escapedNewline
  }

  /** Only the innermost, unterminated string is gone. */
  ghost predicate Recovered(before: seq<Context>, after: seq<Context>) {
    && Unterminated(before) && after == before[..|before| - 1] && !Unterminated(after)
  }

  /** What a line break makes of the contexts: an unterminated string is gone, no escaped-line flag survives. */
  ghost predicate Continues(ended: seq<Context>, next: seq<Context>) {
    && |next| == |ended| - (if Unterminated(ended) then 1 else 0)
    && forall i :: 0 <= i < |next| ==> next[i] == ended[i].(escapedNewline := false)
  }

  /** Below a string stands the replacement field that holds it. */
  lemma FrontStacked(contexts: seq<Context>)
    requires WellStacked(contexts) && contexts != []
    ensures WellStacked(contexts[..|contexts| - 1])
    ensures |contexts| > 1 && contexts[|contexts| - 1].mode == InString ==>
              contexts[|contexts| - 2].mode == InReplacement
    ensures FlagOnTopOnly(contexts) ==> FlagOnTopOnly(contexts[..|contexts| - 1])
  {
    var front := contexts[..|contexts| - 1];
    forall i | 0 < i < |front| ensures Seated(front, i) {
      assert Seated(contexts, i);
    }
    forall i | 0 <= i < |front| ensures Sane(front, i) {
      assert Sane(contexts, i);
    }
    assert |contexts| > 1 ==> Seated(contexts, |contexts| - 1);
  }

  /** Only strings can be plain, and quotes are never braces. */
  lemma InnermostFits(contexts: seq<Context>)
    requires WellStacked(contexts) && contexts != []
    ensures var top := contexts[|contexts| - 1];
            && Quote(top.quote) && (top.mode != InString ==> top.interpolated)
            && (top.mode != InReplacement ==> top.depth == 0)
  {
    assert Sane(contexts, |contexts| - 1);
  }

  lemma GrownStacked(contexts: seq<Context>, context: Context)
    requires WellStacked(contexts) && Quote(context.quote) && (context.outer <==> contexts == [])
    requires if contexts == [] then context.mode == InString else SitsOn(context, contexts[|contexts| - 1])
    requires (context.mode != InString ==> context.interpolated)
             && (context.mode != InReplacement ==> context.depth == 0)
    ensures WellStacked(contexts + [context])
  {
    var longer := contexts + [context];
    forall i | 0 < i < |longer| ensures Seated(longer, i) {
      assert i < |contexts| ==> Seated(contexts, i);
    }
    forall i | 0 <= i < |longer| ensures Sane(longer, i) {
      assert i < |contexts| ==> Sane(contexts, i);
    }
  }

  /** A replacement field may become a format specification; both sit on the same contexts. */
  lemma ReplacedStacked(contexts: seq<Context>, context: Context)
    requires WellStacked(contexts) && contexts != []
    requires var top := contexts[|contexts| - 1];
             && context == top.(mode := context.mode, depth := context.depth, escapedNewline := context.escapedNewline)
             && (context.mode == top.mode || (top.mode == InReplacement && context.mode == InFormat))
    requires context.mode != InReplacement ==> context.depth == 0
    ensures WellStacked(contexts[..|contexts| - 1] + [context])
  {
    var replaced := contexts[..|contexts| - 1] + [context];
    forall i | 0 < i < |replaced| ensures Seated(replaced, i) {
      assert Seated(contexts, i);
    }
    forall i | 0 <= i < |replaced| ensures Sane(replaced, i) {
      assert Sane(contexts, i);
    }
  }

  lemma ClearedStacked(contexts: seq<Context>)
    requires WellStacked(contexts) && FlagOnTopOnly(contexts) && contexts != []
    ensures var cleared := contexts[..|contexts| - 1] + [contexts[|contexts| - 1].(escapedNewline := false)];
            WellStacked(cleared) && NoFlag(cleared)
  {
    InnermostFits(contexts);
    ReplacedStacked(contexts, contexts[|contexts| - 1].(escapedNewline := false));
  }

  /** Only the innermost context can be waiting for an escaped line break. */
  ghost predicate FlagOnTopOnly(contexts: seq<Context>) {
    forall i :: 0 <= i < |contexts| - 1 ==> !contexts[i].escapedNewline
  }

  // ---------- Words and numbers ----------

  method WordEnd(text: string, begin: nat) returns (pos: nat)
    requires begin < |text| && IdentifierStart(text[begin])
    ensures begin < pos <= |text|
    ensures forall k :: begin <= k < pos ==> IdentifierPart(text[k])
    ensures pos < |text| ==> !IdentifierPart(text[pos])
  {
    pos := begin + 1;
    while pos < |text| && IdentifierPart(text[pos])
      invariant begin < pos <= |text|
      invariant forall k :: begin <= k < pos ==> IdentifierPart(text[k])
    {
      pos := pos + 1;
    }
  }

  predicate BaseDigit(base: char, c: char) {
    if base == 'x' || base == 'X' then IsHex(c)
    else if base == 'o' || base == 'O' then '0' <= c <= '7'
    else c == '0' || c == '1'
  }

  method SkipDigits(text: string, from: nat) returns (pos: nat)
    requires from <= |text|
    ensures from <= pos <= |text|
    ensures forall k :: from <= k < pos ==> IsDecimal(text[k]) || text[k] == '_'
    ensures pos < |text| ==> !IsDecimal(text[pos]) && text[pos] != '_'
  {
    pos := from;
    while pos < |text| && (IsDecimal(text[pos]) || text[pos] == '_')
      invariant from <= pos <= |text|
      invariant forall k :: from <= k < pos ==> IsDecimal(text[k]) || text[k] == '_'
    {
      pos := pos + 1;
    }
  }

  /** The maximal run of digits and underscores from a position on. */
  ghost predicate DigitsTo(text: string, from: nat, to: nat) {
    && from <= to <= |text| && (forall k :: from <= k < to ==> IsDecimal(text[k]) || text[k] == '_')
    && (to < |text| ==> !IsDecimal(text[to]) && text[to] != '_')
  }

  /** Digits of a base, after a zero and the letter that names it. */
  ghost predicate PrefixedTo(text: string, begin: nat, end: nat) {
    && begin + 2 <= end <= |text|
    && (forall k :: begin + 2 <= k < end ==> BaseDigit(text[begin + 1], text[k]) || text[k] == '_')
    && (end < |text| ==> !BaseDigit(text[begin + 1], text[end]) && text[end] != '_')
  }

  predicate NamesBase(text: string, begin: nat) {
    begin + 1 < |text| && text[begin] == '0' && text[begin + 1] in {'b', 'B', 'o', 'O', 'x', 'X'}
  }

  /** A fraction starts at a dot, unless another dot follows it. */
  ghost predicate FractionTo(text: string, from: nat, to: nat) {
    if from < |text| && text[from] == '.' && (from + 1 == |text| || text[from + 1] != '.') then
      DigitsTo(text, from + 1, to)
    else to == from
  }

  /** Where the digits of an exponent start, after its letter and sign. */
  function ExponentDigits(text: string, from: nat): nat {
    if from + 1 < |text| && (text[from + 1] == '+' || text[from + 1] == '-') then from + 2 else from + 1
  }

  /** An exponent needs a digit; without one its letter is not part of the number. */
  ghost predicate ExponentTo(text: string, from: nat, to: nat) {
    var first := ExponentDigits(text, from);
    if from < |text| && text[from] in {'e', 'E'} && first < |text| && IsDecimal(text[first]) then
      DigitsTo(text, first + 1, to)
    else to == from
  }

  ghost predicate SuffixTo(text: string, from: nat, to: nat) {
    to == if from < |text| && text[from] in {'j', 'J'} then from + 1 else from
  }

  /** A prefixed integer, or whole digits, fraction, exponent and imaginary suffix. */
  ghost predicate NumberTo(text: string, begin: nat, end: nat) {
    if NamesBase(text, begin) then PrefixedTo(text, begin, end)
    else exists whole: nat, fraction: nat, exponent: nat ::
           DigitsTo(text, begin, whole) && FractionTo(text, whole, fraction) && ExponentTo(text, fraction, exponent)
           && SuffixTo(text, exponent, end)
  }

  /** The end of a numeric literal. */
  method NumberEnd(text: string, begin: nat) returns (pos: nat)
    requires begin < |text|
    requires IsDecimal(text[begin]) || (text[begin] == '.' && begin + 1 < |text| && IsDecimal(text[begin + 1]))
    ensures begin < pos <= |text| && NumberTo(text, begin, pos)
  {
    pos := begin;
    if text[pos] == '0' && pos + 1 < |text| && text[pos + 1] in {'b', 'B', 'o', 'O', 'x', 'X'} {
      var base := text[pos + 1];
      pos := pos + 2;
      while pos < |text| && (BaseDigit(base, text[pos]) || text[pos] == '_')
        invariant begin + 2 <= pos <= |text|
        invariant forall k :: begin + 2 <= k < pos ==> BaseDigit(base, text[k]) || text[k] == '_'
      {
        pos := pos + 1;
      }
      return;
    }
    pos := SkipDigits(text, pos);
    ghost var whole := pos;
    if pos < |text| && text[pos] == '.' && (pos + 1 == |text| || text[pos + 1] != '.') {
      pos := SkipDigits(text, pos + 1);
    }
    ghost var fraction := pos;
    if pos < |text| && (text[pos] == 'e' || text[pos] == 'E') {
      var exponent := pos + 1;
      if exponent < |text| && (text[exponent] == '+' || text[exponent] == '-') {
        exponent := exponent + 1;
      }
      if exponent < |text| && IsDecimal(text[exponent]) {
        pos := SkipDigits(text, exponent + 1);
      }
    }
    ghost var exponentEnd := pos;
    if pos < |text| && (text[pos] == 'j' || text[pos] == 'J') {
      pos := pos + 1;
    }
    assert DigitsTo(text, begin, whole) && FractionTo(text, whole, fraction) && ExponentTo(text, fraction, exponentEnd)
           && SuffixTo(text, exponentEnd, pos);
  }

  function Lower(c: char): char {
    if 'A' <= c <= 'Z' then (c as int + 32) as char else c
  }

  predicate StringPrefix(prefix: string) {
    && |prefix| <= 2
    && var lower := if |prefix| == 0 then "" else if |prefix| == 1 then [Lower(prefix[0])]
                    else [Lower(prefix[0]), Lower(prefix[1])];
       lower in {"r", "u", "b", "f", "br", "rb", "fr", "rf", "t", "tr", "rt"}
  }

  /** End of a multi-byte operator that starts at `begin`. */
  function OperatorEnd(text: string, begin: nat): (pos: nat)
    requires begin < |text|
    ensures begin < pos <= |text| && pos <= begin + 3
  {
    var two := Part(text, begin, 2);
    if begin + 1 < |text|
       && two in {"==", "!=", "<=", ">=", ":=", "->", "+=", "-=", "*=", "/=", "%=", "&=", "|=", "^=",
                  "**", "//", "<<", ">>"} then
      if begin + 2 < |text| && text[begin + 2] == '=' && two in {"**", "//", "<<", ">>"} then begin + 3 else begin + 2
    else if text[begin] == '.' && Part(text, begin, 3) == "..." then begin + 3
    else begin + 1
  }

  // ---------- Escapes and literal runs ----------

  predicate IsOctal(c: char) { '0' <= c <= '7' }

  /** At most `limit` hexadecimal digits, as many as there are. */
  ghost predicate HexTo(text: string, from: nat, to: nat, limit: nat) {
    && from <= to <= |text| && to <= from + limit && (forall k :: from <= k < to ==> IsHex(text[k]))
    && (to == from + limit || to == |text| || !IsHex(text[to]))
  }

  ghost predicate OctalTo(text: string, from: nat, to: nat, limit: nat) {
    && from <= to <= |text| && to <= from + limit && (forall k :: from <= k < to ==> IsOctal(text[k]))
    && (to == from + limit || to == |text| || !IsOctal(text[to]))
  }

  /** The named form `\N{...}`: up to and with the closing brace, or up to a quote or the end of the line. */
  ghost predicate NameTo(text: string, from: nat, to: nat, quote: char) {
    && from < to <= |text|
    && (forall k :: from < k < to - 1 ==> text[k] != '}' && text[k] != quote)
    && (text[to - 1] != '}' ==> (to == |text| || text[to] == quote) && (from + 1 < to ==> text[to - 1] != quote))
  }

  method SkipHex(text: string, from: nat, limit: nat) returns (pos: nat)
    requires from <= |text|
    ensures HexTo(text, from, pos, limit)
  {
    pos := from;
    var remaining := limit;
    while remaining > 0 && pos < |text| && IsHex(text[pos])
      invariant from <= pos <= |text| && pos + remaining == from + limit
      invariant forall k :: from <= k < pos ==> IsHex(text[k])
    {
      pos := pos + 1;
      remaining := remaining - 1;
    }
  }

  method SkipOctal(text: string, from: nat, limit: nat) returns (pos: nat)
    requires from <= |text|
    ensures OctalTo(text, from, pos, limit)
  {
    pos := from;
    var i := 0;
    while i < limit && pos < |text| && IsOctal(text[pos])
      invariant from <= pos <= |text| && pos == from + i && i <= limit
      invariant forall k :: from <= k < pos ==> IsOctal(text[k])
    {
      pos := pos + 1;
      i := i + 1;
    }
  }

  method SkipName(text: string, from: nat, quote: char) returns (pos: nat)
    requires from < |text| && text[from] == '{'
    ensures NameTo(text, from, pos, quote)
  {
    pos := from + 1;
    while pos < |text| && text[pos] != '}' && text[pos] != quote
      invariant from < pos <= |text|
      invariant forall k :: from < k < pos ==> text[k] != '}' && text[k] != quote
    {
      pos := pos + 1;
    }
    if pos < |text| && text[pos] == '}' {
      pos := pos + 1;
    }
  }

  /** How many hexadecimal digits an escape letter takes. */
  function HexCount(escaped: char, context: Context): nat {
    if escaped == 'x' then 2
    else if !context.bytes && escaped == 'u' then 4
    else if !context.bytes && escaped == 'U' then 8
    else 0
  }

  /** What belongs to a non-raw escape after its letter. */
  ghost predicate EscapeTo(text: string, from: nat, escaped: char, context: Context, to: nat) {
    exists mid: nat :: HexTo(text, from, mid, HexCount(escaped, context)) && AfterHex(text, mid, escaped, context, to)
  }

  ghost predicate AfterHex(text: string, from: nat, escaped: char, context: Context, to: nat) {
    if IsOctal(escaped) then OctalTo(text, from, to, 2)
    else if !context.bytes && escaped == 'N' && from < |text| && text[from] == '{' then
      NameTo(text, from, to, context.quote)
    else to == from
  }

  /** What follows the escaped character of a non-raw escape. */
  method EscapeEnd(text: string, pos0: nat, escaped: char, context: Context) returns (pos: nat)
    requires pos0 <= |text|
    ensures pos0 <= pos <= |text| && EscapeTo(text, pos0, escaped, context, pos)
  {
    pos := SkipHex(text, pos0, HexCount(escaped, context));
    ghost var mid := pos;
    if '0' <= escaped <= '7' {
      pos := SkipOctal(text, pos, 2);
    } else if !context.bytes && escaped == 'N' && pos < |text| && text[pos] == '{' {
      pos := SkipName(text, pos, context.quote);
    }
    assert AfterHex(text, mid, escaped, context, pos);
  }

  /** Does literal text stop in front of this byte? */
  predicate StopsRun(context: Context, c: char) {
    || c == '\\'
    || (context.mode != InFormat && c == context.quote)
    || (context.interpolated && (c == '{' || c == '}'))
  }

  method RunEnd(text: string, begin: nat, context: Context) returns (pos: nat)
    requires begin < |text|
    ensures begin < pos <= |text|
    ensures forall k :: begin < k < pos ==> !StopsRun(context, text[k])
    ensures pos < |text| ==> StopsRun(context, text[pos])
  {
    pos := begin + 1;
    while pos < |text| && !StopsRun(context, text[pos])
      invariant begin < pos <= |text|
      invariant forall k :: begin < k < pos ==> !StopsRun(context, text[k])
    {
      pos := pos + 1;
    }
  }

  // ---------- Where literals open and close ----------

  predicate Tripled(text: string, pos: nat)
    requires pos < |text|
  {
    pos + 2 < |text| && text[pos + 1] == text[pos] && text[pos + 2] == text[pos]
  }

  /** The innermost literal ends at this byte. */
  predicate Closes(context: Context, text: string, pos: nat)
    requires pos < |text|
  {
    || (context.mode == InFormat && text[pos] == '}')
    || (context.mode == InString && text[pos] == context.quote && (context.triple ==> Tripled(text, pos)))
  }

  /** A single brace opens a replacement field in an interpolated string or a format. */
  predicate OpensField(context: Context, text: string, pos: nat)
    requires pos < |text|
  {
    && text[pos] == '{'
    && (context.mode == InFormat
        || (context.mode == InString && context.interpolated && text[pos] != context.quote
            && !(pos + 1 < |text| && text[pos + 1] == '{')))
  }

  function Field(context: Context): Context {
    context.(mode := InReplacement, outer := false, depth := 0)
  }

  /** Bracket depth inside a replacement field. */
  function DepthAfter(depth: nat, c: char): nat {
    if c in {'(', '[', '{'} then depth + 1 else if c in {')', ']', '}'} && depth > 0 then depth - 1 else depth
  }

  predicate HasLetter(text: string, begin: nat, end: nat, letters: set<char>)
    requires begin <= end <= |text|
  {
    exists i :: begin <= i < end && text[i] in letters
  }

  /** The context a string literal opens, from its prefix and quote. */
  function Opened(text: string, begin: nat, pos: nat, outer: bool): Context
    requires begin <= pos < |text|
  {
    Context(InString, text[pos], Tripled(text, pos), HasLetter(text, begin, pos, {'r', 'R'}),
            HasLetter(text, begin, pos, {'b', 'B'}), HasLetter(text, begin, pos, {'f', 'F', 't', 'T'}), outer, false, 0)
  }

  /** A whole word, or the prefix and quote of the string it turned out to open. */
  ghost predicate WordOrPrefix(text: string, token: Token, before: seq<Context>, after: seq<Context>)
    requires token.begin < token.end <= |text|
  {
    if token.kind == Word then
      && after == before
      && !(token.end < |text| && Quote(text[token.end]) && StringPrefix(text[token.begin..token.end]))
    else
      && token.kind == String
      && exists quote :: token.begin < quote < token.end && StringPrefix(text[token.begin..quote])
                         && OpensAt(text, quote, token, before, after)
  }

  /** A string opens at this quote, and the token ends with its quotes. */
  ghost predicate OpensAt(text: string, quote: nat, token: Token, before: seq<Context>, after: seq<Context>)
    requires token.begin <= quote < |text|
  {
    && Quote(text[quote]) && token.kind == String && token.end == quote + (if Tripled(text, quote) then 3 else 1)
    && after == before + [Opened(text, token.begin, quote, before == [])]
  }

  // ---------- The lexer ----------

  /** A backslash with its escape sequence; in an interpolated literal a brace is never escaped. */
  ghost predicate EscapeFrom(context: Context, text: string, pos: nat, end: nat) {
    if pos + 1 >= |text| || (context.interpolated && text[pos + 1] in {'{', '}'}) then end == pos + 1
    else if context.raw then end == pos + 2
    else EscapeTo(text, pos + 2, text[pos + 1], context, end)
  }

  ghost predicate RunTo(context: Context, text: string, pos: nat, end: nat) {
    && pos < end <= |text| && (forall k :: pos < k < end ==> !StopsRun(context, text[k]))
    && (end < |text| ==> StopsRun(context, text[end]))
  }

  /** Where a token of literal text ends. */
  ghost predicate LiteralTo(context: Context, text: string, pos: nat, end: nat)
    requires pos < |text|
  {
    if Closes(context, text, pos) then end == pos + (if context.mode == InString && context.triple then 3 else 1)
    else if OpensField(context, text, pos) then end == pos + 1
    else if context.mode == InString && context.interpolated && text[pos] in {'{', '}'} then
      end == pos + (if pos + 1 < |text| && text[pos + 1] == text[pos] then 2 else 1)
    else if text[pos] == '\\' then EscapeFrom(context, text, pos, end)
    else RunTo(context, text, pos, end)
  }

  /** What the kind of a token says about its bytes. */
  ghost predicate TokenTrue(text: string, t: Token)
    requires t.begin < t.end <= |text|
  {
    match t.kind
    case Word =>
      && IdentifierStart(text[t.begin]) && (forall k :: t.begin <= k < t.end ==> IdentifierPart(text[k]))
      && (t.end < |text| ==> !IdentifierPart(text[t.end]))
    case Number => (IsDecimal(text[t.begin]) || text[t.begin] == '.') && NumberTo(text, t.begin, t.end)
    case Comment => text[t.begin] == '#' && t.end == |text|
    case Punctuation => t.end <= t.begin + 3
    case _ => true
  }

  // ---------- One turn of the line loop ----------

  function Innermost(contexts: seq<Context>): Context
    requires contexts != []
  {
    contexts[|contexts| - 1]
  }

  function WithInnermost(contexts: seq<Context>, context: Context): seq<Context>
    requires contexts != []
  {
    contexts[..|contexts| - 1] + [context]
  }

  function LiteralKind(context: Context, text: string, pos: nat): Kind
    requires pos < |text|
  {
    if (Closes(context, text, pos) && context.mode == InFormat) || OpensField(context, text, pos) then Punctuation
    else if text[pos] == '\\' && !context.raw then Escape
    else String
  }

  /** A token of literal text, and what it does to the contexts. */
  ghost predicate LiteralStep(text: string, token: Token, before: seq<Context>, after: seq<Context>)
    requires token.begin < |text| && InLiteral(before)
  {
    var context := Innermost(before);
    && LiteralTo(context, text, token.begin, token.end)
    && token.kind == LiteralKind(context, text, token.begin)
    && (token.outer <==> context.outer && token.kind != Punctuation)
    && after == if Closes(context, text, token.begin) then before[..|before| - 1]
                else if OpensField(context, text, token.begin) then before + [Field(context)]
                else WithInnermost(before,
                                   context.(escapedNewline := text[token.begin] == '\\' && token.begin + 1 == |text|))
  }

  lemma Unflagged(contexts: seq<Context>)
    requires NoFlag(contexts)
    ensures contexts != [] ==> contexts == WithInnermost(contexts, Innermost(contexts).(escapedNewline := false))
    ensures FlagOnTopOnly(contexts)
  {
  }

  lemma BraceInFormat(text: string, token: Token, before: seq<Context>, after: seq<Context>)
    requires token.begin < |text| && InLiteral(before) && Innermost(before).mode == InFormat
             && text[token.begin] in {'{', '}'}
    requires token == Token(token.begin, token.begin + 1, Punctuation, false)
    requires after == if text[token.begin] == '{' then before + [Field(Innermost(before))] else before[..|before| - 1]
    ensures LiteralStep(text, token, before, after)
  {
  }

  lemma ClosingQuote(text: string, token: Token, before: seq<Context>, after: seq<Context>)
    requires token.begin < |text| && InLiteral(before) && Innermost(before).mode == InString
    requires Closes(Innermost(before), text, token.begin) && Quote(text[token.begin])
    requires token == Token(token.begin, token.begin + if Innermost(before).triple then 3 else 1, String,
                            Innermost(before).outer)
    requires after == before[..|before| - 1]
    ensures LiteralStep(text, token, before, after)
  {
  }

  lemma BraceInString(text: string, token: Token, before: seq<Context>, after: seq<Context>)
    requires token.begin < |text| && InLiteral(before)
    requires var top := Innermost(before); top.mode == InString && top.interpolated && Quote(top.quote)
    requires text[token.begin] in {'{', '}'}
    requires var doubled := token.begin + 1 < |text| && text[token.begin + 1] == text[token.begin];
             var opens := !doubled && text[token.begin] == '{';
             && token == Token(token.begin, token.begin + if doubled then 2 else 1,
                               if opens then Punctuation else String, !opens && Innermost(before).outer)
             && after == if opens then before + [Field(Innermost(before))]
                         else WithInnermost(before, Innermost(before).(escapedNewline := false))
    ensures LiteralStep(text, token, before, after)
  {
  }

  /** An escape, or a run of plain literal text. */
  lemma Spelled(text: string, token: Token, before: seq<Context>, after: seq<Context>)
    requires token.begin < token.end <= |text| && InLiteral(before)
    requires var top := Innermost(before);
             var c := text[token.begin];
             && Quote(top.quote) && (top.mode != InString ==> top.interpolated)
             && !(top.mode == InFormat && c in {'{', '}'}) && !Closes(top, text, token.begin)
             && !(top.mode == InString && top.interpolated && c in {'{', '}'})
             && (if c == '\\' then EscapeFrom(top, text, token.begin, token.end)
                 else RunTo(top, text, token.begin, token.end))
             && token.kind == (if c == '\\' && !top.raw then Escape else String) && token.outer == top.outer
             && after == WithInnermost(before, top.(escapedNewline := c == '\\' && token.begin + 1 == |text|))
    ensures LiteralStep(text, token, before, after)
  {
  }

  /** What ends a replacement field, turns it into a format, or converts its value. */
  predicate EndsField(text: string, pos: nat)
    requires pos < |text|
  {
    text[pos] in {'}', ':'} || (text[pos] == '!' && pos + 1 < |text| && text[pos + 1] != '=')
  }

  ghost predicate FieldStep(text: string, token: Token, before: seq<Context>, after: seq<Context>)
    requires token.begin < |text| && before != [] && EndsField(text, token.begin)
  {
    var c := text[token.begin];
    && token.kind == (if c == '!' then Escape else Punctuation) && !token.outer
    && token.end == token.begin + (if c == '!' && text[token.begin + 1] in {'s', 'r', 'a'} then 2 else 1)
    && after == if c == '}' then before[..|before| - 1]
                else if c == ':' then WithInnermost(before, Innermost(before).(mode := InFormat))
                else before
  }

  /** A token of Python, and what it does to the contexts. */
  ghost predicate PythonStep(text: string, token: Token, before: seq<Context>, after: seq<Context>)
    requires token.begin < token.end <= |text| && !InLiteral(before)
  {
    var c := text[token.begin];
    if c == '#' then token.kind == Comment && (token.outer <==> before == []) && after == before
    else if before != [] && Innermost(before).depth == 0 && EndsField(text, token.begin) then
      FieldStep(text, token, before, after)
    else
      && (token.outer <==> before == [])
      && if Quote(c) then OpensAt(text, token.begin, token, before, after)
         else if IdentifierStart(c) then WordOrPrefix(text, token, before, after)
         else if IsDecimal(c) || (c == '.' && token.begin + 1 < |text| && IsDecimal(text[token.begin + 1])) then
           token.kind == Number && after == before
         else
           && token.kind == Punctuation && token.end == OperatorEnd(text, token.begin)
           && after == if before == [] then []
                       else WithInnermost(before, Innermost(before).(depth := DepthAfter(Innermost(before).depth, c)))
  }

  /** One turn at a position: white space of Python skipped, or one token. */
  ghost predicate Turned(text: string, pos: nat, token: Option<Token>, before: seq<Context>, after: seq<Context>)
    requires pos < |text|
  {
    match token
    case None => !InLiteral(before) && Space(text[pos]) && after == before
    case Some(t) =>
      && t.begin == pos < t.end <= |text| && TokenTrue(text, t)
      && if InLiteral(before) then LiteralStep(text, t, before, after)
         else !Space(text[pos]) && PythonStep(text, t, before, after)
  }

  class Lexer {
    var contexts: seq<Context>

    constructor ()
      ensures contexts == [] && Valid(false)
    {
      contexts := [];
    }

    function Top(): Context
      requires contexts != []
      reads this
    {
      contexts[|contexts| - 1]
    }

    /** Well stacked throughout; a pending escaped line break only once the line is used up. */
    ghost predicate Valid(atEnd: bool)
      reads this
    {
      WellStacked(contexts) && if atEnd then FlagOnTopOnly(contexts) else NoFlag(contexts)
    }

    method Push(context: Context)
      requires WellStacked(contexts) && NoFlag(contexts) && !context.escapedNewline && Quote(context.quote)
      requires context.outer <==> contexts == []
      requires if contexts == [] then context.mode == InString else SitsOn(context, Top())
      requires context.mode != InString ==> context.interpolated
      requires context.mode != InReplacement ==> context.depth == 0
      modifies this
      ensures WellStacked(contexts) && NoFlag(contexts) && contexts == old(contexts) + [context]
    {
      GrownStacked(contexts, context);
      contexts := contexts + [context];
    }

    method Pop()
      requires WellStacked(contexts) && FlagOnTopOnly(contexts) && contexts != []
      modifies this
      ensures WellStacked(contexts) && NoFlag(contexts) && contexts == old(contexts)[..|old(contexts)| - 1]
    {
      FrontStacked(contexts);
      contexts := contexts[..|contexts| - 1];
    }

    /** Replace the innermost context by one that may stand in its place. */
    method SetTop(context: Context)
      requires WellStacked(contexts) && NoFlag(contexts) && contexts != []
      requires context == Top().(mode := context.mode, depth := context.depth, escapedNewline := context.escapedNewline)
      requires context.mode == Top().mode || (Top().mode == InReplacement && context.mode == InFormat)
      requires context.mode != InReplacement ==> context.depth == 0
      modifies this
      ensures WellStacked(contexts) && FlagOnTopOnly(contexts)
      ensures !context.escapedNewline ==> NoFlag(contexts)
      ensures contexts == old(contexts)[..|old(contexts)| - 1] + [context]
    {
      ReplacedStacked(contexts, context);
      contexts := contexts[..|contexts| - 1] + [context];
    }

    /** A finished line: an unterminated ordinary string recovers, everything else is kept. */
    method NewLine()
      requires Valid(true)
      modifies this
      ensures Valid(false)
      ensures Continues(old(contexts), contexts)
    {
      hide WellStacked;
      Recover();
      if contexts != [] {
        ClearedStacked(contexts);
        contexts := contexts[..|contexts| - 1] + [Top().(escapedNewline := false)];
      }
    }

    /** Drop the innermost contexts while they are unterminated ordinary strings: there is at most one. */
    method Recover()
      requires Valid(true)
      modifies this
      ensures Valid(true) && contexts == if Unterminated(old(contexts)) then old(contexts)[..|old(contexts)| - 1]
                                         else old(contexts)
    {
      while Unterminated(contexts)
        invariant Valid(true)
        invariant contexts == old(contexts) || Recovered(old(contexts), contexts)
        decreases |contexts|
      {
        FrontStacked(contexts);
        contexts := contexts[..|contexts| - 1];
      }
    }

    /** Open a string whose prefix starts at `begin` and whose quote is at `pos`. */
    method OpenString(text: string, begin: nat, pos: nat) returns (token: Token)
      requires Valid(false) && !InLiteral(contexts)
      requires begin <= pos < |text| && Quote(text[pos])
      modifies this
      ensures Valid(false) && contexts == old(contexts) + [Opened(text, begin, pos, old(contexts) == [])]
      ensures token.begin == begin && pos < token.end <= |text| && OpensAt(text, pos, token, old(contexts), contexts)
      ensures token.outer == (old(contexts) == [])
    {
      var raw, bytes, interpolated := false, false, false;
      for i := begin to pos
        invariant raw <==> HasLetter(text, begin, i, {'r', 'R'})
        invariant bytes <==> HasLetter(text, begin, i, {'b', 'B'})
        invariant interpolated <==> HasLetter(text, begin, i, {'f', 'F', 't', 'T'})
      {
        raw := raw || text[i] == 'r' || text[i] == 'R';
        bytes := bytes || text[i] == 'b' || text[i] == 'B';
        interpolated := interpolated || text[i] in {'f', 'F', 't', 'T'};
      }
      var triple := pos + 2 < |text| && text[pos + 1] == text[pos] && text[pos + 2] == text[pos];
      token := Token(begin, pos + if triple then 3 else 1, String, contexts == []);
      Push(Context(InString, text[pos], triple, raw, bytes, interpolated, contexts == [], false, 0));
    }

    /** The replacement field a brace opens inside an interpolated literal. */
    method OpenReplacement()
      requires Valid(false) && InLiteral(contexts) && Top().interpolated
      modifies this
      ensures Valid(false) && contexts == old(contexts) + [Field(old(Top()))]
    {
      InnermostFits(contexts);
      Push(Top().(mode := InReplacement, outer := false, depth := 0));
    }

    /** One token of literal text: a brace, a closing quote, an escape or a run. */
    method Literal(text: string, pos: nat) returns (token: Token)
      requires Valid(false) && InLiteral(contexts) && pos < |text|
      modifies this
      ensures token.begin == pos < token.end <= |text| && TokenTrue(text, token)
      ensures LiteralStep(text, token, old(contexts), contexts)
      ensures Valid(token.end == |text|)
    {
      hide WellStacked, EscapeFrom, LiteralStep, NoFlag, FlagOnTopOnly, StopsRun;
      InnermostFits(contexts);
      var context := Top();
      var c := text[pos];
      ghost var before := contexts;
      Unflagged(contexts);
      if context.mode == InFormat && (c == '{' || c == '}') {
        token := FormatBrace(text, pos);
        return;
      }
      if context.mode == InString && c == context.quote
         && (!context.triple || Tripled(text, pos)) {
        token := StringEnd(text, pos);
        return;
      }
      if context.mode == InString && context.interpolated && (c == '{' || c == '}') {
        token := StringBrace(text, pos);
        return;
      }
      if c == '\\' {
        token := LiteralEscape(text, pos);
        Spelled(text, token, before, contexts);
        return;
      }
      var end := RunEnd(text, pos, context);
      token := Token(pos, end, String, context.outer);
      Spelled(text, token, before, contexts);
    }

    /** The quote that ends a string. */
    method StringEnd(text: string, pos: nat) returns (token: Token)
      requires Valid(false) && contexts != [] && pos < |text| && Quote(text[pos])
      requires Top().mode == InString && Closes(Top(), text, pos)
      modifies this
      ensures Valid(false) && Valid(true) && token.begin == pos < token.end <= |text| && TokenTrue(text, token)
      ensures LiteralStep(text, token, old(contexts), contexts)
    {
      hide WellStacked, LiteralStep;
      ghost var before := contexts;
      token := Token(pos, pos + if Top().triple then 3 else 1, String, Top().outer);
      Pop();
      ClosingQuote(text, token, before, contexts);
    }

    /** A brace of a format specification opens a nested field, or ends the format. */
    method FormatBrace(text: string, pos: nat) returns (token: Token)
      requires Valid(false) && contexts != [] && Top().mode == InFormat && pos < |text| && text[pos] in {'{', '}'}
      modifies this
      ensures Valid(false) && Valid(true) && token.begin == pos < token.end <= |text| && TokenTrue(text, token)
      ensures LiteralStep(text, token, old(contexts), contexts)
    {
      hide WellStacked, LiteralStep;
      ghost var before := contexts;
      token := Token(pos, pos + 1, Punctuation, false);
      if text[pos] == '{' {
        InnermostFits(contexts);
        OpenReplacement();
      } else {
        Pop();
      }
      BraceInFormat(text, token, before, contexts);
    }

    /** A brace of an interpolated string opens a field, unless it is doubled or closes nothing. */
    method StringBrace(text: string, pos: nat) returns (token: Token)
      requires Valid(false) && contexts != [] && Top().mode == InString && Top().interpolated
      requires pos < |text| && text[pos] in {'{', '}'}
      modifies this
      ensures Valid(false) && Valid(true) && token.begin == pos < token.end <= |text| && TokenTrue(text, token)
      ensures LiteralStep(text, token, old(contexts), contexts)
    {
      hide WellStacked, LiteralStep;
      ghost var before := contexts;
      InnermostFits(contexts);
      Unflagged(contexts);
      if pos + 1 < |text| && text[pos + 1] == text[pos] {
        token := Token(pos, pos + 2, String, Top().outer);
      } else if text[pos] == '{' {
        token := Token(pos, pos + 1, Punctuation, false);
        OpenReplacement();
      } else {
        token := Token(pos, pos + 1, String, Top().outer);
      }
      BraceInString(text, token, before, contexts);
    }

    /** A backslash: an escaped line break at the end of the line, otherwise an escape sequence. */
    method LiteralEscape(text: string, pos: nat) returns (token: Token)
      requires Valid(false) && InLiteral(contexts) && pos < |text| && text[pos] == '\\'
      modifies this
      ensures token.begin == pos < token.end <= |text| && TokenTrue(text, token)
              && EscapeFrom(old(Top()), text, pos, token.end)
      ensures Valid(token.end == |text|)
      ensures contexts == WithInnermost(old(contexts), old(Top()).(escapedNewline := pos + 1 == |text|))
      ensures token.outer == old(Top()).outer && token.kind == if old(Top()).raw then String else Escape
    {
      var context := Top();
      InnermostFits(contexts);
      assert contexts == contexts[..|contexts| - 1] + [context] && !context.escapedNewline;
      var end := pos + 1;
      if end == |text| {
        SetTop(context.(escapedNewline := true));
      } else if !(context.interpolated && (text[end] == '{' || text[end] == '}')) {
        var escaped := text[end];
        end := end + 1;
        if !context.raw {
          end := EscapeEnd(text, end, escaped, context);
        }
      }
      token := Token(pos, end, if context.raw then String else Escape, context.outer);
    }

    /** Close, reformat or convert: what ends a replacement field at depth zero. */
    method FieldEnd(text: string, pos: nat) returns (token: Option<Token>)
      requires Valid(false) && contexts != [] && Top().mode == InReplacement && Top().depth == 0 && pos < |text|
      modifies this
      ensures Valid(false) && (token.Some? <==> EndsField(text, pos))
      ensures token.Some? ==>
                && token.value.begin == pos < token.value.end <= |text| && TokenTrue(text, token.value)
                && FieldStep(text, token.value, old(contexts), contexts)
      ensures token.None? ==> contexts == old(contexts)
    {
      var c := text[pos];
      if c == '}' {
        Pop();
        return Some(Token(pos, pos + 1, Punctuation, false));
      }
      if c == ':' {
        SetTop(Top().(mode := InFormat));
        return Some(Token(pos, pos + 1, Punctuation, false));
      }
      if c == '!' && pos + 1 < |text| && text[pos + 1] != '=' {
        return Some(Token(pos, pos + if text[pos + 1] in {'s', 'r', 'a'} then 2 else 1, Escape, false));
      }
      return None;
    }

    /** A delimiter or operator; brackets inside a replacement field move its depth. */
    method Operator(text: string, pos: nat) returns (token: Token)
      requires Valid(false) && !InLiteral(contexts) && pos < |text|
      modifies this
      ensures Valid(false) && |contexts| == |old(contexts)|
      ensures contexts != [] ==>
                contexts == WithInnermost(old(contexts), old(Top()).(depth := DepthAfter(old(Top()).depth, text[pos])))
      ensures token.begin == pos < token.end <= |text| && TokenTrue(text, token) && token.outer == (old(contexts) == [])
      ensures token.end == OperatorEnd(text, pos) && token.kind == Punctuation
    {
      if contexts != [] {
        var top := Top();
        if text[pos] in {'(', '[', '{'} {
          SetTop(top.(depth := top.depth + 1));
        } else if text[pos] in {')', ']', '}'} && top.depth > 0 {
          SetTop(top.(depth := top.depth - 1));
        }
      }
      token := Token(pos, OperatorEnd(text, pos), Punctuation, contexts == []);
    }

    /** One token of Python, for a byte that is not white space. */
    method PythonToken(text: string, pos: nat) returns (token: Token)
      requires Valid(false) && !InLiteral(contexts) && pos < |text| && !Space(text[pos])
      modifies this
      ensures Valid(false) && |old(contexts)| - 1 <= |contexts| <= |old(contexts)| + 1
      ensures token.begin == pos < token.end <= |text| && TokenTrue(text, token)
      ensures PythonStep(text, token, old(contexts), contexts)
    {
      hide WellStacked, NumberTo;
      var c := text[pos];
      var outer := contexts == [];
      if c == '#' {
        return Token(pos, |text|, Comment, outer);
      }
      if !outer && Top().depth == 0 {
        var field := FieldEnd(text, pos);
        if field.Some? {
          return field.value;
        }
      }
      token := PlainToken(text, pos);
    }

    /** A token that no replacement field gives a meaning of its own. */
    method PlainToken(text: string, pos: nat) returns (token: Token)
      requires Valid(false) && !InLiteral(contexts) && pos < |text| && !Space(text[pos]) && text[pos] != '#'
      requires contexts != [] && Top().depth == 0 ==> !EndsField(text, pos)
      modifies this
      ensures Valid(false) && |old(contexts)| <= |contexts| <= |old(contexts)| + 1
      ensures token.begin == pos < token.end <= |text| && TokenTrue(text, token)
      ensures PythonStep(text, token, old(contexts), contexts)
    {
      hide WellStacked, NumberTo;
      var c := text[pos];
      var outer := contexts == [];
      if Quote(c) {
        token := OpenString(text, pos, pos);
      } else if IdentifierStart(c) {
        token := WordOrString(text, pos);
      } else if IsDecimal(c) || (c == '.' && pos + 1 < |text| && IsDecimal(text[pos + 1])) {
        var end := NumberEnd(text, pos);
        token := Token(pos, end, Number, outer);
      } else {
        token := Operator(text, pos);
      }
    }

    method WordOrString(text: string, pos: nat) returns (token: Token)
      requires Valid(false) && !InLiteral(contexts) && pos < |text| && IdentifierStart(text[pos])
      modifies this
      ensures Valid(false) && token.begin == pos < token.end <= |text| && TokenTrue(text, token)
      ensures token.outer <==> old(contexts) == []
      ensures WordOrPrefix(text, token, old(contexts), contexts)
    {
      var end := WordEnd(text, pos);
      if end < |text| && Quote(text[end]) && StringPrefix(text[pos..end]) {
        token := OpenString(text, pos, end);
      } else {
        token := Token(pos, end, Word, contexts == []);
      }
    }

    /**
     One turn of the line loop: either exactly one token from here on, or one byte of
     white space skipped, which happens in Python mode only.
     */
    method LexOne(text: string, pos: nat) returns (token: Option<Token>)
      requires Valid(false) && pos < |text|
      modifies this
      ensures Turned(text, pos, token, old(contexts), contexts)
      ensures Valid(token.Some? && token.value.end == |text|)
      ensures |old(contexts)| - 1 <= |contexts| <= |old(contexts)| + 1
    {
      if InLiteral(contexts) {
        var literal := Literal(text, pos);
        return Some(literal);
      }
      if Space(text[pos]) {
        return None;
      }
      var python := PythonToken(text, pos);
      return Some(python);
    }

    /**
     Lex one line: a chain of turns from the contexts it starts in to those it ends
     in. The tokens are in order, and the bytes outside them are exactly the white
     space reached in Python mode.
     */
    method Line(text: string) returns (tokens: seq<Token>, ghost turns: seq<Turn>, ghost stacks: seq<seq<Context>>)
      requires Valid(false)
      modifies this
      ensures Valid(true) && (text == "" ==> contexts == old(contexts))
      ensures Lexes(text, turns, stacks)
      ensures stacks[0] == old(contexts) && stacks[|turns|] == contexts && tokens == Emitted(turns)
      ensures TokensOf(text, tokens, |text|) && Gaps(text, tokens, turns, stacks, |text|)
    {
      hide WellStacked, Turned, Chain, AllStacked, TokensOf, Gaps, Emitted, NoFlag, FlagOnTopOnly;
      tokens, turns, stacks := [], [], [contexts];
      NoTurns(text, contexts);
      Unflagged(contexts);
      var pos := 0;
      while pos < |text|
        invariant pos == Reached(turns) <= |text| && (pos == 0 ==> turns == [])
        invariant if pos < |text| then Valid(false) else Valid(true)
        invariant |stacks| == |turns| + 1 && Chain(text, turns, stacks) && AllStacked(stacks)
        invariant stacks[0] == old(contexts) && stacks[|turns|] == contexts && tokens == Emitted(turns)
        invariant TokensOf(text, tokens, pos) && Gaps(text, tokens, turns, stacks, pos)
      {
        var token := LexOne(text, pos);
        if token.None? || token.value.end < |text| {
          Unflagged(contexts);
        }
        ChainGrows(text, turns, stacks, Turn(pos, token), contexts);
        TurnKeepsTokens(text, tokens, turns, stacks, Turn(pos, token), contexts);
        turns, stacks := turns + [Turn(pos, token)], stacks + [contexts];
        if token.Some? {
          tokens := tokens + [token.value];
          pos := token.value.end;
        } else {
          pos := pos + 1;
        }
      }
    }
  }

  // ---------- The turns of a line ----------

  /** A turn at a position, and the token it emitted. */
  datatype Turn = Turn(pos: nat, token: Option<Token>)
  {
    function Next(): nat { if token.Some? then token.value.end else pos + 1 }
  }

  function Reached(turns: seq<Turn>): nat {
    if turns == [] then 0 else turns[|turns| - 1].Next()
  }

  function Emitted(turns: seq<Turn>): seq<Token> {
    if turns == [] then []
    else
      var last := turns[|turns| - 1].token;
      Emitted(turns[..|turns| - 1]) + if last.Some? then [last.value] else []
  }

  /** Turn i starts where the turns before it end, and leads from stack i to the next one. */
  ghost predicate Linked(text: string, turns: seq<Turn>, stacks: seq<seq<Context>>, i: nat)
    requires i < |turns| && |stacks| == |turns| + 1
  {
    && turns[i].pos == Reached(turns[..i]) && turns[i].pos < |text|
    && Turned(text, turns[i].pos, turns[i].token, stacks[i], stacks[i + 1])
  }

  ghost predicate Chain(text: string, turns: seq<Turn>, stacks: seq<seq<Context>>) {
    |stacks| == |turns| + 1 && forall i :: 0 <= i < |turns| ==> Linked(text, turns, stacks, i)
  }

  ghost predicate AllStacked(stacks: seq<seq<Context>>) {
    forall i :: 0 <= i < |stacks| ==> WellStacked(stacks[i])
  }

  /** A complete chain of turns over a line. */
  ghost predicate Lexes(text: string, turns: seq<Turn>, stacks: seq<seq<Context>>) {
    Chain(text, turns, stacks) && Reached(turns) == |text| && AllStacked(stacks)
  }

  /** The tokens of a line, from the contexts it starts in to those it ends in. */
  ghost predicate LexedTo(text: string, before: seq<Context>, tokens: seq<Token>, after: seq<Context>) {
    exists turns, stacks ::
      Lexes(text, turns, stacks) && stacks[0] == before && stacks[|turns|] == after && tokens == Emitted(turns)
  }

  lemma NoTurns(text: string, contexts: seq<Context>)
    requires WellStacked(contexts)
    ensures Chain(text, [], [contexts]) && AllStacked([contexts]) && Emitted([]) == []
    ensures TokensOf(text, [], 0) && Gaps(text, [], [], [contexts], 0)
  {
  }

  lemma ChainGrows(text: string, turns: seq<Turn>, stacks: seq<seq<Context>>, turn: Turn, after: seq<Context>)
    requires Chain(text, turns, stacks) && turn.pos == Reached(turns) < |text| && AllStacked(stacks)
             && WellStacked(after)
    requires Turned(text, turn.pos, turn.token, stacks[|turns|], after)
    ensures Chain(text, turns + [turn], stacks + [after]) && AllStacked(stacks + [after])
    ensures Emitted(turns + [turn]) == Emitted(turns) + if turn.token.Some? then [turn.token.value] else []
    ensures Reached(turns + [turn]) == turn.Next()
  {
    var more, stack := turns + [turn], stacks + [after];
    assert more[..|turns|] == turns;
    forall i | 0 <= i < |more| ensures Linked(text, more, stack, i) {
      assert more[..i] == turns[..i];
      if i < |turns| {
        assert Linked(text, turns, stacks, i);
      } else {
        assert turns[..i] == turns;
      }
    }
  }

  /** Some turn reached white space at k in Python mode. */
  ghost predicate SkippedAt(text: string, turns: seq<Turn>, stacks: seq<seq<Context>>, k: nat)
    requires |stacks| == |turns| + 1
  {
    exists i :: 0 <= i < |turns| && SkipsAt(text, turns[i], stacks[i], k)
  }

  ghost predicate SkipsAt(text: string, turn: Turn, before: seq<Context>, k: nat) {
    turn.pos == k < |text| && Space(text[k]) && !InLiteral(before)
  }

  // ---------- Coverage of a line ----------

  ghost predicate Covered(tokens: seq<Token>, k: nat) {
    exists i :: 0 <= i < |tokens| && tokens[i].begin <= k < tokens[i].end
  }

  /** Tokens of [0, pos): ordered, non-empty, disjoint, true, and gaps are white space. */
  ghost predicate TokensOf(text: string, tokens: seq<Token>, pos: nat) {
    && pos <= |text|
    && (forall i :: 0 <= i < |tokens| ==> tokens[i].begin < tokens[i].end <= pos && TokenTrue(text, tokens[i]))
    && (forall i, j :: 0 <= i < j < |tokens| ==> tokens[i].end <= tokens[j].begin)
    && (forall k :: 0 <= k < pos && !Covered(tokens, k) ==> Space(text[k]))
  }

  /** Up to pos, the bytes outside all tokens are exactly those skipped in Python mode. */
  ghost predicate Gaps(text: string, tokens: seq<Token>, turns: seq<Turn>, stacks: seq<seq<Context>>, pos: nat)
    requires |stacks| == |turns| + 1
  {
    forall k: nat :: k < pos ==> Gap(text, tokens, turns, stacks, k)
  }

  ghost predicate Gap(text: string, tokens: seq<Token>, turns: seq<Turn>, stacks: seq<seq<Context>>, k: nat)
    requires |stacks| == |turns| + 1
  {
    !Covered(tokens, k) <==> SkippedAt(text, turns, stacks, k)
  }

  lemma SkipKeepsTokens(text: string, tokens: seq<Token>, pos: nat)
    requires TokensOf(text, tokens, pos) && pos < |text| && Space(text[pos])
    ensures TokensOf(text, tokens, pos + 1)
  {
  }

  lemma CoveredAppend(tokens: seq<Token>, t: Token, k: nat)
    ensures Covered(tokens + [t], k) <==> Covered(tokens, k) || t.begin <= k < t.end
  {
    var longer := tokens + [t];
    if Covered(tokens, k) {
      var i :| 0 <= i < |tokens| && tokens[i].begin <= k < tokens[i].end;
      assert longer[i] == tokens[i];
    }
    if t.begin <= k < t.end {
      assert longer[|tokens|] == t;
    }
  }

  lemma AppendKeepsTokens(text: string, tokens: seq<Token>, pos: nat, t: Token)
    requires TokensOf(text, tokens, pos) && t.begin == pos < t.end <= |text| && TokenTrue(text, t)
    ensures TokensOf(text, tokens + [t], t.end)
  {
    var longer := tokens + [t];
    forall k | 0 <= k < t.end ensures Covered(longer, k) || Space(text[k]) {
      CoveredAppend(tokens, t, k);
    }
  }

  lemma SkippedAppend(text: string, turns: seq<Turn>, stacks: seq<seq<Context>>, turn: Turn, after: seq<Context>,
                      k: nat)
    requires |stacks| == |turns| + 1
    ensures SkippedAt(text, turns + [turn], stacks + [after], k)
       <==> SkippedAt(text, turns, stacks, k) || SkipsAt(text, turn, stacks[|turns|], k)
  {
    var more, stack := turns + [turn], stacks + [after];
    if SkippedAt(text, turns, stacks, k) {
      var i :| 0 <= i < |turns| && SkipsAt(text, turns[i], stacks[i], k);
      assert SkipsAt(text, more[i], stack[i], k);
    }
    if SkipsAt(text, turn, stacks[|turns|], k) {
      assert SkipsAt(text, more[|turns|], stack[|turns|], k);
    }
    if SkippedAt(text, more, stack, k) {
      var i :| 0 <= i < |more| && SkipsAt(text, more[i], stack[i], k);
      assert i < |turns| ==> SkipsAt(text, turns[i], stacks[i], k);
    }
  }

  /** No turn has started at or beyond the position reached. */
  lemma {:induction false} NotBeyond(text: string, turns: seq<Turn>, stacks: seq<seq<Context>>, k: nat)
    requires Chain(text, turns, stacks) && k >= Reached(turns)
    ensures !SkippedAt(text, turns, stacks, k)
  {
    if turns != [] {
      var n := |turns| - 1;
      assert Linked(text, turns, stacks, n);
      assert turns[..n] + [turns[n]] == turns && stacks[..n + 1] + [stacks[n + 1]] == stacks;
      SkippedAppend(text, turns[..n], stacks[..n + 1], turns[n], stacks[n + 1], k);
      ChainFront(text, turns, stacks);
      NotBeyond(text, turns[..n], stacks[..n + 1], k);
    }
  }

  lemma ChainFront(text: string, turns: seq<Turn>, stacks: seq<seq<Context>>)
    requires Chain(text, turns, stacks) && turns != []
    ensures Chain(text, turns[..|turns| - 1], stacks[..|turns|])
  {
    var front := turns[..|turns| - 1];
    forall i | 0 <= i < |front| ensures Linked(text, front, stacks[..|turns|], i) {
      assert Linked(text, turns, stacks, i) && front[..i] == turns[..i];
    }
  }

  lemma TurnKeepsTokens(text: string, tokens: seq<Token>, turns: seq<Turn>, stacks: seq<seq<Context>>, turn: Turn,
                        after: seq<Context>)
    requires Chain(text, turns, stacks) && turn.pos == Reached(turns) < |text|
    requires Turned(text, turn.pos, turn.token, stacks[|turns|], after)
    requires TokensOf(text, tokens, turn.pos) && Gaps(text, tokens, turns, stacks, turn.pos)
    ensures var longer := tokens + if turn.token.Some? then [turn.token.value] else [];
            TokensOf(text, longer, turn.Next()) && Gaps(text, longer, turns + [turn], stacks + [after], turn.Next())
  {
    var longer := tokens + if turn.token.Some? then [turn.token.value] else [];
    if turn.token.Some? {
      AppendKeepsTokens(text, tokens, turn.pos, turn.token.value);
    } else {
      assert longer == tokens;
      SkipKeepsTokens(text, tokens, turn.pos);
    }
    forall k: nat | k < turn.Next() ensures Gap(text, longer, turns + [turn], stacks + [after], k) {
      TurnKeepsGap(text, tokens, turns, stacks, turn, after, k);
    }
  }

  lemma TurnKeepsGap(text: string, tokens: seq<Token>, turns: seq<Turn>, stacks: seq<seq<Context>>, turn: Turn,
                     after: seq<Context>, k: nat)
    requires Chain(text, turns, stacks) && turn.pos == Reached(turns) < |text| && k < turn.Next()
    requires Turned(text, turn.pos, turn.token, stacks[|turns|], after)
    requires TokensOf(text, tokens, turn.pos) && Gaps(text, tokens, turns, stacks, turn.pos)
    ensures Gap(text, tokens + if turn.token.Some? then [turn.token.value] else [], turns + [turn], stacks + [after], k)
  {
    SkippedAppend(text, turns, stacks, turn, after, k);
    if turn.token.Some? {
      CoveredAppend(tokens, turn.token.value, k);
    } else {
      assert tokens + [] == tokens;
    }
    if k < turn.pos {
      assert Gap(text, tokens, turns, stacks, k);
    } else {
      NotBeyond(text, turns, stacks, k);
    }
  }
}
