/**
 The turns of the Python lexer determine each other: from the same contexts, a line
 has one token sequence and one final context stack.
 */
module PythonDeterminism {
  import opened Wrappers
  import opened PythonLexer
  import opened PythonIndent

  // ---------- Maximal runs end in one place ----------

  lemma DigitsUnique(text: string, from: nat, a: nat, b: nat)
    requires DigitsTo(text, from, a) && DigitsTo(text, from, b)
    ensures a == b
  {
  }

  lemma HexUnique(text: string, from: nat, limit: nat, a: nat, b: nat)
    requires HexTo(text, from, a, limit) && HexTo(text, from, b, limit)
    ensures a == b
  {
  }

  lemma OctalUnique(text: string, from: nat, limit: nat, a: nat, b: nat)
    requires OctalTo(text, from, a, limit) && OctalTo(text, from, b, limit)
    ensures a == b
  {
  }

  lemma NameNotLonger(text: string, from: nat, quote: char, a: nat, b: nat)
    requires from < |text| && text[from] == '{' && Quote(quote)
    requires NameTo(text, from, a, quote) && NameTo(text, from, b, quote)
    ensures b <= a
  {
  }

  lemma NumberUnique(text: string, begin: nat, a: nat, b: nat)
    requires NumberTo(text, begin, a) && NumberTo(text, begin, b)
    ensures a == b
  {
    if NamesBase(text, begin) {
      assert a == b;
    } else {
      var whole: nat, fraction: nat, exponent: nat :|
        DigitsTo(text, begin, whole) && FractionTo(text, whole, fraction) && ExponentTo(text, fraction, exponent)
        && SuffixTo(text, exponent, a);
      var whole': nat, fraction': nat, exponent': nat :|
        DigitsTo(text, begin, whole') && FractionTo(text, whole', fraction') && ExponentTo(text, fraction', exponent')
        && SuffixTo(text, exponent', b);
      DigitsUnique(text, begin, whole, whole');
      FractionUnique(text, whole, fraction, fraction');
      ExponentUnique(text, fraction, exponent, exponent');
    }
  }

  lemma FractionUnique(text: string, from: nat, a: nat, b: nat)
    requires FractionTo(text, from, a) && FractionTo(text, from, b)
    ensures a == b
  {
    if DigitsTo(text, from + 1, a) && DigitsTo(text, from + 1, b) {
      DigitsUnique(text, from + 1, a, b);
    }
  }

  lemma ExponentUnique(text: string, from: nat, a: nat, b: nat)
    requires ExponentTo(text, from, a) && ExponentTo(text, from, b)
    ensures a == b
  {
    var first := ExponentDigits(text, from) + 1;
    if DigitsTo(text, first, a) && DigitsTo(text, first, b) {
      DigitsUnique(text, first, a, b);
    }
  }

  lemma EscapeUnique(context: Context, text: string, pos: nat, a: nat, b: nat)
    requires Quote(context.quote) && EscapeFrom(context, text, pos, a) && EscapeFrom(context, text, pos, b)
    ensures a == b
  {
    if pos + 1 < |text| && !(context.interpolated && text[pos + 1] in {'{', '}'}) && !context.raw {
      var escaped := text[pos + 1];
      var limit := HexCount(escaped, context);
      var mid: nat :| HexTo(text, pos + 2, mid, limit) && AfterHex(text, mid, escaped, context, a);
      var mid': nat :| HexTo(text, pos + 2, mid', limit) && AfterHex(text, mid', escaped, context, b);
      HexUnique(text, pos + 2, limit, mid, mid');
      if IsOctal(escaped) {
        OctalUnique(text, mid, 2, a, b);
      } else if !context.bytes && escaped == 'N' && mid < |text| && text[mid] == '{' {
        NameNotLonger(text, mid, context.quote, a, b);
        NameNotLonger(text, mid, context.quote, b, a);
      }
    }
  }

  lemma RunUnique(context: Context, text: string, pos: nat, a: nat, b: nat)
    requires RunTo(context, text, pos, a) && RunTo(context, text, pos, b)
    ensures a == b
  {
  }

  lemma LiteralUnique(context: Context, text: string, pos: nat, a: nat, b: nat)
    requires pos < |text| && Quote(context.quote) && LiteralTo(context, text, pos, a)
             && LiteralTo(context, text, pos, b)
    ensures a == b
  {
    if EscapeFrom(context, text, pos, a) && EscapeFrom(context, text, pos, b) {
      EscapeUnique(context, text, pos, a, b);
    }
    if RunTo(context, text, pos, a) && RunTo(context, text, pos, b) {
      RunUnique(context, text, pos, a, b);
    }
  }

  // ---------- Words and strings ----------

  lemma PrefixIsLetters(prefix: string)
    requires StringPrefix(prefix)
    ensures forall k :: 0 <= k < |prefix| ==> IdentifierPart(prefix[k])
  {
    if |prefix| == 2 {
      assert [Lower(prefix[0]), Lower(prefix[1])][0] == Lower(prefix[0]);
      assert [Lower(prefix[0]), Lower(prefix[1])][1] == Lower(prefix[1]);
    } else if |prefix| == 1 {
      assert [Lower(prefix[0])][0] == Lower(prefix[0]);
    }
  }

  /** The quote after a prefix is the first byte that is no part of an identifier. */
  lemma PrefixRun(text: string, begin: nat, quote: nat)
    requires begin <= quote < |text| && StringPrefix(text[begin..quote]) && Quote(text[quote])
    ensures forall k :: begin <= k < quote ==> IdentifierPart(text[k])
    ensures !IdentifierPart(text[quote])
  {
    PrefixIsLetters(text[begin..quote]);
    forall k | begin <= k < quote ensures IdentifierPart(text[k]) {
      assert text[begin..quote][k - begin] == text[k];
    }
  }

  lemma WordUnique(text: string, t: Token, u: Token, before: seq<Context>, a: seq<Context>, b: seq<Context>)
    requires t.begin == u.begin && t.begin < t.end <= |text| && u.begin < u.end <= |text|
    requires TokenTrue(text, t) && TokenTrue(text, u)
    requires WordOrPrefix(text, t, before, a) && WordOrPrefix(text, u, before, b)
    ensures t.end == u.end && t.kind == u.kind && a == b
  {
    hide StringPrefix, IdentifierPart, NumberTo;
    var p, q := RunLength(text, t, before, a), RunLength(text, u, before, b);
    assert p == q;
  }

  /** Where the identifier run of a word or of a string prefix ends. */
  ghost function RunLength(text: string, t: Token, before: seq<Context>, after: seq<Context>): (end: nat)
    requires t.begin < t.end <= |text| && TokenTrue(text, t) && WordOrPrefix(text, t, before, after)
    ensures t.begin < end <= |text| && (forall k :: t.begin <= k < end ==> IdentifierPart(text[k]))
    ensures end < |text| ==> !IdentifierPart(text[end])
    ensures t.kind == Word ==> end == t.end
    ensures t.kind != Word ==> end < |text| && StringPrefix(text[t.begin..end]) && OpensAt(text, end, t, before, after)
  {
    if t.kind == Word then t.end
    else
      var quote :| t.begin < quote < t.end && StringPrefix(text[t.begin..quote])
          && OpensAt(text, quote, t, before, after);
      PrefixRun(text, t.begin, quote);
      quote
  }

  // ---------- Turns ----------

  lemma PythonUnique(text: string, t: Token, u: Token, before: seq<Context>, a: seq<Context>, b: seq<Context>)
    requires t.begin == u.begin && t.begin < t.end <= |text| && u.begin < u.end <= |text| && !InLiteral(before)
    requires TokenTrue(text, t) && TokenTrue(text, u)
    requires PythonStep(text, t, before, a) && PythonStep(text, u, before, b)
    ensures t == u && a == b
  {
    var c := text[t.begin];
    if IdentifierStart(c) {
      WordUnique(text, t, u, before, a, b);
    } else if t.kind == Number && u.kind == Number {
      NumberUnique(text, t.begin, t.end, u.end);
    }
  }

  /** One turn has one outcome. */
  lemma TurnUnique(text: string, pos: nat, t: Option<Token>, u: Option<Token>, before: seq<Context>, a: seq<Context>,
                   b: seq<Context>)
    requires pos < |text| && WellStacked(before)
    requires Turned(text, pos, t, before, a) && Turned(text, pos, u, before, b)
    ensures t == u && a == b
  {
    if InLiteral(before) {
      InnermostFits(before);
      LiteralUnique(Innermost(before), text, pos, t.value.end, u.value.end);
    } else if t.Some? && u.Some? {
      PythonUnique(text, t.value, u.value, before, a, b);
    }
  }

  lemma {:induction false} SamePrefix(text: string, turns: seq<Turn>, stacks: seq<seq<Context>>,
                                      turns': seq<Turn>, stacks': seq<seq<Context>>, n: nat)
    requires Lexes(text, turns, stacks) && Lexes(text, turns', stacks') && stacks[0] == stacks'[0]
    requires n <= |turns| && n <= |turns'|
    ensures turns[..n] == turns'[..n] && stacks[n] == stacks'[n]
  {
    if n > 0 {
      SamePrefix(text, turns, stacks, turns', stacks', n - 1);
      assert Linked(text, turns, stacks, n - 1) && Linked(text, turns', stacks', n - 1);
      TurnUnique(text, turns[n - 1].pos, turns[n - 1].token, turns'[n - 1].token, stacks[n - 1], stacks[n], stacks'[n]);
      assert turns[..n] == turns[..n - 1] + [turns[n - 1]] && turns'[..n] == turns'[..n - 1] + [turns'[n - 1]];
    }
  }

  lemma StartsInside(text: string, turns: seq<Turn>, stacks: seq<seq<Context>>, n: nat)
    requires Chain(text, turns, stacks) && n < |turns|
    ensures Reached(turns[..n]) < |text|
  {
    assert Linked(text, turns, stacks, n);
  }

  lemma NotLonger(text: string, turns: seq<Turn>, stacks: seq<seq<Context>>, turns': seq<Turn>,
                  stacks': seq<seq<Context>>)
    requires Lexes(text, turns, stacks) && Lexes(text, turns', stacks') && stacks[0] == stacks'[0]
    ensures |turns| >= |turns'|
  {
    var n := |turns|;
    assert turns[..n] == turns;
    if n < |turns'| {
      SamePrefix(text, turns, stacks, turns', stacks', n);
      StartsInside(text, turns', stacks', n);
    }
  }

  /** From the same contexts a line has one sequence of tokens and ends in one context stack. */
  lemma LineUnique(text: string, turns: seq<Turn>, stacks: seq<seq<Context>>, turns': seq<Turn>,
                   stacks': seq<seq<Context>>)
    requires Lexes(text, turns, stacks) && Lexes(text, turns', stacks') && stacks[0] == stacks'[0]
    ensures turns == turns' && Emitted(turns) == Emitted(turns') && stacks[|turns|] == stacks'[|turns'|]
  {
    NotLonger(text, turns, stacks, turns', stacks');
    NotLonger(text, turns', stacks', turns, stacks);
    SamePrefix(text, turns, stacks, turns', stacks', |turns|);
    assert turns[..|turns|] == turns && turns'[..|turns|] == turns';
  }

  lemma LexedUnique(text: string, before: seq<Context>, tokens: seq<Token>, after: seq<Context>,
                    tokens': seq<Token>, after': seq<Context>)
    requires LexedTo(text, before, tokens, after) && LexedTo(text, before, tokens', after')
    ensures tokens == tokens' && after == after'
  {
    var turns, stacks :|
      Lexes(text, turns, stacks) && stacks[0] == before && stacks[|turns|] == after && tokens == Emitted(turns);
    var turns', stacks' :|
      Lexes(text, turns', stacks') && stacks'[0] == before && stacks'[|turns'|] == after' && tokens' == Emitted(turns');
    LineUnique(text, turns, stacks, turns', stacks');
  }

  lemma LineCarriedUnique(lines: seq<string>, carried: seq<seq<Context>>, analyzed: seq<seq<Token>>,
                          carried': seq<seq<Context>>, analyzed': seq<seq<Token>>, n: nat)
    requires n < |lines| == |analyzed| == |analyzed'| && |carried| == |carried'| == |lines| + 1
             && carried[n] == carried'[n]
    requires LineCarried(lines, carried, analyzed, n) && LineCarried(lines, carried', analyzed', n)
    ensures analyzed[n] == analyzed'[n] && carried[n + 1] == carried'[n + 1]
  {
    hide LexedTo;
    var ended :| LexedTo(lines[n], carried[n], analyzed[n], ended) && Continues(ended, carried[n + 1]);
    var ended' :| LexedTo(lines[n], carried'[n], analyzed'[n], ended') && Continues(ended', carried'[n + 1]);
    LexedUnique(lines[n], carried[n], analyzed[n], ended, analyzed'[n], ended');
  }

  /** A document has one analysis: every line is lexed in the contexts that the lines before it leave. */
  lemma {:induction false} DocumentUnique(lines: seq<string>, carried: seq<seq<Context>>, analyzed: seq<seq<Token>>,
                                          carried': seq<seq<Context>>, analyzed': seq<seq<Token>>, n: nat)
    requires Analyzed(lines, carried, analyzed) && Analyzed(lines, carried', analyzed') && n <= |lines|
    ensures carried[n] == carried'[n] && analyzed[..n] == analyzed'[..n]
  {
    hide LineCarried;
    if n > 0 {
      DocumentUnique(lines, carried, analyzed, carried', analyzed', n - 1);
      LineCarriedUnique(lines, carried, analyzed, carried', analyzed', n - 1);
      assert analyzed[..n] == analyzed[..n - 1] + [analyzed[n - 1]];
      assert analyzed'[..n] == analyzed'[..n - 1] + [analyzed'[n - 1]];
    }
  }
}
