/**
 How the turns of a line nest: between matching brackets no colon, exclamation mark or brace ends a
 replacement field or starts its format, and a string ends with the quotes it started with.
 */
module PythonNesting {
  import opened Wrappers
  import opened PythonLexer

  // ---------- Counting brackets ----------

  function BracketValue(c: char): int {
    if c == '(' || c == '[' || c == '{' then 1 else if c == ')' || c == ']' || c == '}' then -1 else 0
  }

  /**
   What one turn adds to the bracket count of the field at a height of the stack: only tokens
   of that very field count, not those of strings and fields inside it.
   */
  ghost function Weight(text: string, turn: Turn, before: seq<Context>, height: nat): int {
    if |before| != height || InLiteral(before) || turn.token.None? || turn.pos >= |text| then 0
    else BracketValue(text[turn.pos])
  }

  /** Opening brackets minus closing ones, over the turns from i to j. */
  ghost function Net(text: string, turns: seq<Turn>, stacks: seq<seq<Context>>, height: nat, i: nat, j: nat): int
    requires j <= |turns| && |stacks| == |turns| + 1
    decreases j
  {
    if j <= i then 0 else Net(text, turns, stacks, height, i, j - 1) + Weight(text, turns[j - 1], stacks[j - 1], height)
  }

  /** The turns from an opening bracket of a field to the closing one that matches it. */
  ghost predicate Bracketed(text: string, turns: seq<Turn>, stacks: seq<seq<Context>>, i: nat, j: nat)
    requires |stacks| == |turns| + 1
  {
    && i < j <= |turns| && stacks[i] != [] && Weight(text, turns[i], stacks[i], |stacks[i]|) == 1
    && Net(text, turns, stacks, |stacks[i]|, i, j) == 0
    && forall m :: i < m < j ==> Net(text, turns, stacks, |stacks[i]|, i, m) > 0
  }

  // ---------- One turn ----------

  /** A field at a height of the stack, with so many brackets open. */
  ghost predicate FieldAt(contexts: seq<Context>, height: nat, below: seq<Context>, field: Context, depth: int) {
    && 0 < height <= |contexts| && contexts[..height - 1] == below && field.mode == InReplacement
    && depth >= 0 && contexts[height - 1] == field.(depth := depth)
  }

  /** The turn emits a token that starts with one of these characters. */
  predicate StartsWith(text: string, turn: Turn, characters: set<char>) {
    turn.token.Some? && turn.pos < |text| && text[turn.pos] in characters
  }

  /** A token of the field that would end it, or start its format, were no bracket open. */
  predicate Ends(text: string, turn: Turn, before: seq<Context>, height: nat) {
    |before| == height && StartsWith(text, turn, {'}', ':'})
  }

  lemma FieldOnTop(contexts: seq<Context>)
    requires contexts != [] && Innermost(contexts).mode == InReplacement
    ensures var n := |contexts| - 1;
            FieldAt(contexts, n + 1, contexts[..n], Innermost(contexts), Innermost(contexts).depth)
  {
  }

  /** With no context above it, the stack is what was below and the field. */
  lemma FieldAlone(contexts: seq<Context>, height: nat, below: seq<Context>, field: Context, depth: nat)
    requires FieldAt(contexts, height, below, field, depth) && |contexts| == height
    ensures contexts == below + [field.(depth := depth)]
  {
  }

  /** Unless it ends the field, a turn keeps it and counts its bracket. */
  lemma TurnCounts(text: string, turn: Turn, before: seq<Context>, after: seq<Context>, height: nat,
                   below: seq<Context>, field: Context, depth: int)
    requires turn.pos < |text| && Turned(text, turn.pos, turn.token, before, after)
    requires FieldAt(before, height, below, field, depth)
    requires depth > 0 || !Ends(text, turn, before, height)
    requires depth + Weight(text, turn, before, height) >= 0
    ensures FieldAt(after, height, below, field, depth + Weight(text, turn, before, height))
  {
    hide LiteralStep, PythonStep, TokenTrue;
    if turn.token.None? {
      assert after == before;
    } else if InLiteral(before) {
      LiteralAbove(text, turn.token.value, before, after, height);
      Above(before, after, height, below, field, depth);
    } else if |before| > height {
      PythonAbove(text, turn.token.value, before, after, height);
      Above(before, after, height, below, field, depth);
    } else {
      CountsInside(text, turn, before, after, below, field, depth);
    }
  }

  lemma CountsInside(text: string, turn: Turn, before: seq<Context>, after: seq<Context>, below: seq<Context>,
                     field: Context, depth: int)
    requires turn.pos < |text| && turn.token.Some? && Turned(text, turn.pos, turn.token, before, after)
    requires FieldAt(before, |before|, below, field, depth) && (depth > 0 || !Ends(text, turn, before, |before|))
    requires depth + Weight(text, turn, before, |before|) >= 0
    ensures FieldAt(after, |before|, below, field, depth + Weight(text, turn, before, |before|))
  {
    hide LiteralStep, PythonStep, TokenTrue;
    PythonInside(text, turn.token.value, before, after);
  }

  lemma Above(before: seq<Context>, after: seq<Context>, height: nat, below: seq<Context>, field: Context, depth: int)
    requires FieldAt(before, height, below, field, depth) && |after| >= height && after[..height] == before[..height]
    ensures FieldAt(after, height, below, field, depth)
  {
    assert after[..height - 1] == after[..height][..height - 1] && after[height - 1] == after[..height][height - 1];
    assert before[..height - 1] == before[..height][..height - 1];
    assert before[height - 1] == before[..height][height - 1];
  }

  /** Literal text changes the stack above the field only. */
  lemma LiteralAbove(text: string, token: Token, before: seq<Context>, after: seq<Context>, height: nat)
    requires token.begin < |text| && InLiteral(before) && LiteralStep(text, token, before, after)
    requires 0 < height < |before|
    ensures |after| >= height && after[..height] == before[..height]
  {
  }

  /** So do the tokens of fields inside the field. */
  lemma PythonAbove(text: string, token: Token, before: seq<Context>, after: seq<Context>, height: nat)
    requires token.begin < token.end <= |text| && !InLiteral(before) && PythonStep(text, token, before, after)
    requires 0 < height < |before|
    ensures |after| >= height && after[..height] == before[..height]
  {
  }

  /** A token of the field itself. */
  lemma PythonInside(text: string, token: Token, before: seq<Context>, after: seq<Context>)
    requires token.begin < token.end <= |text| && !InLiteral(before) && PythonStep(text, token, before, after)
    requires before != [] && (Innermost(before).depth > 0 || text[token.begin] !in {'}', ':'})
    ensures var c := text[token.begin];
            var top := Innermost(before);
            && |after| >= |before| && after[..|before| - 1] == before[..|before| - 1]
            && (top.depth + BracketValue(c) >= 0 ==>
                  after[|before| - 1] == top.(depth := top.depth + BracketValue(c)))
            && (BracketValue(c) != 0 || c == ':' || c == '!' ==> |after| == |before|)
            && ((c == ':' || c == '!') && top.depth > 0 ==> token.kind == Punctuation)
  {
    hide OpensAt, WordOrPrefix, OperatorEnd;
    var c := text[token.begin];
    if c == '#' || (Innermost(before).depth == 0 && EndsField(text, token.begin)) {
      assert after == before;
    } else if Quote(c) {
      OpensAbove(text, token.begin, token, before, after);
    } else if IdentifierStart(c) {
      WordAbove(text, token, before, after);
    }
  }

  lemma OpensAbove(text: string, quote: nat, token: Token, before: seq<Context>, after: seq<Context>)
    requires token.begin <= quote < |text| && before != [] && OpensAt(text, quote, token, before, after)
    ensures |after| > |before| && after[..|before| - 1] == before[..|before| - 1]
    ensures after[|before| - 1] == before[|before| - 1]
  {
  }

  lemma WordAbove(text: string, token: Token, before: seq<Context>, after: seq<Context>)
    requires token.begin < token.end <= |text| && before != [] && WordOrPrefix(text, token, before, after)
    ensures |after| >= |before| && after[..|before| - 1] == before[..|before| - 1]
    ensures after[|before| - 1] == before[|before| - 1]
  {
  }

  // ---------- Stretches of turns ----------

  /** Over turns that do not end the field, its depth is the number of brackets left open. */
  lemma {:induction false} FieldCounted(text: string, turns: seq<Turn>, stacks: seq<seq<Context>>, height: nat,
                                        field: Context, depth: nat, i: nat, m: nat)
    requires Chain(text, turns, stacks) && i <= m <= |turns|
    requires 0 < height <= |stacks[i]| && FieldAt(stacks[i], height, stacks[i][..height - 1], field, depth)
    requires forall x :: i < x <= m ==> depth + Net(text, turns, stacks, height, i, x) >= 0
    requires forall x :: i <= x < m ==>
               depth + Net(text, turns, stacks, height, i, x) > 0 || !Ends(text, turns[x], stacks[x], height)
    ensures FieldAt(stacks[m], height, stacks[i][..height - 1], field,
                    depth + Net(text, turns, stacks, height, i, m))
    decreases m
  {
    hide FieldAt, Ends, Weight, Turned;
    if m > i {
      assert depth + Net(text, turns, stacks, height, i, m) >= 0;
      FieldCounted(text, turns, stacks, height, field, depth, i, m - 1);
      assert Linked(text, turns, stacks, m - 1);
      TurnCounts(text, turns[m - 1], stacks[m - 1], stacks[m], height, stacks[i][..height - 1], field,
                 depth + Net(text, turns, stacks, height, i, m - 1));
    }
  }

  lemma NothingCounted(text: string, turns: seq<Turn>, stacks: seq<seq<Context>>, height: nat, i: nat)
    requires i <= |turns| && |stacks| == |turns| + 1
    ensures Net(text, turns, stacks, height, i, i) == 0
  {
  }

  /** The stack at a turn of the stretch, counted from its first bracket. */
  lemma BracketsCounted(text: string, turns: seq<Turn>, stacks: seq<seq<Context>>, i: nat, j: nat, m: nat)
    requires Chain(text, turns, stacks) && Bracketed(text, turns, stacks, i, j) && i <= m <= j
    ensures var height, top := |stacks[i]|, Innermost(stacks[i]);
            FieldAt(stacks[m], height, stacks[i][..height - 1], top,
                    top.depth + Net(text, turns, stacks, height, i, m))
  {
    hide Linked, FieldAt, Net;
    var height, top := |stacks[i]|, Innermost(stacks[i]);
    FieldOnTop(stacks[i]);
    NothingCounted(text, turns, stacks, height, i);
    FieldCounted(text, turns, stacks, height, top, top.depth, i, m);
  }

  /** From an opening bracket to the one that matches it, the contexts come back to what they were. */
  lemma BracketsMatch(text: string, turns: seq<Turn>, stacks: seq<seq<Context>>, i: nat, j: nat)
    requires Chain(text, turns, stacks) && Bracketed(text, turns, stacks, i, j)
    ensures stacks[j] == stacks[i]
  {
    var height := |stacks[i]|;
    assert Net(text, turns, stacks, height, i, i + 1) == 1;
    BracketsCounted(text, turns, stacks, i, j, j - 1);
    BracketsCounted(text, turns, stacks, i, j, j);
    assert Weight(text, turns[j - 1], stacks[j - 1], height) == -1;
    assert Linked(text, turns, stacks, j - 1);
    PythonInside(text, turns[j - 1].token.value, stacks[j - 1], stacks[j]);
    FieldAlone(stacks[j], height, stacks[i][..height - 1], Innermost(stacks[i]), Innermost(stacks[i]).depth);
  }

  /**
   Between matching brackets no token of the field ends it or starts its format: a colon or an
   exclamation mark is an operator there.
   */
  lemma BracketsHoldField(text: string, turns: seq<Turn>, stacks: seq<seq<Context>>, i: nat, j: nat, k: nat)
    requires Chain(text, turns, stacks) && Bracketed(text, turns, stacks, i, j) && i < k < j
    ensures |stacks[k]| >= |stacks[i]| && |stacks[k + 1]| >= |stacks[i]|
    ensures stacks[k + 1][|stacks[i]| - 1].mode == InReplacement
    ensures |stacks[k]| == |stacks[i]| && StartsWith(text, turns[k], {':', '!'}) ==>
              turns[k].token.value.kind == Punctuation && stacks[k + 1] == stacks[k]
  {
    var height := |stacks[i]|;
    BracketsCounted(text, turns, stacks, i, j, k);
    BracketsCounted(text, turns, stacks, i, j, k + 1);
    assert Linked(text, turns, stacks, k);
    if |stacks[k]| == height && StartsWith(text, turns[k], {':', '!'}) {
      PythonInside(text, turns[k].token.value, stacks[k], stacks[k + 1]);
    }
  }

  /**
   Outside all brackets, the first colon of a field starts its format and the first closing
   brace ends it.
   */
  lemma FieldEndsOutside(text: string, turns: seq<Turn>, stacks: seq<seq<Context>>, i: nat, m: nat)
    requires Chain(text, turns, stacks) && i <= m < |turns| && stacks[i] != []
    requires Innermost(stacks[i]).mode == InReplacement && Innermost(stacks[i]).depth == 0
    requires forall x :: i < x <= m ==> Net(text, turns, stacks, |stacks[i]|, i, x) >= 0
    requires forall x :: i <= x < m ==>
               Net(text, turns, stacks, |stacks[i]|, i, x) > 0 || !Ends(text, turns[x], stacks[x], |stacks[i]|)
    requires Net(text, turns, stacks, |stacks[i]|, i, m) == 0 && Ends(text, turns[m], stacks[m], |stacks[i]|)
    ensures stacks[m] == stacks[i]
    ensures StartsWith(text, turns[m], {':'}) ==>
              stacks[m + 1] == WithInnermost(stacks[i], Innermost(stacks[i]).(mode := InFormat))
    ensures StartsWith(text, turns[m], {'}'}) ==> stacks[m + 1] == stacks[i][..|stacks[i]| - 1]
  {
    hide Linked, Turned, Net, FieldAt;
    var height := |stacks[i]|;
    FieldOnTop(stacks[i]);
    NothingCounted(text, turns, stacks, height, i);
    FieldCounted(text, turns, stacks, height, Innermost(stacks[i]), 0, i, m);
    FieldAlone(stacks[m], height, stacks[i][..height - 1], Innermost(stacks[i]), 0);
    EndsOutside(text, turns, stacks, m);
  }

  lemma EndsOutside(text: string, turns: seq<Turn>, stacks: seq<seq<Context>>, m: nat)
    requires Chain(text, turns, stacks) && m < |turns| && stacks[m] != []
    requires Innermost(stacks[m]).mode == InReplacement && Innermost(stacks[m]).depth == 0
    ensures StartsWith(text, turns[m], {':'}) ==>
              stacks[m + 1] == WithInnermost(stacks[m], Innermost(stacks[m]).(mode := InFormat))
    ensures StartsWith(text, turns[m], {'}'}) ==> stacks[m + 1] == stacks[m][..|stacks[m]| - 1]
  {
    hide TokenTrue, OpensAt, WordOrPrefix, LiteralStep;
    assert Linked(text, turns, stacks, m);
  }

  // ---------- Strings ----------

  /** A string with these quotes at a height of the stack. */
  ghost predicate StringAt(contexts: seq<Context>, height: nat, quote: char, triple: bool) {
    && 0 < height <= |contexts| && contexts[height - 1].mode == InString
    && contexts[height - 1].quote == quote && contexts[height - 1].triple == triple
  }

  lemma StringAbove(before: seq<Context>, after: seq<Context>, height: nat, quote: char, triple: bool)
    requires StringAt(before, height, quote, triple) && |after| >= height && after[..height] == before[..height]
    ensures StringAt(after, height, quote, triple)
  {
    assert after[height - 1] == after[..height][height - 1] && before[height - 1] == before[..height][height - 1];
  }

  /** A turn keeps a string or ends it, and it ends it with its quotes. */
  lemma TurnKeepsString(text: string, turn: Turn, before: seq<Context>, after: seq<Context>, height: nat, quote: char,
                        triple: bool)
    requires turn.pos < |text| && Turned(text, turn.pos, turn.token, before, after)
    requires StringAt(before, height, quote, triple)
    ensures |after| >= height ==> StringAt(after, height, quote, triple)
    ensures |after| < height || (|before| == height && StartsWithQuotes(text, turn.pos, quote, triple)) ==>
              && |before| == height && |after| == height - 1 && turn.token.Some?
              && StartsWithQuotes(text, turn.pos, quote, triple)
              && turn.token.value.end == turn.pos + Quotes(triple)
  {
    hide PythonStep, TokenTrue;
    if turn.token.Some? && |before| > height {
      if InLiteral(before) {
        LiteralAbove(text, turn.token.value, before, after, height);
      } else {
        PythonAbove(text, turn.token.value, before, after, height);
      }
      StringAbove(before, after, height, quote, triple);
    }
  }

  function Quotes(triple: bool): nat { if triple then 3 else 1 }

  /** One quote, or three in a row, stand here. */
  predicate StartsWithQuotes(text: string, pos: nat, quote: char, triple: bool) {
    pos + Quotes(triple) <= |text| && forall k :: pos <= k < pos + Quotes(triple) ==> text[k] == quote
  }

  /** A turn that opens a string ends with its quotes. */
  lemma OpensString(text: string, turn: Turn, before: seq<Context>, after: seq<Context>)
    requires turn.pos < |text| && Turned(text, turn.pos, turn.token, before, after)
    requires |after| == |before| + 1 && Innermost(after).mode == InString
    ensures var top := Innermost(after);
            && turn.token.Some? && StringAt(after, |after|, top.quote, top.triple)
            && turn.token.value.end >= turn.pos + Quotes(top.triple)
            && StartsWithQuotes(text, turn.token.value.end - Quotes(top.triple), top.quote, top.triple)
            && Quote(top.quote)
            && (StartsWithQuotes(text, turn.token.value.end - Quotes(top.triple), top.quote, true) ==> top.triple)
  {
    hide TokenTrue;
    if turn.token.Some? && !InLiteral(before) {
      var token := turn.token.value;
      var quote :| token.begin <= quote < |text| && OpensAt(text, quote, token, before, after);
    }
  }

  lemma {:induction false} StringHeld(text: string, turns: seq<Turn>, stacks: seq<seq<Context>>, height: nat,
                                      quote: char, triple: bool, i: nat, m: nat)
    requires Chain(text, turns, stacks) && i <= m <= |turns| && StringAt(stacks[i], height, quote, triple)
    requires forall x :: i < x <= m ==> |stacks[x]| >= height
    ensures StringAt(stacks[m], height, quote, triple)
    decreases m
  {
    hide Turned, StringAt;
    if m > i {
      StringHeld(text, turns, stacks, height, quote, triple, i, m - 1);
      assert Linked(text, turns, stacks, m - 1);
      TurnKeepsString(text, turns[m - 1], stacks[m - 1], stacks[m], height, quote, triple);
    }
  }

  /** Turn i opens a string, and turn j is the first one after it that leaves it. */
  ghost predicate StringFrom(turns: seq<Turn>, stacks: seq<seq<Context>>, i: nat, j: nat)
    requires |stacks| == |turns| + 1
  {
    && i < j < |turns| && |stacks[i + 1]| == |stacks[i]| + 1 && Innermost(stacks[i + 1]).mode == InString
    && (forall x :: i < x <= j ==> |stacks[x]| > |stacks[i]|) && |stacks[j + 1]| <= |stacks[i]|
  }

  /**
   A string ends at the first token of its own text that starts with the quotes it was opened with,
   one or three, and that token is those quotes.
   */
  lemma StringsMatch(text: string, turns: seq<Turn>, stacks: seq<seq<Context>>, i: nat, j: nat)
    requires Chain(text, turns, stacks) && StringFrom(turns, stacks, i, j)
    ensures turns[i].token.Some? && turns[j].token.Some? && |stacks[j]| == |stacks[i + 1]|
    ensures var top := Innermost(stacks[i + 1]);
            var n := Quotes(top.triple);
            var opening, closing := turns[i].token.value, turns[j].token.value;
            && n <= opening.end <= |text| && closing.begin + n == closing.end <= |text|
            && text[closing.begin..closing.end] == text[opening.end - n..opening.end]
            && (StartsWithQuotes(text, opening.end - n, top.quote, true) ==> top.triple)
    ensures var top := Innermost(stacks[i + 1]);
            forall m :: i < m < j && |stacks[m]| == |stacks[i + 1]| ==>
              !StartsWithQuotes(text, turns[m].pos, top.quote, top.triple)
  {
    hide Turned;
    var height, top := |stacks[i + 1]|, Innermost(stacks[i + 1]);
    assert Linked(text, turns, stacks, i) && Linked(text, turns, stacks, j);
    OpensString(text, turns[i], stacks[i], stacks[i + 1]);
    StringHeld(text, turns, stacks, height, top.quote, top.triple, i + 1, j);
    TurnKeepsString(text, turns[j], stacks[j], stacks[j + 1], height, top.quote, top.triple);
    assert turns[j].token.value.begin == turns[j].pos by {
      TokenStarts(text, turns[j], stacks[j], stacks[j + 1]);
    }
    SameQuotes(text, turns[i].token.value.end - Quotes(top.triple), turns[j].pos, top.quote, top.triple);
    forall m | i < m < j && |stacks[m]| == height ensures !StartsWithQuotes(text, turns[m].pos, top.quote, top.triple) {
      assert Linked(text, turns, stacks, m);
      StringHeld(text, turns, stacks, height, top.quote, top.triple, i + 1, m);
      TurnKeepsString(text, turns[m], stacks[m], stacks[m + 1], height, top.quote, top.triple);
    }
  }

  lemma TokenStarts(text: string, turn: Turn, before: seq<Context>, after: seq<Context>)
    requires turn.pos < |text| && turn.token.Some? && Turned(text, turn.pos, turn.token, before, after)
    ensures turn.token.value.begin == turn.pos < turn.token.value.end <= |text|
  {
  }

  lemma SameQuotes(text: string, a: nat, b: nat, quote: char, triple: bool)
    requires StartsWithQuotes(text, a, quote, triple) && StartsWithQuotes(text, b, quote, triple)
    ensures text[a..a + Quotes(triple)] == text[b..b + Quotes(triple)]
  {
  }
}
