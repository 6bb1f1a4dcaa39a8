/**
 The argument signature of a printf pattern: defined from the argument uses of its
 conversions, found by one pass over the pattern, and related across concatenation.
 */
module PrintfSignature {
  import opened Wrappers
  import opened Sequences
  import opened PrefixCode
  import opened PrintfGrammar

  // ---------- Signatures ----------

  function Slot(uses: seq<Use>, k: nat): nat
    requires k < |uses|
  {
    if uses[k].position.Some? then uses[k].position.value else k
  }

  predicate Positional(uses: seq<Use>) { forall k :: 0 <= k < |uses| ==> uses[k].position.Some? }

  predicate Sequential(uses: seq<Use>) { forall k :: 0 <= k < |uses| ==> uses[k].position.None? }

  ghost predicate SlotUsed(uses: seq<Use>, i: nat) { exists k: nat :: k < |uses| && Slot(uses, k) == i }

  /**
   Entry i is the common type of all uses of argument i; every entry is used, and the
   uses are all numbered or all in sequence.
   */
  ghost predicate IsSignature(uses: seq<Use>, arguments: seq<Argument>) {
    && (Positional(uses) || Sequential(uses))
    && |arguments| <= LIMIT
    && (forall k: nat :: k < |uses| ==> Slot(uses, k) < |arguments| && arguments[Slot(uses, k)] == uses[k].kind)
    && (forall i: nat :: i < |arguments| ==> SlotUsed(uses, i))
  }

  ghost predicate Parses(pattern: string, pieces: seq<Piece>) { AllLegal(pieces) && Spelled(pieces) == pattern }

  ghost predicate Signs(pattern: string, arguments: seq<Argument>) {
    exists pieces :: Parses(pattern, pieces) && IsSignature(Uses(pieces), arguments)
  }

  ghost predicate Unsigned(pattern: string) { forall arguments :: !Signs(pattern, arguments) }

  // ---------- A pattern has one parse ----------

  /** What a piece shows of itself at a position. */
  ghost predicate PieceHere(p: string, at: nat, piece: Piece) {
    match piece
    case Literal(c) => c != '%' && CharAt(p, at, c)
    case Percent => CharAt(p, at, '%') && CharAt(p, at + 1, '%')
    case Conversion(_, _, _, _, _, _) => CharAt(p, at, '%') && !CharAt(p, at + 1, '%') && Candidate(p, at + 1, piece)
  }

  lemma PieceIsHere(p: string, at: nat, piece: Piece)
    requires Legal(piece) && Stands(p, at, Spell(piece))
    ensures PieceHere(p, at, piece)
  {
    if piece.Conversion? {
      SpelledIsLaid(p, at, piece);
      ConversionStarts(p, at + 1, piece);
    } else {
      StandsAt(p, at, Spell(piece), 0);
      if piece.Percent? {
        StandsAt(p, at, "%%", 1);
      }
    }
  }

  lemma PieceUnique(p: string, at: nat, a: Piece, b: Piece)
    requires PieceHere(p, at, a) && PieceHere(p, at, b)
    ensures a == b
  {
    if a.Conversion? {
      ConversionUnique(p, at + 1, a, b);
    }
  }

  lemma UsesLast(pieces: seq<Piece>, last: Piece)
    requires AllLegal(pieces) && Legal(last)
    ensures AllLegal(pieces + [last]) && Uses(pieces + [last]) == Uses(pieces) + UsesOf(last)
  {
    FrontOf(pieces, last);
  }

  lemma {:induction false} UsesJoin(a: seq<Piece>, b: seq<Piece>)
    requires AllLegal(a) && AllLegal(b)
    ensures AllLegal(a + b) && Uses(a + b) == Uses(a) + Uses(b)
  {
    if b == [] {
      assert a + b == a;
    } else {
      var front, last := b[..|b| - 1], b[|b| - 1];
      FrontLast(b);
      Associates(a, front, [last]);
      UsesJoin(a, front);
      UsesLast(a + front, last);
      Associates(Uses(a), Uses(front), UsesOf(last));
    }
  }

  lemma PrefixStands(p: string, at: nat, s: string)
    requires at <= |p| && s <= p[at..]
    ensures Stands(p, at, s)
  {
    assert p[at..][..|s|] == p[at..at + |s|];
    SliceStands(p, at, s);
  }

  lemma BegunIsHere(p: string, at: nat, piece: Piece)
    requires at <= |p| && Begins(p[at..], piece, Legal, Spell)
    ensures PieceHere(p, at, piece)
  {
    PrefixStands(p, at, Spell(piece));
    PieceIsHere(p, at, piece);
  }

  lemma PiecesReadable()
    ensures Readable(Legal, Spell)
  {
    forall text, a, b | Begins(text, a, Legal, Spell) && Begins(text, b, Legal, Spell) ensures a == b {
      assert text[0..] == text;
      BegunIsHere(text, 0, a);
      BegunIsHere(text, 0, b);
      PieceUnique(text, 0, a, b);
    }
  }

  lemma ParseUnique(p: string, a: seq<Piece>, b: seq<Piece>)
    requires Parses(p, a) && Parses(p, b)
    ensures a == b
  {
    PiecesReadable();
    JoinedUnique(a, b, Legal, Spell);
  }

  /** A pattern has at most one signature. */
  lemma SignatureUnique(p: string, x: seq<Argument>, y: seq<Argument>)
    requires Signs(p, x) && Signs(p, y)
    ensures x == y
  {
    var a :| Parses(p, a) && IsSignature(Uses(a), x);
    var b :| Parses(p, b) && IsSignature(Uses(b), y);
    ParseUnique(p, a, b);
    SameSignature(Uses(a), x, y);
  }

  lemma SignatureCovers(uses: seq<Use>, x: seq<Argument>, y: seq<Argument>, i: nat)
    requires IsSignature(uses, x) && IsSignature(uses, y) && i < |x|
    ensures i < |y| && x[i] == y[i]
  {
    assert SlotUsed(uses, i);
    var k: nat :| k < |uses| && Slot(uses, k) == i;
  }

  lemma SameSignature(uses: seq<Use>, x: seq<Argument>, y: seq<Argument>)
    requires IsSignature(uses, x) && IsSignature(uses, y)
    ensures x == y
  {
    if x != [] {
      SignatureCovers(uses, x, y, |x| - 1);
    }
    if y != [] {
      SignatureCovers(uses, y, x, |y| - 1);
    }
    forall i | 0 <= i < |x| ensures i < |y| && x[i] == y[i] {
      SignatureCovers(uses, x, y, i);
    }
  }

  // ---------- Signatures of joined patterns ----------

  lemma ParseJoin(p: string, q: string, a: seq<Piece>, b: seq<Piece>)
    requires Parses(p, a) && Parses(q, b)
    ensures Parses(p + q, a + b) && Uses(a + b) == Uses(a) + Uses(b)
  {
    JoinedJoin(a, b, Spell);
    UsesJoin(a, b);
  }

  ghost predicate SequentialPattern(p: string, pieces: seq<Piece>) { Parses(p, pieces) && Sequential(Uses(pieces)) }

  ghost predicate PositionalPattern(p: string, pieces: seq<Piece>) { Parses(p, pieces) && Positional(Uses(pieces)) }

  /** One argument for each use, in the order of the uses. */
  ghost predicate InOrder(uses: seq<Use>, x: seq<Argument>) {
    |x| == |uses| <= LIMIT && forall k :: 0 <= k < |uses| ==> x[k] == uses[k].kind
  }

  lemma InOrderJoin(a: seq<Use>, b: seq<Use>, x: seq<Argument>, y: seq<Argument>, z: seq<Argument>)
    requires InOrder(a, x) && InOrder(b, y)
    ensures InOrder(a + b, z) <==> z == x + y && |z| <= LIMIT
  {
    if InOrder(a + b, z) {
      forall k | 0 <= k < |z| ensures z[k] == (x + y)[k] {
        assert z[k] == (a + b)[k].kind;
      }
    }
  }

  /** In sequence, entry k is the type of use k. */
  lemma SequentialSignature(uses: seq<Use>, x: seq<Argument>)
    requires Sequential(uses)
    ensures IsSignature(uses, x) <==> InOrder(uses, x)
  {
    if IsSignature(uses, x) {
      if x != [] {
        assert SlotUsed(uses, |x| - 1);
      }
      if uses != [] {
        assert Slot(uses, |uses| - 1) < |x|;
      }
      forall k: nat | k < |uses| ensures x[k] == uses[k].kind {
        assert Slot(uses, k) == k;
      }
    }
    if InOrder(uses, x) {
      forall i: nat | i < |x| ensures SlotUsed(uses, i) {
        assert Slot(uses, i) == i;
      }
    }
  }

  /** A conversion with a width and a precision to look up takes both as ints before its value. */
  lemma StarsComeFirst(length: string, letter: char, kind: Argument)
    requires LegalLength(length) && Takes(kind, length, letter)
    ensures Signs("%*.*" + length + [letter], [Int, Int, kind])
  {
    hide Legal, Spell, UsesOf, IsSignature;
    var piece := Conversion(Next, "", Star(Next), Some(Star(Next)), length, letter);
    StarredPiece(piece, kind);
    OnePiece(piece);
    SequentialSignature(Uses([piece]), [Int, Int, kind]);
  }

  lemma StarredPiece(piece: Piece, kind: Argument)
    requires piece.Conversion?
             && piece == Conversion(Next, "", Star(Next), Some(Star(Next)), piece.length, piece.letter)
    requires LegalLength(piece.length) && Takes(kind, piece.length, piece.letter)
    ensures Legal(piece) && Spell(piece) == "%*.*" + piece.length + [piece.letter]
    ensures UsesOf(piece) == [Use(None, Int), Use(None, Int), Use(None, kind)]
  {
    TypeListed(piece.length, piece.letter, kind);
  }

  lemma OnePiece(piece: Piece)
    requires Legal(piece)
    ensures Parses(Spell(piece), [piece]) && Uses([piece]) == UsesOf(piece)
  {
    assert AllLegal([]) && [] + [piece] == [piece];
    UsesLast([], piece);
    JoinedLast([], piece, Spell);
  }

  lemma SpelledOut(piece: Piece, spelled: string)
    requires || (piece == Conversion(Numbered("1"), "", Fixed(""), None, "", 'd') && spelled == "%1$d")
             || (piece == Conversion(Numbered("2"), "", Fixed(""), None, "", 's') && spelled == "%2$s")
    ensures Legal(piece) && Spell(piece) == spelled
    ensures UsesOf(piece) == [if piece.letter == 'd' then Use(Some(0), Int) else Use(Some(1), Text)]
  {
    var digits := piece.place.digits;
    assert Prefix(digits, 0) == 0 && |digits| == 1 && Number(digits) == if digits[0] == '1' then 1 else 2;
  }

  lemma TwoNumbered(uses: seq<Use>)
    requires uses == [Use(Some(1), Text), Use(Some(0), Int)]
    ensures IsSignature(uses, [Int, Text])
  {
    assert Slot(uses, 0) == 1 && Slot(uses, 1) == 0;
  }

  /** Numbered conversions name their arguments from one, whatever their order in the pattern. */
  lemma NumbersFromOne()
    ensures Signs("%2$s%1$d", [Int, Text])
  {
    hide IsSignature, Legal, UsesOf, Spell;
    var second := Conversion(Numbered("2"), "", Fixed(""), None, "", 's');
    var first := Conversion(Numbered("1"), "", Fixed(""), None, "", 'd');
    SpelledOut(second, "%2$s");
    SpelledOut(first, "%1$d");
    OnePiece(second);
    OnePiece(first);
    ParseJoin("%2$s", "%1$d", [second], [first]);
    assert "%2$s" + "%1$d" == "%2$s%1$d";
    TwoNumbered(Uses([second] + [first]));
  }

  /** Sequential patterns: the signature of the joined pattern is the joined signature, within the limit. */
  lemma SequentialJoin(p: string, q: string, a: seq<Piece>, b: seq<Piece>, x: seq<Argument>, y: seq<Argument>,
                       z: seq<Argument>)
    requires SequentialPattern(p, a) && SequentialPattern(q, b) && Signs(p, x) && Signs(q, y)
    ensures Signs(p + q, z) <==> z == x + y && |z| <= LIMIT
  {
    hide IsSignature, InOrder, Signs;
    ParseJoin(p, q, a, b);
    var uses := Uses(a + b);
    SignsByParse(p, a, x);
    SignsByParse(q, b, y);
    SignsByParse(p + q, a + b, z);
    SequentialSignature(Uses(a), x);
    SequentialSignature(Uses(b), y);
    SequentialSignature(uses, z);
    InOrderJoin(Uses(a), Uses(b), x, y, z);
  }

  lemma SignsByParse(p: string, pieces: seq<Piece>, x: seq<Argument>)
    requires Parses(p, pieces)
    ensures Signs(p, x) <==> IsSignature(Uses(pieces), x)
  {
    forall other | Parses(p, other) ensures other == pieces {
      ParseUnique(p, other, pieces);
    }
  }

  lemma Swapped(a: seq<Use>, b: seq<Use>, k: nat) returns (j: nat)
    requires Positional(a) && Positional(b) && k < |a + b|
    ensures j < |b + a| && (b + a)[j] == (a + b)[k] && Slot(b + a, j) == Slot(a + b, k)
  {
    j := if k < |a| then |b| + k else k - |a|;
  }

  lemma PositionalSwapOneWay(a: seq<Use>, b: seq<Use>, x: seq<Argument>)
    requires Positional(a) && Positional(b) && IsSignature(a + b, x)
    ensures IsSignature(b + a, x)
  {
    forall k: nat | k < |b + a| ensures Slot(b + a, k) < |x| && x[Slot(b + a, k)] == (b + a)[k].kind {
      var j := Swapped(b, a, k);
    }
    forall i: nat | i < |x| ensures SlotUsed(b + a, i) {
      assert SlotUsed(a + b, i);
      var k: nat :| k < |a + b| && Slot(a + b, k) == i;
      var j := Swapped(a, b, k);
    }
  }

  /** Positional patterns: the order of the parts does not matter. */
  lemma PositionalSwap(p: string, q: string, a: seq<Piece>, b: seq<Piece>, x: seq<Argument>)
    requires PositionalPattern(p, a) && PositionalPattern(q, b)
    ensures Signs(p + q, x) <==> Signs(q + p, x)
  {
    ParseJoin(p, q, a, b);
    ParseJoin(q, p, b, a);
    SignsByParse(p + q, a + b, x);
    SignsByParse(q + p, b + a, x);
    if IsSignature(Uses(a) + Uses(b), x) {
      PositionalSwapOneWay(Uses(a), Uses(b), x);
    }
    if IsSignature(Uses(b) + Uses(a), x) {
      PositionalSwapOneWay(Uses(b), Uses(a), x);
    }
  }

  /** Numbered and sequential arguments do not mix. */
  lemma NoMixing(p: string, q: string, a: seq<Piece>, b: seq<Piece>)
    requires SequentialPattern(p, a) && PositionalPattern(q, b) && Uses(a) != [] && Uses(b) != []
    ensures Unsigned(p + q) && Unsigned(q + p)
  {
    ParseJoin(p, q, a, b);
    ParseJoin(q, p, b, a);
    forall x ensures !Signs(p + q, x) && !Signs(q + p, x) {
      SignsByParse(p + q, a + b, x);
      SignsByParse(q + p, b + a, x);
      assert Uses(a + b)[0] == Uses(a)[0] && Uses(a + b)[|Uses(a)|] == Uses(b)[0];
      assert Uses(b + a)[0] == Uses(b)[0] && Uses(b + a)[|Uses(b)|] == Uses(a)[0];
    }
  }

  // ---------- The argument table ----------

  /** Necessary for any longer list of uses to have a signature. */
  ghost predicate Possible(uses: seq<Use>) {
    && (Positional(uses) || Sequential(uses))
    && (forall k: nat :: k < |uses| ==> Slot(uses, k) < LIMIT)
    && (forall j: nat, k: nat :: j < |uses| && k < |uses| && Slot(uses, j) == Slot(uses, k) ==>
          uses[j].kind == uses[k].kind)
  }

  lemma SignatureIsPossible(uses: seq<Use>, more: seq<Use>, x: seq<Argument>)
    requires IsSignature(uses + more, x)
    ensures Possible(uses)
  {
    var all := uses + more;
    if Positional(all) {
      assert forall k :: 0 <= k < |uses| ==> all[k] == uses[k];
    } else {
      assert forall k :: 0 <= k < |uses| ==> all[k] == uses[k];
    }
    forall k: nat | k < |uses| ensures Slot(uses, k) < |x| && x[Slot(uses, k)] == uses[k].kind {
      assert Slot(all, k) == Slot(uses, k);
    }
  }

  /** What the table knows of the uses so far; `slots` ends in a used one. */
  ghost predicate Tabled(uses: seq<Use>, slots: seq<Option<Argument>>) {
    && |slots| <= LIMIT
    && (forall k: nat :: k < |uses| ==> Slot(uses, k) < |slots| && slots[Slot(uses, k)] == Some(uses[k].kind))
    && (forall i: nat :: i < |slots| && slots[i].Some? ==> SlotUsed(uses, i))
    && (slots != [] ==> slots[|slots| - 1].Some?)
  }

  function Widened(slots: seq<Option<Argument>>, index: nat): seq<Option<Argument>> {
    if |slots| <= index then slots + seq(index + 1 - |slots|, _ => None) else slots
  }

  lemma UsesGrow(uses: seq<Use>, use: Use, k: nat)
    requires k < |uses|
    ensures Slot(uses + [use], k) == Slot(uses, k) && (uses + [use])[k] == uses[k]
  {
  }

  lemma TabledGrows(uses: seq<Use>, slots: seq<Option<Argument>>, use: Use, index: nat)
    requires Tabled(uses, slots) && index < LIMIT && index == Slot(uses + [use], |uses|)
    requires var wide := Widened(slots, index); wide[index].Some? ==> wide[index] == Some(use.kind)
    ensures Tabled(uses + [use], Widened(slots, index)[index := Some(use.kind)])
  {
    var all, next := uses + [use], Widened(slots, index)[index := Some(use.kind)];
    forall k: nat | k < |all| ensures Slot(all, k) < |next| && next[Slot(all, k)] == Some(all[k].kind) {
      if k < |uses| {
        UsesGrow(uses, use, k);
      }
    }
    forall i: nat | i < |next| && next[i].Some? ensures SlotUsed(all, i) {
      if i == index {
        assert Slot(all, |uses|) == i;
      } else {
        assert slots[i].Some? && SlotUsed(uses, i);
        var k: nat :| k < |uses| && Slot(uses, k) == i;
        UsesGrow(uses, use, k);
      }
    }
  }

  lemma ConflictIsImpossible(uses: seq<Use>, slots: seq<Option<Argument>>, use: Use, index: nat)
    requires Tabled(uses, slots) && index == Slot(uses + [use], |uses|)
    requires index >= LIMIT || (index < |slots| && slots[index].Some? && slots[index] != Some(use.kind))
    ensures !Possible(uses + [use])
  {
    var all := uses + [use];
    if index < LIMIT {
      assert SlotUsed(uses, index);
      var k: nat :| k < |uses| && Slot(uses, k) == index;
      UsesGrow(uses, use, k);
      assert all[|uses|].kind != all[k].kind;
    }
  }

  lemma MixedIsImpossible(uses: seq<Use>, use: Use)
    requires uses != [] && if use.position.Some? then Sequential(uses) else Positional(uses)
    ensures !Possible(uses + [use])
  {
    var all := uses + [use];
    assert all[0] == uses[0] && all[|uses|] == use;
  }

  /** A table with a hole admits no signature. */
  lemma HoleDenies(uses: seq<Use>, slots: seq<Option<Argument>>, i: nat, y: seq<Argument>)
    requires Tabled(uses, slots) && i < |slots| && slots[i].None?
    ensures !IsSignature(uses, y)
  {
    assert SlotUsed(uses, |slots| - 1);
    assert !SlotUsed(uses, i);
  }

  /** A table without holes is the signature. */
  lemma FullTable(uses: seq<Use>, slots: seq<Option<Argument>>, x: seq<Argument>)
    requires Tabled(uses, slots) && (Positional(uses) || Sequential(uses))
    requires |x| == |slots| && forall i :: 0 <= i < |x| ==> slots[i] == Some(x[i])
    ensures IsSignature(uses, x)
  {
    forall i: nat | i < |x| ensures SlotUsed(uses, i) {
      assert slots[i].Some?;
    }
  }

  /** The state that the reader keeps beside its cursor. */
  class ArgumentTable {
    var slots: seq<Option<Argument>>
    var sequential: nat
    var positionalUsed: bool
    var sequentialUsed: bool
    ghost var uses: seq<Use>

    ghost predicate Valid()
      reads this
    {
      && Tabled(uses, slots)
      && !(positionalUsed && sequentialUsed)
      && (positionalUsed ==> uses != [] && Positional(uses))
      && (sequentialUsed ==> uses != [] && Sequential(uses))
      && (!positionalUsed && !sequentialUsed ==> uses == [])
      && sequential == if sequentialUsed then |uses| else 0
    }

    constructor ()
      ensures Valid() && uses == []
    {
      slots, sequential, positionalUsed, sequentialUsed, uses := [], 0, false, false, [];
    }

    /** Record one use, unless no pattern that starts with these uses has a signature. */
    method Add(position: Option<nat>, kind: Argument) returns (ok: bool)
      requires Valid()
      modifies this
      ensures ok ==> Valid() && uses == old(uses) + [Use(position, kind)]
      ensures !ok ==> !Possible(old(uses) + [Use(position, kind)])
    {
      hide Tabled, Possible;
      var index;
      if position.Some? {
        positionalUsed := true;
        index := position.value;
      } else {
        sequentialUsed := true;
        index := sequential;
        sequential := sequential + 1;
      }
      ghost var all := uses + [Use(position, kind)];
      if positionalUsed && sequentialUsed {
        MixedIsImpossible(uses, Use(position, kind));
        return false;
      }
      assert index == Slot(all, |uses|);
      if index >= LIMIT || (index < |slots| && slots[index].Some? && slots[index] != Some(kind)) {
        ConflictIsImpossible(uses, slots, Use(position, kind), index);
        return false;
      }
      TabledGrows(uses, slots, Use(position, kind), index);
      slots := Widened(slots, index);
      slots := slots[index := Some(kind)];
      uses := all;
      return true;
    }
  }

  // ---------- The reader of whole patterns ----------

  lemma PossiblePrefix(uses: seq<Use>, more: seq<Use>)
    requires Possible(uses + more)
    ensures Possible(uses)
  {
    var all := uses + more;
    forall k: nat | k < |uses| ensures all[k] == uses[k] && Slot(all, k) == Slot(uses, k) {
    }
    assert Positional(all) ==> Positional(uses) by {
      forall k | 0 <= k < |uses| && Positional(all) ensures uses[k].position.Some? {
        assert all[k].position.Some?;
      }
    }
    assert Sequential(all) ==> Sequential(uses) by {
      forall k | 0 <= k < |uses| && Sequential(all) ensures uses[k].position.None? {
        assert all[k].position.None?;
      }
    }
  }

  method AddAll(table: ArgumentTable, uses: seq<Use>) returns (ok: bool)
    requires table.Valid()
    modifies table
    ensures ok ==> table.Valid() && table.uses == old(table.uses) + uses
    ensures !ok ==> !Possible(old(table.uses) + uses)
  {
    hide Tabled, Possible;
    ghost var before := table.uses;
    assert before + uses[..0] == before;
    for k := 0 to |uses|
      invariant table.Valid() && table.uses == before + uses[..k]
    {
      ok := table.Add(uses[k].position, uses[k].kind);
      Associates(before, uses[..k], [uses[k]]);
      assert uses[..k] + [uses[k]] == uses[..k + 1];
      if !ok {
        assert before + uses == (before + uses[..k + 1]) + uses[k + 1..];
        if Possible(before + uses) {
          PossiblePrefix(before + uses[..k + 1], uses[k + 1..]);
        }
        return;
      }
    }
    assert uses[..|uses|] == uses;
    ok := true;
  }

  /** The pieces before `offset`. */
  ghost predicate ReadTo(p: string, offset: nat, done: seq<Piece>) {
    AllLegal(done) && offset <= |p| && Spelled(done) == p[..offset]
  }

  lemma ReadGrows(p: string, offset: nat, done: seq<Piece>, piece: Piece)
    requires ReadTo(p, offset, done) && Legal(piece) && Stands(p, offset, Spell(piece))
    ensures ReadTo(p, offset + |Spell(piece)|, done + [piece]) && Uses(done + [piece]) == Uses(done) + UsesOf(piece)
  {
    JoinedLast(done, piece, Spell);
    UsesLast(done, piece);
    FrontGrows(p, offset, Spell(piece));
  }

  lemma FrontGrows(p: string, at: nat, s: string)
    requires Stands(p, at, s)
    ensures p[..at + |s|] == p[..at] + s
  {
    SliceStands(p, at, s);
    Slices(p, 0, at, at + |s|);
  }

  lemma NothingParses(p: string, offset: nat, done: seq<Piece>)
    requires ReadTo(p, offset, done) && offset < |p| && NothingBegins(p[offset..], Legal, Spell)
    ensures Unsigned(p)
  {
    PiecesReadable();
    assert p == p[..offset] + p[offset..];
    forall pieces | AllLegal(pieces) ensures !Parses(p, pieces) {
      NothingSpells(done, p[offset..], pieces, Legal, Spell);
    }
  }

  lemma NoConversion(p: string, offset: nat, done: seq<Piece>)
    requires ReadTo(p, offset, done) && offset < |p| && p[offset] == '%'
    requires offset + 1 < |p| ==> p[offset + 1] != '%'
    requires NoCandidate(p, offset + 1)
    ensures Unsigned(p)
  {
    forall piece ensures !Begins(p[offset..], piece, Legal, Spell) {
      if Begins(p[offset..], piece, Legal, Spell) {
        BegunIsHere(p, offset, piece);
      }
    }
    NothingParses(p, offset, done);
  }

  lemma ImpossibleUses(p: string, offset: nat, done: seq<Piece>)
    requires ReadTo(p, offset, done) && !Possible(Uses(done))
    ensures Unsigned(p)
  {
    PiecesReadable();
    assert p == p[..offset] + p[offset..];
    forall x, pieces | Parses(p, pieces) ensures !IsSignature(Uses(pieces), x) {
      var more := Continues(done, p[offset..], pieces, Legal, Spell);
      UsesJoin(done, more);
      if IsSignature(Uses(pieces), x) {
        SignatureIsPossible(Uses(done), Uses(more), x);
      }
    }
  }

  /** One piece of a pattern and the argument uses in it. */
  method ReadPiece(p: string, offset: nat, ghost done: seq<Piece>)
    returns (ok: bool, next: nat, uses: seq<Use>, ghost piece: Piece)
    requires ReadTo(p, offset, done) && offset < |p|
    ensures ok ==> Legal(piece) && offset < next <= |p|
    ensures ok ==> Stands(p, offset, Spell(piece)) && next == offset + |Spell(piece)| && uses == UsesOf(piece)
    ensures !ok ==> Unsigned(p)
  {
    ok, next, uses := true, offset + 1, [];
    if p[offset] != '%' {
      piece := Literal(p[offset]);
    } else if next < |p| && p[next] == '%' {
      piece, next := Percent, next + 1;
    } else {
      ghost var c;
      ok, next, uses, c := ReadConversion(p, next);
      piece := c;
      if !ok {
        NoConversion(p, offset, done);
        return;
      }
      SpelledIsLaid(p, offset, c);
      SpelledSize(offset, c);
    }
  }

  /** The reader finds the signature of a pattern exactly when it has one. */
  method FormatSignature(pattern: string) returns (signature: Option<seq<Argument>>)
    ensures signature.Some? ==> Signs(pattern, signature.value)
    ensures signature.None? ==> Unsigned(pattern)
  {
    hide Tabled, Stands, IsSignature, Signs, Unsigned, Possible;
    var table := new ArgumentTable();
    var offset := 0;
    ghost var done: seq<Piece> := [];
    while offset < |pattern|
      invariant ReadTo(pattern, offset, done) && offset <= |pattern|
      invariant fresh(table) && table.Valid() && table.uses == Uses(done)
      decreases |pattern| - offset
    {
      var ok, uses;
      ghost var piece;
      ghost var start := offset;
      ok, offset, uses, piece := ReadPiece(pattern, offset, done);
      if !ok {
        return None;
      }
      ReadGrows(pattern, start, done, piece);
      ok := AddAll(table, uses);
      done := done + [piece];
      if !ok {
        ImpossibleUses(pattern, offset, done);
        return None;
      }
    }
    signature := Finish(table.slots, Uses(done));
    ReadAll(pattern, done, signature);
  }

  lemma ReadAll(pattern: string, done: seq<Piece>, signature: Option<seq<Argument>>)
    requires ReadTo(pattern, |pattern|, done)
    requires if signature.Some? then IsSignature(Uses(done), signature.value)
             else forall x :: !IsSignature(Uses(done), x)
    ensures if signature.Some? then Signs(pattern, signature.value) else Unsigned(pattern)
  {
    assert pattern[..|pattern|] == pattern;
    forall x ensures Signs(pattern, x) <==> IsSignature(Uses(done), x) {
      SignsByParse(pattern, done, x);
    }
  }

  /** The table as a signature, unless an argument is never used. */
  method Finish(slots: seq<Option<Argument>>, ghost uses: seq<Use>) returns (signature: Option<seq<Argument>>)
    requires Tabled(uses, slots) && (Positional(uses) || Sequential(uses))
    ensures if signature.Some? then IsSignature(uses, signature.value) else forall x :: !IsSignature(uses, x)
  {
    var found := [];
    for i := 0 to |slots|
      invariant |found| == i && forall k :: 0 <= k < i ==> slots[k] == Some(found[k])
    {
      if slots[i].None? {
        forall x ensures !IsSignature(uses, x) {
          HoleDenies(uses, slots, i, x);
        }
        return None;
      }
      found := found + [slots[i].value];
    }
    FullTable(uses, slots, found);
    return Some(found);
  }
}
