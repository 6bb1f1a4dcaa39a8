/**
 printf patterns as a grammar of literal characters, percent signs and conversions,
 and the one-pass reader of conversions, proved to read the only conversion that can
 stand at a position or to fail when there is none.
 */
module PrintfGrammar {
  import opened Wrappers
  import opened Bytes
  import opened PrefixCode

  // ---------- Patterns ----------

  datatype Argument =
    | Int | UInt | Long | ULong | LongLong | ULongLong | Double | LongDouble | Text | WideText | Pointer

  /** Which argument a conversion, width or precision takes: the next one, or a numbered one. */
  datatype Place = Next | Numbered(digits: string)

  datatype Field = Fixed(digits: string) | Star(place: Place)

  datatype Piece =
    | Literal(c: char)
    | Percent
    | Conversion(place: Place, flags: string, width: Field, precision: Option<Field>, length: string, letter: char)

  const LIMIT: nat := 128

  datatype Class = Digit | Flag

  predicate Belongs(c: char, class_: Class) {
    match class_
    case Digit => IsDecimal(c)
    case Flag => c == '-' || c == '+' || c == ' ' || c == '#' || c == '0' || c == '\''
  }

  predicate AllIn(s: string, class_: Class) { forall k :: 0 <= k < |s| ==> Belongs(s[k], class_) }

  /** The number that the first n digits spell. */
  function Prefix(digits: string, n: nat): nat
    requires n <= |digits| && AllIn(digits, Digit)
  {
    if n == 0 then 0 else Prefix(digits, n - 1) * 10 + DigitValue(digits[n - 1])
  }

  function Number(digits: string): nat
    requires AllIn(digits, Digit)
  {
    Prefix(digits, |digits|)
  }

  predicate LegalPlace(place: Place) {
    place.Numbered? ==> place.digits != "" && AllIn(place.digits, Digit) && 1 <= Number(place.digits) <= LIMIT
  }

  predicate LegalField(field: Field) {
    match field
    case Fixed(digits) => AllIn(digits, Digit)
    case Star(place) => LegalPlace(place)
  }

  predicate LengthLetter(c: char) { c == 'h' || c == 'l' || c == 'j' || c == 'z' || c == 't' || c == 'L' }

  predicate LegalLength(length: string) {
    length == "" || length == "hh" || length == "ll" || (|length| == 1 && LengthLetter(length[0]))
  }

  predicate IntegerLetter(c: char) { c == 'd' || c == 'i' || c == 'o' || c == 'u' || c == 'x' || c == 'X' }

  predicate FloatLetter(c: char) {
    c == 'f' || c == 'F' || c == 'e' || c == 'E' || c == 'g' || c == 'G' || c == 'a' || c == 'A'
  }

  /** What a conversion reads on a target where long and pointers have 64 bits. */
  function TypeOf(length: string, letter: char): Option<Argument> {
    if IntegerLetter(letter) then
      var isSigned := letter == 'd' || letter == 'i';
      if length == "" || length == "h" || length == "hh" then Some(if isSigned then Int else UInt)
      else if length == "l" || length == "j" || length == "z" || length == "t" then
        Some(if isSigned then Long else ULong)
      else if length == "ll" then Some(if isSigned then LongLong else ULongLong)
      else None
    else if FloatLetter(letter) then
      if length == "" || length == "l" then Some(Double) else if length == "L" then Some(LongDouble) else None
    else if letter == 's' then
      if length == "" then Some(Text) else if length == "l" then Some(WideText) else None
    else if letter == 'c' && length == "" then Some(Int)
    else if letter == 'p' && length == "" then Some(Pointer)
    else None
  }

  /** The conversions that take an argument, as C lists them by its type. */
  predicate Takes(kind: Argument, length: string, letter: char) {
    match kind
    case Int => (length in {"", "h", "hh"} && letter in {'d', 'i'}) || (length == "" && letter == 'c')
    case UInt => length in {"", "h", "hh"} && letter in {'o', 'u', 'x', 'X'}
    case Long => length in {"l", "j", "z", "t"} && letter in {'d', 'i'}
    case ULong => length in {"l", "j", "z", "t"} && letter in {'o', 'u', 'x', 'X'}
    case LongLong => length == "ll" && letter in {'d', 'i'}
    case ULongLong => length == "ll" && letter in {'o', 'u', 'x', 'X'}
    case Double => length in {"", "l"} && letter in {'f', 'F', 'e', 'E', 'g', 'G', 'a', 'A'}
    case LongDouble => length == "L" && letter in {'f', 'F', 'e', 'E', 'g', 'G', 'a', 'A'}
    case Text => length == "" && letter == 's'
    case WideText => length == "l" && letter == 's'
    case Pointer => length == "" && letter == 'p'
  }

  /** A conversion reads exactly the type that lists it, and none when no type does. */
  lemma TypeListed(length: string, letter: char, kind: Argument)
    ensures TypeOf(length, letter) == Some(kind) <==> Takes(kind, length, letter)
  {
  }

  /** Zeros at the front of a width belong to the flags. */
  predicate Legal(piece: Piece) {
    match piece
    case Literal(c) => c != '%'
    case Percent => true
    case Conversion(place, flags, width, precision, length, letter) =>
      && LegalPlace(place) && AllIn(flags, Flag)
      && LegalField(width) && (width.Fixed? && width.digits != "" ==> width.digits[0] != '0')
      && (precision.Some? ==> LegalField(precision.value))
      && LegalLength(length) && TypeOf(length, letter).Some?
  }

  function SpellPlace(place: Place): string {
    if place.Next? then "" else place.digits + "$"
  }

  function SpellField(field: Field): string {
    match field
    case Fixed(digits) => digits
    case Star(place) => "*" + SpellPlace(place)
  }

  function SpellPrecision(precision: Option<Field>): string {
    if precision.Some? then "." + SpellField(precision.value) else ""
  }

  function Spell(piece: Piece): string {
    match piece
    case Literal(c) => [c]
    case Percent => "%%"
    case Conversion(place, flags, width, precision, length, letter) =>
      "%" + (SpellPlace(place) + (flags + (SpellField(width) + (SpellPrecision(precision) + (length + [letter])))))
  }

  function Spelled(pieces: seq<Piece>): string { Joined(pieces, Spell) }

  predicate AllLegal(pieces: seq<Piece>) { AllOf(pieces, Legal) }

  // ---------- Argument uses ----------

  /** One use of an argument: its number, counted from zero, unless it is the next one. */
  datatype Use = Use(position: Option<nat>, kind: Argument)

  function PositionOf(place: Place): Option<nat>
    requires LegalPlace(place)
  {
    if place.Next? then None else Some(Number(place.digits) - 1)
  }

  function FieldUses(field: Field): seq<Use>
    requires LegalField(field)
  {
    if field.Star? then [Use(PositionOf(field.place), Int)] else []
  }

  /** In argument order: the width, the precision, the value. */
  function UsesOf(piece: Piece): seq<Use>
    requires Legal(piece)
  {
    match piece
    case Literal(_) => []
    case Percent => []
    case Conversion(place, _, width, precision, length, letter) =>
      FieldUses(width) + (if precision.Some? then FieldUses(precision.value) else [])
      + [Use(PositionOf(place), TypeOf(length, letter).value)]
  }

  function Uses(pieces: seq<Piece>): seq<Use>
    requires AllLegal(pieces)
  {
    if pieces == [] then [] else Uses(pieces[..|pieces| - 1]) + UsesOf(pieces[|pieces| - 1])
  }

  // ---------- Occurrences inside a pattern ----------

  predicate SameAt(p: string, at: nat, s: string, k: nat) { k < |s| && at + k < |p| && p[at + k] == s[k] }

  predicate Stands(p: string, at: nat, s: string) {
    at + |s| <= |p| && forall k: nat :: k < |s| ==> SameAt(p, at, s, k)
  }

  lemma StandsJoin(p: string, at: nat, a: string, b: string)
    ensures Stands(p, at, a + b) <==> Stands(p, at, a) && Stands(p, at + |a|, b)
  {
    var whole := a + b;
    if Stands(p, at, whole) {
      var after := at + |a|;
      forall k: nat | k < |b| ensures SameAt(p, after, b, k) {
        assert SameAt(p, at, whole, |a| + k);
      }
      forall k: nat | k < |a| ensures SameAt(p, at, a, k) {
        assert SameAt(p, at, whole, k);
      }
    }
    if Stands(p, at, a) && Stands(p, at + |a|, b) {
      forall k: nat | k < |whole| ensures SameAt(p, at, whole, k) {
        if k < |a| {
          assert SameAt(p, at, a, k);
        } else {
          assert SameAt(p, at + |a|, b, k - |a|);
        }
      }
    }
  }

  lemma StandsAt(p: string, at: nat, s: string, k: nat)
    requires Stands(p, at, s) && k < |s|
    ensures at + k < |p| && p[at + k] == s[k]
  {
    assert SameAt(p, at, s, k);
  }

  lemma SliceStands(p: string, at: nat, s: string)
    ensures Stands(p, at, s) <==> at + |s| <= |p| && p[at..at + |s|] == s
  {
    if at + |s| <= |p| && p[at..at + |s|] == s {
      forall k: nat | k < |s| ensures SameAt(p, at, s, k) {
        assert p[at..at + |s|][k] == s[k];
      }
    }
    if Stands(p, at, s) {
      forall k: nat | k < |s| ensures p[at..at + |s|][k] == s[k] {
        assert SameAt(p, at, s, k);
      }
    }
  }

  // ---------- Where the parts of a conversion stand ----------

  predicate CharAt(p: string, at: nat, c: char) { at < |p| && p[at] == c }

  function PlaceSize(place: Place): nat { if place.Next? then 0 else |place.digits| + 1 }

  function FieldSize(field: Field): nat { if field.Fixed? then |field.digits| else 1 + PlaceSize(field.place) }

  function PrecisionSize(precision: Option<Field>): nat {
    if precision.Some? then 1 + FieldSize(precision.value) else 0
  }

  predicate PlaceLaid(p: string, at: nat, place: Place) {
    place.Numbered? ==> Stands(p, at, place.digits) && CharAt(p, at + |place.digits|, '$')
  }

  predicate FieldLaid(p: string, at: nat, field: Field) {
    match field
    case Fixed(digits) => Stands(p, at, digits)
    case Star(place) => CharAt(p, at, '*') && PlaceLaid(p, at + 1, place)
  }

  predicate PrecisionLaid(p: string, at: nat, precision: Option<Field>) {
    precision.Some? ==> CharAt(p, at, '.') && FieldLaid(p, at + 1, precision.value)
  }

  function FlagsStart(at: nat, c: Piece): nat
    requires c.Conversion?
  {
    at + PlaceSize(c.place)
  }

  function WidthStart(at: nat, c: Piece): nat
    requires c.Conversion?
  {
    FlagsStart(at, c) + |c.flags|
  }

  function PrecisionStart(at: nat, c: Piece): nat
    requires c.Conversion?
  {
    WidthStart(at, c) + FieldSize(c.width)
  }

  function LengthStart(at: nat, c: Piece): nat
    requires c.Conversion?
  {
    PrecisionStart(at, c) + PrecisionSize(c.precision)
  }

  function LetterStart(at: nat, c: Piece): nat
    requires c.Conversion?
  {
    LengthStart(at, c) + |c.length|
  }

  /** The parts of a conversion stand one after the other. */
  predicate Laid(p: string, at: nat, c: Piece) {
    && c.Conversion?
    && PlaceLaid(p, at, c.place) && Stands(p, FlagsStart(at, c), c.flags)
    && FieldLaid(p, WidthStart(at, c), c.width) && PrecisionLaid(p, PrecisionStart(at, c), c.precision)
    && Stands(p, LengthStart(at, c), c.length) && CharAt(p, LetterStart(at, c), c.letter)
  }

  lemma StandsOne(p: string, at: nat, c: char)
    ensures Stands(p, at, [c]) <==> CharAt(p, at, c)
  {
    if CharAt(p, at, c) {
      assert SameAt(p, at, [c], 0);
    }
    if Stands(p, at, [c]) {
      StandsAt(p, at, [c], 0);
    }
  }

  lemma SpelledPlace(p: string, at: nat, place: Place, rest: string)
    ensures Stands(p, at, SpellPlace(place) + rest)
            <==> PlaceLaid(p, at, place) && Stands(p, at + PlaceSize(place), rest)
    ensures |SpellPlace(place)| == PlaceSize(place)
  {
    StandsJoin(p, at, SpellPlace(place), rest);
    if place.Next? {
      assert SpellPlace(place) + rest == rest;
    } else {
      StandsJoin(p, at, place.digits, "$");
      StandsOne(p, at + |place.digits|, '$');
    }
  }

  lemma SpelledField(p: string, at: nat, field: Field, rest: string)
    ensures Stands(p, at, SpellField(field) + rest)
            <==> FieldLaid(p, at, field) && Stands(p, at + FieldSize(field), rest)
    ensures |SpellField(field)| == FieldSize(field)
  {
    match field
    case Fixed(digits) => StandsJoin(p, at, digits, rest);
    case Star(place) =>
      assert SpellField(field) + rest == "*" + (SpellPlace(place) + rest);
      StandsJoin(p, at, "*", SpellPlace(place) + rest);
      StandsOne(p, at, '*');
      SpelledPlace(p, at + 1, place, rest);
  }

  lemma SpelledPrecision(p: string, at: nat, precision: Option<Field>, rest: string)
    ensures Stands(p, at, SpellPrecision(precision) + rest)
       <==> PrecisionLaid(p, at, precision) && Stands(p, at + PrecisionSize(precision), rest)
    ensures |SpellPrecision(precision)| == PrecisionSize(precision)
  {
    if precision.Some? {
      var field := SpellField(precision.value);
      assert SpellPrecision(precision) + rest == "." + (field + rest);
      StandsJoin(p, at, ".", field + rest);
      StandsOne(p, at, '.');
      SpelledField(p, at + 1, precision.value, rest);
    } else {
      assert SpellPrecision(precision) + rest == rest;
    }
  }

  lemma SpelledFront(p: string, at: nat, place: Place, flags: string, width: Field, rest: string)
    ensures Stands(p, at, SpellPlace(place) + (flags + (SpellField(width) + rest)))
       <==> && PlaceLaid(p, at, place) && Stands(p, at + PlaceSize(place), flags)
            && FieldLaid(p, at + PlaceSize(place) + |flags|, width)
            && Stands(p, at + PlaceSize(place) + |flags| + FieldSize(width), rest)
  {
    SpelledPlace(p, at, place, flags + (SpellField(width) + rest));
    StandsJoin(p, at + PlaceSize(place), flags, SpellField(width) + rest);
    SpelledField(p, at + PlaceSize(place) + |flags|, width, rest);
  }

  lemma SpelledBack(p: string, at: nat, precision: Option<Field>, length: string, letter: char)
    ensures Stands(p, at, SpellPrecision(precision) + (length + [letter]))
       <==> && PrecisionLaid(p, at, precision) && Stands(p, at + PrecisionSize(precision), length)
            && CharAt(p, at + PrecisionSize(precision) + |length|, letter)
  {
    SpelledPrecision(p, at, precision, length + [letter]);
    StandsJoin(p, at + PrecisionSize(precision), length, [letter]);
    StandsOne(p, at + PrecisionSize(precision) + |length|, letter);
  }

  lemma SpelledSize(at: nat, c: Piece)
    requires c.Conversion?
    ensures at + |Spell(c)| == LetterStart(at + 1, c) + 1
  {
    SpelledPlace("", 0, c.place, "");
    SpelledField("", 0, c.width, "");
    SpelledPrecision("", 0, c.precision, "");
  }

  function AfterPercent(c: Piece): string
    requires c.Conversion?
  {
    SpellPlace(c.place) + (c.flags + (SpellField(c.width) + (SpellPrecision(c.precision) + (c.length + [c.letter]))))
  }

  lemma LaidBefore(p: string, at: nat, c: Piece, back: string)
    requires c.Conversion?
    requires var here := PrecisionStart(at, c);
             Stands(p, here, back) <==>
               && PrecisionLaid(p, here, c.precision)
               && Stands(p, LengthStart(at, c), c.length)
               && CharAt(p, LetterStart(at, c), c.letter)
    ensures Stands(p, at, SpellPlace(c.place) + (c.flags + (SpellField(c.width) + back))) <==> Laid(p, at, c)
  {
    SpelledFront(p, at, c.place, c.flags, c.width, back);
  }

  lemma LaidAfterPercent(p: string, at: nat, c: Piece)
    requires c.Conversion?
    ensures Stands(p, at, AfterPercent(c)) <==> Laid(p, at, c)
  {
    SpelledBack(p, PrecisionStart(at, c), c.precision, c.length, c.letter);
    LaidBefore(p, at, c, SpellPrecision(c.precision) + (c.length + [c.letter]));
  }

  lemma AfterFirst(p: string, at: nat, first: char, rest: string)
    ensures Stands(p, at, [first] + rest) <==> CharAt(p, at, first) && Stands(p, at + 1, rest)
  {
    StandsOne(p, at, first);
    StandsJoin(p, at, [first], rest);
  }

  lemma SpelledIsLaid(p: string, at: nat, c: Piece)
    requires c.Conversion?
    ensures Stands(p, at, Spell(c)) <==> CharAt(p, at, '%') && Laid(p, at + 1, c)
  {
    AfterFirst(p, at, '%', AfterPercent(c));
    LaidAfterPercent(p, at + 1, c);
  }

  // ---------- What can stand at a position ----------

  lemma SameLength(p: string, at: nat, a: string, b: string)
    requires Stands(p, at, a) && Stands(p, at, b) && |a| == |b|
    ensures a == b
  {
    forall k: nat | k < |a| ensures a[k] == b[k] {
      StandsAt(p, at, a, k);
      StandsAt(p, at, b, k);
    }
  }

  /** A run of one class cannot end before another one does. */
  lemma RunNotShorter(p: string, at: nat, a: string, b: string, class_: Class)
    requires Stands(p, at, a) && Stands(p, at, b) && AllIn(b, class_)
    requires at + |a| < |p| ==> !Belongs(p[at + |a|], class_)
    ensures |a| >= |b|
  {
    if |a| < |b| {
      StandsAt(p, at, b, |a|);
    }
  }

  lemma RunUnique(p: string, at: nat, a: string, b: string, class_: Class)
    requires Stands(p, at, a) && Stands(p, at, b) && AllIn(a, class_) && AllIn(b, class_)
    requires at + |a| < |p| ==> !Belongs(p[at + |a|], class_)
    requires at + |b| < |p| ==> !Belongs(p[at + |b|], class_)
    ensures a == b
  {
    RunNotShorter(p, at, a, b, class_);
    RunNotShorter(p, at, b, a, class_);
    SameLength(p, at, a, b);
  }

  /** Digits closed by a dollar sign. */
  predicate Dollared(p: string, at: nat, digits: string) {
    digits != "" && AllIn(digits, Digit) && Stands(p, at, digits) && CharAt(p, at + |digits|, '$')
  }

  ghost predicate Undollared(p: string, at: nat) { forall digits :: !Dollared(p, at, digits) }

  /** This place can stand here: the next argument only where no number is spelled. */
  ghost predicate PlaceHere(p: string, at: nat, place: Place) {
    && LegalPlace(place)
    && if place.Numbered? then Dollared(p, at, place.digits) else Undollared(p, at)
  }

  ghost predicate OnlyPlace(p: string, at: nat, place: Place) {
    forall other :: PlaceHere(p, at, other) ==> other == place
  }

  ghost predicate NoPlace(p: string, at: nat) { forall other :: !PlaceHere(p, at, other) }

  lemma PlaceUnique(p: string, at: nat, a: Place, b: Place)
    requires PlaceHere(p, at, a) && PlaceHere(p, at, b)
    ensures a == b
  {
    if a.Numbered? && b.Numbered? {
      RunUnique(p, at, a.digits, b.digits, Digit);
    }
  }

  /** A character that neither prolongs a field nor makes it look like another. */
  predicate Closes(p: string, at: nat) { at < |p| && !IsDecimal(p[at]) && p[at] != '*' && p[at] != '$' }

  ghost predicate FieldHere(p: string, at: nat, field: Field) {
    LegalField(field) && FieldLaid(p, at, field) && Closes(p, at + FieldSize(field))
  }

  ghost predicate OnlyField(p: string, at: nat, field: Field) {
    forall other :: FieldHere(p, at, other) ==> other == field
  }

  ghost predicate NoField(p: string, at: nat) { forall other :: !FieldHere(p, at, other) }

  lemma DollaredStarts(p: string, at: nat, digits: string)
    requires Dollared(p, at, digits)
    ensures at < |p| && IsDecimal(p[at])
  {
    StandsAt(p, at, digits, 0);
    assert Belongs(digits[0], Digit);
  }

  lemma NoDigitUndollared(p: string, at: nat)
    requires at < |p| && !IsDecimal(p[at])
    ensures Undollared(p, at)
  {
    forall digits ensures !Dollared(p, at, digits) {
      if Dollared(p, at, digits) {
        DollaredStarts(p, at, digits);
      }
    }
  }

  lemma FieldStarts(p: string, at: nat, field: Field)
    requires FieldHere(p, at, field)
    ensures at < |p| && (p[at] == '*' <==> field.Star?) && (field.Star? ==> PlaceHere(p, at + 1, field.place))
  {
    match field
    case Fixed(digits) =>
      if digits != "" {
        StandsAt(p, at, digits, 0);
        assert Belongs(digits[0], Digit);
      }
    case Star(place) =>
      if place.Next? {
        NoDigitUndollared(p, at + 1);
      }
  }

  lemma FieldUnique(p: string, at: nat, a: Field, b: Field)
    requires FieldHere(p, at, a) && FieldHere(p, at, b)
    ensures a == b
  {
    FieldStarts(p, at, a);
    FieldStarts(p, at, b);
    if a.Star? {
      PlaceUnique(p, at + 1, a.place, b.place);
    } else {
      RunUnique(p, at, a.digits, b.digits, Digit);
    }
  }

  // ---------- The first character of each part ----------

  ghost predicate Candidate(p: string, at: nat, c: Piece) { c.Conversion? && Legal(c) && Laid(p, at, c) }

  predicate EndLetter(c: char) {
    LengthLetter(c) || IntegerLetter(c) || FloatLetter(c) || c == 's' || c == 'c' || c == 'p'
  }

  lemma EndStarts(p: string, at: nat, c: Piece)
    requires Candidate(p, at, c)
    ensures LengthStart(at, c) < |p| && EndLetter(p[LengthStart(at, c)]) && !LengthLetter(c.letter)
  {
    if c.length != "" {
      StandsAt(p, LengthStart(at, c), c.length, 0);
    }
  }

  lemma PrecisionStarts(p: string, at: nat, c: Piece)
    requires Candidate(p, at, c)
    ensures PrecisionStart(at, c) < |p| && (p[PrecisionStart(at, c)] == '.' || EndLetter(p[PrecisionStart(at, c)]))
    ensures c.precision.Some? <==> p[PrecisionStart(at, c)] == '.'
  {
    EndStarts(p, at, c);
  }

  lemma WidthHere(p: string, at: nat, c: Piece)
    requires Candidate(p, at, c)
    ensures FieldHere(p, WidthStart(at, c), c.width)
  {
    PrecisionStarts(p, at, c);
  }

  lemma PrecisionHere(p: string, at: nat, c: Piece)
    requires Candidate(p, at, c) && c.precision.Some?
    ensures FieldHere(p, PrecisionStart(at, c) + 1, c.precision.value)
  {
    EndStarts(p, at, c);
  }

  lemma WidthStarts(p: string, at: nat, c: Piece)
    requires Candidate(p, at, c)
    ensures WidthStart(at, c) < |p| && !Belongs(p[WidthStart(at, c)], Flag) && p[WidthStart(at, c)] != '%'
  {
    PrecisionStarts(p, at, c);
    WidthHere(p, at, c);
    match c.width
    case Star(place) => FieldStarts(p, WidthStart(at, c), c.width);
    case Fixed(digits) =>
      if digits != "" {
        StandsAt(p, WidthStart(at, c), digits, 0);
        assert Belongs(digits[0], Digit);
      }
  }

  lemma WidthUndollared(p: string, at: nat, c: Piece)
    requires Candidate(p, at, c)
    ensures Undollared(p, WidthStart(at, c))
  {
    var here := WidthStart(at, c);
    WidthHere(p, at, c);
    match c.width
    case Star(place) =>
      FieldStarts(p, here, c.width);
      NoDigitUndollared(p, here);
    case Fixed(digits) =>
      forall others ensures !Dollared(p, here, others) {
        if Dollared(p, here, others) {
          RunUnique(p, here, digits, others, Digit);
        }
      }
  }

  /** Digits that start among the flags and reach the width are digits of the width at its start. */
  lemma DollaredLater(p: string, at: nat, digits: string, n: nat)
    requires Dollared(p, at, digits) && n < |digits|
    ensures Dollared(p, at + n, digits[n..])
  {
    assert digits == digits[..n] + digits[n..];
    StandsJoin(p, at, digits[..n], digits[n..]);
    forall k | 0 <= k < |digits[n..]| ensures Belongs(digits[n..][k], Digit) {
      assert Belongs(digits[n + k], Digit);
    }
  }

  lemma FlagAt(p: string, at: nat, c: Piece, n: nat)
    requires Candidate(p, at, c) && n < |c.flags|
    ensures FlagsStart(at, c) + n < |p| && Belongs(p[FlagsStart(at, c) + n], Flag)
  {
    StandsAt(p, FlagsStart(at, c), c.flags, n);
    assert Belongs(c.flags[n], Flag);
  }

  lemma FlagsUndollared(p: string, at: nat, c: Piece)
    requires Candidate(p, at, c)
    ensures Undollared(p, FlagsStart(at, c))
  {
    var here := FlagsStart(at, c);
    WidthUndollared(p, at, c);
    WidthStarts(p, at, c);
    forall digits ensures !Dollared(p, here, digits) {
      if Dollared(p, here, digits) {
        if |digits| < |c.flags| {
          FlagAt(p, at, c, |digits|);
        } else if |digits| > |c.flags| {
          DollaredLater(p, here, digits, |c.flags|);
        } else {
          PrecisionStarts(p, at, c);
          DollarAtWidth(p, at, c);
        }
      }
    }
  }

  lemma DollarAtWidth(p: string, at: nat, c: Piece)
    requires Candidate(p, at, c)
    ensures p[WidthStart(at, c)] != '$'
  {
    PrecisionStarts(p, at, c);
    WidthHere(p, at, c);
    match c.width
    case Star(place) => FieldStarts(p, WidthStart(at, c), c.width);
    case Fixed(digits) =>
      if digits != "" {
        StandsAt(p, WidthStart(at, c), digits, 0);
        assert Belongs(digits[0], Digit);
      }
  }

  lemma PlaceIsHere(p: string, at: nat, c: Piece)
    requires Candidate(p, at, c)
    ensures PlaceHere(p, at, c.place)
  {
    FlagsUndollared(p, at, c);
  }

  lemma ConversionStarts(p: string, at: nat, c: Piece)
    requires Candidate(p, at, c)
    ensures at < |p| && p[at] != '%'
  {
    WidthStarts(p, at, c);
    if c.place.Numbered? {
      StandsAt(p, at, c.place.digits, 0);
      assert Belongs(c.place.digits[0], Digit);
    } else if c.flags != "" {
      StandsAt(p, at, c.flags, 0);
      assert Belongs(c.flags[0], Flag);
    }
  }

  // ---------- A conversion is read in only one way ----------

  /** The first k parts of two conversions agree. */
  predicate Same(k: nat, c: Piece, d: Piece) {
    && c.Conversion? && d.Conversion?
    && (k >= 1 ==> c.place == d.place) && (k >= 2 ==> c.flags == d.flags)
    && (k >= 3 ==> c.width == d.width) && (k >= 4 ==> c.precision == d.precision)
  }

  /** Every conversion that stands here has the draft's first k parts. */
  ghost predicate Forced(p: string, at: nat, k: nat, draft: Piece) {
    forall c :: Candidate(p, at, c) ==> Same(k, c, draft)
  }

  ghost predicate NoCandidate(p: string, at: nat) { forall c :: !Candidate(p, at, c) }

  /** The length modifier at a position: a doubled letter first, else a single one. */
  function LengthAt(p: string, at: nat): string {
    if at + 1 < |p| && p[at] == p[at + 1] == 'h' then "hh"
    else if at + 1 < |p| && p[at] == p[at + 1] == 'l' then "ll"
    else if at < |p| && LengthLetter(p[at]) then [p[at]]
    else ""
  }

  lemma EndStage(p: string, at: nat, c: Piece)
    requires Candidate(p, at, c)
    ensures c.length == LengthAt(p, LengthStart(at, c))
  {
    var here := LengthStart(at, c);
    EndStarts(p, at, c);
    if |c.length| >= 1 {
      StandsAt(p, here, c.length, 0);
    }
    if |c.length| >= 2 {
      StandsAt(p, here, c.length, 1);
    }
  }

  lemma FlagsStage(p: string, at: nat, flags: string, c: Piece)
    requires Candidate(p, at, c) && Stands(p, FlagsStart(at, c), flags) && AllIn(flags, Flag)
    requires var next := FlagsStart(at, c) + |flags|; next < |p| ==> !Belongs(p[next], Flag)
    ensures c.flags == flags
  {
    WidthStarts(p, at, c);
    RunUnique(p, FlagsStart(at, c), c.flags, flags, Flag);
  }

  lemma ForcedPlace(p: string, at: nat, place: Place, d: Piece)
    requires d.Conversion? && OnlyPlace(p, at, place)
    ensures Forced(p, at, 1, d.(place := place))
  {
    forall c | Candidate(p, at, c) ensures c.place == place {
      PlaceIsHere(p, at, c);
    }
  }

  lemma PlaceMissing(p: string, at: nat)
    requires NoPlace(p, at)
    ensures NoCandidate(p, at)
  {
    forall c ensures !Candidate(p, at, c) {
      if Candidate(p, at, c) {
        PlaceIsHere(p, at, c);
      }
    }
  }

  lemma ForcedFlags(p: string, at: nat, flags: string, d: Piece)
    requires d.Conversion? && Forced(p, at, 1, d) && Stands(p, FlagsStart(at, d), flags) && AllIn(flags, Flag)
    requires var next := FlagsStart(at, d) + |flags|; next < |p| ==> !Belongs(p[next], Flag)
    ensures Forced(p, at, 2, d.(flags := flags))
  {
    forall c | Candidate(p, at, c) ensures Same(2, c, d.(flags := flags)) {
      assert Same(1, c, d);
      FlagsStage(p, at, flags, c);
    }
  }

  lemma ForcedWidth(p: string, at: nat, width: Field, d: Piece)
    requires d.Conversion? && Forced(p, at, 2, d) && OnlyField(p, WidthStart(at, d), width)
    ensures Forced(p, at, 3, d.(width := width))
  {
    forall c | Candidate(p, at, c) ensures Same(3, c, d.(width := width)) {
      assert Same(2, c, d);
      WidthHere(p, at, c);
    }
  }

  lemma WidthMissing(p: string, at: nat, d: Piece)
    requires d.Conversion? && Forced(p, at, 2, d) && NoField(p, WidthStart(at, d))
    ensures NoCandidate(p, at)
  {
    forall c ensures !Candidate(p, at, c) {
      if Candidate(p, at, c) {
        assert Same(2, c, d);
        WidthHere(p, at, c);
      }
    }
  }

  lemma ForcedPrecision(p: string, at: nat, field: Field, d: Piece)
    requires d.Conversion? && Forced(p, at, 3, d) && PrecisionStart(at, d) < |p| && p[PrecisionStart(at, d)] == '.'
    requires OnlyField(p, PrecisionStart(at, d) + 1, field)
    ensures Forced(p, at, 4, d.(precision := Some(field)))
  {
    forall c | Candidate(p, at, c) ensures Same(4, c, d.(precision := Some(field))) {
      assert Same(3, c, d);
      PrecisionStarts(p, at, c);
      PrecisionHere(p, at, c);
    }
  }

  lemma PrecisionMissing(p: string, at: nat, d: Piece)
    requires d.Conversion? && Forced(p, at, 3, d) && PrecisionStart(at, d) < |p| && p[PrecisionStart(at, d)] == '.'
    requires NoField(p, PrecisionStart(at, d) + 1)
    ensures NoCandidate(p, at)
  {
    forall c ensures !Candidate(p, at, c) {
      if Candidate(p, at, c) {
        assert Same(3, c, d);
        PrecisionStarts(p, at, c);
        PrecisionHere(p, at, c);
      }
    }
  }

  lemma ForcedNoPrecision(p: string, at: nat, d: Piece)
    requires d.Conversion? && Forced(p, at, 3, d)
    requires PrecisionStart(at, d) < |p| ==> p[PrecisionStart(at, d)] != '.'
    ensures Forced(p, at, 4, d.(precision := None))
  {
    forall c | Candidate(p, at, c) ensures Same(4, c, d.(precision := None)) {
      assert Same(3, c, d);
      PrecisionStarts(p, at, c);
    }
  }

  /** A length and an accepting letter stand here. */
  predicate EndsAt(p: string, here: nat) {
    var end := here + |LengthAt(p, here)|;
    end < |p| && TypeOf(LengthAt(p, here), p[end]).Some?
  }

  lemma CandidateEnds(p: string, at: nat, c: Piece)
    requires Candidate(p, at, c)
    ensures EndsAt(p, LengthStart(at, c))
  {
    EndStage(p, at, c);
  }

  lemma SameEnds(p: string, at: nat, c: Piece, d: Piece)
    requires Candidate(p, at, c) && Same(4, c, d)
    ensures LengthStart(at, c) == LengthStart(at, d)
  {
  }

  lemma ForcedEnd(p: string, at: nat, d: Piece)
    requires d.Conversion? && Forced(p, at, 4, d)
    ensures EndsAt(p, LengthStart(at, d)) || NoCandidate(p, at)
  {
    forall c | Candidate(p, at, c) ensures EndsAt(p, LengthStart(at, d)) {
      SameEnds(p, at, c, d);
      CandidateEnds(p, at, c);
    }
  }

  lemma SamePlace(p: string, at: nat, c: Piece, d: Piece)
    requires Candidate(p, at, c) && Candidate(p, at, d)
    ensures Same(1, c, d)
  {
    PlaceIsHere(p, at, c);
    PlaceIsHere(p, at, d);
    PlaceUnique(p, at, c.place, d.place);
  }

  lemma SameFlags(p: string, at: nat, c: Piece, d: Piece)
    requires Candidate(p, at, c) && Candidate(p, at, d) && Same(1, c, d)
    ensures Same(2, c, d)
  {
    WidthStarts(p, at, d);
    FlagsStage(p, at, d.flags, c);
  }

  lemma SameWidth(p: string, at: nat, c: Piece, d: Piece)
    requires Candidate(p, at, c) && Candidate(p, at, d) && Same(2, c, d)
    ensures Same(3, c, d)
  {
    WidthHere(p, at, c);
    WidthHere(p, at, d);
    FieldUnique(p, WidthStart(at, d), c.width, d.width);
  }

  lemma SamePrecision(p: string, at: nat, c: Piece, d: Piece)
    requires Candidate(p, at, c) && Candidate(p, at, d) && Same(3, c, d)
    ensures Same(4, c, d)
  {
    PrecisionStarts(p, at, c);
    PrecisionStarts(p, at, d);
    if d.precision.Some? {
      PrecisionHere(p, at, c);
      PrecisionHere(p, at, d);
      FieldUnique(p, PrecisionStart(at, d) + 1, c.precision.value, d.precision.value);
    }
  }

  lemma ConversionUnique(p: string, at: nat, c: Piece, d: Piece)
    requires Candidate(p, at, c) && Candidate(p, at, d)
    ensures c == d
  {
    SamePlace(p, at, c, d);
    SameFlags(p, at, c, d);
    SameWidth(p, at, c, d);
    SamePrecision(p, at, c, d);
    EndStage(p, at, c);
    EndStage(p, at, d);
  }

  // ---------- The reader ----------

  /** The longest run of characters of one class. */
  method Skip(p: string, at: nat, class_: Class) returns (end: nat)
    requires at <= |p|
    ensures at <= end <= |p| && AllIn(p[at..end], class_) && Stands(p, at, p[at..end])
    ensures end < |p| ==> !Belongs(p[end], class_)
  {
    end := at;
    while end < |p| && Belongs(p[end], class_)
      invariant at <= end <= |p| && forall k :: at <= k < end ==> Belongs(p[k], class_)
    {
      end := end + 1;
    }
    SliceStands(p, at, p[at..end]);
  }

  function Saturated(n: nat): nat { if n < LIMIT + 1 then n else LIMIT + 1 }

  lemma {:induction false} SamePrefix(a: string, b: string, n: nat)
    requires n <= |a| && n <= |b| && AllIn(a, Digit) && AllIn(b, Digit)
    requires forall k :: 0 <= k < n ==> a[k] == b[k]
    ensures Prefix(a, n) == Prefix(b, n)
  {
    if n > 0 {
      SamePrefix(a, b, n - 1);
    }
  }

  lemma NumberGrows(p: string, at: nat, k: nat)
    requires at <= k < |p| && forall j :: at <= j <= k ==> IsDecimal(p[j])
    ensures AllIn(p[at..k], Digit) && AllIn(p[at..k + 1], Digit)
    ensures Number(p[at..k + 1]) == Number(p[at..k]) * 10 + DigitValue(p[k])
  {
    SamePrefix(p[at..k], p[at..k + 1], k - at);
  }

  /** The number spelled from here on; it saturates and so stays below 1300. */
  method ReadNumber(p: string, at: nat) returns (end: nat, index: nat)
    requires at <= |p|
    ensures at <= end <= |p| && AllIn(p[at..end], Digit) && Stands(p, at, p[at..end])
    ensures end < |p| ==> !IsDecimal(p[end])
    ensures index == Saturated(Number(p[at..end]))
  {
    end, index := at, 0;
    assert p[at..at] == "";
    while end < |p| && IsDecimal(p[end])
      invariant at <= end <= |p| && forall k :: at <= k < end ==> IsDecimal(p[k])
      invariant AllIn(p[at..end], Digit) && index == Saturated(Number(p[at..end]))
      invariant index <= LIMIT + 1
    {
      NumberGrows(p, at, end);
      index := Saturated(index * 10 + DigitValue(p[end]));
      end := end + 1;
    }
    SliceStands(p, at, p[at..end]);
  }

  lemma NumberedHere(p: string, at: nat, digits: string)
    requires Dollared(p, at, digits)
    ensures OnlyPlace(p, at, Numbered(digits))
  {
    forall place | PlaceHere(p, at, place) ensures place == Numbered(digits) {
      if place.Numbered? {
        RunUnique(p, at, place.digits, digits, Digit);
      }
    }
  }

  lemma NextHere(p: string, at: nat, digits: string)
    requires AllIn(digits, Digit) && Stands(p, at, digits)
    requires at + |digits| < |p| ==> !IsDecimal(p[at + |digits|])
    requires digits == "" || at + |digits| >= |p| || p[at + |digits|] != '$'
    ensures OnlyPlace(p, at, Next)
  {
    forall place | PlaceHere(p, at, place) ensures place == Next {
      if place.Numbered? {
        RunUnique(p, at, place.digits, digits, Digit);
      }
    }
  }

  /** Digits closed by a dollar sign number an argument. */
  method ArgumentPosition(p: string, at: nat) returns (ok: bool, next: nat, position: Option<nat>, ghost place: Place)
    requires at <= |p|
    ensures ok ==> LegalPlace(place) && position == PositionOf(place)
    ensures ok ==> next == at + PlaceSize(place) <= |p| && PlaceLaid(p, at, place)
    ensures ok ==> OnlyPlace(p, at, place)
    ensures !ok ==> NoPlace(p, at)
  {
    var end, index := ReadNumber(p, at);
    ghost var digits := p[at..end];
    if end < |p| && p[end] == '$' && end != at {
      place := Numbered(digits);
      ok, next, position := 1 <= index <= LIMIT, end + 1, if index == 0 then None else Some(index - 1);
      NumberedHere(p, at, digits);
    } else {
      ok, next, position, place := true, at, None, Next;
      NextHere(p, at, digits);
    }
  }

  lemma StarHere(p: string, at: nat, place: Place)
    requires CharAt(p, at, '*') && OnlyPlace(p, at + 1, place)
    ensures OnlyField(p, at, Star(place))
  {
    forall field | FieldHere(p, at, field) ensures field == Star(place) {
      FieldStarts(p, at, field);
    }
  }

  lemma NoFieldHere(p: string, at: nat)
    requires CharAt(p, at, '*') && NoPlace(p, at + 1)
    ensures NoField(p, at)
  {
    forall field ensures !FieldHere(p, at, field) {
      if FieldHere(p, at, field) {
        FieldStarts(p, at, field);
      }
    }
  }

  lemma FixedHere(p: string, at: nat, digits: string)
    requires !CharAt(p, at, '*') && AllIn(digits, Digit) && Stands(p, at, digits)
    requires at + |digits| < |p| ==> !IsDecimal(p[at + |digits|])
    ensures OnlyField(p, at, Fixed(digits))
  {
    forall field | FieldHere(p, at, field) ensures field == Fixed(digits) {
      FieldStarts(p, at, field);
      RunUnique(p, at, field.digits, digits, Digit);
    }
  }

  /** A width, or a precision after its dot. */
  method ReadField(p: string, at: nat) returns (ok: bool, next: nat, uses: seq<Use>, ghost field: Field)
    requires at <= |p|
    ensures ok ==> LegalField(field) && uses == FieldUses(field)
    ensures ok ==> next == at + FieldSize(field) <= |p| && FieldLaid(p, at, field)
    ensures ok ==> OnlyField(p, at, field)
    ensures ok && field.Fixed? && field.digits != "" ==> at < |p| && field.digits[0] == p[at]
    ensures !ok ==> NoField(p, at)
  {
    if at < |p| && p[at] == '*' {
      var position;
      ghost var place;
      ok, next, position, place := ArgumentPosition(p, at + 1);
      uses, field := [Use(position, Int)], Star(place);
      if ok {
        StarHere(p, at, place);
      } else {
        NoFieldHere(p, at);
      }
    } else {
      next := Skip(p, at, Digit);
      ok, uses, field := true, [], Fixed(p[at..next]);
      FixedHere(p, at, p[at..next]);
    }
  }

  method ReadLength(p: string, at: nat) returns (next: nat)
    requires at <= |p|
    ensures next == at + |LengthAt(p, at)| <= |p| && p[at..next] == LengthAt(p, at) && LegalLength(p[at..next])
  {
    if at + 1 < |p| && ((p[at] == 'h' && p[at + 1] == 'h') || (p[at] == 'l' && p[at + 1] == 'l')) {
      next := at + 2;
    } else if at < |p| && LengthLetter(p[at]) {
      next := at + 1;
    } else {
      next := at;
    }
  }

  /** The place and the flags of a conversion. */
  method ReadFlags(p: string, at: nat) returns (ok: bool, next: nat, position: Option<nat>, ghost c: Piece)
    requires at <= |p|
    ensures c.Conversion? && (!ok ==> NoCandidate(p, at))
    ensures ok ==> Forced(p, at, 2, c) && next == WidthStart(at, c) <= |p| && (next < |p| ==> p[next] != '0')
    ensures ok ==> LegalPlace(c.place) && position == PositionOf(c.place) && AllIn(c.flags, Flag)
    ensures ok ==> PlaceLaid(p, at, c.place) && Stands(p, FlagsStart(at, c), c.flags)
  {
    next, c := at, Conversion(Next, "", Fixed(""), None, "", 'd');
    ghost var place;
    ok, next, position, place := ArgumentPosition(p, at);
    if !ok {
      PlaceMissing(p, at);
      return;
    }
    ForcedPlace(p, at, place, c);
    c := c.(place := place);
    ghost var flags := next;
    next := Skip(p, next, Flag);
    ForcedFlags(p, at, p[flags..next], c);
    c := c.(flags := p[flags..next]);
  }

  /** The width, which starts with no zero because the flags have taken it. */
  method ReadWidth(p: string, at: nat, ghost start: nat, ghost d: Piece)
    returns (ok: bool, next: nat, uses: seq<Use>, ghost width: Field)
    requires d.Conversion? && Forced(p, start, 2, d) && at == WidthStart(start, d) <= |p| && (at < |p| ==> p[at] != '0')
    ensures !ok ==> NoCandidate(p, start)
    ensures ok ==> LegalField(width) && (width.Fixed? && width.digits != "" ==> width.digits[0] != '0')
    ensures ok ==> uses == FieldUses(width) && Forced(p, start, 3, d.(width := width))
    ensures ok ==> next == at + FieldSize(width) <= |p| && FieldLaid(p, at, width)
  {
    ok, next, uses, width := ReadField(p, at);
    if ok {
      ForcedWidth(p, start, width, d);
    } else {
      WidthMissing(p, start, d);
    }
  }

  /** The precision, if there is one. */
  method ReadPrecision(p: string, at: nat, ghost start: nat, ghost d: Piece)
    returns (ok: bool, next: nat, uses: seq<Use>, ghost precision: Option<Field>)
    requires d.Conversion? && Forced(p, start, 3, d) && at == PrecisionStart(start, d) <= |p|
    ensures !ok ==> NoCandidate(p, start)
    ensures ok ==> (precision.Some? ==> LegalField(precision.value)) && Forced(p, start, 4, d.(precision := precision))
    ensures ok ==> uses == if precision.Some? then FieldUses(precision.value) else []
    ensures ok ==> next == at + PrecisionSize(precision) <= |p| && PrecisionLaid(p, at, precision)
  {
    if at < |p| && p[at] == '.' {
      ghost var field;
      ok, next, uses, field := ReadField(p, at + 1);
      precision := Some(field);
      if ok {
        ForcedPrecision(p, start, field, d);
      } else {
        PrecisionMissing(p, start, d);
      }
    } else {
      ForcedNoPrecision(p, start, d);
      ok, next, uses, precision := true, at, [], None;
    }
  }

  /** The length modifier and the conversion letter. */
  method ReadEnd(p: string, at: nat, ghost start: nat, ghost d: Piece)
    returns (kind: Option<Argument>, next: nat, ghost length: string, ghost letter: char)
    requires d.Conversion? && Forced(p, start, 4, d) && at == LengthStart(start, d) <= |p|
    ensures kind.None? ==> NoCandidate(p, start)
    ensures kind.Some? ==> LegalLength(length) && kind == TypeOf(length, letter)
    ensures kind.Some? ==> next == at + |length| + 1 <= |p| && Stands(p, at, length) && p[next - 1] == letter
  {
    var here := ReadLength(p, at);
    kind, next := None, here;
    length, letter := p[at..here], 'd';
    SliceStands(p, at, length);
    ForcedEnd(p, start, d);
    if here < |p| {
      kind, next := TypeOf(p[at..here], p[here]), here + 1;
      letter := p[here];
    }
  }

  /** The place, flags and width of a conversion. */
  method ReadFront(p: string, at: nat)
    returns (ok: bool, next: nat, position: Option<nat>, uses: seq<Use>, ghost c: Piece)
    requires at <= |p|
    ensures c.Conversion? && (!ok ==> NoCandidate(p, at))
    ensures ok ==> Forced(p, at, 3, c) && next == PrecisionStart(at, c) <= |p|
    ensures ok ==> LegalPlace(c.place) && position == PositionOf(c.place) && AllIn(c.flags, Flag)
    ensures ok ==> LegalField(c.width) && (c.width.Fixed? && c.width.digits != "" ==> c.width.digits[0] != '0')
    ensures ok ==> uses == FieldUses(c.width)
    ensures ok ==> PlaceLaid(p, at, c.place) && Stands(p, FlagsStart(at, c), c.flags)
    ensures ok ==> FieldLaid(p, WidthStart(at, c), c.width)
  {
    uses := [];
    ok, next, position, c := ReadFlags(p, at);
    if ok {
      ghost var width;
      ok, next, uses, width := ReadWidth(p, next, at, c);
      c := c.(width := width);
    }
  }

  /** The rest of a conversion after its percent sign. */
  method ReadConversion(p: string, at: nat) returns (ok: bool, next: nat, uses: seq<Use>, ghost c: Piece)
    requires at <= |p|
    ensures ok ==> Candidate(p, at, c) && next == LetterStart(at, c) + 1 && uses == UsesOf(c)
    ensures !ok ==> NoCandidate(p, at)
  {
    var position, precisionUses, kind;
    ghost var precision, length, letter, d;
    ok, next, position, uses, d := ReadFront(p, at);
    c := d;
    if !ok {
      return;
    }
    ok, next, precisionUses, precision := ReadPrecision(p, next, at, d);
    if !ok {
      return;
    }
    kind, next, length, letter := ReadEnd(p, next, at, d.(precision := precision));
    if kind == None {
      ok := false;
      return;
    }
    c := Conversion(d.place, d.flags, d.width, precision, length, letter);
    Assembled(p, at, d, c);
    uses := uses + precisionUses + [Use(position, kind.value)];
  }

  /** A front that stands here, completed by parts that stand after it. */
  lemma Assembled(p: string, at: nat, d: Piece, c: Piece)
    requires d.Conversion? && c.Conversion? && Same(3, c, d)
    requires LegalPlace(d.place) && AllIn(d.flags, Flag)
    requires LegalField(d.width) && (d.width.Fixed? && d.width.digits != "" ==> d.width.digits[0] != '0')
    requires PlaceLaid(p, at, d.place) && Stands(p, FlagsStart(at, d), d.flags)
             && FieldLaid(p, WidthStart(at, d), d.width)
    requires (c.precision.Some? ==> LegalField(c.precision.value))
             && PrecisionLaid(p, PrecisionStart(at, d), c.precision)
    requires LegalLength(c.length) && TypeOf(c.length, c.letter).Some?
    requires Stands(p, PrecisionStart(at, d) + PrecisionSize(c.precision), c.length)
    requires CharAt(p, PrecisionStart(at, d) + PrecisionSize(c.precision) + |c.length|, c.letter)
    ensures Candidate(p, at, c)
  {
  }
}
