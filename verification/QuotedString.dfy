/**
 Quoted catalog strings. A body is a sequence of items, each a raw byte, a short
 escape, a `\u` escape or a surrogate pair of them, as in section 7 of RFC 8259; the
 decoder is proved to accept exactly the spellings of well-formed text.
 */
module QuotedString {
  import opened Wrappers
  import opened Sequences
  import opened PrefixCode
  import opened Bytes
  import opened Utf8

  // ---------- Items and their spelling ----------

  datatype Item =
    | Raw(byte: Byte)
    | Short(letter: Byte)
    | Unit(digits: seq<Byte>)
    | Pair(high: seq<Byte>, low: seq<Byte>)

  const QUOTE: Byte := 0x22
  const BACKSLASH: Byte := 0x5C
  const LETTER_U: Byte := 0x75

  /** The byte that a backslash and this letter stand for. */
  function ShortValue(letter: Byte): Option<Byte> {
    if letter in {QUOTE, BACKSLASH, 0x2F} then Some(letter)
    else if letter == 0x62 then Some(0x08)
    else if letter == 0x66 then Some(0x0C)
    else if letter == 0x6E then Some(0x0A)
    else if letter == 0x72 then Some(0x0D)
    else if letter == 0x74 then Some(0x09)
    else None
  }

  predicate IsQuad(digits: seq<Byte>) { |digits| == 4 && forall k :: 0 <= k < 4 ==> IsHex(digits[k] as char) }

  function Hex(digits: seq<Byte>): nat
    requires forall k :: 0 <= k < |digits| ==> IsHex(digits[k] as char)
  {
    if digits == [] then 0
    else Hex(digits[..|digits| - 1]) * 16 + DigitValue(digits[|digits| - 1] as char)
  }

  predicate HighSurrogate(unit: nat) { 0xD800 <= unit <= 0xDBFF }

  predicate LowSurrogate(unit: nat) { 0xDC00 <= unit <= 0xDFFF }

  function Combined(high: nat, low: nat): Scalar
    requires HighSurrogate(high) && LowSurrogate(low)
  {
    0x10000 + (high - 0xD800) * 0x400 + (low - 0xDC00)
  }

  lemma QuadValue(digits: seq<Byte>)
    requires IsQuad(digits)
    ensures Hex(digits) == ((DigitValue(digits[0] as char) * 16 + DigitValue(digits[1] as char)) * 16
                            + DigitValue(digits[2] as char)) * 16 + DigitValue(digits[3] as char)
    ensures Hex(digits) < 0x10000
  {
    var three, two, one := digits[..3], digits[..2], digits[..1];
    assert one[..0] == [] && two[..1] == one && three[..2] == two;
    assert Hex(one) == DigitValue(digits[0] as char);
    assert Hex(two) == Hex(one) * 16 + DigitValue(digits[1] as char);
    assert Hex(three) == Hex(two) * 16 + DigitValue(digits[2] as char);
  }

  predicate Legal(item: Item) {
    match item
    case Raw(b) => b >= 0x20 && b != QUOTE && b != BACKSLASH
    case Short(letter) => ShortValue(letter).Some?
    case Unit(digits) => IsQuad(digits) && !HighSurrogate(Hex(digits)) && !LowSurrogate(Hex(digits))
    case Pair(high, low) => IsQuad(high) && IsQuad(low) && HighSurrogate(Hex(high)) && LowSurrogate(Hex(low))
  }

  function Spell(item: Item): seq<Byte> {
    match item
    case Raw(b) => [b]
    case Short(letter) => [BACKSLASH, letter]
    case Unit(digits) => [BACKSLASH, LETTER_U] + digits
    case Pair(high, low) => [BACKSLASH, LETTER_U] + high + [BACKSLASH, LETTER_U] + low
  }

  function Meaning(item: Item): seq<Byte>
    requires Legal(item)
  {
    match item
    case Raw(b) => [b]
    case Short(letter) => [ShortValue(letter).value]
    case Unit(digits) => QuadValue(digits); Encode(Hex(digits))
    case Pair(high, low) => Encode(Combined(Hex(high), Hex(low)))
  }

  predicate AllLegal(items: seq<Item>) { AllOf(items, Legal) }

  function Spelled(items: seq<Item>): seq<Byte> { Joined(items, Spell) }

  function Meant(items: seq<Item>): seq<Byte>
    requires AllLegal(items)
  {
    if items == [] then [] else Meaning(items[0]) + Meant(items[1..])
  }

  /** The input is a quoted spelling of this well-formed text. */
  ghost predicate Denotes(input: seq<Byte>, items: seq<Item>, result: seq<Byte>) {
    && AllLegal(items)
    && input == [QUOTE] + Spelled(items) + [QUOTE]
    && result == Meant(items)
    && WellFormed(result)
  }

  ghost predicate DecodesTo(input: seq<Byte>, result: seq<Byte>) { exists items :: Denotes(input, items, result) }

  ghost predicate Undecodable(input: seq<Byte>) { forall items, result :: !Denotes(input, items, result) }

  // ---------- Spellings are unambiguous ----------

  /** No two different items start the same bytes. */
  lemma ItemUnique(s: seq<Byte>, a: Item, b: Item)
    requires Begins(s, a, Legal, Spell) && Begins(s, b, Legal, Spell)
    ensures a == b
  {
    HeadAt(s, a);
    HeadAt(s, b);
    if s[0] == BACKSLASH && s[1] == LETTER_U {
      QuadAt(s, a);
      QuadAt(s, b);
    }
  }

  /** The first byte tells raw items from escapes, and the second one short escapes from the others. */
  lemma HeadAt(s: seq<Byte>, item: Item)
    requires Begins(s, item, Legal, Spell)
    ensures |s| >= 1 && (item.Raw? <==> s[0] != BACKSLASH) && (item.Raw? ==> item == Raw(s[0]))
    ensures !item.Raw? ==> |s| >= 2 && (item.Short? <==> s[1] != LETTER_U) && (item.Short? ==> item == Short(s[1]))
  {
    var spelled := Spell(item);
    assert s[0] == spelled[0];
    if !item.Raw? {
      assert s[1] == spelled[1];
    }
  }

  lemma QuadAt(s: seq<Byte>, item: Item)
    requires Begins(s, item, Legal, Spell) && |s| >= 2 && s[0] == BACKSLASH && s[1] == LETTER_U
    ensures item.Unit? ==> |s| >= 6 && item.digits == s[2..6]
    ensures item.Pair? ==> |s| >= 12 && item.high == s[2..6] && item.low == s[8..12]
    ensures item.Pair? ==> s[6] == BACKSLASH && s[7] == LETTER_U
    ensures item.Unit? || item.Pair?
  {
    assert s[..|Spell(item)|] == Spell(item);
    assert Spell(item)[0] == s[0];
    if item.Unit? {
      assert Spell(item)[2..6] == item.digits;
    } else if item.Pair? {
      assert Spell(item)[2..6] == item.high && Spell(item)[8..12] == item.low;
      assert Spell(item)[6] == s[6] && Spell(item)[7] == s[7];
    }
  }

  lemma ItemsReadable()
    ensures Readable(Legal, Spell)
  {
    forall s, a, b | Begins(s, a, Legal, Spell) && Begins(s, b, Legal, Spell) ensures a == b {
      ItemUnique(s, a, b);
    }
  }

  lemma Within(input: seq<Byte>, from: nat, to: nat, i: nat, j: nat)
    requires i <= j && from + j <= to <= |input|
    ensures input[from..to][i..j] == input[from + i..from + j]
  {
    var a, b := input[from..to][i..j], input[from + i..from + j];
    forall k | 0 <= k < j - i ensures a[k] == b[k] {
      assert input[from..to][i + k] == input[from + (i + k)];
    }
  }

  lemma DenotationUnique(input: seq<Byte>, items: seq<Item>, a: seq<Byte>, other: seq<Item>, b: seq<Byte>)
    requires Denotes(input, items, a) && Denotes(input, other, b)
    ensures a == b
  {
    var body := input[1..|input| - 1];
    assert body == Spelled(items) == Spelled(other);
    ItemsReadable();
    JoinedUnique(items, other, Legal, Spell);
  }

  lemma {:induction false} MeantGrows(items: seq<Item>, item: Item)
    requires AllLegal(items) && Legal(item)
    ensures Meant(items + [item]) == Meant(items) + Meaning(item)
  {
    if items != [] {
      assert (items + [item])[1..] == items[1..] + [item];
      MeantGrows(items[1..], item);
    } else {
      assert Meant([item]) == Meaning(item) + Meant([]);
    }
  }

  // ---------- The decoder ----------

  /** Four digits that leave at least the closing quote unread. */
  method HexQuad(input: seq<Byte>, position: nat) returns (value: Option<nat>)
    requires position <= |input|
    ensures value.Some? <==> |input| - position >= 5 && IsQuad(input[position..position + 4])
    ensures value.Some? ==> value.value == Hex(input[position..position + 4])
  {
    if |input| - position < 5 {
      return None;
    }
    var total := 0;
    ghost var quad := input[position..position + 4];
    for index := 0 to 4
      invariant forall k :: 0 <= k < index ==> IsHex(quad[k] as char)
      invariant total == Hex(quad[..index])
    {
      var digit := input[position + index] as char;
      assert quad[index] == input[position + index];
      if !IsHex(digit) {
        return None;
      }
      total := total * 16 + DigitValue(digit);
      assert quad[..index + 1][..index] == quad[..index];
    }
    assert quad[..4] == quad;
    return Some(total);
  }

  /** The code point of a `\u` escape, whose digits start at `position`. */
  method UnicodeEscape(input: seq<Byte>, position: nat) returns (codepoint: Option<Scalar>, next: nat, ghost item: Item)
    requires 3 <= position < |input| && input[position - 2] == BACKSLASH && input[position - 1] == LETTER_U
    requires input[|input| - 1] == QUOTE
    ensures codepoint.Some? ==> position < next < |input| && Legal(item) && Spell(item) == input[position - 2..next]
    ensures codepoint.Some? ==> Meaning(item) == Encode(codepoint.value)
    ensures codepoint.None? ==> NothingBegins(input[position - 2..|input| - 1], Legal, Spell)
  {
    ghost var s := input[position - 2..|input| - 1];
    codepoint, next, item := None, position, Raw(0);
    var value := HexQuad(input, position);
    if value == None {
      NoQuad(s, input, position);
      return;
    }
    next := position + 4;
    ghost var high := input[position..next];
    Within(input, position - 2, |input| - 1, 2, 6);
    QuadValue(high);
    if HighSurrogate(value.value) {
      codepoint, next, item := SecondEscape(input, next, value.value);
    } else if LowSurrogate(value.value) {
      LoneLow(s);
    } else {
      item := Unit(high);
      UnitSpelled(input, position - 2);
      codepoint := Some(value.value);
    }
  }

  /** The rest of a surrogate pair, after the high half. */
  method SecondEscape(input: seq<Byte>, position: nat, high: nat)
    returns (codepoint: Option<Scalar>, next: nat, ghost item: Item)
    requires 7 <= position < |input| && input[position - 6] == BACKSLASH && input[position - 5] == LETTER_U
    requires input[|input| - 1] == QUOTE
    requires IsQuad(input[position - 4..position]) && Hex(input[position - 4..position]) == high && HighSurrogate(high)
    ensures codepoint.Some? ==> position < next < |input| && Legal(item) && Spell(item) == input[position - 6..next]
    ensures codepoint.Some? ==> Meaning(item) == Encode(codepoint.value)
    ensures codepoint.None? ==> NothingBegins(input[position - 6..|input| - 1], Legal, Spell)
  {
    ghost var s := input[position - 6..|input| - 1];
    codepoint, next, item := None, position, Raw(0);
    Within(input, position - 6, |input| - 1, 2, 6);
    if position + 2 > |input| || input[position] != BACKSLASH || input[position + 1] != LETTER_U {
      NoPair(s);
      return;
    }
    next := position + 2;
    var low := HexQuad(input, next);
    if low == None || !LowSurrogate(low.value) {
      NoLow(s, input, next);
      return;
    }
    item := Pair(input[position - 4..position], input[next..next + 4]);
    next := next + 4;
    PairSpelled(input, position - 6);
    codepoint := Some(Combined(high, low.value));
  }

  lemma UnitSpelled(input: seq<Byte>, at: nat)
    requires at + 6 <= |input| && input[at] == BACKSLASH && input[at + 1] == LETTER_U
    ensures Spell(Unit(input[at + 2..at + 6])) == input[at..at + 6]
  {
  }

  lemma PairSpelled(input: seq<Byte>, at: nat)
    requires at + 12 <= |input|
    requires input[at] == input[at + 6] == BACKSLASH && input[at + 1] == input[at + 7] == LETTER_U
    ensures Spell(Pair(input[at + 2..at + 6], input[at + 8..at + 12])) == input[at..at + 12]
  {
  }

  lemma NoQuad(s: seq<Byte>, input: seq<Byte>, position: nat)
    requires 2 <= position < |input| && s == input[position - 2..|input| - 1]
    requires |s| >= 2 && s[0] == BACKSLASH && s[1] == LETTER_U
    requires |input| - position < 5 || !IsQuad(input[position..position + 4])
    ensures NothingBegins(s, Legal, Spell)
  {
    forall other ensures !Begins(s, other, Legal, Spell) {
      if Begins(s, other, Legal, Spell) {
        QuadAt(s, other);
        Within(input, position - 2, |input| - 1, 2, 6);
      }
    }
  }

  lemma LoneLow(s: seq<Byte>)
    requires |s| >= 6 && s[0] == BACKSLASH && s[1] == LETTER_U && IsQuad(s[2..6]) && LowSurrogate(Hex(s[2..6]))
    ensures NothingBegins(s, Legal, Spell)
  {
    forall other ensures !Begins(s, other, Legal, Spell) {
      if Begins(s, other, Legal, Spell) {
        QuadAt(s, other);
      }
    }
  }

  lemma NoPair(s: seq<Byte>)
    requires |s| >= 6 && s[0] == BACKSLASH && s[1] == LETTER_U && IsQuad(s[2..6]) && HighSurrogate(Hex(s[2..6]))
    requires |s| < 8 || s[6] != BACKSLASH || s[7] != LETTER_U
    ensures NothingBegins(s, Legal, Spell)
  {
    forall other ensures !Begins(s, other, Legal, Spell) {
      if Begins(s, other, Legal, Spell) {
        QuadAt(s, other);
      }
    }
  }

  lemma NoLow(s: seq<Byte>, input: seq<Byte>, next: nat)
    requires 8 <= next <= |input| && s == input[next - 8..|input| - 1] && |s| >= 6
    requires s[0] == BACKSLASH && s[1] == LETTER_U && IsQuad(s[2..6]) && HighSurrogate(Hex(s[2..6]))
    requires |input| - next < 5 || !IsQuad(input[next..next + 4]) || !LowSurrogate(Hex(input[next..next + 4]))
    ensures NothingBegins(s, Legal, Spell)
  {
    forall other ensures !Begins(s, other, Legal, Spell) {
      if Begins(s, other, Legal, Spell) {
        QuadAt(s, other);
        if other.Pair? {
          Within(input, next - 8, |input| - 1, 8, 12);
        }
      }
    }
  }

  /** One item: its meaning is appended, or no item starts here. */
  method DecodeNext(input: seq<Byte>, position: nat, result: seq<Byte>)
    returns (ok: bool, next: nat, longer: seq<Byte>, ghost item: Item)
    requires 1 <= position < |input| - 1 && input[|input| - 1] == QUOTE
    ensures ok ==> position < next < |input| && Legal(item) && Spell(item) == input[position..next]
    ensures ok ==> longer == result + Meaning(item)
    ensures !ok ==> NothingBegins(input[position..|input| - 1], Legal, Spell)
  {
    ghost var s := input[position..|input| - 1];
    var byte := input[position];
    ok, next, longer, item := true, position + 1, result, Raw(byte);
    assert s[0] == byte;
    if byte < 0x20 || byte == QUOTE {
      ok := false;
      forall other ensures !Begins(s, other, Legal, Spell) {
        if Begins(s, other, Legal, Spell) {
          FirstByte(s, other);
        }
      }
      return;
    }
    if byte != BACKSLASH {
      longer := result + [byte];
      return;
    }
    if next >= |input| - 1 {
      ok := false;
      return;
    }
    var letter := input[next];
    next := next + 1;
    assert s[1] == letter;
    if letter == LETTER_U {
      var codepoint;
      codepoint, next, item := UnicodeEscape(input, next);
      ok := codepoint.Some?;
      if ok {
        longer := AppendUtf8(result, codepoint.value);
      }
    } else if ShortValue(letter).Some? {
      item := Short(letter);
      longer := result + [ShortValue(letter).value];
    } else {
      ok := false;
      NoShort(s);
    }
  }

  lemma FirstByte(s: seq<Byte>, item: Item)
    requires Begins(s, item, Legal, Spell)
    ensures s != [] && s[0] >= 0x20 && s[0] != QUOTE
  {
    assert Spell(item)[0] == s[0];
  }

  lemma EscapeLetter(s: seq<Byte>, item: Item)
    requires Begins(s, item, Legal, Spell) && s[0] == BACKSLASH
    ensures |s| >= 2 && (s[1] == LETTER_U || ShortValue(s[1]).Some?)
  {
    assert Spell(item)[0] == s[0];
    assert Spell(item)[1] == s[1];
  }

  lemma NoShort(s: seq<Byte>)
    requires |s| >= 2 && s[0] == BACKSLASH && s[1] != LETTER_U && ShortValue(s[1]).None?
    ensures NothingBegins(s, Legal, Spell)
  {
    forall other ensures !Begins(s, other, Legal, Spell) {
      if Begins(s, other, Legal, Spell) {
        EscapeLetter(s, other);
      }
    }
  }

  lemma NothingDenoted(input: seq<Byte>, done: seq<Item>, position: nat)
    requires 1 <= position < |input| - 1 && input[0] == QUOTE && input[|input| - 1] == QUOTE
    requires AllLegal(done) && Spelled(done) == input[1..position]
    requires NothingBegins(input[position..|input| - 1], Legal, Spell)
    ensures Undecodable(input)
  {
    var rest := input[position..|input| - 1];
    assert input == [QUOTE] + (Spelled(done) + rest) + [QUOTE];
    ItemsReadable();
    forall items, result ensures !Denotes(input, items, result) {
      if Denotes(input, items, result) {
        BodyUnique(Spelled(items), Spelled(done) + rest);
        NothingSpells(done, rest, items, Legal, Spell);
      }
    }
  }

  lemma BodyUnique(a: seq<Byte>, b: seq<Byte>)
    requires [QUOTE] + a + [QUOTE] == [QUOTE] + b + [QUOTE]
    ensures a == b
  {
    var quoted := [QUOTE] + a + [QUOTE];
    assert a == quoted[1..|quoted| - 1] == b;
  }

  lemma Unquoted(input: seq<Byte>)
    requires |input| < 2 || input[0] != QUOTE || input[|input| - 1] != QUOTE
    ensures Undecodable(input)
  {
  }

  lemma IllFormed(input: seq<Byte>, done: seq<Item>)
    requires AllLegal(done) && input == [QUOTE] + Spelled(done) + [QUOTE] && !WellFormed(Meant(done))
    ensures Undecodable(input)
  {
    ItemsReadable();
    forall items, result ensures !Denotes(input, items, result) {
      if Denotes(input, items, result) {
        BodyUnique(Spelled(items), Spelled(done));
        JoinedUnique(done, items, Legal, Spell);
      }
    }
  }

  /** The items before `position` mean the text so far. */
  ghost predicate Read(input: seq<Byte>, position: nat, done: seq<Item>, result: seq<Byte>) {
    && 1 <= position < |input| && input[0] == input[|input| - 1] == QUOTE
    && AllLegal(done) && Spelled(done) == input[1..position] && Meant(done) == result
  }

  lemma ReadGrows(input: seq<Byte>, position: nat, done: seq<Item>, result: seq<Byte>, item: Item, next: nat)
    requires Read(input, position, done, result) && position < next < |input|
    requires Legal(item) && Spell(item) == input[position..next]
    ensures Read(input, next, done + [item], result + Meaning(item))
  {
    JoinedLast(done, item, Spell);
    MeantGrows(done, item);
    Slices(input, 1, position, next);
  }

  lemma ReadAll(input: seq<Byte>, done: seq<Item>, result: seq<Byte>)
    requires |input| >= 2 && Read(input, |input| - 1, done, result)
    ensures if WellFormed(result) then DecodesTo(input, result) else Undecodable(input)
  {
    assert input == [QUOTE] + Spelled(done) + [QUOTE];
    if WellFormed(result) {
      assert Denotes(input, done, result);
    } else {
      IllFormed(input, done);
    }
  }

  /** The decoder succeeds exactly on the quoted spellings of well-formed text. */
  method Decode(input: seq<Byte>) returns (decoded: Option<seq<Byte>>)
    ensures decoded.Some? ==> DecodesTo(input, decoded.value)
    ensures decoded.None? ==> Undecodable(input)
  {
    if |input| < 2 || input[0] != QUOTE || input[|input| - 1] != QUOTE {
      Unquoted(input);
      return None;
    }
    var result := [];
    var position := 1;
    ghost var done: seq<Item> := [];
    while position < |input| - 1
      invariant Read(input, position, done, result)
      decreases |input| - position
    {
      var ok, next, longer;
      ghost var item;
      ok, next, longer, item := DecodeNext(input, position, result);
      if !ok {
        NothingDenoted(input, done, position);
        return None;
      }
      ReadGrows(input, position, done, result, item, next);
      position, result, done := next, longer, done + [item];
    }
    var valid := ValidUtf8(result);
    ReadAll(input, done, result);
    decoded := if valid then Some(result) else None;
  }

  // ---------- Every spelling of a text decodes to its UTF-8 ----------

  function Raws(bytes: seq<Byte>): seq<Item> { seq(|bytes|, k requires 0 <= k < |bytes| => Raw(bytes[k])) }

  /** The ways to spell one character: itself, a short escape, one `\u` escape, or a pair. */
  ghost predicate Spells(items: seq<Item>, c: Scalar) {
    && AllLegal(items)
    && (|| items == Raws(Encode(c))
        || (|items| == 1 && items[0].Short? && ShortValue(items[0].letter) == Some(c))
        || (|items| == 1 && items[0].Unit? && Hex(items[0].digits) == c)
        || (|items| == 1 && items[0].Pair? && Combined(Hex(items[0].high), Hex(items[0].low)) == c))
  }

  function Flat(parts: seq<seq<Item>>): seq<Item> {
    if parts == [] then [] else parts[0] + Flat(parts[1..])
  }

  lemma {:induction false} MeantJoins(a: seq<Item>, b: seq<Item>)
    requires AllLegal(a) && AllLegal(b)
    ensures AllLegal(a + b) && Meant(a + b) == Meant(a) + Meant(b)
  {
    if a == [] {
      assert a + b == b;
    } else {
      assert (a + b)[1..] == a[1..] + b;
      MeantJoins(a[1..], b);
    }
  }

  lemma {:induction false} RawsMean(bytes: seq<Byte>)
    requires AllLegal(Raws(bytes))
    ensures Meant(Raws(bytes)) == bytes
  {
    if bytes != [] {
      assert Raws(bytes)[1..] == Raws(bytes[1..]);
      assert Raws(bytes)[0] == Raw(bytes[0]);
      RawsMean(bytes[1..]);
    }
  }

  lemma SpellsMeans(items: seq<Item>, c: Scalar)
    requires Spells(items, c)
    ensures Meant(items) == Encode(c)
  {
    if items == Raws(Encode(c)) {
      RawsMean(Encode(c));
    } else {
      assert Meant(items) == Meaning(items[0]) + Meant([]);
    }
  }

  lemma {:induction false} EverySpellingDecodes(text: seq<Scalar>, parts: seq<seq<Item>>)
    requires |parts| == |text| && forall k :: 0 <= k < |text| ==> Spells(parts[k], text[k])
    ensures AllLegal(Flat(parts)) && Meant(Flat(parts)) == Encoded(text)
    ensures Denotes([QUOTE] + Spelled(Flat(parts)) + [QUOTE], Flat(parts), Encoded(text))
  {
    if text != [] {
      EverySpellingDecodes(text[1..], parts[1..]);
      SpellsMeans(parts[0], text[0]);
      MeantJoins(parts[0], Flat(parts[1..]));
    }
    DecodedEncoded(text);
  }

  /** So a spelled text decodes to its UTF-8 and to nothing else. */
  lemma SpellingsDecodeToUtf8(text: seq<Scalar>, parts: seq<seq<Item>>, result: seq<Byte>)
    requires |parts| == |text| && forall k :: 0 <= k < |text| ==> Spells(parts[k], text[k])
    ensures DecodesTo([QUOTE] + Spelled(Flat(parts)) + [QUOTE], result) <==> result == Encoded(text)
  {
    var input := [QUOTE] + Spelled(Flat(parts)) + [QUOTE];
    EverySpellingDecodes(text, parts);
    forall items | Denotes(input, items, result) ensures result == Encoded(text) {
      DenotationUnique(input, items, result, Flat(parts), Encoded(text));
    }
  }

  /** Every character has a `\u` spelling, as one escape or as a pair. */
  lemma EscapedSpellingExists(c: Scalar)
    ensures exists items: seq<Item> :: Spells(items, c) && forall k :: 0 <= k < |items| ==>
              !items[k].Raw? && !items[k].Short?
  {
    if c < 0x10000 {
      var d := QuadOf(c);
      assert Spells([Unit(d)], c);
    } else {
      var high, low := QuadOf(0xD800 + (c - 0x10000) / 0x400), QuadOf(0xDC00 + (c - 0x10000) % 0x400);
      assert Spells([Pair(high, low)], c);
    }
  }

  /** The letter that stands for a character after a backslash, as section 7 of RFC 8259 lists them. */
  function ShortLetter(c: Scalar): Option<char> {
    if c == '"' as int then Some('"')
    else if c == '\\' as int then Some('\\')
    else if c == '/' as int then Some('/')
    else if c == 8 then Some('b')
    else if c == 12 then Some('f')
    else if c == '\n' as int then Some('n')
    else if c == '\r' as int then Some('r')
    else if c == '\t' as int then Some('t')
    else None
  }

  /** A character has a short spelling exactly when it is listed, and then only the listed one. */
  lemma ShortSpellingIff(c: Scalar, letter: Byte)
    ensures Spells([Short(letter)], c) <==> ShortLetter(c) == Some(letter as char)
  {
    assert c < 0x80 ==> Encode(c) == [c];
  }

  function DigitOf(v: nat): (b: Byte)
    requires v < 16
    ensures IsHex(b as char) && DigitValue(b as char) == v
  {
    if v < 10 then 0x30 + v else 0x61 + (v - 10)
  }

  function QuadOf(unit: nat): (digits: seq<Byte>)
    requires unit < 0x10000
    ensures IsQuad(digits) && Hex(digits) == unit
  {
    var d := [DigitOf(unit / 0x1000), DigitOf(unit / 0x100 % 16), DigitOf(unit / 16 % 16), DigitOf(unit % 16)];
    FourDigits(unit);
    QuadValue(d);
    d
  }

  lemma FourDigits(unit: nat)
    ensures unit == unit / 16 * 16 + unit % 16
    ensures unit / 16 == unit / 0x100 * 16 + unit / 16 % 16
    ensures unit / 0x100 == unit / 0x1000 * 16 + unit / 0x100 % 16
  {
  }

  /** Raw spelling is open to every character but controls, the quote and the backslash. */
  lemma RawSpellingIff(c: Scalar)
    ensures Spells(Raws(Encode(c)), c) <==> c >= 0x20 && c != QUOTE && c != BACKSLASH
  {
    assert Raws(Encode(c))[0] == Raw(Encode(c)[0]);
  }
}
