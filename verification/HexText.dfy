/**
 Bytes and words as text: the hexadecimal reader and writers, the clipboard formats
 with their word reversal, and the numeric fields, related by round trips.
 */
module HexText {
  import opened Wrappers
  import opened Bytes
  import opened Sequences

  // ---------- Byte lists as text ----------

  predicate IsSeparator(c: char) { c == ' ' || c == '\t' || c == '\r' || c == '\n' || c == ',' }

  function TokenLength(text: string): (n: nat)
    ensures n <= |text|
  {
    if text == "" || IsSeparator(text[0]) then 0 else 1 + TokenLength(text[1..])
  }

  /** The maximal stretches of text without separators. */
  function Fields(text: string): seq<string>
    decreases |text|
  {
    if text == "" then []
    else if IsSeparator(text[0]) then Fields(text[1..])
    else [text[..TokenLength(text)]] + Fields(text[TokenLength(text)..])
  }

  function PairValue(high: char, low: char): Byte
    requires IsHex(high) && IsHex(low)
  {
    DigitValue(high) * 16 + DigitValue(low)
  }

  /** The bytes that pairs of digits spell. */
  function Pairs(digits: string): Option<seq<Byte>> {
    if digits == "" then Some([])
    else if |digits| == 1 || !IsHex(digits[0]) || !IsHex(digits[1]) then None
    else
      var rest := Pairs(digits[2..]);
      if rest.None? then None else Some([PairValue(digits[0], digits[1])] + rest.value)
  }

  predicate Prefixed(text: string) { |text| >= 2 && text[0] == '0' && (text[1] == 'x' || text[1] == 'X') }

  function Unprefixed(text: string): string { if Prefixed(text) then text[2..] else text }

  /** A token: an even, positive number of digits after an optional prefix. */
  function TokenBytes(token: string): Option<seq<Byte>> {
    if Unprefixed(token) == "" then None else Pairs(Unprefixed(token))
  }

  function AllBytes(tokens: seq<string>): Option<seq<Byte>> {
    if tokens == [] then Some([])
    else
      var first, rest := TokenBytes(tokens[0]), AllBytes(tokens[1..]);
      if first.None? || rest.None? then None else Some(first.value + rest.value)
  }

  /** What a text of byte tokens stands for. */
  function ByteList(text: string): Option<seq<Byte>> {
    if AllBytes(Fields(text)) == Some([]) then None else AllBytes(Fields(text))
  }

  // ---------- Splitting ----------

  lemma {:induction false} TokenEnds(a: string, sep: char, b: string)
    requires IsSeparator(sep)
    ensures TokenLength(a + [sep] + b) == TokenLength(a)
  {
    var whole := a + [sep] + b;
    if a != "" && !IsSeparator(a[0]) {
      assert whole[1..] == a[1..] + [sep] + b;
      TokenEnds(a[1..], sep, b);
    }
  }

  /** A separator splits the fields of a text. */
  lemma {:induction false} FieldsJoin(a: string, sep: char, b: string)
    requires IsSeparator(sep)
    ensures Fields(a + [sep] + b) == Fields(a) + Fields(b)
    decreases |a|
  {
    var whole := a + [sep] + b;
    if a == "" {
      assert whole[1..] == b;
    } else if IsSeparator(a[0]) {
      assert whole[1..] == a[1..] + [sep] + b;
      FieldsJoin(a[1..], sep, b);
    } else {
      var n := TokenLength(a);
      TokenEnds(a, sep, b);
      assert whole[..n] == a[..n];
      assert whole[n..] == a[n..] + [sep] + b;
      FieldsJoin(a[n..], sep, b);
    }
  }

  lemma {:induction false} TokenWhole(token: string)
    requires forall k :: 0 <= k < |token| ==> !IsSeparator(token[k])
    ensures TokenLength(token) == |token|
  {
    if token != "" {
      TokenWhole(token[1..]);
    }
  }

  lemma OneField(token: string)
    requires token != "" && forall k :: 0 <= k < |token| ==> !IsSeparator(token[k])
    ensures Fields(token) == [token]
  {
    TokenWhole(token);
    assert token[..|token|] == token;
  }

  lemma {:induction false} NoFields(blank: string)
    requires forall k :: 0 <= k < |blank| ==> IsSeparator(blank[k])
    ensures Fields(blank) == []
  {
    if blank != "" {
      NoFields(blank[1..]);
    }
  }

  /** A nonempty stretch of separators splits as one does. */
  lemma FieldsJoinAll(a: string, seps: string, b: string)
    requires seps != "" && forall k :: 0 <= k < |seps| ==> IsSeparator(seps[k])
    ensures Fields(a + seps + b) == Fields(a) + Fields(b)
  {
    var front, last := seps[..|seps| - 1], seps[|seps| - 1];
    assert a + seps + b == (a + front) + [last] + b;
    FieldsJoin(a + front, last, b);
    TrailingSeparators(a, front);
  }

  lemma {:induction false} TrailingSeparators(a: string, seps: string)
    requires forall k :: 0 <= k < |seps| ==> IsSeparator(seps[k])
    ensures Fields(a + seps) == Fields(a)
  {
    if seps == "" {
      assert a + seps == a;
    } else {
      var front, last := seps[..|seps| - 1], seps[|seps| - 1];
      assert a + seps == (a + front) + [last] + "";
      FieldsJoin(a + front, last, "");
      TrailingSeparators(a, front);
    }
  }

  lemma {:induction false} AllBytesJoin(a: seq<string>, b: seq<string>)
    ensures AllBytes(a + b) ==
            if AllBytes(a).None? || AllBytes(b).None? then None else Some(AllBytes(a).value + AllBytes(b).value)
  {
    if a == [] {
      assert a + b == b;
      assert AllBytes(b).Some? ==> [] + AllBytes(b).value == AllBytes(b).value;
    } else {
      assert (a + b)[1..] == a[1..] + b;
      AllBytesJoin(a[1..], b);
      if TokenBytes(a[0]).Some? && AllBytes(a[1..]).Some? && AllBytes(b).Some? {
        Associates(TokenBytes(a[0]).value, AllBytes(a[1..]).value, AllBytes(b).value);
      }
    }
  }

  // ---------- The byte-list reader ----------

  method SkipSeparators(text: string) returns (start: nat)
    ensures start <= |text| && (start < |text| ==> !IsSeparator(text[start]))
    ensures Fields(text[start..]) == Fields(text)
  {
    start := 0;
    assert text[0..] == text;
    while start < |text| && IsSeparator(text[start])
      invariant start <= |text| && Fields(text[start..]) == Fields(text)
    {
      assert text[start..][1..] == text[start + 1..];
      start := start + 1;
    }
  }

  method TokenEnd(text: string) returns (end: nat)
    ensures end == TokenLength(text)
  {
    end := 0;
    assert text[0..] == text;
    while end < |text| && !IsSeparator(text[end])
      invariant end <= |text| && TokenLength(text) == end + TokenLength(text[end..])
    {
      assert text[end..][1..] == text[end + 1..];
      end := end + 1;
    }
  }

  /** The digits of a token, two at a time. */
  method ParsePairs(token: string, bytes: seq<Byte>) returns (longer: Option<seq<Byte>>)
    ensures longer == if Pairs(token).None? then None else Some(bytes + Pairs(token).value)
  {
    if |token| % 2 != 0 {
      OddPairs(token);
      return None;
    }
    var found, index := bytes, 0;
    assert token[0..] == token;
    while index < |token|
      invariant index <= |token| && index % 2 == 0
      invariant Pairs(token).None? <==> Pairs(token[index..]).None?
      invariant Pairs(token).Some? ==> bytes + Pairs(token).value == found + Pairs(token[index..]).value
    {
      ghost var rest := token[index..];
      assert rest[0] == token[index] && rest[1] == token[index + 1] && rest[2..] == token[index + 2..];
      if !IsHex(token[index]) || !IsHex(token[index + 1]) {
        return None;
      }
      ghost var before := found;
      found := found + [PairValue(token[index], token[index + 1])];
      if Pairs(rest[2..]).Some? {
        Associates(before, [PairValue(token[index], token[index + 1])], Pairs(rest[2..]).value);
      }
      index := index + 2;
    }
    assert token[index..] == "" && found + [] == found;
    longer := Some(found);
  }

  lemma {:induction false} OddPairs(token: string)
    requires |token| % 2 != 0
    ensures Pairs(token) == None
  {
    if |token| > 1 {
      OddPairs(token[2..]);
    }
  }

  method ParseHexByteText(text: string) returns (bytes: Option<seq<Byte>>)
    ensures bytes == ByteList(text)
  {
    var found, rest := [], text;
    ghost var done: seq<string> := [];
    while rest != ""
      invariant Fields(text) == done + Fields(rest) && AllBytes(done) == Some(found)
      decreases |rest|
    {
      var start := SkipSeparators(rest);
      if start == |rest| {
        rest := "";
        break;
      }
      rest := rest[start..];
      var end := TokenEnd(rest);
      var token := rest[..end];
      ghost var others := Fields(rest[end..]);
      assert Fields(rest) == [token] + others;
      AllBytesJoin(done + [token], others);
      Associates(done, [token], others);
      AllBytesJoin(done, [token]);
      OneToken(token);
      if Unprefixed(token) == "" {
        return None;
      }
      var longer := ParsePairs(Unprefixed(token), found);
      if longer == None {
        return None;
      }
      found, rest, done := longer.value, rest[end..], done + [token];
    }
    assert done + [] == done;
    bytes := if found == [] then None else Some(found);
  }

  lemma OneToken(token: string)
    ensures AllBytes([token]) == TokenBytes(token)
  {
    if TokenBytes(token).Some? {
      assert TokenBytes(token).value + [] == TokenBytes(token).value;
    }
  }

  // ---------- Writers ----------

  function Digit(v: nat, upper: bool): (c: char)
    requires v < 16
    ensures IsHex(c) && DigitValue(c) == v && !IsSeparator(c)
  {
    if v < 10 then '0' + v as char else if upper then 'A' + (v - 10) as char else 'a' + (v - 10) as char
  }

  function HexByte(b: Byte, upper: bool): string { [Digit(b / 16, upper), Digit(b % 16, upper)] }

  /** Bytes one after the other, each with a prefix, with a separator between them. */
  function Listed(bytes: seq<Byte>, prefix: string, separator: string, upper: bool): string {
    if bytes == [] then ""
    else if |bytes| == 1 then prefix + HexByte(bytes[0], upper)
    else
      Listed(bytes[..|bytes| - 1], prefix, separator, upper) + separator
      + (prefix + HexByte(bytes[|bytes| - 1], upper))
  }

  lemma TokenRoundTrip(b: Byte, prefix: string, upper: bool)
    requires prefix in {"", "0x", "0X"}
    ensures Fields(prefix + HexByte(b, upper)) == [prefix + HexByte(b, upper)]
    ensures TokenBytes(prefix + HexByte(b, upper)) == Some([b])
  {
    var token := prefix + HexByte(b, upper);
    OneField(token);
    assert Pairs(HexByte(b, upper)) == Some([b]) by {
      assert HexByte(b, upper)[2..] == "" && [b] + [] == [b];
    }
    if prefix == "" {
      assert token == HexByte(b, upper);
    } else {
      assert token[2..] == HexByte(b, upper);
    }
  }

  /** Whatever the prefix, the case of the digits and the separators, the bytes are read back. */
  lemma {:induction false} ListedRoundTrip(bytes: seq<Byte>, prefix: string, separator: string, upper: bool)
    requires prefix in {"", "0x", "0X"}
    requires separator != "" && forall k :: 0 <= k < |separator| ==> IsSeparator(separator[k])
    ensures AllBytes(Fields(Listed(bytes, prefix, separator, upper))) == Some(bytes)
    ensures bytes != [] ==> ByteList(Listed(bytes, prefix, separator, upper)) == Some(bytes)
  {
    if bytes != [] {
      var front, last := bytes[..|bytes| - 1], bytes[|bytes| - 1];
      var token := prefix + HexByte(last, upper);
      TokenRoundTrip(last, prefix, upper);
      OneToken(token);
      FrontLast(bytes);
      if |bytes| > 1 {
        ListedRoundTrip(front, prefix, separator, upper);
        FieldsJoinAll(Listed(front, prefix, separator, upper), separator, token);
        AllBytesJoin(Fields(Listed(front, prefix, separator, upper)), [token]);
      }
    }
  }

  /** The lower-case listing of the memory panes. */
  method BytesAsHex(bytes: seq<Byte>) returns (text: string)
    ensures text == Listed(bytes, "", " ", false)
    ensures bytes != [] ==> ByteList(text) == Some(bytes)
  {
    text := "";
    for k := 0 to |bytes|
      invariant text == Listed(bytes[..k], "", " ", false)
      invariant text == "" <==> k == 0
    {
      ghost var before := text;
      if text != "" {
        text := text + " ";
      }
      text := text + [Digit(bytes[k] / 16, false)];
      text := text + [Digit(bytes[k] % 16, false)];
      ListedGrows(bytes, k, "", " ", false);
      assert text == (if k == 0 then "" else before + " ") + ("" + HexByte(bytes[k], false));
    }
    assert bytes[..|bytes|] == bytes;
    ListedRoundTrip(bytes, "", " ", false);
  }

  lemma ListedGrows(bytes: seq<Byte>, k: nat, prefix: string, separator: string, upper: bool)
    requires k < |bytes|
    ensures Listed(bytes[..k + 1], prefix, separator, upper)
         == (if k == 0 then "" else Listed(bytes[..k], prefix, separator, upper) + separator)
             + (prefix + HexByte(bytes[k], upper))
  {
    assert bytes[..k + 1][..k] == bytes[..k];
    if k == 0 {
      assert "" + (prefix + HexByte(bytes[0], upper)) == prefix + HexByte(bytes[0], upper);
    }
  }

  // ---------- Words of bytes ----------

  function BigEndian(bytes: seq<Byte>): nat {
    if bytes == [] then 0 else BigEndian(bytes[..|bytes| - 1]) * 256 + bytes[|bytes| - 1]
  }

  function Word(bytes: seq<Byte>, big: bool): nat { if big then BigEndian(bytes) else LittleEndian(bytes) }

  function Reversed<T>(s: seq<T>): seq<T> { if s == [] then [] else Reversed(s[1..]) + [s[0]] }

  lemma {:induction false} ReversedAt<T>(s: seq<T>, k: nat)
    requires k < |s|
    ensures |Reversed(s)| == |s| && Reversed(s)[k] == s[|s| - 1 - k]
  {
    if |s| > 1 {
      ReversedAt(s[1..], if k < |s| - 1 then k else 0);
    }
  }

  lemma {:induction false} ReversedEndian(bytes: seq<Byte>)
    ensures BigEndian(Reversed(bytes)) == LittleEndian(bytes)
  {
    if bytes != [] {
      var back := Reversed(bytes[1..]);
      ReversedEndian(bytes[1..]);
      FrontOf(back, bytes[0]);
    }
  }

  lemma {:induction false} LittleEndianGrows(bytes: seq<Byte>, last: Byte)
    ensures LittleEndian(bytes + [last]) == LittleEndian(bytes) + ByteCapacity(|bytes|) * last
  {
    var whole := bytes + [last];
    if bytes == [] {
      assert whole[1..] == [];
    } else {
      assert whole[1..] == bytes[1..] + [last];
      LittleEndianGrows(bytes[1..], last);
      Distributes(LittleEndian(bytes[1..]), ByteCapacity(|bytes| - 1), last);
    }
  }

  lemma Distributes(a: nat, b: nat, c: nat)
    ensures 256 * (a + b * c) == 256 * a + (256 * b) * c
  {
  }

  lemma {:induction false} BigEndianFits(bytes: seq<Byte>)
    ensures BigEndian(bytes) < ByteCapacity(|bytes|)
  {
    if bytes != [] {
      BigEndianFits(bytes[..|bytes| - 1]);
    }
  }

  lemma {:induction false} CapacityGrows(a: nat, b: nat)
    requires a <= b
    ensures 1 <= ByteCapacity(a) <= ByteCapacity(b)
  {
    if a < b {
      CapacityGrows(a, b - 1);
    } else if b > 0 {
      CapacityGrows(a - 1, b - 1);
    }
  }

  lemma WordSizeFits(bytes: seq<Byte>, big: bool)
    requires |bytes| <= 8
    ensures Word(bytes, big) < WORD_LIMIT
  {
    BigEndianFits(bytes);
    LittleEndianFits(bytes);
    CapacityGrows(|bytes|, 8);
    assert ByteCapacity(4) == 0x1_0000_0000;
    assert ByteCapacity(8) == 256 * (256 * (256 * (256 * ByteCapacity(4))));
  }

  /** The address stored at an offset; every order but "big" reads as little-endian. */
  method PointerAt(memory: seq<Byte>, offset: nat, width: nat, byteOrder: string) returns (value: Option<nat>)
    ensures value.Some? <==> 0 < width <= 8 && offset + width <= |memory|
    ensures value.Some? ==> value.value == Word(memory[offset..offset + width], byteOrder == "big") < WORD_LIMIT
  {
    if width == 0 || width > 8 || offset + width > |memory| {
      return None;
    }
    var word: nat, place: nat := 0, 1;
    ghost var bytes := memory[offset..offset + width];
    for index := 0 to width
      invariant word == Word(bytes[..index], byteOrder == "big") && place == ByteCapacity(index)
    {
      var byte := memory[offset + index];
      assert bytes[..index + 1] == bytes[..index] + [byte];
      if byteOrder == "big" {
        FrontOf(bytes[..index], byte);
        word := word * 256 + byte;
      } else {
        LittleEndianGrows(bytes[..index], byte);
        word := word + place * byte;
      }
      place := 256 * place;
    }
    assert bytes[..width] == bytes;
    WordSizeFits(bytes, byteOrder == "big");
    value := Some(word);
  }

  // ---------- Numeric fields ----------

  predicate AllDigits(digits: string, hexadecimal: bool) {
    forall k :: 0 <= k < |digits| ==> if hexadecimal then IsHex(digits[k]) else IsDecimal(digits[k])
  }

  function Base(hexadecimal: bool): nat { if hexadecimal then 16 else 10 }

  function Radix(digits: string, hexadecimal: bool): nat
    requires AllDigits(digits, hexadecimal)
  {
    if digits == "" then 0
    else Radix(digits[..|digits| - 1], hexadecimal) * Base(hexadecimal) + DigitValue(digits[|digits| - 1])
  }

  /** A number that fits 64 bits, spelled in full. */
  function Numeral(digits: string, hexadecimal: bool): Option<nat> {
    if digits != "" && AllDigits(digits, hexadecimal) && Radix(digits, hexadecimal) < WORD_LIMIT
    then Some(Radix(digits, hexadecimal)) else None
  }

  function Unpadded(text: string): string { if text != "" && text[0] == ' ' then Unpadded(text[1..]) else text }

  function NumberOf(text: string): Option<nat> { Numeral(Unprefixed(text), Prefixed(text)) }

  /** Digits already too large stay too large. */
  lemma {:induction false} RadixGrows(digits: string, k: nat, hexadecimal: bool)
    requires k <= |digits| && AllDigits(digits, hexadecimal)
    ensures Radix(digits[..k], hexadecimal) <= Radix(digits, hexadecimal)
    decreases |digits| - k
  {
    if k == |digits| {
      assert digits[..k] == digits;
    } else {
      RadixGrows(digits, k + 1, hexadecimal);
      assert digits[..k + 1][..k] == digits[..k];
    }
  }

  method ParseDigits(digits: string, hexadecimal: bool) returns (value: Option<nat>)
    ensures value == Numeral(digits, hexadecimal)
  {
    if digits == "" {
      return None;
    }
    var number := 0;
    for index := 0 to |digits|
      invariant AllDigits(digits[..index], hexadecimal) && number == Radix(digits[..index], hexadecimal) < WORD_LIMIT
    {
      var c := digits[index];
      if !(if hexadecimal then IsHex(c) else IsDecimal(c)) {
        return None;
      }
      assert digits[..index + 1][..index] == digits[..index];
      number := number * Base(hexadecimal) + DigitValue(c);
      if number >= WORD_LIMIT {
        if AllDigits(digits, hexadecimal) {
          RadixGrows(digits, index + 1, hexadecimal);
        }
        return None;
      }
    }
    assert digits[..|digits|] == digits;
    value := Some(number);
  }

  method ParseValue(text: string) returns (value: Option<nat>)
    ensures value == NumberOf(Unpadded(text))
  {
    var rest := text;
    while rest != "" && rest[0] == ' '
      invariant Unpadded(rest) == Unpadded(text)
      decreases |rest|
    {
      rest := rest[1..];
    }
    if Prefixed(rest) {
      value := ParseDigits(rest[2..], true);
    } else {
      value := ParseDigits(rest, false);
    }
  }

  /** Two digits for each byte. */
  function HexRun(bytes: seq<Byte>): string {
    if bytes == [] then "" else HexRun(bytes[..|bytes| - 1]) + HexByte(bytes[|bytes| - 1], true)
  }

  lemma {:induction false} RadixJoin(digits: string, two: string)
    requires AllDigits(digits, true) && |two| == 2 && AllDigits(two, true)
    ensures AllDigits(digits + two, true)
    ensures Radix(digits + two, true) == Radix(digits, true) * 256 + DigitValue(two[0]) * 16 + DigitValue(two[1])
  {
    var one := digits + [two[0]];
    assert digits + two == one + [two[1]];
    FrontOf(digits, two[0]);
    FrontOf(one, two[1]);
  }

  lemma {:induction false} HexRunValue(bytes: seq<Byte>)
    ensures AllDigits(HexRun(bytes), true) && |HexRun(bytes)| == 2 * |bytes|
    ensures Radix(HexRun(bytes), true) == BigEndian(bytes)
  {
    if bytes != [] {
      HexRunValue(bytes[..|bytes| - 1]);
      RadixJoin(HexRun(bytes[..|bytes| - 1]), HexByte(bytes[|bytes| - 1], true));
    }
  }

  datatype ByteOrder = AsStored | LittleFirst | BigFirst

  /** The most significant byte first. */
  function Ordered(bytes: seq<Byte>, order: ByteOrder): seq<Byte> {
    if order.LittleFirst? then Reversed(bytes) else bytes
  }

  function IntegerText(bytes: seq<Byte>, order: ByteOrder): string { "0x" + HexRun(Ordered(bytes, order)) }

  method FormatMemoryInteger(bytes: seq<Byte>, order: ByteOrder) returns (text: Option<string>)
    ensures text.Some? <==> 1 <= |bytes| <= 8 && !order.AsStored?
    ensures text.Some? ==> text.value == IntegerText(bytes, order)
  {
    if bytes == [] || |bytes| > 8 || order.AsStored? {
      return None;
    }
    var digits := "";
    WholeRun(bytes, order);
    for index := 0 to |bytes|
      invariant digits == HexRun(Ordered(bytes, order)[..index])
    {
      OrderedAt(bytes, order, index);
      HexRunGrows(Ordered(bytes, order), index);
      digits := digits + HexByte(bytes[if order.LittleFirst? then |bytes| - 1 - index else index], true);
    }
    text := Some("0x" + digits);
  }

  lemma OrderedAt(bytes: seq<Byte>, order: ByteOrder, index: nat)
    requires index < |bytes|
    ensures |Ordered(bytes, order)| == |bytes|
    ensures Ordered(bytes, order)[index] == bytes[if order.LittleFirst? then |bytes| - 1 - index else index]
  {
    ReversedAt(bytes, index);
  }

  lemma HexRunGrows(bytes: seq<Byte>, index: nat)
    requires index < |bytes|
    ensures HexRun(bytes[..index + 1]) == HexRun(bytes[..index]) + HexByte(bytes[index], true)
  {
    assert bytes[..index + 1][..index] == bytes[..index];
  }

  lemma WholeRun(bytes: seq<Byte>, order: ByteOrder)
    ensures |Ordered(bytes, order)| == |bytes| && Ordered(bytes, order)[..|bytes|] == Ordered(bytes, order)
  {
    ReversedSize(bytes);
  }

  lemma {:induction false} ReversedSize<T>(s: seq<T>)
    ensures |Reversed(s)| == |s|
  {
    if s != [] {
      ReversedSize(s[1..]);
    }
  }

  /** Reading back the formatted integer gives the word that the same bytes hold in that order. */
  lemma IntegerRoundTrip(bytes: seq<Byte>, order: ByteOrder)
    requires 1 <= |bytes| <= 8 && !order.AsStored?
    ensures NumberOf(Unpadded(IntegerText(bytes, order))) == Some(Word(bytes, order.BigFirst?))
  {
    var ordered := Ordered(bytes, order);
    ReversedSize(bytes);
    ReversedEndian(bytes);
    HexRunValue(ordered);
    WordSizeFits(bytes, order.BigFirst?);
    assert IntegerText(bytes, order)[2..] == HexRun(ordered);
  }

  // ---------- Clipboard formats ----------

  datatype CopyFormat = HexFormat | Escaped | CArray | PythonBytearray | JavaScriptUint8Array | RustArray

  predicate WordSize(size: nat) { size == 1 || size == 2 || size == 4 || size == 8 }

  /** Words convert only when they are complete and the target's order is known. */
  predicate CanFormat(count: nat, order: ByteOrder, wordSize: nat, target: string) {
    && count != 0 && WordSize(wordSize)
    && (order.AsStored? || wordSize == 1 || (count % wordSize == 0 && (target == "little" || target == "big")))
  }

  predicate ReversesWords(order: ByteOrder, wordSize: nat, target: string) {
    wordSize > 1 && ((order.LittleFirst? && target == "big") || (order.BigFirst? && target == "little"))
  }

  function SourceIndex(index: nat, wordSize: nat): int
    requires wordSize > 0
  {
    index - index % wordSize + (wordSize - 1 - index % wordSize)
  }

  /** Each word back to front. */
  function ReversedWords(bytes: seq<Byte>, wordSize: nat): seq<Byte>
    requires wordSize > 0
  {
    if |bytes| < wordSize then [] else Reversed(bytes[..wordSize]) + ReversedWords(bytes[wordSize..], wordSize)
  }

  function Converted(bytes: seq<Byte>, order: ByteOrder, wordSize: nat, target: string): seq<Byte> {
    if ReversesWords(order, wordSize, target) then ReversedWords(bytes, wordSize) else bytes
  }

  lemma Step2(index: nat, count: nat)
    requires count % 2 == 0 && index < count
    ensures index < 2 ==> index % 2 == index
    ensures index >= 2 ==> (index - 2) % 2 == index % 2
    ensures count >= 2 && (count - 2) % 2 == 0
  {
  }

  lemma Step4(index: nat, count: nat)
    requires count % 4 == 0 && index < count
    ensures index < 4 ==> index % 4 == index
    ensures index >= 4 ==> (index - 4) % 4 == index % 4
    ensures count >= 4 && (count - 4) % 4 == 0
  {
  }

  lemma Step8(index: nat, count: nat)
    requires count % 8 == 0 && index < count
    ensures index < 8 ==> index % 8 == index
    ensures index >= 8 ==> (index - 8) % 8 == index % 8
    ensures count >= 8 && (count - 8) % 8 == 0
  {
  }

  lemma WordStep(index: nat, count: nat, wordSize: nat)
    requires WordSize(wordSize) && count % wordSize == 0 && index < count
    ensures index < wordSize ==> SourceIndex(index, wordSize) == wordSize - 1 - index
    ensures index >= wordSize ==> SourceIndex(index, wordSize) == SourceIndex(index - wordSize, wordSize) + wordSize
    ensures count >= wordSize && (count - wordSize) % wordSize == 0
  {
    match wordSize
    case 1 =>
    case 2 => Step2(index, count);
    case 4 => Step4(index, count);
    case _ => Step8(index, count);
  }

  /** The index formula stays inside the bytes and picks each byte of the reversed words. */
  lemma {:induction false} ReversedWordsAt(bytes: seq<Byte>, wordSize: nat, index: nat)
    requires WordSize(wordSize) && |bytes| % wordSize == 0 && index < |bytes|
    ensures |ReversedWords(bytes, wordSize)| == |bytes| && 0 <= SourceIndex(index, wordSize) < |bytes|
    ensures ReversedWords(bytes, wordSize)[index] == bytes[SourceIndex(index, wordSize)]
    decreases |bytes|
  {
    WordStep(index, |bytes|, wordSize);
    var first, rest := bytes[..wordSize], bytes[wordSize..];
    ReversedSize(first);
    if index < wordSize {
      ReversedAt(first, index);
      if rest != [] {
        ReversedWordsAt(rest, wordSize, 0);
      }
    } else {
      ReversedWordsAt(rest, wordSize, index - wordSize);
    }
  }

  lemma Mirror2(index: nat)
    ensures index >= index % 2 && (index - index % 2 + (1 - index % 2)) % 2 == 1 - index % 2
  {
  }

  lemma Mirror4(index: nat)
    ensures index >= index % 4 && (index - index % 4 + (3 - index % 4)) % 4 == 3 - index % 4
  {
  }

  lemma Mirror8(index: nat)
    ensures index >= index % 8 && (index - index % 8 + (7 - index % 8)) % 8 == 7 - index % 8
  {
  }

  lemma SourceIndexTwice(index: nat, wordSize: nat)
    requires WordSize(wordSize)
    ensures SourceIndex(index, wordSize) >= 0 && SourceIndex(SourceIndex(index, wordSize), wordSize) == index
  {
    match wordSize
    case 1 =>
    case 2 => Mirror2(index);
    case 4 => Mirror4(index);
    case _ => Mirror8(index);
  }

  /** Converting twice restores the bytes. */
  lemma ReversedWordsTwice(bytes: seq<Byte>, wordSize: nat)
    requires WordSize(wordSize) && |bytes| % wordSize == 0
    ensures ReversedWords(ReversedWords(bytes, wordSize), wordSize) == bytes
  {
    var once := ReversedWords(bytes, wordSize);
    if bytes != [] {
      ReversedWordsAt(bytes, wordSize, 0);
      ReversedWordsAt(once, wordSize, 0);
      forall k | 0 <= k < |bytes| ensures ReversedWords(once, wordSize)[k] == bytes[k] {
        ReversedWordsAt(once, wordSize, k);
        SourceIndexTwice(k, wordSize);
        ReversedWordsAt(bytes, wordSize, SourceIndex(k, wordSize));
      }
    }
  }

  // ---------- What conversion does to words ----------

  lemma ReversedTwice<T>(s: seq<T>)
    ensures Reversed(Reversed(s)) == s
  {
    ReversedSize(s);
    ReversedSize(Reversed(s));
    forall k | 0 <= k < |s| ensures Reversed(Reversed(s))[k] == s[k] {
      ReversedAt(Reversed(s), k);
      ReversedAt(s, |s| - 1 - k);
    }
  }

  /** Back to front, a word reads the same in the other order. */
  lemma ReversedWord(bytes: seq<Byte>, big: bool)
    ensures Word(Reversed(bytes), big) == Word(bytes, !big)
  {
    ReversedEndian(bytes);
    ReversedEndian(Reversed(bytes));
    ReversedTwice(bytes);
  }

  /** A single byte reads the same in both orders. */
  lemma OneByteWord(bytes: seq<Byte>)
    requires |bytes| == 1
    ensures Word(bytes, true) == Word(bytes, false)
  {
    ReversedEndian(bytes);
    ReversedAt(bytes, 0);
    assert Reversed(bytes) == bytes;
  }

  /** The k-th word of a list of bytes. */
  function WordAt(bytes: seq<Byte>, wordSize: nat, k: nat): (word: seq<Byte>)
    requires (k + 1) * wordSize <= |bytes|
    ensures |word| == wordSize
  {
    assert k * wordSize + wordSize == (k + 1) * wordSize;
    bytes[k * wordSize..(k + 1) * wordSize]
  }

  lemma NextWord(bytes: seq<Byte>, wordSize: nat, k: nat)
    requires wordSize > 0 && k > 0 && (k + 1) * wordSize <= |bytes|
    ensures wordSize <= |bytes| && k * wordSize <= |bytes[wordSize..]|
    ensures WordAt(bytes[wordSize..], wordSize, k - 1) == WordAt(bytes, wordSize, k)
  {
    assert (k + 1) * wordSize == k * wordSize + wordSize && k * wordSize == (k - 1) * wordSize + wordSize;
    assert k * wordSize >= wordSize;
    assert bytes[wordSize..][(k - 1) * wordSize..k * wordSize] == bytes[k * wordSize..(k + 1) * wordSize];
  }

  /** Reversing words reverses each complete word in its place. */
  lemma {:induction false} ReversedWordAt(bytes: seq<Byte>, wordSize: nat, k: nat)
    requires wordSize > 0 && (k + 1) * wordSize <= |bytes|
    ensures (k + 1) * wordSize <= |ReversedWords(bytes, wordSize)|
    ensures WordAt(ReversedWords(bytes, wordSize), wordSize, k) == Reversed(WordAt(bytes, wordSize, k))
    decreases k
  {
    assert k * wordSize + wordSize == (k + 1) * wordSize;
    var first, rest := Reversed(bytes[..wordSize]), ReversedWords(bytes[wordSize..], wordSize);
    ReversedSize(bytes[..wordSize]);
    assert ReversedWords(bytes, wordSize) == first + rest;
    if k == 0 {
      assert (first + rest)[..wordSize] == first;
      assert WordAt(bytes, wordSize, 0) == bytes[..wordSize];
    } else {
      NextWord(bytes, wordSize, k);
      ReversedWordAt(bytes[wordSize..], wordSize, k - 1);
      NextWord(first + rest, wordSize, k);
      assert (first + rest)[wordSize..] == rest;
    }
  }

  /**
   Read in the order asked for, each complete converted word is the word that the target holds;
   bytes wanted as they are stored stay as they are.
   */
  lemma ConvertedWords(bytes: seq<Byte>, order: ByteOrder, wordSize: nat, target: string, k: nat)
    requires CanFormat(|bytes|, order, wordSize, target) && (k + 1) * wordSize <= |bytes|
    ensures |Converted(bytes, order, wordSize, target)| == |bytes|
    ensures order.AsStored? ==> Converted(bytes, order, wordSize, target) == bytes
    ensures !order.AsStored? ==>
              Word(WordAt(Converted(bytes, order, wordSize, target), wordSize, k), order.BigFirst?)
              == Word(WordAt(bytes, wordSize, k), target == "big")
  {
    if ReversesWords(order, wordSize, target) {
      ReversedWordsAt(bytes, wordSize, 0);
      ReversedWordAt(bytes, wordSize, k);
      ReversedWord(WordAt(bytes, wordSize, k), order.BigFirst?);
    } else if wordSize == 1 {
      OneByteWord(WordAt(bytes, wordSize, k));
    }
  }

  function Decimal(n: nat): string { if n < 10 then [Digit(n, false)] else Decimal(n / 10) + [Digit(n % 10, false)] }

  lemma {:induction false} DecimalValue(n: nat)
    ensures AllDigits(Decimal(n), false) && Radix(Decimal(n), false) == n
  {
    if n >= 10 {
      DecimalValue(n / 10);
      FrontOf(Decimal(n / 10), Digit(n % 10, false));
    } else {
      assert Decimal(n)[..0] == "";
    }
  }

  function BytePrefix(format: CopyFormat): string {
    if format.HexFormat? then "" else if format.Escaped? then "\\x" else "0x"
  }

  function Separator(format: CopyFormat): string {
    if format.HexFormat? then " " else if format.Escaped? then "" else ", "
  }

  function Opening(format: CopyFormat, count: nat): string {
    match format
    case HexFormat => ""
    case Escaped => "\""
    case CArray => "unsigned char data[] = {"
    case PythonBytearray => "data = bytearray(["
    case JavaScriptUint8Array => "const data = new Uint8Array(["
    case RustArray => "let data: [u8; " + Decimal(count) + "] = ["
  }

  function Closing(format: CopyFormat): string {
    match format
    case HexFormat => ""
    case Escaped => "\""
    case CArray => "};"
    case PythonBytearray => "])"
    case JavaScriptUint8Array => "]);"
    case RustArray => "];"
  }

  method FormatMemoryBytes(bytes: seq<Byte>, format: CopyFormat, order: ByteOrder, wordSize: nat, target: string)
    returns (text: Option<string>)
    ensures text.Some? <==> CanFormat(|bytes|, order, wordSize, target)
    ensures text.None? <==>
              || bytes == [] || wordSize !in {1, 2, 4, 8}
              || (!order.AsStored? && wordSize > 1 && (|bytes| % wordSize != 0 || target !in {"little", "big"}))
    ensures text.Some? ==> text.value == Opening(format, |bytes|)
                             + Listed(Converted(bytes, order, wordSize, target), BytePrefix(format), Separator(format),
                                      true)
                             + Closing(format)
  {
    if !CanFormat(|bytes|, order, wordSize, target) {
      return None;
    }
    var body := "";
    var reverse := ReversesWords(order, wordSize, target);
    ghost var converted := Converted(bytes, order, wordSize, target);
    if reverse {
      ReversedWordsAt(bytes, wordSize, 0);
    }
    for index := 0 to |bytes|
      invariant body == Listed(converted[..index], BytePrefix(format), Separator(format), true)
    {
      if index != 0 {
        body := body + Separator(format);
      }
      if reverse {
        ReversedWordsAt(bytes, wordSize, index);
      }
      var byte := bytes[if reverse then SourceIndex(index, wordSize) else index];
      ListedGrows(converted, index, BytePrefix(format), Separator(format), true);
      assert body == if index == 0 then ""
                     else Listed(converted[..index], BytePrefix(format), Separator(format), true) + Separator(format);
      body := body + (BytePrefix(format) + HexByte(byte, true));
    }
    assert converted[..|bytes|] == converted;
    text := Some(Opening(format, |bytes|) + body + Closing(format));
  }

  /** The hexadecimal format is read back as the converted bytes; converting those restores the original. */
  lemma HexFormatRoundTrip(bytes: seq<Byte>, order: ByteOrder, wordSize: nat, target: string)
    requires CanFormat(|bytes|, order, wordSize, target)
    ensures var converted := Converted(bytes, order, wordSize, target);
            && ByteList(Opening(HexFormat, |bytes|)
                        + Listed(converted, BytePrefix(HexFormat), Separator(HexFormat), true)
                        + Closing(HexFormat)) == Some(converted)
            && Converted(converted, order, wordSize, target) == bytes
  {
    var converted := Converted(bytes, order, wordSize, target);
    if ReversesWords(order, wordSize, target) {
      ReversedWordsAt(bytes, wordSize, 0);
      ReversedWordsTwice(bytes, wordSize);
    }
    ListedRoundTrip(converted, "", " ", true);
    var listed := Listed(converted, "", " ", true);
    assert "" + listed + "" == listed;
  }
}
