/**
 UTF-8 as the catalog reader checks and writes it. The grammar of section 4 of
 RFC 3629 is the reference for the validator and the table of its section 3 for the
 encoder; the two are proved to describe the same byte sequences.
 */
module Utf8 {
  import opened Wrappers
  import opened Bytes

  /** A Unicode scalar value: a code point that is no surrogate. */
  type Scalar = c: nat | c < 0xD800 || 0xE000 <= c < 0x110000

  // ---------- The encoding, by code point ----------

  function Encode(c: Scalar): seq<Byte> {
    if c < 0x80 then [c]
    else if c < 0x800 then [0xC0 + c / 0x40, 0x80 + c % 0x40]
    else if c < 0x10000 then [0xE0 + c / 0x1000, 0x80 + c / 0x40 % 0x40, 0x80 + c % 0x40]
    else [0xF0 + c / 0x40000, 0x80 + c / 0x1000 % 0x40, 0x80 + c / 0x40 % 0x40, 0x80 + c % 0x40]
  }

  function Encoded(text: seq<Scalar>): seq<Byte> {
    if text == [] then [] else Encode(text[0]) + Encoded(text[1..])
  }

  // ---------- The encoding, by grammar ----------

  predicate Tail(b: Byte) { 0x80 <= b <= 0xBF }

  /** A three-byte character: no overlong form and no surrogate. */
  predicate Three(a: Byte, b: Byte, c: Byte) {
    && Tail(b) && Tail(c)
    && ((a == 0xE0 && 0xA0 <= b) || 0xE1 <= a <= 0xEC || (a == 0xED && b <= 0x9F) || 0xEE <= a <= 0xEF)
  }

  /** A four-byte character: no overlong form and nothing above 10FFFF. */
  predicate Four(a: Byte, b: Byte, c: Byte, d: Byte) {
    && Tail(b) && Tail(c) && Tail(d)
    && ((a == 0xF0 && 0x90 <= b) || 0xF1 <= a <= 0xF3 || (a == 0xF4 && b <= 0x8F))
  }

  /** The length of the character these bytes start with; zero if they start with none. */
  function CharacterSize(s: seq<Byte>): nat {
    if 1 <= |s| && s[0] <= 0x7F then 1
    else if 2 <= |s| && 0xC2 <= s[0] <= 0xDF && Tail(s[1]) then 2
    else if 3 <= |s| && Three(s[0], s[1], s[2]) then 3
    else if 4 <= |s| && Four(s[0], s[1], s[2], s[3]) then 4
    else 0
  }

  predicate WellFormed(s: seq<Byte>)
    decreases |s|
  {
    s == [] || (CharacterSize(s) > 0 && WellFormed(s[CharacterSize(s)..]))
  }

  /** Six more bits from a continuation byte. */
  function Payload(lead: nat, tail: Byte): nat
    requires Tail(tail)
  {
    lead * 0x40 + (tail - 0x80)
  }

  function Head(s: seq<Byte>): Scalar
    requires CharacterSize(s) > 0
  {
    match CharacterSize(s)
    case 1 => s[0]
    case 2 => Payload(s[0] - 0xC0, s[1])
    case 3 => Payload(Payload(s[0] - 0xE0, s[1]), s[2])
    case _ => Payload(Payload(Payload(s[0] - 0xF0, s[1]), s[2]), s[3])
  }

  function Decoded(s: seq<Byte>): seq<Scalar>
    requires WellFormed(s)
    decreases |s|
  {
    if s == [] then []
    else [Head(s)] + Decoded(s[CharacterSize(s)..])
  }

  // ---------- Grammar and table agree ----------

  lemma SixBits(c: nat)
    ensures c == c / 0x40 * 0x40 + c % 0x40
    ensures c / 0x40 == c / 0x1000 * 0x40 + c / 0x40 % 0x40
    ensures c / 0x1000 == c / 0x40000 * 0x40 + c / 0x1000 % 0x40
  {
  }

  lemma EncodeSize(c: Scalar, rest: seq<Byte>)
    ensures CharacterSize(Encode(c) + rest) == |Encode(c)|
  {
    SixBits(c);
  }

  lemma EncodeHead(c: Scalar, rest: seq<Byte>)
    ensures CharacterSize(Encode(c) + rest) == |Encode(c)|
    ensures Head(Encode(c) + rest) == c
  {
    EncodeSize(c, rest);
    SixBits(c);
  }

  lemma PayloadBits(lead: nat, tail: Byte)
    requires Tail(tail)
    ensures Payload(lead, tail) / 0x40 == lead && Payload(lead, tail) % 0x40 == tail - 0x80
  {
  }

  lemma HeadEncodes(s: seq<Byte>)
    requires CharacterSize(s) > 0
    ensures Encode(Head(s)) == s[..CharacterSize(s)]
  {
    match CharacterSize(s)
    case 1 =>
    case 2 => PayloadBits(s[0] - 0xC0, s[1]);
    case 3 => ThreeEncode(s);
    case _ => FourEncode(s);
  }

  lemma ThreeEncode(s: seq<Byte>)
    requires CharacterSize(s) == 3
    ensures Encode(Head(s)) == s[..3]
  {
    PayloadBits(s[0] - 0xE0, s[1]);
    PayloadBits(Payload(s[0] - 0xE0, s[1]), s[2]);
    SixBits(Head(s));
  }

  lemma FourEncode(s: seq<Byte>)
    requires CharacterSize(s) == 4
    ensures Encode(Head(s)) == s[..4]
  {
    PayloadBits(s[0] - 0xF0, s[1]);
    PayloadBits(Payload(s[0] - 0xF0, s[1]), s[2]);
    PayloadBits(Payload(Payload(s[0] - 0xF0, s[1]), s[2]), s[3]);
    SixBits(Head(s));
  }

  lemma {:induction false} EncodedDecoded(s: seq<Byte>)
    requires WellFormed(s)
    ensures Encoded(Decoded(s)) == s
    decreases |s|
  {
    if s != [] {
      HeadEncodes(s);
      EncodedDecoded(s[CharacterSize(s)..]);
    }
  }

  lemma {:induction false} DecodedEncoded(text: seq<Scalar>)
    ensures WellFormed(Encoded(text)) && Decoded(Encoded(text)) == text
  {
    if text != [] {
      var rest := Encoded(text[1..]);
      DecodedEncoded(text[1..]);
      EncodeHead(text[0], rest);
      assert (Encode(text[0]) + rest)[|Encode(text[0])|..] == rest;
    }
  }

  /** The grammar accepts exactly the encodings of scalar value sequences. */
  lemma WellFormedIffEncoded(s: seq<Byte>)
    ensures WellFormed(s) <==> exists text: seq<Scalar> :: Encoded(text) == s
  {
    if WellFormed(s) {
      EncodedDecoded(s);
    }
    forall text: seq<Scalar> | Encoded(text) == s ensures WellFormed(s) {
      DecodedEncoded(text);
    }
  }

  lemma {:induction false} EncodedJoins(a: seq<Scalar>, b: seq<Scalar>)
    ensures Encoded(a + b) == Encoded(a) + Encoded(b)
  {
    if a == [] {
      assert a + b == b;
    } else {
      assert (a + b)[1..] == a[1..] + b;
      EncodedJoins(a[1..], b);
    }
  }

  // ---------- The validator and the encoder ----------

  /** The code point that continuation bytes add up to. */
  function Gather(lead: nat, tails: seq<Byte>): nat {
    if tails == [] then lead else Gather(lead, tails[..|tails| - 1]) * 0x40 + tails[|tails| - 1] % 0x40
  }

  /** The bits that a lead byte carries, by the number of bytes that follow it. */
  function LeadBits(lead: Byte, count: nat): nat {
    if count == 1 then lead % 0x20 else if count == 2 then lead % 0x10 else lead % 8
  }

  predicate Leads(lead: Byte, count: nat) {
    || (count == 1 && 0xC0 <= lead < 0xE0)
    || (count == 2 && 0xE0 <= lead < 0xF0)
    || (count == 3 && 0xF0 <= lead < 0xF8)
  }

  const MINIMUM: map<nat, nat> := map[1 := 0x80, 2 := 0x800, 3 := 0x10000]

  lemma GatherAll(lead: nat, s: seq<Byte>, count: nat)
    requires 1 <= count <= 3 && count < |s|
    ensures Gather(lead, s[1..1 + count]) ==
            if count == 1 then lead * 0x40 + s[1] % 0x40
            else if count == 2 then (lead * 0x40 + s[1] % 0x40) * 0x40 + s[2] % 0x40
            else ((lead * 0x40 + s[1] % 0x40) * 0x40 + s[2] % 0x40) * 0x40 + s[3] % 0x40
  {
    var one, two, three := s[1..2], s[1..1 + count], s[1..1 + count];
    assert one[..0] == [];
    assert Gather(lead, one) == lead * 0x40 + s[1] % 0x40;
    if count == 2 {
      assert two[..1] == one;
    } else if count == 3 {
      assert three[..2] == s[1..3];
      assert s[1..3][..1] == one;
    }
  }

  /** The three comparisons on the code point are what the grammar's byte ranges say. */
  lemma RangeDecides(s: seq<Byte>, count: nat)
    requires 1 <= count <= 3 && count < |s| && Leads(s[0], count)
    requires forall k :: 1 <= k <= count ==> Tail(s[k])
    ensures var c := Gather(LeadBits(s[0], count), s[1..1 + count]);
            if MINIMUM[count] <= c <= 0x10FFFF && !(0xD800 <= c <= 0xDFFF) then CharacterSize(s) == count + 1
            else CharacterSize(s) == 0
  {
    GatherAll(LeadBits(s[0], count), s, count);
    LowBits(s[0], count);
    TailBits(s[1]);
    if count >= 2 { TailBits(s[2]); }
    if count >= 3 { TailBits(s[3]); }
  }

  lemma TailBits(b: Byte)
    requires Tail(b)
    ensures b % 0x40 == b - 0x80
  {
  }

  lemma LowBits(lead: Byte, count: nat)
    requires Leads(lead, count)
    ensures LeadBits(lead, count) == lead - if count == 1 then 0xC0 else if count == 2 then 0xE0 else 0xF0
  {
  }

  lemma MissingTail(s: seq<Byte>, count: nat)
    requires 1 <= count <= 3 && s != [] && Leads(s[0], count)
    requires |s| <= count || exists k :: 1 <= k <= count && !Tail(s[k])
    ensures CharacterSize(s) == 0
  {
  }

  method ValidUtf8(value: seq<Byte>) returns (valid: bool)
    ensures valid <==> exists text: seq<Scalar> :: Encoded(text) == value
    ensures valid <==> WellFormed(value)
  {
    WellFormedIffEncoded(value);
    var offset := 0;
    while offset < |value|
      invariant offset <= |value|
      invariant WellFormed(value) <==> WellFormed(value[offset..])
    {
      ghost var rest := value[offset..];
      var size := CheckCharacter(value, offset);
      if size == 0 {
        return false;
      }
      offset := offset + size;
      assert rest[size..] == value[offset..];
    }
    return true;
  }

  /** A byte that is no lead byte stands alone, or starts nothing. */
  lemma NoLead(s: seq<Byte>)
    requires s != []
    ensures s[0] < 0x80 ==> CharacterSize(s) == 1
    ensures 0x80 <= s[0] < 0xC0 || 0xF8 <= s[0] ==> CharacterSize(s) == 0
  {
  }

  /** The code point that the tail bytes complete, unless one of them is no tail byte. */
  method GatherTail(value: seq<Byte>, start: nat, count: nat, lead: nat) returns (codepoint: Option<nat>)
    requires start + count < |value|
    ensures codepoint.Some? <==> forall k :: 1 <= k <= count ==> Tail(value[start..][k])
    ensures codepoint.Some? ==> codepoint.value == Gather(lead, value[start..][1..1 + count])
  {
    ghost var rest := value[start..];
    var gathered: nat := lead;
    for index := 0 to count
      invariant forall k :: 1 <= k <= index ==> Tail(rest[k])
      invariant gathered == Gather(lead, rest[1..1 + index])
    {
      var byte := value[start + 1 + index];
      assert byte == rest[1 + index];
      if !(0x80 <= byte < 0xC0) {
        return None;
      }
      gathered := gathered * 0x40 + (byte % 0x40);
      assert rest[1..2 + index][..index] == rest[1..1 + index];
    }
    return Some(gathered);
  }

  /** The length of the character at an offset; zero if the bytes there are malformed. */
  method CheckCharacter(value: seq<Byte>, start: nat) returns (size: nat)
    requires start < |value|
    ensures size == CharacterSize(value[start..])
  {
    hide CharacterSize, Gather, Tail;
    ghost var rest := value[start..];
    var lead := value[start];
    NoLead(rest);
    if lead < 0x80 {
      return 1;
    }
    var count, codepoint: nat;
    if 0xC0 <= lead < 0xE0 {
      count, codepoint := 1, lead % 0x20;
    } else if 0xE0 <= lead < 0xF0 {
      count, codepoint := 2, lead % 0x10;
    } else if 0xF0 <= lead < 0xF8 {
      count, codepoint := 3, lead % 8;
    } else {
      return 0;
    }
    if |value| - start - 1 < count {
      MissingTail(rest, count);
      return 0;
    }
    assert LeadBits(lead, count) == codepoint;
    var gathered := GatherTail(value, start, count, codepoint);
    if gathered.None? {
      MissingTail(rest, count);
      return 0;
    }
    codepoint := gathered.value;
    RangeDecides(rest, count);
    if codepoint < MINIMUM[count] || codepoint > 0x10FFFF || 0xD800 <= codepoint <= 0xDFFF {
      return 0;
    }
    return count + 1;
  }

  method AppendUtf8(output: seq<Byte>, c: Scalar) returns (longer: seq<Byte>)
    ensures longer == output + Encode(c)
  {
    if c < 0x80 {
      longer := output + [c];
    } else if c < 0x800 {
      longer := output + [0xC0 + c / 0x40] + [0x80 + c % 0x40];
    } else if c < 0x10000 {
      longer := output + [0xE0 + c / 0x1000] + [0x80 + c / 0x40 % 0x40] + [0x80 + c % 0x40];
    } else {
      longer := output + [0xF0 + c / 0x40000] + [0x80 + c / 0x1000 % 0x40] + [0x80 + c / 0x40 % 0x40]
          + [0x80 + c % 0x40];
    }
  }
}
