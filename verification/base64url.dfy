/** Unpadded base64url text of navigation tokens (sections 5 and 3.5 of RFC 4648). */
module Base64Url {
  import opened Common

  type Byte = b: int | 0 <= b < 256 witness 0
  type Sextet = v: int | 0 <= v < 64 witness 0

  const TOKEN_MAX_LENGTH := 8192

  /** Table 2 of RFC 4648. */
  function Symbol(v: Sextet): char {
    if v < 26 then ('A' as int + v) as char
    else if v < 52 then ('a' as int + v - 26) as char
    else if v < 62 then ('0' as int + v - 52) as char
    else if v == 62 then '-'
    else '_'
  }

  predicate InAlphabet(c: char) {
    'A' <= c <= 'Z' || 'a' <= c <= 'z' || '0' <= c <= '9' || c == '-' || c == '_'
  }

  function ValueOf(c: char): Sextet
    requires InAlphabet(c)
  {
    if 'A' <= c <= 'Z' then c as int - 'A' as int
    else if 'a' <= c <= 'z' then c as int - 'a' as int + 26
    else if '0' <= c <= '9' then c as int - '0' as int + 52
    else if c == '-' then 62
    else 63
  }

  /** The table in its order: A to Z, a to z, 0 to 9, then minus and underline. */
  lemma SymbolsAreTheTable(v: Sextet)
    ensures Symbol(0) == 'A' && Symbol(26) == 'a' && Symbol(52) == '0' && Symbol(62) == '-' && Symbol(63) == '_'
    ensures v < 25 || 26 <= v < 51 || 52 <= v < 61 ==> Symbol(v + 1) as int == Symbol(v) as int + 1
  {
  }

  lemma SymbolRoundTrip(v: Sextet)
    ensures InAlphabet(Symbol(v)) && ValueOf(Symbol(v)) == v
  {
  }

  // ------------------------------------------------------------------ encoding

  /** The six-bit parts of three bytes in a row: the first of one byte, the two shared by neighbours, the last. */
  function Upper(a: Byte): Sextet {
    a / 4
  }

  function UpperMiddle(a: Byte, b: int): Sextet
    requires 0 <= b < 256
  {
    a % 4 * 16 + b / 16
  }

  function LowerMiddle(b: Byte, c: int): Sextet
    requires 0 <= c < 256
  {
    b % 16 * 4 + c / 64
  }

  function Lower(c: Byte): Sextet {
    c % 64
  }

  /** A group is one 24-bit number, cut into bytes or into six-bit parts, the most significant first. */
  lemma GroupIsOneNumber(a: Byte, b: Byte, c: Byte)
    ensures ((Upper(a) * 64 + UpperMiddle(a, b)) * 64 + LowerMiddle(b, c)) * 64 + Lower(c) == (a * 256 + b) * 256 + c
  {
  }

  /** Four symbols for three bytes; the last group is filled up with '='. */
  function Padded(bytes: seq<Byte>): (text: string)
    ensures |text| % 4 == 0
    decreases |bytes|
  {
    if bytes == [] then ""
    else if |bytes| == 1 then [Symbol(Upper(bytes[0])), Symbol(UpperMiddle(bytes[0], 0)), '=', '=']
    else if |bytes| == 2 then
      [Symbol(Upper(bytes[0])), Symbol(UpperMiddle(bytes[0], bytes[1])), Symbol(LowerMiddle(bytes[1], 0)), '=']
    else
      [Symbol(Upper(bytes[0])), Symbol(UpperMiddle(bytes[0], bytes[1])),
       Symbol(LowerMiddle(bytes[1], bytes[2])), Symbol(Lower(bytes[2]))] + Padded(bytes[3..])
  }

  function StripPadding(text: string): string {
    if text != "" && text[|text| - 1] == '=' then StripPadding(text[..|text| - 1]) else text
  }

  function Encode(bytes: seq<Byte>): string {
    StripPadding(Padded(bytes))
  }

  // ------------------------------------------------------------------ decoding

  predicate WellShaped(text: string) {
    && text != "" && |text| <= TOKEN_MAX_LENGTH && |text| % 4 != 1
    && forall i :: 0 <= i < |text| ==> InAlphabet(text[i])
  }

  function First(p: Sextet, q: Sextet): Byte {
    p * 4 + q / 16
  }

  function Second(q: Sextet, r: Sextet): Byte {
    q % 16 * 16 + r / 4
  }

  function Third(r: Sextet, s: Sextet): Byte {
    r % 4 * 64 + s
  }

  /** The lenient library decoder: surplus bits of the last symbol are dropped. */
  function Lenient(text: string): seq<Byte>
    requires forall i :: 0 <= i < |text| ==> InAlphabet(text[i])
    decreases |text|
  {
    if |text| < 2 then []
    else if |text| == 2 then [First(ValueOf(text[0]), ValueOf(text[1]))]
    else if |text| == 3 then
      [First(ValueOf(text[0]), ValueOf(text[1])), Second(ValueOf(text[1]), ValueOf(text[2]))]
    else
      [First(ValueOf(text[0]), ValueOf(text[1])), Second(ValueOf(text[1]), ValueOf(text[2])),
       Third(ValueOf(text[2]), ValueOf(text[3]))] + Lenient(text[4..])
  }

  function Decode(text: string): Result<seq<Byte>> {
    if !WellShaped(text) then Err("invalid_navigation")
    else
      var decoded := Lenient(text);
      if Encode(decoded) != text then Err("invalid_navigation") else Ok(decoded)
  }

  // ------------------------------------------------------------------ properties

  lemma {:induction false} StripStopsAtSymbol(text: string, padding: nat)
    requires text == "" || text[|text| - 1] != '='
    ensures StripPadding(text + seq(padding, i requires 0 <= i < padding => '=')) == text
  {
    var all := text + seq(padding, i requires 0 <= i < padding => '=');
    if padding == 0 {
      assert all == text;
    } else {
      assert all[..|all| - 1] == text + seq(padding - 1, i requires 0 <= i < padding - 1 => '=');
      StripStopsAtSymbol(text, padding - 1);
    }
  }

  /** Stripping touches only the last group. */
  lemma StripAfterGroup(group: string, rest: string)
    requires group != "" && group[|group| - 1] != '='
    ensures StripPadding(group + rest) == group + StripPadding(rest)
    decreases |rest|
  {
    if rest == "" {
      assert group + rest == group;
    } else if rest[|rest| - 1] == '=' {
      assert (group + rest)[..|group + rest| - 1] == group + rest[..|rest| - 1];
      StripAfterGroup(group, rest[..|rest| - 1]);
    }
  }

  function FullGroup(a: Byte, b: Byte, c: Byte): string {
    [Symbol(a / 4), Symbol(a % 4 * 16 + b / 16), Symbol(b % 16 * 4 + c / 64), Symbol(c % 64)]
  }

  /** The encoding, group by group and without padding. */
  lemma {:induction false} EncodeByGroups(bytes: seq<Byte>)
    ensures |bytes| == 0 ==> Encode(bytes) == ""
    ensures |bytes| == 1 ==> Encode(bytes) == [Symbol(bytes[0] / 4), Symbol(bytes[0] % 4 * 16)]
    ensures |bytes| == 2 ==>
      Encode(bytes) == [Symbol(bytes[0] / 4), Symbol(bytes[0] % 4 * 16 + bytes[1] / 16), Symbol(bytes[1] % 16 * 4)]
    ensures |bytes| >= 3 ==> Encode(bytes) == FullGroup(bytes[0], bytes[1], bytes[2]) + Encode(bytes[3..])
  {
    if |bytes| == 1 {
      var text := [Symbol(bytes[0] / 4), Symbol(bytes[0] % 4 * 16)];
      assert Padded(bytes) == text + seq(2, i requires 0 <= i < 2 => '=');
      SymbolRoundTrip(bytes[0] % 4 * 16);
      StripStopsAtSymbol(text, 2);
    } else if |bytes| == 2 {
      var text := [Symbol(bytes[0] / 4), Symbol(bytes[0] % 4 * 16 + bytes[1] / 16), Symbol(bytes[1] % 16 * 4)];
      assert Padded(bytes) == text + seq(1, i requires 0 <= i < 1 => '=');
      SymbolRoundTrip(bytes[1] % 16 * 4);
      StripStopsAtSymbol(text, 1);
    } else if |bytes| >= 3 {
      var group := FullGroup(bytes[0], bytes[1], bytes[2]);
      SymbolRoundTrip(bytes[2] % 64);
      StripAfterGroup(group, Padded(bytes[3..]));
    }
  }

  /** Encoded text has the alphabet, never one symbol over a full group, and a length fixed by the byte count. */
  lemma {:induction false} EncodedShape(bytes: seq<Byte>)
    ensures |Encode(bytes)| == (4 * |bytes| + 2) / 3 && |Encode(bytes)| % 4 != 1
    ensures forall i :: 0 <= i < |Encode(bytes)| ==> InAlphabet(Encode(bytes)[i])
    decreases |bytes|
  {
    EncodeByGroups(bytes);
    if |bytes| >= 3 { EncodedShape(bytes[3..]); }
  }

  lemma GroupDecodes(a: Byte, b: Byte, c: Byte)
    ensures First(ValueOf(Symbol(a / 4)), ValueOf(Symbol(a % 4 * 16 + b / 16))) == a
    ensures Second(ValueOf(Symbol(a % 4 * 16 + b / 16)), ValueOf(Symbol(b % 16 * 4 + c / 64))) == b
    ensures Third(ValueOf(Symbol(b % 16 * 4 + c / 64)), ValueOf(Symbol(c % 64))) == c
  {
    hide Symbol, ValueOf;
    SymbolRoundTrip(a / 4);
    SymbolRoundTrip(a % 4 * 16 + b / 16);
    SymbolRoundTrip(b % 16 * 4 + c / 64);
    SymbolRoundTrip(c % 64);
  }

  lemma {:induction false} LenientInvertsEncode(bytes: seq<Byte>)
    requires forall i :: 0 <= i < |Encode(bytes)| ==> InAlphabet(Encode(bytes)[i])
    ensures Lenient(Encode(bytes)) == bytes
    decreases |bytes|
  {
    hide Symbol, ValueOf, Encode;
    EncodeByGroups(bytes);
    if |bytes| == 1 {
      GroupDecodes(bytes[0], 0, 0);
    } else if |bytes| == 2 {
      GroupDecodes(bytes[0], bytes[1], 0);
    } else if |bytes| >= 3 {
      GroupDecodes(bytes[0], bytes[1], bytes[2]);
      EncodedShape(bytes[3..]);
      LenientInvertsEncode(bytes[3..]);
      var group := FullGroup(bytes[0], bytes[1], bytes[2]);
      assert (group + Encode(bytes[3..]))[4..] == Encode(bytes[3..]);
      assert [bytes[0], bytes[1], bytes[2]] + bytes[3..] == bytes;
    }
  }

  /** Exactly the canonical encodings are accepted, and each as what it encodes. */
  lemma DecodesExactlyCanonicalEncodings(text: string, bytes: seq<Byte>)
    ensures Decode(text) == Ok(bytes) <==> text != "" && |text| <= TOKEN_MAX_LENGTH && Encode(bytes) == text
  {
    if Encode(bytes) == text && text != "" && |text| <= TOKEN_MAX_LENGTH {
      EncodedShape(bytes);
      LenientInvertsEncode(bytes);
    }
  }

  /** The round trip, and the byte count above which a token is refused. */
  lemma EncodeDecodeRoundTrip(bytes: seq<Byte>)
    ensures Decode(Encode(bytes)) == Ok(bytes) <==> 1 <= |bytes| <= 6144
    ensures Decode(Encode(bytes)).Ok? <==> 1 <= |bytes| <= 6144
  {
    EncodedShape(bytes);
    DecodesExactlyCanonicalEncodings(Encode(bytes), bytes);
  }

  /** Bits of the last symbol that carry no byte must be zero (section 3.5). */
  predicate TrailingBitsZero(text: string)
    requires forall i :: 0 <= i < |text| ==> InAlphabet(text[i])
  {
    && (|text| % 4 == 2 ==> ValueOf(text[|text| - 1]) % 16 == 0)
    && (|text| % 4 == 3 ==> ValueOf(text[|text| - 1]) % 4 == 0)
  }

  lemma {:induction false} ReencodesExactlyWhenBitsZero(text: string)
    requires |text| % 4 != 1 && forall i :: 0 <= i < |text| ==> InAlphabet(text[i])
    ensures Encode(Lenient(text)) == text <==> TrailingBitsZero(text)
    decreases |text|
  {
    hide Symbol, ValueOf, Encode, Lenient, TrailingBitsZero;
    if |text| < 2 {
      EmptyText(text);
    } else if |text| == 2 {
      TwoSymbols(text);
    } else if |text| == 3 {
      ThreeSymbols(text);
    } else {
      ReencodesExactlyWhenBitsZero(text[4..]);
      GroupInFront(text);
      LastAfterGroup(text);
    }
  }

  lemma EmptyText(text: string)
    requires text == ""
    ensures Encode(Lenient(text)) == text && TrailingBitsZero(text)
  {
  }

  /** A full group is always written back, so the rest decides. */
  lemma GroupInFront(text: string)
    requires |text| >= 4 && forall i :: 0 <= i < |text| ==> InAlphabet(text[i])
    ensures Encode(Lenient(text)) == text <==> Encode(Lenient(text[4..])) == text[4..]
  {
    hide Encode, Lenient, FullGroup;
    var bytes := Lenient(text);
    FourSymbols(text);
    EncodeByGroups(bytes);
    assert text == text[..4] + text[4..];
    assert Encode(bytes)[4..] == Encode(bytes[3..]);
  }

  /** A full group in front leaves the last symbol in place. */
  lemma LastAfterGroup(text: string)
    requires |text| >= 4 && |text| % 4 != 1 && forall i :: 0 <= i < |text| ==> InAlphabet(text[i])
    ensures TrailingBitsZero(text) <==> TrailingBitsZero(text[4..])
  {
  }

  lemma TwoSymbols(text: string)
    requires |text| == 2 && forall i :: 0 <= i < |text| ==> InAlphabet(text[i])
    ensures Encode(Lenient(text)) == text <==> TrailingBitsZero(text)
  {
    hide Symbol, ValueOf, Encode;
    EncodeByGroups(Lenient(text));
    GroupEncodes(ValueOf(text[0]), ValueOf(text[1]), 0, 0);
    ValueRoundTrip(text[0]);
    LastSymbol(text[1], 16);
    assert text == [text[0], text[1]];
  }

  lemma ThreeSymbols(text: string)
    requires |text| == 3 && forall i :: 0 <= i < |text| ==> InAlphabet(text[i])
    ensures Encode(Lenient(text)) == text <==> TrailingBitsZero(text)
  {
    hide Symbol, ValueOf, Encode;
    EncodeByGroups(Lenient(text));
    GroupEncodes(ValueOf(text[0]), ValueOf(text[1]), ValueOf(text[2]), 0);
    ValueRoundTrip(text[0]);
    ValueRoundTrip(text[1]);
    LastSymbol(text[2], 4);
    assert text == [text[0], text[1], text[2]];
  }

  lemma FourSymbols(text: string)
    requires |text| >= 4 && forall i :: 0 <= i < |text| ==> InAlphabet(text[i])
    ensures |Lenient(text)| >= 3 && Lenient(text)[3..] == Lenient(text[4..])
    ensures FullGroup(Lenient(text)[0], Lenient(text)[1], Lenient(text)[2]) == text[..4]
  {
    hide Symbol, ValueOf, First, Second, Third;
    var p, q, r, s := ValueOf(text[0]), ValueOf(text[1]), ValueOf(text[2]), ValueOf(text[3]);
    GroupEncodes(p, q, r, s);
    assert Lenient(text) == [First(p, q), Second(q, r), Third(r, s)] + Lenient(text[4..]);
    assert FullGroup(First(p, q), Second(q, r), Third(r, s)) == [Symbol(p), Symbol(q), Symbol(r), Symbol(s)];
    ValueRoundTrip(text[0]);
    ValueRoundTrip(text[1]);
    ValueRoundTrip(text[2]);
    ValueRoundTrip(text[3]);
    assert text[..4] == [text[0], text[1], text[2], text[3]];
  }

  lemma ValueRoundTrip(c: char)
    requires InAlphabet(c)
    ensures Symbol(ValueOf(c)) == c
  {
  }

  /** Re-encoding the last symbol keeps it exactly when its surplus bits are zero. */
  lemma LastSymbol(c: char, unit: Sextet)
    requires InAlphabet(c) && unit in {4, 16}
    ensures ValueOf(c) - ValueOf(c) % unit >= 0
    ensures Symbol(ValueOf(c) - ValueOf(c) % unit) == c <==> ValueOf(c) % unit == 0
  {
  }

  lemma GroupEncodes(p: Sextet, q: Sextet, r: Sextet, s: Sextet)
    ensures First(p, q) / 4 == p && First(p, q) % 4 * 16 == q - q % 16
    ensures First(p, q) % 4 * 16 + Second(q, r) / 16 == q
    ensures Second(q, r) % 16 * 4 == r - r % 4
    ensures Second(q, r) % 16 * 4 + Third(r, s) / 64 == r
    ensures Third(r, s) % 64 == s
  {
  }

  /** What the decoder accepts, without mentioning the encoder. */
  lemma AcceptedExactlyWhenCanonical(text: string)
    ensures Decode(text).Ok? <==> WellShaped(text) && TrailingBitsZero(text)
  {
    if WellShaped(text) { ReencodesExactlyWhenBitsZero(text); }
  }
}
