/** The base64 encoding of section 4 of RFC 4648, as the storage adapter uses it
    to hand image bytes to the mobile filesystem, and the decoding the filesystem
    applies when it writes base64 data as bytes. */
module Base64 {
  import opened Wrappers

  type uint8 = x: int | 0 <= x < 256

  /** The 64 characters of the base64 alphabet (RFC 4648, section 4, Table 1). */
  predicate IsAlphabetChar(c: char) {
    ('A' <= c <= 'Z') || ('a' <= c <= 'z') || ('0' <= c <= '9') || c == '+' || c == '/'
  }

  const Pad: char := '='

  /** The alphabet character of a 6-bit value. */
  function Digit(v: int): (c: char)
    requires 0 <= v < 64
    ensures IsAlphabetChar(c)
  {
    if v < 26 then (65 + v) as char
    else if v < 52 then (97 + v - 26) as char
    else if v < 62 then (48 + v - 52) as char
    else if v == 62 then '+'
    else '/'
  }

  /** The 6-bit value of an alphabet character; `None` for any other character. */
  function Value(c: char): (r: Option<int>)
    ensures r.Some? <==> IsAlphabetChar(c)
    ensures r.Some? ==> 0 <= r.value < 64 && Digit(r.value) == c
  {
    if 'A' <= c <= 'Z' then Some(c as int - 65)
    else if 'a' <= c <= 'z' then Some(c as int - 97 + 26)
    else if '0' <= c <= '9' then Some(c as int - 48 + 52)
    else if c == '+' then Some(62)
    else if c == '/' then Some(63)
    else None
  }

  lemma {:induction false} ValueOfDigit(v: int)
    requires 0 <= v < 64
    ensures Value(Digit(v)) == Some(v)
  {
  }

  /** Three bytes become four characters, six bits each, high bits first. */
  function EncodeGroup(a: uint8, b: uint8, c: uint8): string {
    [Digit(a / 4), Digit((a % 4) * 16 + b / 16), Digit((b % 16) * 4 + c / 64), Digit(c % 64)]
  }

  /** One leftover byte: two characters and two `=`. */
  function EncodeLastOne(a: uint8): string {
    [Digit(a / 4), Digit((a % 4) * 16), Pad, Pad]
  }

  /** Two leftover bytes: three characters and one `=`. */
  function EncodeLastTwo(a: uint8, b: uint8): string {
    [Digit(a / 4), Digit((a % 4) * 16 + b / 16), Digit((b % 16) * 4), Pad]
  }

  /** The base64 text of `bytes`: full groups, then one final group padded with
      `=` when the length is not a multiple of three. */
  function Encode(bytes: seq<uint8>): (r: string)
    ensures |r| == 4 * ((|bytes| + 2) / 3)
    decreases |bytes|
  {
    if |bytes| == 0 then ""
    else if |bytes| == 1 then EncodeLastOne(bytes[0])
    else if |bytes| == 2 then EncodeLastTwo(bytes[0], bytes[1])
    else
      assert (|bytes| + 2) / 3 == (|bytes[3..]| + 2) / 3 + 1;
      EncodeGroup(bytes[0], bytes[1], bytes[2]) + Encode(bytes[3..])
  }

  /** Text in the shape `btoa` produces: whole groups of four alphabet
      characters, except that the last one or two may be `=` padding. */
  predicate IsBase64Text(r: string) {
    && |r| % 4 == 0
    && (forall i :: 0 <= i < |r| - 2 ==> IsAlphabetChar(r[i]))
    && (forall i :: |r| - 2 <= i < |r| && 0 <= i ==> IsAlphabetChar(r[i]) || r[i] == Pad)
    && (|r| >= 2 && r[|r| - 2] == Pad ==> r[|r| - 1] == Pad)
  }

  /** The encoder only ever writes the base64 alphabet and trailing padding. */
  lemma {:induction false} EncodeAlphabet(bytes: seq<uint8>)
    ensures IsBase64Text(Encode(bytes))
    decreases |bytes|
  {
    if |bytes| >= 3 {
      var tail := bytes[3..];
      EncodeAlphabet(tail);
      var g := EncodeGroup(bytes[0], bytes[1], bytes[2]);
      AlphabetStep(g, Encode(tail));
      assert Encode(bytes) == g + Encode(tail);
    }
  }

  lemma {:induction false} AlphabetStep(g: string, rest: string)
    requires |g| == 4 && forall i :: 0 <= i < 4 ==> IsAlphabetChar(g[i])
    requires IsBase64Text(rest)
    ensures IsBase64Text(g + rest)
  {
    var s := g + rest;
    forall i | 0 <= i < |s| - 2 ensures IsAlphabetChar(s[i]) {
      if i < 4 { assert s[i] == g[i]; } else { assert s[i] == rest[i - 4]; }
    }
    if |rest| > 0 {
      assert s[|s| - 2] == rest[|rest| - 2] && s[|s| - 1] == rest[|rest| - 1];
    }
  }

  /** Four alphabet characters back to three bytes. */
  function DecodeGroup(s: string): (r: Option<seq<uint8>>)
    requires |s| == 4
    ensures r.Some? ==> |r.value| == 3
    ensures r.Some? <==> forall i :: 0 <= i < 4 ==> IsAlphabetChar(s[i])
  {
    match (Value(s[0]), Value(s[1]), Value(s[2]), Value(s[3]))
    case (Some(v0), Some(v1), Some(v2), Some(v3)) =>
      Some([v0 * 4 + v1 / 16, (v1 % 16) * 16 + v2 / 4, (v2 % 4) * 64 + v3])
    case _ => None
  }

  /** The final group, which may carry one or two `=` in place of its last characters. */
  function DecodeFinal(s: string): (r: Option<seq<uint8>>)
    requires |s| == 4
    ensures r.Some? ==> 1 <= |r.value| <= 3
  {
    if s[2] == Pad && s[3] == Pad then
      match (Value(s[0]), Value(s[1]))
      case (Some(v0), Some(v1)) => Some([v0 * 4 + v1 / 16])
      case _ => None
    else if s[3] == Pad then
      match (Value(s[0]), Value(s[1]), Value(s[2]))
      case (Some(v0), Some(v1), Some(v2)) => Some([v0 * 4 + v1 / 16, (v1 % 16) * 16 + v2 / 4])
      case _ => None
    else DecodeGroup(s)
  }

  /** Base64 text back to bytes; `None` when the text is not base64 (a length
      that is not a multiple of four, a foreign character, misplaced padding). */
  function Decode(s: string): (r: Option<seq<uint8>>)
    ensures r.Some? ==> |s| % 4 == 0 && |r.value| <= 3 * (|s| / 4)
    decreases |s|
  {
    if |s| == 0 then Some([])
    else if |s| < 4 then None
    else if |s| == 4 then DecodeFinal(s)
    else
      match DecodeGroup(s[..4])
      case None => None
      case Some(group) =>
        match Decode(s[4..])
        case None => None
        case Some(rest) => Some(group + rest)
  }

  lemma {:induction false} GroupRoundTrip(a: uint8, b: uint8, c: uint8)
    ensures DecodeGroup(EncodeGroup(a, b, c)) == Some([a, b, c])
  {
    var v1 := (a % 4) * 16 + b / 16;
    var v2 := (b % 16) * 4 + c / 64;
    ValueOfDigit(a / 4);
    ValueOfDigit(v1);
    ValueOfDigit(v2);
    ValueOfDigit(c % 64);
    assert v1 / 16 == a % 4 && v1 % 16 == b / 16;
    assert v2 / 4 == b % 16 && v2 % 4 == c / 64;
  }

  /** Decoding undoes encoding: the filesystem stores exactly the bytes that were encoded. */
  lemma {:induction false} DecodeEncode(bytes: seq<uint8>)
    ensures Decode(Encode(bytes)) == Some(bytes)
    decreases |bytes|
  {
    if |bytes| < 3 {
      DecodeEncodeShort(bytes);
    } else {
      DecodeEncode(bytes[3..]);
      EncodeUnfold(bytes);
      DecodeEncodeLong(bytes[0], bytes[1], bytes[2], bytes[3..]);
      SplitThree(bytes);
    }
  }

  lemma {:induction false} DecodeEncodeShort(bytes: seq<uint8>)
    requires |bytes| < 3
    ensures Decode(Encode(bytes)) == Some(bytes)
  {
    if |bytes| == 1 {
      DecodeEncodeOne(bytes[0]);
      assert bytes == [bytes[0]];
    } else if |bytes| == 2 {
      DecodeEncodeTwo(bytes[0], bytes[1]);
      assert bytes == [bytes[0], bytes[1]];
    }
  }

  lemma {:induction false} DecodeEncodeLong(a: uint8, b: uint8, c: uint8, tail: seq<uint8>)
    requires Decode(Encode(tail)) == Some(tail)
    ensures Decode(EncodeGroup(a, b, c) + Encode(tail)) == Some([a, b, c] + tail)
  {
    GroupRoundTrip(a, b, c);
    DecodeStep(EncodeGroup(a, b, c), Encode(tail));
  }

  lemma {:induction false} SplitThree(bytes: seq<uint8>)
    requires |bytes| >= 3
    ensures bytes == [bytes[0], bytes[1], bytes[2]] + bytes[3..]
  {
  }

  lemma {:induction false} EncodeUnfold(bytes: seq<uint8>)
    requires |bytes| >= 3
    ensures Encode(bytes) == EncodeGroup(bytes[0], bytes[1], bytes[2]) + Encode(bytes[3..])
  {
  }

  lemma {:induction false} DecodeEncodeOne(a: uint8)
    ensures Decode(Encode([a])) == Some([a])
  {
    var e := Encode([a]);
    assert e == EncodeLastOne(a);
    ValueOfDigit(a / 4);
    ValueOfDigit((a % 4) * 16);
    assert ((a % 4) * 16) / 16 == a % 4;
    assert Decode(e) == DecodeFinal(e);
  }

  lemma {:induction false} DecodeEncodeTwo(a: uint8, b: uint8)
    ensures Decode(Encode([a, b])) == Some([a, b])
  {
    var v1 := (a % 4) * 16 + b / 16;
    var v2 := (b % 16) * 4;
    var e := Encode([a, b]);
    assert e == EncodeLastTwo(a, b);
    ValueOfDigit(a / 4);
    ValueOfDigit(v1);
    ValueOfDigit(v2);
    assert v1 / 16 == a % 4 && v1 % 16 == b / 16;
    assert v2 / 4 == b % 16;
    assert Digit(v2) != Pad;
    assert Decode(e) == DecodeFinal(e);
  }

  /** A full leading group decodes on its own, ahead of the rest. */
  lemma {:induction false} DecodeStep(g: string, rest: string)
    requires |g| == 4 && DecodeGroup(g).Some? && Decode(rest).Some?
    ensures Decode(g + rest) == Some(DecodeGroup(g).value + Decode(rest).value)
  {
    var s := g + rest;
    assert s[..4] == g && s[4..] == rest;
    if |rest| == 0 {
      assert s == g;
      assert IsAlphabetChar(g[2]) && IsAlphabetChar(g[3]);
      assert DecodeGroup(g).value + [] == DecodeGroup(g).value;
    }
  }

  /** `String.fromCharCode` applied to every byte: one Latin-1 character per byte. */
  function Latin1(bytes: seq<uint8>): (s: string)
    ensures |s| == |bytes| && forall i :: 0 <= i < |s| ==> s[i] as int == bytes[i]
  {
    seq(|bytes|, i requires 0 <= i < |bytes| => bytes[i] as char)
  }

  /** The bytes a string of characters below 256 stands for. */
  function CharCodes(s: string): (bytes: seq<uint8>)
    requires forall i :: 0 <= i < |s| ==> s[i] as int < 256
    ensures |bytes| == |s| && forall i :: 0 <= i < |s| ==> bytes[i] == s[i] as int
  {
    seq(|s|, i requires 0 <= i < |s| => s[i] as int)
  }

  /** `btoa`: the base64 text of a string read as bytes, one per character; it
      throws when a character does not fit in a byte. */
  function Btoa(s: string): (r: Result<string>)
    ensures r.Ok? <==> forall i :: 0 <= i < |s| ==> s[i] as int < 256
    ensures r.Ok? ==> Decode(r.value) == Some(CharCodes(s))
  {
    if forall i :: 0 <= i < |s| ==> s[i] as int < 256 then
      DecodeEncode(CharCodes(s));
      Ok(Encode(CharCodes(s)))
    else Threw
  }

  /** `arrayBufferToBase64`: every byte becomes a Latin-1 character, so `btoa`
      never throws, and the result is the base64 text of exactly those bytes. */
  function ArrayBufferToBase64(bytes: seq<uint8>): (r: string)
    ensures |r| == 4 * ((|bytes| + 2) / 3)
    ensures IsBase64Text(r)
    ensures Decode(r) == Some(bytes)
  {
    var binary := Latin1(bytes);
    assert CharCodes(binary) == bytes;
    var encoded := Btoa(binary);
    assert encoded.value == Encode(bytes);
    EncodeAlphabet(bytes);
    encoded.value
  }

  /** The test vectors of section 10 of RFC 4648. */
  lemma {:induction false} TestVectors()
    ensures Encode([]) == ""
    ensures Encode([102]) == "Zg=="
    ensures Encode([102, 111]) == "Zm8="
    ensures Encode([102, 111, 111]) == "Zm9v"
    ensures Encode([102, 111, 111, 98]) == "Zm9vYg=="
    ensures Encode([102, 111, 111, 98, 97]) == "Zm9vYmE="
    ensures Encode([102, 111, 111, 98, 97, 114]) == "Zm9vYmFy"
  {
    assert [102, 111, 111, 98, 97, 114][3..] == [98, 97, 114];
    assert [102, 111, 111, 98, 97][3..] == [98, 97];
    assert [102, 111, 111, 98][3..] == [98];
  }
}
