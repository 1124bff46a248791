/** Standard Base64, as section 4 of RFC 4648 defines it: every 3-byte group
    becomes four characters of a 64-symbol alphabet, and a final group of one
    or two bytes is completed with `==` or `=`. This is the encoding that
    `base64.b64encode` produces. A strict decoder is defined alongside it so
    that the encoding can be shown to lose nothing. */
module Base64 {
  import opened Wrappers

  newtype uint8 = x: int | 0 <= x < 256

  /** The alphabet of section 4 of RFC 4648, in the order of the values it encodes. */
  const Alphabet: string :=
    "ABCDEFGH" + "IJKLMNOP" + "QRSTUVWX" + "YZabcdef" + "ghijklmn" + "opqrstuv" + "wxyz0123" + "456789+/"

  /** The padding character that completes a final group. */
  const Pad: char := '='

  /** The character that encodes the 6-bit value `v`. */
  function IndexToChar(v: int): (c: char)
    requires 0 <= v < 64
    ensures CharToIndex(c) == Some(v)
    ensures c != Pad
  {
    if v < 26 then ('A' as int + v) as char
    else if v < 52 then ('a' as int + (v - 26)) as char
    else if v < 62 then ('0' as int + (v - 52)) as char
    else if v == 62 then '+'
    else '/'
  }

  /** The 6-bit value that `c` encodes, or `None` when `c` is not in the alphabet. */
  function CharToIndex(c: char): (r: Option<int>)
    ensures r.Some? ==> 0 <= r.value < 64
    ensures c == Pad ==> r.None?
  {
    if 'A' <= c <= 'Z' then Some(c as int - 'A' as int)
    else if 'a' <= c <= 'z' then Some(c as int - 'a' as int + 26)
    else if '0' <= c <= '9' then Some(c as int - '0' as int + 52)
    else if c == '+' then Some(62)
    else if c == '/' then Some(63)
    else None
  }

  /** True of the 64 characters that carry data. */
  predicate IsAlphabetChar(c: char) {
    CharToIndex(c).Some?
  }

  /** Every alphabet character is the encoding of the value it decodes to. */
  lemma CharToIndexInverse(c: char)
    requires IsAlphabetChar(c)
    ensures IndexToChar(CharToIndex(c).value) == c
  {
  }

  /** The arithmetic character mapping agrees with the alphabet table, and the
      alphabet characters are exactly the members of the table. */
  lemma AlphabetTable()
    ensures |Alphabet| == 64
    ensures forall v :: 0 <= v < 64 ==> Alphabet[v] == IndexToChar(v)
    ensures forall c :: c in Alphabet <==> IsAlphabetChar(c)
  {
    forall v | 0 <= v < 64
      ensures Alphabet[v] == IndexToChar(v)
    {
      if v < 8 {
      } else if v < 16 {
      } else if v < 24 {
      } else if v < 32 {
      } else if v < 40 {
      } else if v < 48 {
      } else if v < 56 {
      }
    }
    forall c | IsAlphabetChar(c)
      ensures c in Alphabet
    {
      CharToIndexInverse(c);
      assert Alphabet[CharToIndex(c).value] == c;
    }
  }

  /** Length of the encoding of `n` bytes: four characters per started group. */
  function EncodedLength(n: nat): nat {
    4 * ((n + 2) / 3)
  }

  /** Number of leading characters of that encoding that carry data: ceil(4n/3). */
  function DataLength(n: nat): nat {
    (4 * n + 2) / 3
  }

  /** The four characters of one complete group of three bytes. */
  function EncodeGroup(a: uint8, b: uint8, c: uint8): (s: string)
  {
    var x, y, z := a as int, b as int, c as int;
    [IndexToChar(x / 4), IndexToChar(x % 4 * 16 + y / 16), IndexToChar(y % 16 * 4 + z / 64), IndexToChar(z % 64)]
  }

  /** A final group of one byte: two data characters, then `==`. */
  function EncodeFinal1(a: uint8): (s: string)
  {
    var x := a as int;
    [IndexToChar(x / 4), IndexToChar(x % 4 * 16), Pad, Pad]
  }

  /** A final group of two bytes: three data characters, then `=`. */
  function EncodeFinal2(a: uint8, b: uint8): (s: string)
  {
    var x, y := a as int, b as int;
    [IndexToChar(x / 4), IndexToChar(x % 4 * 16 + y / 16), IndexToChar(y % 16 * 4), Pad]
  }

  /** The Base64 encoding of `bytes`. Its length is a multiple of four, the
      first ceil(4n/3) characters are alphabet characters and only the rest,
      never more than two, are padding. */
  function Encode(bytes: seq<uint8>): (s: string)
    ensures |s| == EncodedLength(|bytes|)
    ensures forall i :: 0 <= i < DataLength(|bytes|) ==> IsAlphabetChar(s[i])
    ensures forall i :: DataLength(|bytes|) <= i < |s| ==> s[i] == Pad
    decreases |bytes|
  {
    if |bytes| == 0 then []
    else if |bytes| == 1 then EncodeFinal1(bytes[0])
    else if |bytes| == 2 then EncodeFinal2(bytes[0], bytes[1])
    else EncodeGroup(bytes[0], bytes[1], bytes[2]) + Encode(bytes[3..])
  }

  /** Section 4 of RFC 4648: a group of three bytes is read as one 24-bit
      number, most significant byte first, and the four characters are its
      6-bit digits, most significant first. */
  lemma GroupBits(a: uint8, b: uint8, c: uint8)
    ensures var q := EncodeGroup(a, b, c);
      (a as int) * 65536 + (b as int) * 256 + (c as int)
      == CharToIndex(q[0]).value * 262144 + CharToIndex(q[1]).value * 4096
         + CharToIndex(q[2]).value * 64 + CharToIndex(q[3]).value
  {
  }

  /** A final single byte is extended with zero bits to 12 bits, which the two
      data characters carry as 6-bit digits, most significant first. */
  lemma Final1Bits(a: uint8)
    ensures var q := EncodeFinal1(a);
      (a as int) * 16 == CharToIndex(q[0]).value * 64 + CharToIndex(q[1]).value
  {
  }

  /** Two final bytes are extended with zero bits to 18 bits, which the three
      data characters carry as 6-bit digits, most significant first. */
  lemma Final2Bits(a: uint8, b: uint8)
    ensures var q := EncodeFinal2(a, b);
      ((a as int) * 256 + (b as int)) * 4
      == CharToIndex(q[0]).value * 4096 + CharToIndex(q[1]).value * 64 + CharToIndex(q[2]).value
  {
  }

  /** The padding is what remains of the last group: none, `=` or `==`. */
  lemma PaddingLength(n: nat)
    ensures EncodedLength(n) - DataLength(n) == (3 - n % 3) % 3
    ensures EncodedLength(n) - DataLength(n) <= 2
  {
  }

  /** Decodes four alphabet characters into the three bytes they carry. */
  function DecodeGroup(q: string): (r: Option<seq<uint8>>)
    requires |q| == 4
  {
    var i0, i1, i2, i3 := CharToIndex(q[0]), CharToIndex(q[1]), CharToIndex(q[2]), CharToIndex(q[3]);
    if i0.Some? && i1.Some? && i2.Some? && i3.Some? then
      var v0, v1, v2, v3 := i0.value, i1.value, i2.value, i3.value;
      Some([(v0 * 4 + v1 / 16) as uint8, (v1 % 16 * 16 + v2 / 4) as uint8, (v2 % 4 * 64 + v3) as uint8])
    else
      None
  }

  /** Decodes the last group of an encoding, which may be padded. The bits a
      padded group does not use must be zero, so that every accepted string is
      the encoding of what it decodes to. */
  function DecodeFinal(q: string): (r: Option<seq<uint8>>)
    requires |q| == 4
  {
    var i0, i1, i2 := CharToIndex(q[0]), CharToIndex(q[1]), CharToIndex(q[2]);
    if q[2] == Pad && q[3] == Pad then
      if i0.Some? && i1.Some? && i1.value % 16 == 0 then
        Some([(i0.value * 4 + i1.value / 16) as uint8])
      else
        None
    else if q[3] == Pad then
      if i0.Some? && i1.Some? && i2.Some? && i2.value % 4 == 0 then
        Some([(i0.value * 4 + i1.value / 16) as uint8, (i1.value % 16 * 16 + i2.value / 4) as uint8])
      else
        None
    else
      DecodeGroup(q)
  }

  /** Strict Base64 decoding: `None` for any string that is not the encoding of
      some byte sequence. */
  function Decode(s: string): (r: Option<seq<uint8>>)
    ensures r.Some? ==> |s| == EncodedLength(|r.value|)
    decreases |s|
  {
    if |s| == 0 then Some([])
    else if |s| < 4 then None
    else if |s| == 4 then DecodeFinal(s)
    else
      match (DecodeGroup(s[..4]), Decode(s[4..]))
      case (Some(g), Some(rest)) => Some(g + rest)
      case _ => None
  }

  /** Splitting three bytes into four 6-bit values and joining them again
      gives back the bytes. */
  lemma SextetArithmetic(x: int, y: int, z: int)
    requires 0 <= x < 256 && 0 <= y < 256 && 0 <= z < 256
    ensures x / 4 * 4 + (x % 4 * 16 + y / 16) / 16 == x
    ensures (x % 4 * 16 + y / 16) % 16 * 16 + (y % 16 * 4 + z / 64) / 4 == y
    ensures (y % 16 * 4 + z / 64) % 4 * 64 + z % 64 == z
  {
  }

  lemma GroupRoundTrip(a: uint8, b: uint8, c: uint8)
    ensures DecodeGroup(EncodeGroup(a, b, c)) == Some([a, b, c])
  {
    var x, y, z := a as int, b as int, c as int;
    SextetArithmetic(x, y, z);
    var q := EncodeGroup(a, b, c);
    assert CharToIndex(q[0]) == Some(x / 4);
    assert CharToIndex(q[1]) == Some(x % 4 * 16 + y / 16);
    assert CharToIndex(q[2]) == Some(y % 16 * 4 + z / 64);
    assert CharToIndex(q[3]) == Some(z % 64);
  }

  lemma Final1RoundTrip(a: uint8)
    ensures DecodeFinal(EncodeFinal1(a)) == Some([a])
  {
    var x := a as int;
    SextetArithmetic(x, 0, 0);
    var q := EncodeFinal1(a);
    assert CharToIndex(q[0]) == Some(x / 4);
    assert CharToIndex(q[1]) == Some(x % 4 * 16);
  }

  lemma Final2RoundTrip(a: uint8, b: uint8)
    ensures DecodeFinal(EncodeFinal2(a, b)) == Some([a, b])
  {
    var x, y := a as int, b as int;
    SextetArithmetic(x, y, 0);
    var q := EncodeFinal2(a, b);
    assert CharToIndex(q[0]) == Some(x / 4);
    assert CharToIndex(q[1]) == Some(x % 4 * 16 + y / 16);
    assert CharToIndex(q[2]) == Some(y % 16 * 4);
  }

  /** Decoding inverts encoding on a final group of one or two bytes. */
  lemma DecodeEncodeShort(bytes: seq<uint8>)
    requires 1 <= |bytes| <= 2
    ensures Decode(Encode(bytes)) == Some(bytes)
  {
    var s := Encode(bytes);
    assert Decode(s) == DecodeFinal(s);
    if |bytes| == 1 {
      assert s == EncodeFinal1(bytes[0]);
      Final1RoundTrip(bytes[0]);
      assert bytes == [bytes[0]];
    } else {
      assert s == EncodeFinal2(bytes[0], bytes[1]);
      Final2RoundTrip(bytes[0], bytes[1]);
      assert bytes == [bytes[0], bytes[1]];
    }
  }

  /** A string longer than one group decodes to the bytes of its first group
      followed by the bytes of the rest. */
  lemma DecodeSplit(s: string, bytes: seq<uint8>)
    requires |s| > 4 && |bytes| > 3
    requires DecodeGroup(s[..4]) == Some(bytes[..3])
    requires Decode(s[4..]) == Some(bytes[3..])
    ensures Decode(s) == Some(bytes)
  {
    assert bytes == bytes[..3] + bytes[3..];
  }

  /** The encoding of more than three bytes is the first group's four characters
      followed by the encoding of the rest. */
  lemma EncodeUnfold(bytes: seq<uint8>)
    requires |bytes| > 3
    ensures |Encode(bytes)| > 4
    ensures Encode(bytes)[..4] == EncodeGroup(bytes[0], bytes[1], bytes[2])
    ensures Encode(bytes)[4..] == Encode(bytes[3..])
  {
    var g := EncodeGroup(bytes[0], bytes[1], bytes[2]);
    var rest := Encode(bytes[3..]);
    assert Encode(bytes) == g + rest;
    assert (g + rest)[..4] == g;
    assert (g + rest)[4..] == rest;
  }

  /** The first group of a byte sequence longer than three survives the round trip. */
  lemma DecodeFirstGroup(bytes: seq<uint8>)
    requires |bytes| > 3
    ensures DecodeGroup(EncodeGroup(bytes[0], bytes[1], bytes[2])) == Some(bytes[..3])
  {
    assert [bytes[0], bytes[1], bytes[2]] == bytes[..3];
    GroupRoundTrip(bytes[0], bytes[1], bytes[2]);
  }

  /** One step of the round trip: a leading complete group is decoded on its own. */
  lemma DecodeEncodeStep(bytes: seq<uint8>)
    requires |bytes| > 3
    requires Decode(Encode(bytes[3..])) == Some(bytes[3..])
    ensures Decode(Encode(bytes)) == Some(bytes)
  {
    EncodeUnfold(bytes);
    DecodeFirstGroup(bytes);
    DecodeSplit(Encode(bytes), bytes);
  }

  /** Decoding inverts encoding. */
  lemma {:induction false} DecodeEncode(bytes: seq<uint8>)
    ensures Decode(Encode(bytes)) == Some(bytes)
    decreases |bytes|
  {
    if |bytes| == 0 {
    } else if |bytes| <= 2 {
      DecodeEncodeShort(bytes);
    } else if |bytes| == 3 {
      var s := Encode(bytes);
      assert s == EncodeGroup(bytes[0], bytes[1], bytes[2]) + Encode([]);
      GroupRoundTrip(bytes[0], bytes[1], bytes[2]);
      assert bytes == [bytes[0], bytes[1], bytes[2]];
    } else {
      DecodeEncode(bytes[3..]);
      DecodeEncodeStep(bytes);
    }
  }

  /** Joining four 6-bit values into three bytes and splitting them again
      gives back the values. */
  lemma JoinArithmetic(v0: int, v1: int, v2: int, v3: int)
    requires 0 <= v0 < 64 && 0 <= v1 < 64 && 0 <= v2 < 64 && 0 <= v3 < 64
    ensures (v0 * 4 + v1 / 16) / 4 == v0
    ensures (v0 * 4 + v1 / 16) % 4 * 16 + (v1 % 16 * 16 + v2 / 4) / 16 == v1
    ensures (v1 % 16 * 16 + v2 / 4) % 16 * 4 + (v2 % 4 * 64 + v3) / 64 == v2
    ensures (v2 % 4 * 64 + v3) % 64 == v3
  {
  }

  /** Encoding the three bytes that four 6-bit values join into gives back
      the characters of those values. */
  lemma EncodeJoined(v0: int, v1: int, v2: int, v3: int)
    requires 0 <= v0 < 64 && 0 <= v1 < 64 && 0 <= v2 < 64 && 0 <= v3 < 64
    ensures 0 <= v0 * 4 + v1 / 16 < 256 && 0 <= v1 % 16 * 16 + v2 / 4 < 256 && 0 <= v2 % 4 * 64 + v3 < 256
    ensures EncodeGroup((v0 * 4 + v1 / 16) as uint8, (v1 % 16 * 16 + v2 / 4) as uint8, (v2 % 4 * 64 + v3) as uint8)
         == [IndexToChar(v0), IndexToChar(v1), IndexToChar(v2), IndexToChar(v3)]
  {
    JoinArithmetic(v0, v1, v2, v3);
  }

  /** A group that decodes is the encoding of the three bytes it decodes to. */
  lemma GroupCanonical(q: string)
    requires |q| == 4 && DecodeGroup(q).Some?
    ensures |DecodeGroup(q).value| == 3
    ensures EncodeGroup(DecodeGroup(q).value[0], DecodeGroup(q).value[1], DecodeGroup(q).value[2]) == q
  {
    var v0, v1, v2, v3 := CharToIndex(q[0]).value, CharToIndex(q[1]).value, CharToIndex(q[2]).value, CharToIndex(q[3]).value;
    EncodeJoined(v0, v1, v2, v3);
    assert DecodeGroup(q).value
        == [(v0 * 4 + v1 / 16) as uint8, (v1 % 16 * 16 + v2 / 4) as uint8, (v2 % 4 * 64 + v3) as uint8];
    CharToIndexInverse(q[0]);
    CharToIndexInverse(q[1]);
    CharToIndexInverse(q[2]);
    CharToIndexInverse(q[3]);
    assert q == [IndexToChar(v0), IndexToChar(v1), IndexToChar(v2), IndexToChar(v3)];
  }

  /** A final group `xx==` that decodes is the encoding of its one byte. */
  lemma Final1Canonical(q: string)
    requires |q| == 4 && q[2] == Pad && q[3] == Pad && DecodeFinal(q).Some?
    ensures |DecodeFinal(q).value| == 1
    ensures EncodeFinal1(DecodeFinal(q).value[0]) == q
  {
    var v0, v1 := CharToIndex(q[0]).value, CharToIndex(q[1]).value;
    JoinArithmetic(v0, v1, 0, 0);
    CharToIndexInverse(q[0]);
    CharToIndexInverse(q[1]);
  }

  /** A final group `xxx=` that decodes is the encoding of its two bytes. */
  lemma Final2Canonical(q: string)
    requires |q| == 4 && q[2] != Pad && q[3] == Pad && DecodeFinal(q).Some?
    ensures |DecodeFinal(q).value| == 2
    ensures EncodeFinal2(DecodeFinal(q).value[0], DecodeFinal(q).value[1]) == q
  {
    var v0, v1, v2 := CharToIndex(q[0]).value, CharToIndex(q[1]).value, CharToIndex(q[2]).value;
    JoinArithmetic(v0, v1, v2, 0);
    CharToIndexInverse(q[0]);
    CharToIndexInverse(q[1]);
    CharToIndexInverse(q[2]);
  }

  /** A final group that decodes is the encoding of the bytes it decodes to. */
  lemma FinalCanonical(q: string)
    requires |q| == 4 && DecodeFinal(q).Some?
    ensures 1 <= |DecodeFinal(q).value| <= 3
    ensures Encode(DecodeFinal(q).value) == q
  {
    var r := DecodeFinal(q).value;
    if q[2] == Pad && q[3] == Pad {
      Final1Canonical(q);
    } else if q[3] == Pad {
      Final2Canonical(q);
    } else {
      GroupCanonical(q);
      assert Encode(r) == EncodeGroup(r[0], r[1], r[2]) + Encode([]);
    }
  }

  /** One step of the converse: a string longer than one group that decodes is
      the encoding of its first group's bytes followed by the encoding of the rest. */
  lemma EncodeDecodeStep(s: string, bytes: seq<uint8>)
    requires |s| > 4 && Decode(s) == Some(bytes)
    requires Encode(Decode(s[4..]).value) == s[4..]
    ensures Encode(bytes) == s
  {
    var g, rest := DecodeGroup(s[..4]).value, Decode(s[4..]).value;
    assert bytes == g + rest;
    GroupCanonical(s[..4]);
    assert |rest| > 0;
    assert bytes[..3] == g && bytes[3..] == rest;
    EncodeUnfold(bytes);
    assert s == s[..4] + s[4..];
  }

  /** Every string the decoder accepts is the encoding of what it decodes to. */
  lemma {:induction false} EncodeDecode(s: string, bytes: seq<uint8>)
    requires Decode(s) == Some(bytes)
    ensures Encode(bytes) == s
    decreases |s|
  {
    if |s| == 0 {
    } else if |s| == 4 {
      FinalCanonical(s);
    } else {
      EncodeDecode(s[4..], Decode(s[4..]).value);
      EncodeDecodeStep(s, bytes);
    }
  }

  /** The decoder accepts exactly the encodings, and recovers their bytes. */
  lemma DecodeIffEncode(s: string, bytes: seq<uint8>)
    ensures Decode(s) == Some(bytes) <==> s == Encode(bytes)
  {
    if Decode(s) == Some(bytes) {
      EncodeDecode(s, bytes);
    }
    if s == Encode(bytes) {
      DecodeEncode(bytes);
    }
  }

  /** The test vectors of section 10 of RFC 4648 that end in padding within
      the first group: "", "f", "fo". */
  lemma RfcTestVectorsPadded()
    ensures Encode([]) == ""
    ensures Encode([0x66]) == "Zg=="
    ensures Encode([0x66, 0x6F]) == "Zm8="
  {
    assert IndexToChar(0x66 / 4) == 'Z';
    assert IndexToChar(0x66 % 4 * 16) == 'g';
    assert IndexToChar(0x66 % 4 * 16 + 0x6F / 16) == 'm';
    assert IndexToChar(0x6F % 16 * 4) == '8';
  }

  /** The test vector "foo" of section 10 of RFC 4648: an example of one
      complete group. */
  lemma RfcTestVectorFoo()
    ensures Encode([0x66, 0x6F, 0x6F]) == "Zm9v"
  {
    var foo: seq<uint8> := [0x66, 0x6F, 0x6F];
    assert IndexToChar(0x66 / 4) == 'Z';
    assert IndexToChar(0x66 % 4 * 16 + 0x6F / 16) == 'm';
    assert IndexToChar(0x6F % 16 * 4 + 0x6F / 64) == '9';
    assert IndexToChar(0x6F % 64) == 'v';
    assert Encode(foo) == EncodeGroup(0x66, 0x6F, 0x6F) + Encode([]);
  }

  /** The remaining test vectors of section 10 of RFC 4648: "foob", "fooba",
      "foobar". They fix how groups follow one another. */
  lemma RfcTestVectorsLong()
    ensures Encode([0x66, 0x6F, 0x6F, 0x62]) == "Zm9vYg=="
    ensures Encode([0x66, 0x6F, 0x6F, 0x62, 0x61]) == "Zm9vYmE="
    ensures Encode([0x66, 0x6F, 0x6F, 0x62, 0x61, 0x72]) == "Zm9vYmFy"
  {
    RfcTestVectorFoo();
    RfcTestVectorsPadded();
    var foob: seq<uint8> := [0x66, 0x6F, 0x6F, 0x62];
    assert foob[3..] == [0x62];
    var fooba: seq<uint8> := [0x66, 0x6F, 0x6F, 0x62, 0x61];
    assert fooba[3..] == [0x62, 0x61];
    var foobar: seq<uint8> := [0x66, 0x6F, 0x6F, 0x62, 0x61, 0x72];
    assert foobar[3..] == [0x62, 0x61, 0x72];
  }
}
