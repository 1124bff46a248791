/** The password derivation of `PasswordGenApp.generate_password`: validate
    the requested length, draw ceil(6L/8) random bytes, encode them in
    standard Base64 and keep the first L characters. The random bytes are a
    parameter, which makes derivation a function of the length and the bytes. */
module PasswordGen {
  import opened Wrappers
  import opened Base64

  /** Shortest password the generator accepts. */
  const MinLength: int := 8
  /** Longest password the generator accepts. */
  const MaxLength: int := 512
  /** Length the input field holds when the application starts. */
  const DefaultLength: int := 64

  /** Why no password was produced: the length field did not parse as an
      integer, or it parsed to a length outside [MinLength, MaxLength]. */
  datatype GenError = InvalidInput | InvalidLength

  /** The range test of the length field. Every accepted length asks for a
      positive, bounded number of random bytes: from 6 for 8 characters to
      384 for 512. */
  predicate ValidLength(length: int): (valid: bool)
    ensures valid ==> length > 0 && 6 <= BytesNeeded(length) <= 384
  {
    MinLength <= length <= MaxLength
  }

  /** Number of random bytes drawn for a password of `length` characters:
      ceil(6L/8), the fewest bytes that carry 6 bits for each character. */
  function BytesNeeded(length: nat): (n: nat)
    ensures 8 * n >= 6 * length
    ensures n == 0 || 8 * (n - 1) < 6 * length
  {
    (length * 6 + 7) / 8
  }

  /** Python's slice `s[:k]` for `k >= 0`: the first `k` characters, or all
      of `s` when it is shorter. */
  function Take(s: string, k: nat): (r: string)
    ensures |r| == if k <= |s| then k else |s|
    ensures r == s[..|r|]
  {
    if k <= |s| then s[..k] else s
  }

  /** The encoding of `BytesNeeded(L)` bytes has at least `L` data characters,
      and its full length is `L` rounded up to a multiple of four. */
  lemma EncodingCoversLength(length: nat)
    ensures length <= DataLength(BytesNeeded(length))
    ensures EncodedLength(BytesNeeded(length)) == 4 * ((length + 3) / 4)
  {
    var n := BytesNeeded(length);
    var q, r := length / 4, length % 4;
    assert length == 4 * q + r;
    if r == 0 {
    } else if r == 1 {
    } else if r == 2 {
    } else {
    }
    assert n == 3 * q + r;
  }

  /** The password for a valid `length` and the random `bytes` drawn for it:
      exactly `length` characters, all from the Base64 alphabet, taken from
      the front of the encoding and never reaching its padding. */
  function Derive(length: int, bytes: seq<uint8>): (password: string)
    requires ValidLength(length) && |bytes| == BytesNeeded(length)
    ensures |password| == length
    ensures password == Encode(bytes)[..length]
    ensures forall i :: 0 <= i < |password| ==> IsAlphabetChar(password[i])
    ensures Pad !in password
  {
    EncodingCoversLength(length);
    Take(Encode(bytes), length)
  }

  /** The whole of `generate_password` up to the display: parse failure and an
      out-of-range length are the two errors, and every accepted length gives
      a password of exactly that many alphabet characters. */
  function Generate(input: Option<int>, bytes: seq<uint8>): (r: Result<string, GenError>)
    requires input.Some? && ValidLength(input.value) ==> |bytes| == BytesNeeded(input.value)
    ensures r.Success? <==> input.Some? && ValidLength(input.value)
    ensures input.None? ==> r == Failure(InvalidInput)
    ensures input.Some? && !ValidLength(input.value) ==> r == Failure(InvalidLength)
    ensures r.Success? ==> |r.value| == input.value
    ensures r.Success? ==> forall i :: 0 <= i < |r.value| ==> IsAlphabetChar(r.value[i])
    ensures r.Success? ==> r.value == Encode(bytes)[..input.value]
  {
    match input
    case None => Failure(InvalidInput)
    case Some(length) =>
      if !ValidLength(length) then Failure(InvalidLength)
      else Success(Derive(length, bytes))
  }

  /** Rounding up to a multiple of four adds nothing exactly for multiples of
      four, and otherwise less than four. */
  lemma RoundUpToFour(length: nat)
    ensures 4 * ((length + 3) / 4) == length <==> length % 4 == 0
    ensures 4 * ((length + 3) / 4) - length < 4
  {
  }

  /** Truncation removes nothing exactly when the length is a multiple of
      four, and otherwise removes fewer than four characters. */
  lemma TruncationCutsPartialGroup(length: int, bytes: seq<uint8>)
    requires ValidLength(length) && |bytes| == BytesNeeded(length)
    ensures Derive(length, bytes) == Encode(bytes) <==> length % 4 == 0
    ensures |Encode(bytes)| - length < 4
  {
    EncodingCoversLength(length);
    RoundUpToFour(length);
    var e, pw := Encode(bytes), Derive(length, bytes);
    if |e| == length {
      assert pw == e[..length] == e;
    }
  }

  /** When nothing is truncated the password carries every random byte:
      decoding it gives them back. */
  lemma WholePasswordDecodes(length: int, bytes: seq<uint8>)
    requires ValidLength(length) && |bytes| == BytesNeeded(length)
    requires length % 4 == 0
    ensures Decode(Derive(length, bytes)) == Some(bytes)
  {
    TruncationCutsPartialGroup(length, bytes);
    DecodeEncode(bytes);
  }

  /** The default length of 64 draws 48 bytes, whose 64-character encoding
      has no padding and is the password in full. */
  lemma DefaultLengthUsesWholeEncoding(bytes: seq<uint8>)
    requires |bytes| == BytesNeeded(DefaultLength)
    ensures |bytes| == 48 && |Encode(bytes)| == 64 && Pad !in Encode(bytes)
    ensures Derive(DefaultLength, bytes) == Encode(bytes)
    ensures Decode(Derive(DefaultLength, bytes)) == Some(bytes)
  {
    WholePasswordDecodes(DefaultLength, bytes);
  }

  /** The boundary lengths are also multiples of four: 8 characters come
      from 6 bytes and 512 from 384. */
  lemma BoundaryLengths()
    ensures BytesNeeded(MinLength) == 6 && EncodedLength(6) == MinLength
    ensures BytesNeeded(MaxLength) == 384 && EncodedLength(384) == MaxLength
  {
  }

  /** The password alphabet is not URL-safe: eight bytes of `0xFF` give a
      password of slashes, and the bytes `FB EF BE` repeated give plus signs. */
  lemma PasswordMayUseUrlReservedChars()
    ensures Derive(MinLength, [255, 255, 255, 255, 255, 255]) == "////////"
    ensures Derive(MinLength, [251, 239, 190, 251, 239, 190]) == "++++++++"
  {
    var ones: seq<uint8> := [255, 255, 255, 255, 255, 255];
    assert ones[3..] == [255, 255, 255];
    assert Encode(ones) == EncodeGroup(255, 255, 255) + EncodeGroup(255, 255, 255) + Encode([]);
    var plus: seq<uint8> := [251, 239, 190, 251, 239, 190];
    assert plus[3..] == [251, 239, 190];
    assert Encode(plus) == EncodeGroup(251, 239, 190) + EncodeGroup(251, 239, 190) + Encode([]);
  }
}
