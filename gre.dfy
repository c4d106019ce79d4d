/**
 * The GRE header codec: the header record, its encoder and its decoder.
 *
 * The wire format is the variable-layout header of RFC 2784 (section 2.1)
 * with the Key and Sequence Number fields of RFC 2890 (sections 2.1 and 2.2):
 * a flags/version word and the protocol type, then, each only when its flag
 * bit is set and always in this order, the checksum with reserved1, the key
 * and the sequence number, then the payload. All words are big-endian.
 *
 * Octets are `bv8` and every numeric field is a bit-vector of exactly its
 * wire width, so the bit manipulation below is written with the same masks
 * and shifts as the implementation it models.
 */
module Gre {

  type byte = bv8

  const ETHER_TYPE_IPV4: bv16 := 0x0800
  const ETHER_TYPE_IPV6: bv16 := 0x86DD

  /** The header record. The three flags decide which optional fields are on the wire. */
  datatype Header = Header(
    checksumPresent: bool,
    keyPresent: bool,
    sequencePresent: bool,
    reserved0: bv9,
    versionNumber: bv3,
    protocolType: bv16,
    checksum: bv16,
    reserved1: bv16,
    key: bv32,
    sequenceNumber: bv32,
    payload: seq<byte>)

  datatype DecodeError = TruncatedHeader

  datatype Result<T> = Ok(value: T) | Err(error: DecodeError)

  /** A header built with every default: no flags, IPv4 protocol type, zero fields, empty payload. */
  function NewHeader(): (h: Header)
    ensures Pack(h) == [0x00, 0x00, 0x08, 0x00]
  {
    Header(false, false, false, 0, 0, ETHER_TYPE_IPV4, 0, 0, 0, 0, [])
  }

  // ---------------------------------------------------------------------------
  // Layout: where each field sits, as a function of the three flags only.

  function Bit(b: bool): bv16 { if b then 1 else 0 }

  /** Octets taken by the header proper: 4 fixed, plus 4 per optional field present. */
  function HeaderLength(c: bool, k: bool, s: bool): nat {
    4 + (if c then 4 else 0) + (if k then 4 else 0) + (if s then 4 else 0)
  }

  function KeyOffset(c: bool): nat { 4 + (if c then 4 else 0) }

  function SequenceOffset(c: bool, k: bool): nat { KeyOffset(c) + (if k then 4 else 0) }

  function EncodedLength(h: Header): nat {
    HeaderLength(h.checksumPresent, h.keyPresent, h.sequencePresent)
  }

  /** The big-endian 16-bit word at octet i. */
  function Word16At(b: seq<byte>, i: nat): bv16
    requires i + 2 <= |b|
  {
    ((b[i] as bv16) << 8) | (b[i + 1] as bv16)
  }

  /** The big-endian 32-bit word at octet i. */
  function Word32At(b: seq<byte>, i: nat): bv32
    requires i + 4 <= |b|
  {
    ((b[i] as bv32) << 24) | ((b[i + 1] as bv32) << 16) | ((b[i + 2] as bv32) << 8) | (b[i + 3] as bv32)
  }

  // ---------------------------------------------------------------------------
  // Encoding.

  function HighOctet(x: bv16): byte { (x >> 8) as bv8 }

  function LowOctet(x: bv16): byte { (x & 0xFF) as bv8 }

  /** Two octets, most significant first (PHP pack code "n"). */
  function Be16(x: bv16): (r: seq<byte>)
    ensures |r| == 2 && Word16At(r, 0) == x
  {
    [HighOctet(x), LowOctet(x)]
  }

  /** Four octets, most significant first (PHP pack code "N"). */
  function Be32(x: bv32): (r: seq<byte>)
    ensures |r| == 4 && Word32At(r, 0) == x
  {
    [(x >> 24) as bv8, ((x >> 16) & 0xFF) as bv8, ((x >> 8) & 0xFF) as bv8, (x & 0xFF) as bv8]
  }

  /** The first header word: C at bit 15, K at bit 13, S at bit 12, reserved0 at bits 3-11, version at bits 0-2. */
  function FlagsWord(h: Header): bv16 {
    FlagsWordOf(h.checksumPresent, h.keyPresent, h.sequencePresent, h.reserved0, h.versionNumber)
  }

  function FlagsWordOf(c: bool, k: bool, s: bool, reserved0: bv9, version: bv3): bv16 {
    (Bit(c) << 15) | (Bit(k) << 13) | (Bit(s) << 12) | ((reserved0 as bv16) << 3) | (version as bv16)
  }

  /** The optional fields, each emitted only when its flag is set. */
  function OptionalFields(h: Header): seq<byte> {
    (if h.checksumPresent then Be16(h.checksum) + Be16(h.reserved1) else []) +
    (if h.keyPresent then Be32(h.key) else []) +
    (if h.sequencePresent then Be32(h.sequenceNumber) else [])
  }

  /** pack_header: the header's wire octets followed by the payload. */
  function Pack(h: Header): (r: seq<byte>)
    ensures |r| == EncodedLength(h) + |h.payload|
    ensures r[EncodedLength(h)..] == h.payload
  {
    Be16(FlagsWord(h)) + Be16(h.protocolType) + OptionalFields(h) + h.payload
  }

  // ---------------------------------------------------------------------------
  // Decoding.

  function ChecksumBit(o0: byte): bool { (o0 & 0x80) >> 7 == 1 }

  function KeyBit(o0: byte): bool { (o0 & 0x20) >> 5 == 1 }

  function SequenceBit(o0: byte): bool { (o0 & 0x10) >> 4 == 1 }

  function Reserved0Of(o0: byte, o1: byte): bv9 {
    (((o0 & 0x0F) as bv9) << 5) | ((o1 >> 3) as bv9)
  }

  function VersionOf(o1: byte): bv3 { (o1 & 0x07) as bv3 }

  /** Octets the header claims by its own flag bits (only meaningful once octet 0 exists). */
  function DeclaredLength(b: seq<byte>): nat
    requires |b| >= 1
  {
    HeaderLength(ChecksumBit(b[0]), KeyBit(b[0]), SequenceBit(b[0]))
  }

  /**
   * unpack_header over the offsets its cursor passes through. Input shorter
   * than 4 octets, or shorter than its own flags declare, is TruncatedHeader.
   */
  function Unpack(b: seq<byte>): (r: Result<Header>)
    ensures r.Ok? <==> 4 <= |b| && DeclaredLength(b) <= |b|
    ensures r.Ok? ==> EncodedLength(r.value) == DeclaredLength(b)
    ensures r.Ok? ==> r.value.payload == b[DeclaredLength(b)..]
    ensures r.Ok? ==> |b| == EncodedLength(r.value) + |r.value.payload|
  {
    if |b| < 4 then Err(TruncatedHeader)
    else
      var c, k, s := ChecksumBit(b[0]), KeyBit(b[0]), SequenceBit(b[0]);
      var end := HeaderLength(c, k, s);
      if |b| < end then Err(TruncatedHeader)
      else
        Ok(Header(
          c, k, s, Reserved0Of(b[0], b[1]), VersionOf(b[1]), Word16At(b, 2),
          if c then Word16At(b, 4) else 0,
          if c then Word16At(b, 6) else 0,
          if k then Word32At(b, KeyOffset(c)) else 0,
          if s then Word32At(b, SequenceOffset(c, k)) else 0,
          b[end..]))
  }

  /**
   * unpack_header step by step: a fresh default header is filled in while
   * a cursor advances over the optional fields; the rest is the payload.
   */
  method UnpackHeader(b: seq<byte>) returns (r: Result<Header>)
    ensures r == Unpack(b)
  {
    if |b| < 4 || |b| < DeclaredLength(b) {
      return Err(TruncatedHeader);
    }
    var c, k, s := ChecksumBit(b[0]), KeyBit(b[0]), SequenceBit(b[0]);
    var unpacked := Header(c, k, s, Reserved0Of(b[0], b[1]), VersionOf(b[1]), Word16At(b, 2),
                           0, 0, 0, 0, []);
    var offset := 4;
    if c {
      unpacked := unpacked.(checksum := Word16At(b, offset), reserved1 := Word16At(b, offset + 2));
      offset := offset + 4;
    }
    if k {
      unpacked := unpacked.(key := Word32At(b, offset));
      offset := offset + 4;
    }
    if s {
      unpacked := unpacked.(sequenceNumber := Word32At(b, offset));
      offset := offset + 4;
    }
    assert offset == EncodedLength(unpacked);
    unpacked := unpacked.(payload := b[offset..]);
    r := Ok(unpacked);
  }

  // ---------------------------------------------------------------------------
  // Properties of the encoder.

  /** Bytes 0-3 carry the flags word and the protocol type; each present optional field sits at its offset. */
  lemma PackLayout(h: Header)
    ensures var r := Pack(h);
      && Word16At(r, 0) == FlagsWord(h)
      && Word16At(r, 2) == h.protocolType
      && (h.checksumPresent ==> Word16At(r, 4) == h.checksum && Word16At(r, 6) == h.reserved1)
      && (h.keyPresent ==> Word32At(r, KeyOffset(h.checksumPresent)) == h.key)
      && (h.sequencePresent ==>
            Word32At(r, SequenceOffset(h.checksumPresent, h.keyPresent)) == h.sequenceNumber)
  {
    var r := Pack(h);
    PackSlices(h);
    Word16Slice(r, 0, FlagsWord(h));
    Word16Slice(r, 2, h.protocolType);
    if h.checksumPresent {
      Word16Slice(r, 4, h.checksum);
      Word16Slice(r, 6, h.reserved1);
    }
    if h.keyPresent {
      Word32Slice(r, KeyOffset(h.checksumPresent), h.key);
    }
    if h.sequencePresent {
      Word32Slice(r, SequenceOffset(h.checksumPresent, h.keyPresent), h.sequenceNumber);
    }
  }

  /** The encoding as octet ranges: which encoded word occupies which slice. */
  lemma PackSlices(h: Header)
    ensures var r, c, k := Pack(h), h.checksumPresent, h.keyPresent;
      && r[0..2] == Be16(FlagsWord(h))
      && r[2..4] == Be16(h.protocolType)
      && r[4..EncodedLength(h)] == OptionalFields(h)
      && (c ==> r[4..6] == Be16(h.checksum) && r[6..8] == Be16(h.reserved1))
      && (k ==> r[KeyOffset(c)..KeyOffset(c) + 4] == Be32(h.key))
      && (h.sequencePresent ==>
            r[SequenceOffset(c, k)..SequenceOffset(c, k) + 4] == Be32(h.sequenceNumber))
  {
    var r, c, k := Pack(h), h.checksumPresent, h.keyPresent;
    var n, ko, so := EncodedLength(h), KeyOffset(c), SequenceOffset(c, k);
    var fixed, opt := Be16(FlagsWord(h)) + Be16(h.protocolType), OptionalFields(h);
    OptionalFieldSlices(h);
    assert r[..4] == fixed && r[4..n] == opt by {
      assert r == fixed + opt + h.payload;
      ThreeSlices(fixed, opt, h.payload);
    }
    assert r[0..2] == Be16(FlagsWord(h)) && r[2..4] == Be16(h.protocolType) by {
      SubSlice(r, 0, 4, 0, 2);
      SubSlice(r, 0, 4, 2, 4);
      ThreeSlices(Be16(FlagsWord(h)), Be16(h.protocolType), []);
      assert fixed + [] == fixed;
    }
    if c {
      SubSlice(r, 4, n, 0, 2);
      SubSlice(r, 4, n, 2, 4);
    }
    if k {
      SubSlice(r, 4, n, ko - 4, ko);
    }
    if h.sequencePresent {
      SubSlice(r, 4, n, so - 4, so);
    }
  }

  /** Within the optional fields, each present one sits at its offset less the 4 fixed octets. */
  lemma OptionalFieldSlices(h: Header)
    ensures var opt, c, k := OptionalFields(h), h.checksumPresent, h.keyPresent;
      && |opt| == EncodedLength(h) - 4
      && (c ==> opt[0..2] == Be16(h.checksum) && opt[2..4] == Be16(h.reserved1))
      && (k ==> opt[KeyOffset(c) - 4..KeyOffset(c)] == Be32(h.key))
      && (h.sequencePresent ==>
            opt[SequenceOffset(c, k) - 4..SequenceOffset(c, k)] == Be32(h.sequenceNumber))
  {
    var c, k := h.checksumPresent, h.keyPresent;
    var cs := if c then Be16(h.checksum) + Be16(h.reserved1) else [];
    var ks := if k then Be32(h.key) else [];
    var ss := if h.sequencePresent then Be32(h.sequenceNumber) else [];
    assert OptionalFields(h) == cs + ks + ss;
    assert |cs| == KeyOffset(c) - 4 && |cs| + |ks| == SequenceOffset(c, k) - 4;
    ThreeSlices(cs, ks, ss);
    if c {
      ThreeSlices(Be16(h.checksum), Be16(h.reserved1), []);
    }
  }

  /** Each part of a three-way concatenation is found back at its offset. */
  lemma ThreeSlices(a: seq<byte>, b: seq<byte>, c: seq<byte>)
    ensures (a + b + c)[..|a|] == a
    ensures (a + b + c)[|a|..|a| + |b|] == b
    ensures (a + b + c)[|a| + |b|..] == c
  {
    var all := a + b + c;
    assert forall t :: 0 <= t < |b| ==> all[|a|..|a| + |b|][t] == b[t];
  }

  lemma SubSlice(r: seq<byte>, lo: nat, hi: nat, i: nat, j: nat)
    requires i <= j && lo + j <= hi <= |r|
    ensures r[lo..hi][i..j] == r[lo + i..lo + j]
  {
    assert forall t :: 0 <= t < j - i ==> r[lo..hi][i..j][t] == r[lo + i + t];
  }

  lemma Word16Slice(r: seq<byte>, i: nat, x: bv16)
    requires i + 2 <= |r| && r[i..i + 2] == Be16(x)
    ensures Word16At(r, i) == x
  {
    assert r[i] == Be16(x)[0] && r[i + 1] == Be16(x)[1];
  }

  lemma Word32Slice(r: seq<byte>, i: nat, x: bv32)
    requires i + 4 <= |r| && r[i..i + 4] == Be32(x)
    ensures Word32At(r, i) == x
  {
    assert r[i] == Be32(x)[0] && r[i + 1] == Be32(x)[1];
    assert r[i + 2] == Be32(x)[2] && r[i + 3] == Be32(x)[3];
  }

  /** Re-encoding a decoded 16-bit word gives its two octets back. */
  lemma Be16OfWord(b: seq<byte>, i: nat)
    requires i + 2 <= |b|
    ensures Be16(Word16At(b, i)) == b[i..i + 2]
  {
    WordOctets(Be16(Word16At(b, i))[0], Be16(Word16At(b, i))[1], b[i], b[i + 1]);
  }

  /** Re-encoding a decoded 32-bit word gives its four octets back. */
  lemma Be32OfWord(b: seq<byte>, i: nat)
    requires i + 4 <= |b|
    ensures Be32(Word32At(b, i)) == b[i..i + 4]
  {
    var e := Be32(Word32At(b, i));
    QuadOctets(e[0], e[1], e[2], e[3], b[i], b[i + 1], b[i + 2], b[i + 3]);
  }

  /** The flags word decomposes back into its fields, and bit 14 (0x4000) is never set. */
  lemma FlagsWordFields(h: Header)
    ensures var w := FlagsWord(h);
      && ((w >> 15) & 1 == 1 <==> h.checksumPresent)
      && ((w >> 13) & 1 == 1 <==> h.keyPresent)
      && ((w >> 12) & 1 == 1 <==> h.sequencePresent)
      && ((w >> 3) & 0x1FF) as bv9 == h.reserved0
      && (w & 0x7) as bv3 == h.versionNumber
      && w & 0x4000 == 0
  {
  }

  /** Each flag alone, with reserved0 and version zero, gives the word 0x8000, 0x2000 or 0x1000. */
  lemma SingleFlagWords(h: Header)
    requires h.reserved0 == 0 && h.versionNumber == 0
    ensures h.checksumPresent && !h.keyPresent && !h.sequencePresent ==> FlagsWord(h) == 0x8000
    ensures !h.checksumPresent && h.keyPresent && !h.sequencePresent ==> FlagsWord(h) == 0x2000
    ensures !h.checksumPresent && !h.keyPresent && h.sequencePresent ==> FlagsWord(h) == 0x1000
    ensures !h.checksumPresent && !h.keyPresent && !h.sequencePresent ==> FlagsWord(h) == 0
  {
  }

  /** h with every optional field whose flag is clear reset to its default 0. */
  function WithAbsentFieldsCleared(h: Header): Header {
    h.(checksum := if h.checksumPresent then h.checksum else 0,
       reserved1 := if h.checksumPresent then h.reserved1 else 0,
       key := if h.keyPresent then h.key else 0,
       sequenceNumber := if h.sequencePresent then h.sequenceNumber else 0)
  }

  /** The value of an optional field whose flag is clear has no effect on the output. */
  lemma PackIgnoresAbsentFields(h: Header, h': Header)
    requires WithAbsentFieldsCleared(h) == WithAbsentFieldsCleared(h')
    ensures Pack(h) == Pack(h')
  {
    assert h.checksumPresent == h'.checksumPresent && h.keyPresent == h'.keyPresent;
    assert OptionalFields(h) == OptionalFields(h');
  }

  // ---------------------------------------------------------------------------
  // Round trips.

  /** Decoding an encoded header gives it back, with absent optional fields as 0. */
  lemma UnpackPack(h: Header)
    ensures Unpack(Pack(h)) == Ok(WithAbsentFieldsCleared(h))
  {
    var b := Pack(h);
    PackSlices(h);
    PackLayout(h);
    FlagsOctets(h);
    assert b[0] == HighOctet(FlagsWord(h)) && b[1] == LowOctet(FlagsWord(h));
  }

  /** The first two octets decode to exactly the flags, reserved0 and version of h. */
  lemma FlagsOctets(h: Header)
    ensures var w := FlagsWord(h);
      var o0, o1 := HighOctet(w), LowOctet(w);
      && ChecksumBit(o0) == h.checksumPresent
      && KeyBit(o0) == h.keyPresent
      && SequenceBit(o0) == h.sequencePresent
      && Reserved0Of(o0, o1) == h.reserved0
      && VersionOf(o1) == h.versionNumber
      && o0 & 0x40 == 0
  {
    FlagBitsOctet(h.checksumPresent, h.keyPresent, h.sequencePresent, h.reserved0, h.versionNumber);
    FieldBitsOctets(h.checksumPresent, h.keyPresent, h.sequencePresent, h.reserved0, h.versionNumber);
  }

  lemma FlagBitsOctet(c: bool, k: bool, s: bool, reserved0: bv9, version: bv3)
    ensures var o0 := HighOctet(FlagsWordOf(c, k, s, reserved0, version));
      ChecksumBit(o0) == c && KeyBit(o0) == k && SequenceBit(o0) == s && o0 & 0x40 == 0
  {
  }

  lemma FieldBitsOctets(c: bool, k: bool, s: bool, reserved0: bv9, version: bv3)
    ensures var w := FlagsWordOf(c, k, s, reserved0, version);
      Reserved0Of(HighOctet(w), LowOctet(w)) == reserved0 && VersionOf(LowOctet(w)) == version
  {
  }

  /** The octet whose bit 6 is the one the decoder does not read. */
  function ClearBit6(o: byte): byte { o & 0xBF }

  /**
   * Re-encoding a decoded buffer gives the buffer back except for bit 0x40 of
   * octet 0, which the decoder ignores and the encoder never sets.
   */
  lemma RepackRestoresAllButBit6(b: seq<byte>)
    requires Unpack(b).Ok?
    ensures Pack(Unpack(b).value) == b[0 := ClearBit6(b[0])]
  {
    var h := Unpack(b).value;
    var n := EncodedLength(h);
    RepackFixedPart(b);
    RepackOptionalFields(b);
    assert Pack(h) == [ClearBit6(b[0]), b[1]] + b[2..4] + b[4..n] + b[n..];
    ReplaceFirst(b, n, ClearBit6(b[0]));
  }

  /** A buffer with its first octet replaced, cut at 2, 4 and n. */
  lemma ReplaceFirst(b: seq<byte>, n: nat, v: byte)
    requires 4 <= n <= |b|
    ensures b[0 := v] == [v, b[1]] + b[2..4] + b[4..n] + b[n..]
  {
    var parts := [v, b[1]] + b[2..4] + b[4..n] + b[n..];
    assert |parts| == |b|;
    assert forall t :: 0 <= t < |b| ==> parts[t] == b[0 := v][t];
  }

  /** The re-encoded flags word and protocol type are octets 0-3, bit 0x40 of octet 0 aside. */
  lemma RepackFixedPart(b: seq<byte>)
    requires Unpack(b).Ok?
    ensures var h := Unpack(b).value;
      Be16(FlagsWord(h)) == [ClearBit6(b[0]), b[1]] && Be16(h.protocolType) == b[2..4]
  {
    var h := Unpack(b).value;
    assert FlagsWord(h) == FlagsWordOf(ChecksumBit(b[0]), KeyBit(b[0]), SequenceBit(b[0]),
                                       Reserved0Of(b[0], b[1]), VersionOf(b[1]));
    RepackFlagsWord(b[0], b[1]);
    Be16OfWord(b, 2);
  }

  /** Octets 0-1 survive decoding and re-encoding of the flags word, except bit 0x40 of octet 0. */
  lemma RepackFlagsWord(o0: byte, o1: byte)
    ensures Be16(FlagsWordOf(ChecksumBit(o0), KeyBit(o0), SequenceBit(o0), Reserved0Of(o0, o1), VersionOf(o1)))
         == [ClearBit6(o0), o1]
  {
    var w := FlagsWordOf(ChecksumBit(o0), KeyBit(o0), SequenceBit(o0), Reserved0Of(o0, o1), VersionOf(o1));
    FixedOctets(o0, o1);
    WordOctets(HighOctet(w), LowOctet(w), ClearBit6(o0), o1);
  }

  /** The re-encoded optional fields are exactly the octets between the fixed part and the payload. */
  lemma RepackOptionalFields(b: seq<byte>)
    requires Unpack(b).Ok?
    ensures var h := Unpack(b).value; OptionalFields(h) == b[4..EncodedLength(h)]
  {
    var h := Unpack(b).value;
    var c, k, s := h.checksumPresent, h.keyPresent, h.sequencePresent;
    var n := EncodedLength(h);
    var cs := if c then Be16(h.checksum) + Be16(h.reserved1) else [];
    var ks := if k then Be32(h.key) else [];
    var ss := if s then Be32(h.sequenceNumber) else [];
    if c {
      Be16OfWord(b, 4);
      Be16OfWord(b, 6);
      assert cs == b[4..KeyOffset(c)];
    }
    if k {
      Be32OfWord(b, KeyOffset(c));
      assert ks == b[KeyOffset(c)..SequenceOffset(c, k)];
    }
    if s {
      Be32OfWord(b, SequenceOffset(c, k));
      assert ss == b[SequenceOffset(c, k)..n];
    }
    assert b[4..n] == b[4..KeyOffset(c)] + b[KeyOffset(c)..SequenceOffset(c, k)] + b[SequenceOffset(c, k)..n];
  }

  /** Decode-then-encode is the identity exactly when bit 0x40 of octet 0 is clear. */
  lemma PackUnpack(b: seq<byte>)
    requires Unpack(b).Ok?
    ensures Pack(Unpack(b).value) == b <==> b[0] & 0x40 == 0
  {
    RepackRestoresAllButBit6(b);
    if b[0] & 0x40 != 0 {
      assert Pack(Unpack(b).value)[0] != b[0];
    }
  }

  /** Re-encoding the decoded flags, reserved0 and version gives octets 0-1 back, minus bit 0x40. */
  lemma FixedOctets(o0: byte, o1: byte)
    ensures FlagsWordOf(ChecksumBit(o0), KeyBit(o0), SequenceBit(o0), Reserved0Of(o0, o1), VersionOf(o1))
         == ((ClearBit6(o0) as bv16) << 8) | (o1 as bv16)
  {
  }

  lemma WordOctets(a0: byte, a1: byte, b0: byte, b1: byte)
    requires ((a0 as bv16) << 8) | (a1 as bv16) == ((b0 as bv16) << 8) | (b1 as bv16)
    ensures a0 == b0 && a1 == b1
  {
  }

  lemma QuadOctets(a0: byte, a1: byte, a2: byte, a3: byte, b0: byte, b1: byte, b2: byte, b3: byte)
    requires ((a0 as bv32) << 24) | ((a1 as bv32) << 16) | ((a2 as bv32) << 8) | (a3 as bv32)
          == ((b0 as bv32) << 24) | ((b1 as bv32) << 16) | ((b2 as bv32) << 8) | (b3 as bv32)
    ensures a0 == b0 && a1 == b1 && a2 == b2 && a3 == b3
  {
  }
}
