/** The content identifier of manifest/cid.go: multibase prefix `b`, then base32 of
    the four header bytes and the digest.
 */
module Cid {
  import opened Bytes
  import opened Results
  import opened Text
  import opened Merkle

  const HEADER: bytes := [0x01, 0x55, 0x12, 0x20]
  const MULTIBASE: byte := 98

  datatype CidError = BadDigest | TooShort | BadMultibase | BadBase32 | BadPayload | BadVersion | BadCodec | BadHashFunction | BadHashLength

  function Encode(digest: Digest): bytes { [MULTIBASE] + Base32Encode(HEADER + digest) }

  /** The encoder, on a digest of any length. */
  function CIDv1Raw(digest: bytes): Result<bytes, CidError> {
    if |digest| != HASH_SIZE then Err(BadDigest) else Ok(Encode(digest))
  }

  /** The decoder: each header byte is checked in turn. */
  function DecodeCIDv1Raw(s: bytes): (r: Result<bytes, CidError>)
    ensures r.Ok? ==> |r.value| == HASH_SIZE
  {
    if |s| < 2 then Err(TooShort)
    else if s[0] != MULTIBASE then Err(BadMultibase)
    else
      match Base32Decode(s[1..])
      case None => Err(BadBase32)
      case Some(p) =>
        if |p| != 4 + HASH_SIZE then Err(BadPayload)
        else if p[0] != HEADER[0] then Err(BadVersion)
        else if p[1] != HEADER[1] then Err(BadCodec)
        else if p[2] != HEADER[2] then Err(BadHashFunction)
        else if p[3] != HEADER[3] then Err(BadHashLength)
        else Ok(p[4..])
  }

  /** Main result: decoding inverts encoding, for every digest. */
  lemma DecodeInvertsEncode(digest: Digest)
    ensures DecodeCIDv1Raw(Encode(digest)) == Ok(digest)
  {
    var p := HEADER + digest;
    Base32RoundTrip(p);
    var s := Encode(digest);
    assert s[1..] == Base32Encode(p);
    EncodedLength(p);
    assert p[4..] == digest;
  }

  lemma EncodedLength(p: bytes)
    requires |p| == 4 + HASH_SIZE
    ensures |Base32Encode(p)| == 58
  {
    GroupCount(p);
  }

  /** The text itself: `b`, then the four header bytes and the digest as fifty-eight base32 digits. */
  lemma EncodeInDigits(digest: Digest, i: nat)
    ensures |Encode(digest)| == 59 && Encode(digest)[0] == Ascii("b")[0]
    ensures i < 58 ==>
              var p := [0x01, 0x55, 0x12, 0x20] + digest;
              var v: nat := 16 * (BitOf(p, 5 * i) as int) + 8 * (BitOf(p, 5 * i + 1) as int)
                            + 4 * (BitOf(p, 5 * i + 2) as int) + 2 * (BitOf(p, 5 * i + 3) as int) + BitOf(p, 5 * i + 4) as int;
              Encode(digest)[i + 1] == Ascii("abcdefghijklmnopqrstuvwxyz234567")[v]
  {
    hide BitOf, Groups, Base32Encode;
    var p: bytes := [0x01, 0x55, 0x12, 0x20] + digest;
    EncodedLength(p);
    Base32InDigits(p, i);
    assert Encode(digest)[1..] == Base32Encode(p);
    if i < 58 { assert Encode(digest)[i + 1] == Base32Encode(p)[i]; }
  }

  lemma EncodeInjective(a: Digest, b: Digest)
    requires Encode(a) == Encode(b)
    ensures a == b
  {
    DecodeInvertsEncode(a);
    DecodeInvertsEncode(b);
    assert DecodeCIDv1Raw(Encode(a)).value == DecodeCIDv1Raw(Encode(b)).value;
  }

  lemma DecodedPayload(s: bytes)
    requires DecodeCIDv1Raw(s).Ok?
    ensures |s| >= 2 && s[0] == MULTIBASE && Base32Decode(s[1..]) == Some(HEADER + DecodeCIDv1Raw(s).value)
  {
    var p := Base32Decode(s[1..]).value;
    assert p == p[..4] + p[4..];
    assert p[..4] == HEADER;
  }

  /** The converse holds only for canonical texts: re-encoding a decoded text gives it
      back exactly when it holds no line end and its two spare bits are zero. */
  lemma EncodeInvertsDecode(s: bytes)
    requires DecodeCIDv1Raw(s).Ok?
    ensures Base32Values(StripLines(s[1..])).Some?
    ensures Encode(DecodeCIDv1Raw(s).value) == s <==>
              |StripLines(s[1..])| == |s| - 1 && CarriedBits(s[1..]) == PaddedBits(HEADER + DecodeCIDv1Raw(s).value)
  {
    var d := DecodeCIDv1Raw(s).value;
    DecodedPayload(s);
    Base32Canonical(s[1..], HEADER + d);
    assert s == [s[0]] + s[1..];
    assert Encode(d)[1..] == Base32Encode(HEADER + d);
  }

  /** So two texts can name one digest: a line end behind the identifier is skipped. */
  lemma LineEndAccepted(digest: Digest)
    ensures Encode(digest) + [10] != Encode(digest)
    ensures DecodeCIDv1Raw(Encode(digest) + [10]) == Ok(digest)
  {
    DecodeInvertsEncode(digest);
    var s, t := Encode(digest), Encode(digest) + [10];
    assert t[1..] == s[1..] + [10];
    StripAppend(s[1..]);
  }

  lemma {:induction false} StripAppend(s: bytes)
    ensures StripLines(s + [10]) == StripLines(s)
  {
    if s == [] {
      assert s + [10] == [10];
    } else {
      StripAppend(s[1..]);
      assert (s + [10])[1..] == s[1..] + [10];
    }
  }

  /** Every identifier starts with `bafkrei`: the seven characters carry only header bits. */
  lemma SharedPrefix(digest: Digest)
    ensures HasPrefix(Encode(digest), Ascii("bafkrei"))
  {
    var g := Groups(HEADER + digest);
    HeadGroups(digest);
    HeadDigits(g);
    var s := Encode(digest);
    assert s[..7] == [98] + Base32Digits(g)[..6];
    assert Ascii("bafkrei") == [98, 97, 102, 107, 114, 101, 105];
  }

  lemma HeadDigits(g: seq<nat>)
    requires forall i :: 0 <= i < |g| ==> g[i] < 32
    requires |g| > 6 && g[..6] == [0, 5, 10, 17, 4, 8]
    ensures Base32Digits(g)[..6] == [97, 102, 107, 114, 101, 105]
  {
    assert g[0] == g[..6][0] && g[1] == g[..6][1] && g[2] == g[..6][2];
    assert g[3] == g[..6][3] && g[4] == g[..6][4] && g[5] == g[..6][5];
  }

  lemma HeadGroups(digest: Digest)
    ensures var g := Groups(HEADER + digest); |g| > 6 && g[..6] == [0, 5, 10, 17, 4, 8]
  {
    hide Spread, Gather, Bits, Value;
    var p := HEADER + digest;
    var head: seq<nat> := [0, 5, 10, 17, 4, 8];
    var tail := Spread(digest, 8) + Zeros(PadLength(8 * |p|));
    HeaderBits();
    SpreadConcat(HEADER, digest, 8);
    Rearrange(Spread(head, 5), [0, 0], Spread(digest, 8), Zeros(PadLength(8 * |p|)));
    assert PaddedBits(p) == Spread(head, 5) + ([0, 0] + tail);
    HeadOfGather(head, [0, 0] + tail);
    GroupCount(p);
  }

  lemma Rearrange(a: bits, b: bits, c: bits, d: bits)
    ensures a + b + c + d == a + (b + (c + d))
  {
  }

  lemma HeadOfGather(head: seq<nat>, tail: bits)
    requires forall i :: 0 <= i < |head| ==> head[i] < 32
    ensures Gather(Spread(head, 5) + tail, 5) == head + Gather(tail, 5)
  {
    Text.PowerValues();
    GatherPrefix(head, 5, tail);
  }

  /** The header's thirty-two bits: six groups of five, and two zeros. */
  lemma HeaderBits()
    ensures ByteBits(HEADER) == Spread([0, 5, 10, 17, 4, 8], 5) + [0, 0]
  {
    HeaderAsNumber();
    GroupsAsNumber();
    TwoZeros();
    BitsAppend(0x554488, 30, 0, 2);
  }

  lemma TwoZeros()
    ensures Bits(0, 2) == [0, 0] && Pow2(2) == 4
  {
    assert Pow2(1) == 2 * Pow2(0) && Pow2(2) == 2 * Pow2(1);
    assert Bits(0, 1) == Bits(0, 0) + [0];
    assert Bits(0, 2) == Bits(0, 1) + [0];
  }

  /** Reading one more word of a spread list as part of one long number. */
  lemma NextWord(ws: seq<nat>, v: nat, w: nat, x: nat)
    requires Spread(ws, w) == Bits(x, |ws| * w) && v < Pow2(w)
    ensures Spread(ws + [v], w) == Bits(x * Pow2(w) + v, |ws + [v]| * w)
  {
    SpreadConcat(ws, [v], w);
    assert [v][1..] == [];
    assert Spread([v], w) == Bits(v, w) + [] == Bits(v, w);
    BitsAppend(x, |ws| * w, v, w);
    assert |ws + [v]| * w == |ws| * w + w;
  }

  lemma HeaderAsNumber()
    ensures ByteBits(HEADER) == Bits(0x01551220, 32)
  {
    Text.PowerValues();
    NextWord([], 0x01, 8, 0);
    NextWord([] + [0x01], 0x55, 8, 0x01);
    NextWord([] + [0x01] + [0x55], 0x12, 8, 0x0155);
    NextWord([] + [0x01] + [0x55] + [0x12], 0x20, 8, 0x015512);
    assert [] + [0x01] + [0x55] + [0x12] + [0x20] == HEADER;
  }

  lemma GroupsAsNumber()
    ensures Spread([0, 5, 10, 17, 4, 8], 5) == Bits(0x554488, 30)
  {
    Text.PowerValues();
    NextWord([], 0, 5, 0);
    NextWord([] + [0], 5, 5, 0);
    NextWord([] + [0] + [5], 10, 5, 5);
    NextWord([] + [0] + [5] + [10], 17, 5, 170);
    NextWord([] + [0] + [5] + [10] + [17], 4, 5, 5457);
    NextWord([] + [0] + [5] + [10] + [17] + [4], 8, 5, 174628);
    assert [] + [0] + [5] + [10] + [17] + [4] + [8] == [0, 5, 10, 17, 4, 8];
  }
}
