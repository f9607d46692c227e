/** The two text encodings of digests: hexadecimal, and base32 as in section 6 of
    RFC 4648 with the lower-case alphabet and no padding.

    Both are defined on bit strings.  The decoders accept more than the encoders
    write, as the Go library does: hexadecimal in either case; base32 with CR and
    LF anywhere, with any bits after the last whole byte, and with an incomplete
    last group that carries no whole byte contributing nothing.
 */
module Text {
  import opened Bytes
  import opened Results

  type bit = x: int | 0 <= x < 2
  type bits = seq<bit>

  function Bits(x: nat, n: nat): (b: bits)
    ensures |b| == n
    decreases n
  {
    if n == 0 then [] else Bits(x / 2, n - 1) + [x % 2]
  }

  function Value(b: bits): nat
    decreases |b|
  {
    if |b| == 0 then 0 else Value(b[..|b| - 1]) * 2 + b[|b| - 1]
  }

  lemma {:induction false} ValueOfBits(x: nat, n: nat)
    requires x < Pow2(n)
    ensures Value(Bits(x, n)) == x
    decreases n
  {
    if n > 0 {
      ValueOfBits(x / 2, n - 1);
      assert Bits(x, n)[..n - 1] == Bits(x / 2, n - 1);
    }
  }

  lemma {:induction false} BitsOfValue(b: bits)
    ensures Value(b) < Pow2(|b|) && Bits(Value(b), |b|) == b
    decreases |b|
  {
    if |b| > 0 {
      var front, last := b[..|b| - 1], b[|b| - 1];
      BitsOfValue(front);
      assert Value(b) / 2 == Value(front) && Value(b) % 2 == last;
      assert b == front + [last];
    }
  }

  lemma PowerValues()
    ensures Pow2(4) == 16 && Pow2(5) == 32 && Pow2(8) == 256
  {
    assert Pow2(2) == 2 * Pow2(1) && Pow2(3) == 2 * Pow2(2) && Pow2(4) == 2 * Pow2(3);
    assert Pow2(6) == 2 * Pow2(5) && Pow2(7) == 2 * Pow2(6);
  }

  /** All words of width `w`, most significant bit first. */
  function Spread(ws: seq<nat>, w: nat): (b: bits)
    ensures |b| == |ws| * w
  {
    if ws == [] then [] else Bits(ws[0], w) + Spread(ws[1..], w)
  }

  /** The whole words of width `w`; bits left over at the end are dropped. */
  function Gather(b: bits, w: nat): (ws: seq<nat>)
    requires w > 0
    decreases |b|
  {
    if |b| < w then [] else [Value(b[..w])] + Gather(b[w..], w)
  }

  lemma {:induction false} GatherLength(b: bits, w: nat, n: nat)
    requires w > 0 && n * w <= |b| < n * w + w
    ensures |Gather(b, w)| == n
    decreases |b|
  {
    if |b| >= w {
      assert n > 0 && (n - 1) * w == n * w - w;
      GatherLength(b[w..], w, n - 1);
    } else {
      assert n > 0 ==> n * w >= w;
    }
  }

  /** Gathering what was spread, with more bits behind it. */
  lemma {:induction false} GatherPrefix(ws: seq<nat>, w: nat, rest: bits)
    requires w > 0
    requires forall i :: 0 <= i < |ws| ==> ws[i] < Pow2(w)
    ensures Gather(Spread(ws, w) + rest, w) == ws + Gather(rest, w)
  {
    hide Bits, Value, Pow2, Gather, Spread;
    if ws == [] {
      SpreadNone(w);
      assert Spread(ws, w) + rest == rest;
    } else {
      var head, tail := ws[0], ws[1..];
      GatherPrefix(tail, w, rest);
      ValueOfBits(head, w);
      SpreadFirst(ws, w);
      GatherFirst(Bits(head, w), Spread(tail, w) + rest, w);
      assert Spread(ws, w) + rest == Bits(head, w) + (Spread(tail, w) + rest);
      assert [head] + (tail + Gather(rest, w)) == ws + Gather(rest, w);
    }
  }

  lemma SpreadNone(w: nat)
    ensures Spread([], w) == []
  {
  }

  lemma SpreadFirst(ws: seq<nat>, w: nat)
    requires ws != []
    ensures Spread(ws, w) == Bits(ws[0], w) + Spread(ws[1..], w)
  {
  }

  lemma GatherFirst(b: bits, rest: bits, w: nat)
    requires |b| == w > 0
    ensures Gather(b + rest, w) == [Value(b)] + Gather(rest, w)
  {
    hide Value;
    assert (b + rest)[..w] == b && (b + rest)[w..] == rest;
  }

  lemma GatherOfSpread(ws: seq<nat>, w: nat, rest: bits)
    requires w > 0 && |rest| < w
    requires forall i :: 0 <= i < |ws| ==> ws[i] < Pow2(w)
    ensures Gather(Spread(ws, w) + rest, w) == ws
  {
    GatherPrefix(ws, w, rest);
  }

  /** Spreading what was gathered gives the bits back, up to the dropped tail. */
  lemma {:induction false} SpreadOfGather(b: bits, w: nat)
    requires w > 0
    ensures var g := Spread(Gather(b, w), w); |g| <= |b| && b[..|g|] == g && |b| - |g| < w
    ensures forall i :: 0 <= i < |Gather(b, w)| ==> Gather(b, w)[i] < Pow2(w)
    decreases |b|
  {
    if |b| >= w {
      SpreadOfGather(b[w..], w);
      BitsOfValue(b[..w]);
      var g := Spread(Gather(b[w..], w), w);
      assert Gather(b, w)[1..] == Gather(b[w..], w);
      assert Spread(Gather(b, w), w) == b[..w] + g;
      assert b[w..][..|g|] == b[w..w + |g|];
      assert b[..w + |g|] == b[..w] + b[w..w + |g|];
    }
  }

  function Zeros(n: nat): (b: bits)
    ensures |b| == n
  {
    seq(n, _ => 0)
  }

  function ByteBits(b: bytes): bits { Spread(b, 8) }

  // ---- hexadecimal ----

  function HexDigit(v: nat): byte
    requires v < 16
  {
    if v < 10 then 48 + v else 87 + v
  }

  function HexValue(c: byte): Option<nat> {
    if 48 <= c <= 57 then Some(c - 48)
    else if 97 <= c <= 102 then Some(c - 87)
    else if 65 <= c <= 70 then Some(c - 55)
    else None
  }

  function HexEncode(b: bytes): (s: bytes)
    ensures |s| == 2 * |b|
  {
    if b == [] then [] else [HexDigit(b[0] / 16), HexDigit(b[0] % 16)] + HexEncode(b[1..])
  }

  function HexDecode(s: bytes): Option<bytes> {
    if s == [] then Some([])
    else if |s| < 2 then None
    else
      match (HexValue(s[0]), HexValue(s[1]), HexDecode(s[2..]))
      case (Some(h), Some(l), Some(rest)) => if h < 16 && l < 16 then Some([h * 16 + l] + rest) else None
      case _ => None
  }

  function Lower(s: bytes): (r: bytes)
    ensures |r| == |s|
  {
    seq(|s|, i requires 0 <= i < |s| => if 65 <= s[i] <= 90 then s[i] + 32 else s[i])
  }

  lemma {:induction false} HexRoundTrip(b: bytes)
    ensures HexDecode(HexEncode(b)) == Some(b)
  {
    if b != [] {
      HexRoundTrip(b[1..]);
      var s := HexEncode(b);
      assert s[2..] == HexEncode(b[1..]);
      assert HexValue(s[0]) == Some(b[0] / 16) && HexValue(s[1]) == Some(b[0] % 16);
      assert b == [b[0]] + b[1..];
    }
  }

  /** A text that decodes differs from the encoder's only in letter case. */
  lemma {:induction false} HexCanonical(s: bytes)
    requires HexDecode(s).Some?
    ensures HexEncode(HexDecode(s).value) == Lower(s)
  {
    if s != [] {
      HexCanonical(s[2..]);
      var b := HexDecode(s).value;
      assert b[1..] == HexDecode(s[2..]).value;
      assert Lower(s) == Lower(s[..2]) + Lower(s[2..]) by { LowerConcat(s, 2); }
      assert HexDigit(HexValue(s[0]).value) == Lower(s[..2])[0];
      assert HexDigit(HexValue(s[1]).value) == Lower(s[..2])[1];
    }
  }

  /** Either case is read: exactly the texts that lower to the encoder's decode, and to the same bytes. */
  lemma {:induction false} HexDecodesExactly(s: bytes, b: bytes)
    ensures HexDecode(s) == Some(b) <==> Lower(s) == HexEncode(b)
  {
    if Lower(s) != HexEncode(b) {
      if HexDecode(s) == Some(b) { HexCanonical(s); }
    } else if b != [] {
      var l := Lower(s);
      assert Lower(s[2..]) == l[2..] == HexEncode(b[1..]);
      HexDecodesExactly(s[2..], b[1..]);
      assert l[0] == HexDigit(b[0] / 16) && l[1] == HexDigit(b[0] % 16);
      assert HexValue(s[0]) == Some(b[0] / 16) && HexValue(s[1]) == Some(b[0] % 16);
      assert b == [b[0]] + b[1..];
    }
  }

  lemma LowerConcat(s: bytes, k: nat)
    requires k <= |s|
    ensures Lower(s) == Lower(s[..k]) + Lower(s[k..])
  {
  }

  // ---- base32 ----

  function Base32Digit(v: nat): byte
    requires v < 32
  {
    if v < 26 then 97 + v else 24 + v
  }

  function Base32Value(c: byte): (r: Option<nat>)
    ensures r.Some? ==> r.value < 32 && Base32Digit(r.value) == c
  {
    if 97 <= c <= 122 then Some(c - 97) else if 50 <= c <= 55 then Some(c - 24) else None
  }

  /** The number of zero bits that complete the last group of five. */
  function PadLength(n: nat): nat { (5 - n % 5) % 5 }

  function Base32Digits(ws: seq<nat>): (s: bytes)
    requires forall i :: 0 <= i < |ws| ==> ws[i] < 32
    ensures |s| == |ws|
  {
    seq(|ws|, i requires 0 <= i < |ws| => Base32Digit(ws[i]))
  }

  function PaddedBits(b: bytes): (r: bits)
    ensures |r| == 8 * |b| + PadLength(8 * |b|) && |r| % 5 == 0
  {
    ByteBits(b) + Zeros(PadLength(8 * |b|))
  }

  function Groups(b: bytes): (ws: seq<nat>)
    ensures forall i :: 0 <= i < |ws| ==> ws[i] < 32
  {
    SpreadOfGather(PaddedBits(b), 5);
    PowerValues();
    Gather(PaddedBits(b), 5)
  }

  function Base32Encode(b: bytes): bytes { Base32Digits(Groups(b)) }

  /** The decoder skips line ends. */
  function StripLines(s: bytes): bytes {
    if s == [] then [] else (if s[0] == 10 || s[0] == 13 then [] else [s[0]]) + StripLines(s[1..])
  }

  function Base32Values(s: bytes): (r: Option<seq<nat>>)
    ensures r.Some? ==> |r.value| == |s| && forall i :: 0 <= i < |s| ==> r.value[i] < 32
  {
    if s == [] then Some([])
    else
      match (Base32Value(s[0]), Base32Values(s[1..]))
      case (Some(v), Some(vs)) => Some([v] + vs)
      case _ => None
  }

  /** The bytes carried by a group of `n` characters. */
  function TailBytes(n: nat): nat {
    if n == 2 then 1 else if n == 4 then 2 else if n == 5 then 3 else if n == 7 then 4 else 0
  }

  function DecodedLength(n: nat): nat { n / 8 * 5 + TailBytes(n % 8) }

  /** The whole bytes in the bits of a list of five-bit values. */
  function DecodeValues(vs: seq<nat>): (b: bytes)
    ensures |b| == DecodedLength(|vs|)
  {
    var all := Spread(vs, 5);
    SpreadOfGather(all, 8);
    PowerValues();
    GatherLength(all, 8, |all| / 8);
    Gather(all, 8)[..DecodedLength(|vs|)]
  }

  function Base32Decode(s: bytes): Option<bytes> {
    match Base32Values(StripLines(s))
    case None => None
    case Some(vs) => Some(DecodeValues(vs))
  }

  lemma {:induction false} ValuesOfDigits(ws: seq<nat>)
    requires forall i :: 0 <= i < |ws| ==> ws[i] < 32
    ensures Base32Values(Base32Digits(ws)) == Some(ws)
    ensures StripLines(Base32Digits(ws)) == Base32Digits(ws)
  {
    if ws != [] {
      ValuesOfDigits(ws[1..]);
      assert Base32Digits(ws) == [Base32Digit(ws[0])] + Base32Digits(ws[1..]);
      assert ws == [ws[0]] + ws[1..];
    }
  }

  lemma GroupsOfPadded(p: bits)
    requires |p| % 5 == 0
    ensures 5 * |Gather(p, 5)| == |p| && Spread(Gather(p, 5), 5) == p
  {
    GatherLength(p, 5, |p| / 5);
    SpreadOfGather(p, 5);
    var g := Spread(Gather(p, 5), 5);
    assert |g| == |p| && p[..|p|] == p;
  }

  lemma GroupCount(b: bytes)
    ensures 5 * |Groups(b)| == 8 * |b| + PadLength(8 * |b|)
    ensures Spread(Groups(b), 5) == PaddedBits(b)
    ensures DecodedLength(|Groups(b)|) == |b|
  {
    GroupsOfPadded(PaddedBits(b));
    Remainders(|b|, |Groups(b)|);
  }

  lemma Remainders(n: nat, g: nat)
    requires 5 * g == 8 * n + PadLength(8 * n)
    ensures DecodedLength(g) == n
  {
    var q, r := n / 5, n % 5;
    assert n == 5 * q + r;
    assert 8 * n == 5 * (8 * q) + 8 * r;
    assert (8 * n) % 5 == (8 * r) % 5;
    var p := PadLength(8 * r);
    assert g == 8 * q + (8 * r + p) / 5;
    assert r == 0 || r == 1 || r == 2 || r == 3 || r == 4;
  }

  /** A byte string is the leading whole words of its own padded bits. */
  lemma BytesOfPadded(b: bytes)
    ensures Gather(PaddedBits(b), 8) == b
  {
    PowerValues();
    GatherOfSpread(b, 8, Zeros(PadLength(8 * |b|)));
  }

  lemma DecodeOfGroups(b: bytes)
    ensures DecodeValues(Groups(b)) == b
  {
    GroupCount(b);
    BytesOfPadded(b);
  }

  lemma Base32RoundTrip(b: bytes)
    ensures Base32Decode(Base32Encode(b)) == Some(b)
  {
    ValuesOfDigits(Groups(b));
    DecodeOfGroups(b);
  }

  lemma JoinBits(a: bits, b: bits, c: bits)
    ensures a + (b + c) == a + b + c
  {
  }

  lemma {:induction false} SpreadConcat(a: seq<nat>, b: seq<nat>, w: nat)
    ensures Spread(a + b, w) == Spread(a, w) + Spread(b, w)
  {
    if a == [] {
      assert a + b == b;
    } else {
      hide Bits;
      SpreadConcat(a[1..], b, w);
      assert (a + b)[1..] == a[1..] + b;
      JoinBits(Bits(a[0], w), Spread(a[1..], w), Spread(b, w));
    }
  }

  /** The bits of two numbers side by side are the bits of one number. */
  lemma {:induction false} BitsAppend(x: nat, n: nat, y: nat, m: nat)
    requires y < Pow2(m)
    ensures Bits(x, n) + Bits(y, m) == Bits(x * Pow2(m) + y, n + m)
    decreases m
  {
    if m == 0 {
      assert x * Pow2(0) == x;
    } else {
      BitsAppend(x, n, y / 2, m - 1);
      Halves(x, Pow2(m - 1), y);
      assert Bits(x, n) + Bits(y, m) == Bits(x, n) + Bits(y / 2, m - 1) + [y % 2];
    }
  }

  lemma Halves(x: nat, p: nat, y: nat)
    ensures (x * (2 * p) + y) / 2 == x * p + y / 2 && (x * (2 * p) + y) % 2 == y % 2
  {
    assert x * (2 * p) == 2 * (x * p);
  }

  // ---- which texts are canonical ----

  lemma {:induction false} StripLonger(s: bytes)
    ensures |StripLines(s)| <= |s| && (|StripLines(s)| == |s| ==> StripLines(s) == s)
  {
    if s != [] {
      StripLonger(s[1..]);
      assert s == [s[0]] + s[1..];
    }
  }

  lemma {:induction false} DigitsOfValues(s: bytes)
    requires Base32Values(s).Some?
    ensures Base32Digits(Base32Values(s).value) == s
  {
    if s != [] {
      DigitsOfValues(s[1..]);
      var vs := Base32Values(s).value;
      assert vs[1..] == Base32Values(s[1..]).value;
      assert Base32Digits(vs) == [Base32Digit(vs[0])] + Base32Digits(vs[1..]);
      assert s == [s[0]] + s[1..];
    }
  }

  /** The bits a text carries, line ends skipped. */
  function CarriedBits(s: bytes): bits
    requires Base32Values(StripLines(s)).Some?
  {
    Spread(Base32Values(StripLines(s)).value, 5)
  }

  /** A text the decoder accepts is the encoder's own exactly when it holds no line end
      and the bits behind its last byte are the padding zeros. */
  lemma Base32Canonical(s: bytes, b: bytes)
    requires Base32Decode(s) == Some(b)
    ensures Base32Encode(b) == s <==> |StripLines(s)| == |s| && CarriedBits(s) == PaddedBits(b)
  {
    if Base32Encode(b) == s {
      ValuesOfDigits(Groups(b));
      GroupCount(b);
    } else if |StripLines(s)| == |s| && CarriedBits(s) == PaddedBits(b) {
      var vs := Base32Values(StripLines(s)).value;
      StripLonger(s);
      PowerValues();
      GatherOfSpread(vs, 5, []);
      assert Spread(vs, 5) + [] == Spread(vs, 5);
      DigitsOfValues(s);
    }
  }

  // ---- the texts, digit by digit ----

  lemma HexAlphabet(v: nat)
    requires v < 16
    ensures HexDigit(v) == Ascii("0123456789abcdef")[v]
  {
  }

  lemma Base32Alphabet(v: nat)
    requires v < 32
    ensures Base32Digit(v) == Ascii("abcdefghijklmnopqrstuvwxyz234567")[v]
  {
  }

  /** A byte is written as its upper half and then its lower half, the bytes in order. */
  lemma {:induction false} HexInDigits(b: bytes, i: nat)
    requires i < |b|
    ensures HexEncode(b)[2 * i] == Ascii("0123456789abcdef")[b[i] / 16]
    ensures HexEncode(b)[2 * i + 1] == Ascii("0123456789abcdef")[b[i] % 16]
  {
    hide HexDigit, Ascii;
    if i == 0 {
      HexAlphabet(b[0] / 16);
      HexAlphabet(b[0] % 16);
    } else {
      HexInDigits(b[1..], i - 1);
    }
  }

  /** Bit `k` of a byte string, the most significant bit of its first byte being the first. */
  function BitOf(b: bytes, k: nat): bit {
    if k < 8 * |b| then b[k / 8] / [128, 64, 32, 16, 8, 4, 2, 1][k % 8] % 2 else 0
  }

  /** Five bits to a character, the first bit counting most, and zeros where the bits run out. */
  lemma Base32InDigits(b: bytes, i: nat)
    ensures |Base32Encode(b)| == (8 * |b| + 4) / 5
    ensures i < |Base32Encode(b)| ==>
              var v: nat := 16 * (BitOf(b, 5 * i) as int) + 8 * (BitOf(b, 5 * i + 1) as int)
                            + 4 * (BitOf(b, 5 * i + 2) as int) + 2 * (BitOf(b, 5 * i + 3) as int) + BitOf(b, 5 * i + 4) as int;
              Base32Encode(b)[i] == Ascii("abcdefghijklmnopqrstuvwxyz234567")[v]
  {
    hide BitOf, Ascii, Base32Digit, Gather, PaddedBits;
    GroupCount(b);
    if i < |Base32Encode(b)| {
      var p := PaddedBits(b);
      assert 5 * i + 5 <= |p|;
      GatherAt(p, 5, i);
      var five, g := p[5 * i..5 * i + 5], Groups(b)[i];
      forall j | 0 <= j < 5 ensures five[j] == BitOf(b, 5 * i + j) {
        PaddedBit(b, 5 * i + j);
        assert five[j] == p[5 * i + j];
      }
      assert five[0] == BitOf(b, 5 * i);
      FiveBits(five);
      assert g == Value(five);
      Base32Alphabet(g);
    }
  }

  lemma FiveBits(b: bits)
    requires |b| == 5
    ensures Value(b) == 16 * (b[0] as int) + 8 * (b[1] as int) + 4 * (b[2] as int) + 2 * (b[3] as int) + b[4] as int
  {
    assert b[..4][..3] == b[..3] && b[..3][..2] == b[..2] && b[..2][..1] == b[..1];
    assert Value(b[..1]) == b[0] as int && Value(b[..2]) == 2 * (b[0] as int) + b[1] as int;
    assert Value(b[..3]) == 2 * Value(b[..2]) + b[2] as int && Value(b[..4]) == 2 * Value(b[..3]) + b[3] as int;
  }

  lemma {:induction false} GatherAt(b: bits, w: nat, i: nat)
    requires w > 0 && (i + 1) * w <= |b|
    ensures i < |Gather(b, w)| && i * w <= (i + 1) * w && Gather(b, w)[i] == Value(b[i * w..(i + 1) * w])
    decreases i
  {
    assert (i + 1) * w == i * w + w && i * w >= 0;
    if i > 0 {
      assert i * w == (i - 1) * w + w;
      GatherAt(b[w..], w, i - 1);
      assert b[w..][(i - 1) * w..i * w] == b[i * w..(i + 1) * w];
    } else {
      assert 0 * w == 0 && 1 * w == w;
    }
  }

  lemma PaddedBit(b: bytes, k: nat)
    requires k < |PaddedBits(b)|
    ensures PaddedBits(b)[k] == BitOf(b, k)
  {
    if k < 8 * |b| {
      SpreadBit(b, k);
      PowerValues();
      assert Pow2(1) == 2 * Pow2(0) && Pow2(2) == 2 * Pow2(1) && Pow2(3) == 2 * Pow2(2);
      assert Pow2(6) == 2 * Pow2(5) && Pow2(7) == 2 * Pow2(6);
    }
  }

  lemma {:induction false} SpreadBit(b: bytes, k: nat)
    requires k < 8 * |b|
    ensures Spread(b, 8)[k] == b[k / 8] / Pow2(7 - k % 8) % 2
  {
    hide Bits, Pow2;
    SpreadFirst(b, 8);
    if k < 8 {
      BitAt(b[0], 8, k);
    } else {
      SpreadBit(b[1..], k - 8);
      assert b[1..][(k - 8) / 8] == b[k / 8];
    }
  }

  lemma {:induction false} BitAt(x: nat, n: nat, j: nat)
    requires j < n
    ensures Bits(x, n)[j] == x / Pow2(n - 1 - j) % 2
    decreases n
  {
    if j < n - 1 {
      BitAt(x / 2, n - 1, j);
      HalfFirst(x, Pow2(n - 2 - j));
    } else {
      assert Pow2(0) == 1;
    }
  }

  lemma HalfFirst(x: nat, p: nat)
    requires p > 0
    ensures x / 2 / p == x / (2 * p)
  {
    var q := x / (2 * p);
    var r := x % (2 * p);
    assert x == q * (2 * p) + r;
    assert x / 2 == q * p + r / 2 by { assert q * (2 * p) == 2 * (q * p); }
    assert 0 <= r / 2 < p;
    QuotientUnique(x / 2, p, q, r / 2);
  }

  lemma QuotientUnique(x: nat, p: nat, q: nat, r: nat)
    requires p > 0 && r < p && x == q * p + r
    ensures x / p == q
  {
    assert x == (x / p) * p + x % p;
    assert (x / p - q) * p == (x / p) * p - q * p;
    SmallMultiple(x / p - q, p);
  }

  lemma SmallMultiple(k: int, p: int)
    requires -p < k * p < p
    ensures k == 0
  {
  }
}
