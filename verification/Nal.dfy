/** The H.264 NAL scanners: whip/frames.go, the splitters of whip/segmenter.go
    and whip/hls_muxer.go, and the AVCC sample encoder.

    `Fields` and `Join` are the reference: they cut a buffer at every start code
    00 00 00 01 and put it back together, keeping empty fields.  The code's
    splitters drop the empty ones.
 */
module Nal {
  import opened Bytes

  const CODE: bytes := [0, 0, 0, 1]

  predicate CodeAt(b: bytes, i: int) {
    0 <= i && i + 3 < |b| && b[i] == 0 && b[i + 1] == 0 && b[i + 2] == 0 && b[i + 3] == 1
  }

  /** The position of the first start code, -1 when there is none. */
  function FirstCode(b: bytes): (r: int)
    ensures r == -1 || 0 <= r < |b| - 3
  {
    FirstCodeFrom(b, 0)
  }

  function FirstCodeFrom(b: bytes, i: nat): (r: int)
    ensures r == -1 || i <= r < |b| - 3
    decreases |b| - i
  {
    if i + 3 >= |b| then -1 else if CodeAt(b, i) then i else FirstCodeFrom(b, i + 1)
  }

  ghost predicate IsFirstCode(b: bytes, from: nat, r: int) {
    if r < 0 then r == -1 && forall j :: from <= j ==> !CodeAt(b, j)
    else from <= r && CodeAt(b, r) && forall j :: from <= j < r ==> !CodeAt(b, j)
  }

  lemma {:induction false} FirstCodeCorrect(b: bytes, from: nat, r: int)
    ensures IsFirstCode(b, from, r) <==> r == FirstCodeFrom(b, from)
    decreases |b| - from
  {
    if from + 3 < |b| && !CodeAt(b, from) { FirstCodeCorrect(b, from + 1, r); }
  }

  ghost predicate CodeFree(b: bytes) {
    forall i :: !CodeAt(b, i)
  }

  ghost predicate AllCodeFree(us: seq<bytes>) {
    forall i :: 0 <= i < |us| ==> CodeFree(us[i])
  }

  // ---- reference: fields between start codes ----

  /** Everything between consecutive start codes, empty fields included. */
  function Fields(b: bytes): (us: seq<bytes>)
    ensures |us| > 0
    decreases |b|
  {
    var n := FirstCode(b);
    if n < 0 then [b] else [b[..n]] + Fields(b[n + 4..])
  }

  /** The fields with a start code between each two. */
  function Join(us: seq<bytes>): bytes
    requires |us| > 0
  {
    if |us| == 1 then us[0] else us[0] + CODE + Join(us[1..])
  }

  function NonEmpty(us: seq<bytes>): (r: seq<bytes>)
    ensures forall i :: 0 <= i < |r| ==> r[i] != [] && r[i] in us
  {
    if us == [] then []
    else (if us[0] != [] then [us[0]] else []) + NonEmpty(us[1..])
  }

  lemma {:induction false} NonEmptyConcat(a: seq<bytes>, b: seq<bytes>)
    ensures NonEmpty(a + b) == NonEmpty(a) + NonEmpty(b)
  {
    if a == [] {
      assert a + b == b;
    } else {
      NonEmptyConcat(a[1..], b);
      assert (a + b)[1..] == a[1..] + b;
      Associative(if a[0] != [] then [a[0]] else [], NonEmpty(a[1..]), NonEmpty(b));
    }
  }

  lemma {:induction false} NonEmptyIdentity(us: seq<bytes>)
    requires forall i :: 0 <= i < |us| ==> us[i] != []
    ensures NonEmpty(us) == us
  {
    if us != [] {
      NonEmptyIdentity(us[1..]);
      assert us == [us[0]] + us[1..];
    }
  }

  lemma CutAtFirstCode(b: bytes)
    requires FirstCode(b) >= 0
    ensures var n := FirstCode(b); b == b[..n] + CODE + b[n + 4..] && CodeFree(b[..n])
  {
    var n := FirstCode(b);
    FirstCodeCorrect(b, 0, n);
    forall i ensures !CodeAt(b[..n], i) {
      if CodeAt(b[..n], i) { assert CodeAt(b, i); }
    }
  }

  /** Cutting loses nothing, and leaves no start code inside a field. */
  lemma {:induction false} JoinOfFields(b: bytes)
    ensures Join(Fields(b)) == b
    ensures AllCodeFree(Fields(b))
    decreases |b|
  {
    var n := FirstCode(b);
    FirstCodeCorrect(b, 0, n);
    if n >= 0 {
      var rest := b[n + 4..];
      JoinOfFields(rest);
      CutAtFirstCode(b);
      assert Fields(b) == [b[..n]] + Fields(rest);
      assert Fields(b)[1..] == Fields(rest);
    }
  }

  /** The first start code of `u + CODE + rest` is the one after `u`: a zero byte
      at the end of `u` cannot pull it forward. */
  lemma FirstCodeAfter(u: bytes, rest: bytes)
    requires CodeFree(u)
    ensures FirstCode(u + CODE + rest) == |u|
  {
    var b := u + CODE + rest;
    assert CodeAt(b, |u|);
    forall j | 0 <= j < |u| ensures !CodeAt(b, j) {
      assert b[|u|] == 0 && b[|u| + 1] == 0 && b[|u| + 2] == 0;
      assert !CodeAt(u, j);
    }
    FirstCodeCorrect(b, 0, |u|);
  }

  /** Joining code-free fields and cutting again gives them back. */
  lemma {:induction false} FieldsOfJoin(us: seq<bytes>)
    requires |us| > 0 && AllCodeFree(us)
    ensures Fields(Join(us)) == us
  {
    if |us| == 1 {
      FirstCodeCorrect(us[0], 0, -1);
    } else {
      var rest := Join(us[1..]);
      FirstCodeAfter(us[0], rest);
      var b := us[0] + CODE + rest;
      assert Join(us) == b;
      FieldsOfJoin(us[1..]);
      assert b[..|us[0]|] == us[0] && b[|us[0]| + 4..] == rest;
      assert us == [us[0]] + us[1..];
    }
  }

  // ---- the code's splitters ----

  /** What both splitters return: the non-empty fields. */
  function Split(b: bytes): (us: seq<bytes>)
    decreases |b|
  {
    if b == [] then []
    else
      var n := FirstCode(b);
      if n < 0 then [b]
      else (if n > 0 then [b[..n]] else []) + Split(b[n + 4..])
  }

  lemma {:induction false} SplitIsNonEmptyFields(b: bytes)
    ensures Split(b) == NonEmpty(Fields(b))
    decreases |b|
  {
    if b != [] {
      var n := FirstCode(b);
      if n >= 0 {
        SplitIsNonEmptyFields(b[n + 4..]);
        assert Fields(b)[1..] == Fields(b[n + 4..]);
      }
    }
  }

  /** Splitting a start-code join of code-free units gives back the non-empty ones,
      and with no empty unit exactly the list that was joined. */
  lemma SplitOfJoin(us: seq<bytes>)
    requires |us| > 0 && AllCodeFree(us)
    ensures Split(Join(us)) == NonEmpty(us)
    ensures (forall i :: 0 <= i < |us| ==> us[i] != []) ==> Split(Join(us)) == us
  {
    FieldsOfJoin(us);
    SplitIsNonEmptyFields(Join(us));
    if forall i :: 0 <= i < |us| ==> us[i] != [] { NonEmptyIdentity(us); }
  }

  /** Re-joining the split units gives the buffer back exactly when no field of
      it was empty, that is when it neither starts nor ends with a start code nor
      holds two in a row (and is not empty). */
  lemma JoinOfSplit(b: bytes)
    ensures (|Split(b)| > 0 && Join(Split(b)) == b) <==> [] !in Fields(b)
  {
    SplitIsNonEmptyFields(b);
    JoinOfFields(b);
    if [] !in Fields(b) {
      NonEmptyIdentity(Fields(b));
    } else if |Split(b)| > 0 && Join(Split(b)) == b {
      forall i | 0 <= i < |Split(b)| ensures CodeFree(Split(b)[i]) {
        assert Split(b)[i] in Fields(b);
      }
      FieldsOfJoin(Split(b));
    }
  }

  lemma SplitUnits(b: bytes)
    ensures AllCodeFree(Split(b))
    ensures forall i :: 0 <= i < |Split(b)| ==> Split(b)[i] != []
  {
    SplitIsNonEmptyFields(b);
    JoinOfFields(b);
    forall i | 0 <= i < |Split(b)| ensures CodeFree(Split(b)[i]) {
      assert Split(b)[i] in Fields(b);
    }
  }

  function UnitType(u: bytes): int
    requires u != []
  {
    u[0] % 32
  }

  predicate HasType(us: seq<bytes>, t: int) {
    exists i :: 0 <= i < |us| && us[i] != [] && UnitType(us[i]) == t
  }

  lemma HasTypeConcat(a: seq<bytes>, b: seq<bytes>, t: int)
    ensures HasType(a + b, t) <==> HasType(a, t) || HasType(b, t)
  {
    var c := a + b;
    if HasType(a, t) {
      var i :| 0 <= i < |a| && a[i] != [] && UnitType(a[i]) == t;
      assert c[i] == a[i];
    }
    if HasType(b, t) {
      var i :| 0 <= i < |b| && b[i] != [] && UnitType(b[i]) == t;
      assert c[|a| + i] == b[i];
    }
    if HasType(c, t) {
      var i :| 0 <= i < |c| && c[i] != [] && UnitType(c[i]) == t;
      if i < |a| { assert a[i] == c[i]; } else { assert b[i - |a|] == c[i]; }
    }
  }

  method FindStartCode(buf: bytes) returns (r: int)
    ensures r == FirstCode(buf)
  {
    var i := 0;
    while i + 3 < |buf|
      invariant 0 <= i
      invariant forall j :: 0 <= j < i ==> !CodeAt(buf, j)
    {
      if buf[i] == 0 && buf[i + 1] == 0 && buf[i + 2] == 0 && buf[i + 3] == 1 {
        assert CodeAt(buf, i);
        FirstCodeCorrect(buf, 0, i);
        return i;
      }
      i := i + 1;
    }
    FirstCodeCorrect(buf, 0, -1);
    return -1;
  }

  /** What a splitter appends in one turn of its loop, and where it goes on. */
  function Piece(buf: bytes, offset: nat, n: int): seq<bytes>
    requires -1 <= n && offset + n < |buf|
  {
    if n < 0 then [buf[offset..]] else if n > 0 then [buf[offset..offset + n]] else []
  }

  function Next(buf: bytes, offset: nat, n: int): (r: nat)
    requires offset < |buf| && n == FirstCode(buf[offset..])
    ensures offset < r <= |buf|
  {
    if n < 0 then |buf| else offset + n + 4
  }

  lemma SplitHere(buf: bytes, offset: nat)
    requires offset < |buf|
    ensures var n := FirstCode(buf[offset..]);
            Split(buf[offset..]) == Piece(buf, offset, n) + Split(buf[Next(buf, offset, n)..])
  {
    var rest, n := buf[offset..], FirstCode(buf[offset..]);
    if n >= 0 {
      assert rest[..n] == buf[offset..offset + n];
      assert rest[n + 4..] == buf[offset + n + 4..];
    }
  }

  /** One turn: `out` followed by the split of what is left stays the same list. */
  lemma SplitTurn(buf: bytes, offset: nat, out: seq<bytes>, all: seq<bytes>)
    requires offset < |buf|
    requires out + Split(buf[offset..]) == all
    ensures var n := FirstCode(buf[offset..]);
            out + Piece(buf, offset, n) + Split(buf[Next(buf, offset, n)..]) == all
  {
    SplitHere(buf, offset);
    var n := FirstCode(buf[offset..]);
    Associative(out, Piece(buf, offset, n), Split(buf[Next(buf, offset, n)..]));
  }

  lemma Associative<T>(a: seq<T>, b: seq<T>, c: seq<T>)
    ensures a + (b + c) == a + b + c
  {
  }

  method SplitNALUnits(buf: bytes) returns (out: seq<bytes>)
    ensures out == Split(buf)
  {
    hide FirstCode, Split;
    NoUnits();
    out := [];
    var offset := 0;
    ghost var todo := Split(buf);
    assert buf[0..] == buf;
    while offset < |buf|
      invariant 0 <= offset <= |buf|
      invariant todo == Split(buf[offset..])
      invariant out + todo == Split(buf)
    {
      SplitTurn(buf, offset, out, Split(buf));
      var next := FindStartCode(buf[offset..]);
      ghost var more := out + Piece(buf, offset, next);
      if next < 0 {
        if |buf[offset..]| > 0 { out := out + [buf[offset..]]; }
        assert out == more == more + Split([]);
        assert buf[|buf|..] == [];
        return;
      }
      if next > 0 { out := out + [buf[offset..offset + next]]; }
      assert out == more;
      offset := offset + next + 4;
      todo := Split(buf[offset..]);
    }
    assert buf[offset..] == [];
  }

  method SplitAnnexBNALs(buf: bytes) returns (out: seq<bytes>)
    ensures out == Split(buf)
  {
    hide FirstCode, Split;
    NoUnits();
    if |buf| == 0 { return []; }
    out := [];
    var offset := 0;
    ghost var todo := Split(buf);
    assert buf[0..] == buf;
    while offset < |buf|
      invariant 0 <= offset <= |buf|
      invariant todo == Split(buf[offset..])
      invariant out + todo == Split(buf)
    {
      SplitTurn(buf, offset, out, Split(buf));
      var rel := FindStartCode(buf[offset..]);
      ghost var more := out + Piece(buf, offset, rel);
      if rel < 0 {
        out := out + [buf[offset..]];
        assert out == more == more + Split([]);
        assert buf[|buf|..] == [];
        return;
      }
      if rel > 0 { out := out + [buf[offset..offset + rel]]; }
      assert out == more;
      offset := offset + rel + 4;
      todo := Split(buf[offset..]);
    }
    assert buf[offset..] == [];
  }

  /** The type of a unit is the low five bits of its first byte, whatever the three above them say: 0x25, 0x45 and 0x65
      are all of type 5. */
  lemma TypeBits(u: bytes, high: nat, low: nat)
    requires u != [] && high < 8 && low < 32 && u[0] == high * 32 + low
    ensures UnitType(u) == low
    ensures UnitType([0x25]) == 5 && UnitType([0x45]) == 5 && UnitType([0x65]) == 5
    ensures UnitType([0x67]) == 7 && UnitType([0x68]) == 8
  {
  }

  /** The keyframe test: some unit of the buffer is an IDR slice (type 5). */
  method IsKeyframe(nal: bytes) returns (r: bool)
    ensures r <==> HasType(Split(nal), 5)
    ensures r <==> exists i :: 0 <= i < |Split(nal)| && Split(nal)[i] != [] && Split(nal)[i][0] % 32 == 5
  {
    hide FirstCode, Split;
    NoUnits();
    if |nal| == 0 { return false; }
    var offset := 0;
    assert nal[0..] == nal;
    while offset < |nal|
      invariant 0 <= offset <= |nal|
      invariant HasType(Split(nal), 5) <==> HasType(Split(nal[offset..]), 5)
    {
      SplitHere(nal, offset);
      var next := FindStartCode(nal[offset..]);
      ghost var piece, goOn := Piece(nal, offset, next), Next(nal, offset, next);
      HasTypeConcat(piece, Split(nal[goOn..]), 5);
      var unit;
      if next < 0 {
        unit := nal[offset..];
        offset := |nal|;
      } else {
        unit := nal[offset..offset + next];
        offset := offset + next + 4;
      }
      assert piece == if unit != [] then [unit] else [];
      if |unit| == 0 { continue; }
      assert piece[0] == unit;
      if unit[0] % 32 == 5 { return true; }
    }
    return false;
  }

  // ---- AVCC samples ----

  /** One unit with its 32-bit length in front; a longer length is truncated. */
  function LengthPrefixed(u: bytes): bytes { BE32(U32(|u|)) + u }

  function Avcc(us: seq<bytes>): bytes {
    if us == [] then [] else (if us[0] == [] then [] else LengthPrefixed(us[0])) + Avcc(us[1..])
  }

  /** Reads length-prefixed units until the sample is used up. */
  function DecodeAvcc(s: bytes): (us: seq<bytes>)
    decreases |s|
  {
    if |s| < 4 then []
    else
      var n := FromBE(s[..4]);
      if n > |s| - 4 then [] else [s[4..4 + n]] + DecodeAvcc(s[4 + n..])
  }

  /** What an AVCC sample is made of: the units, or the raw buffer when there are none. */
  function SampleUnits(b: bytes): seq<bytes> {
    if |Split(b)| == 0 then [b] else Split(b)
  }

  function Sample(b: bytes): bytes { Avcc(SampleUnits(b)) }

  method EncodeAVCCSample(annexB: bytes) returns (out: bytes)
    ensures out == Sample(annexB)
  {
    hide FirstCode, Split, Avcc, BE32;
    var nals := SplitNALUnits(annexB);
    if |nals| == 0 { nals := [annexB]; }
    out := [];
    NoUnits();
    for i := 0 to |nals|
      invariant out == Avcc(nals[..i])
    {
      var n := nals[i];
      AvccAppend(nals[..i], n);
      assert nals[..i + 1] == nals[..i] + [n];
      if |n| == 0 { continue; }
      LengthBytes(|n|);
      Associative(out, BE32(U32(|n|)), n);
      var len: bytes := [(|n| / 0x100_0000) % 256, (|n| / 0x1_0000) % 256, (|n| / 0x100) % 256, |n| % 256];
      out := out + len;
      out := out + n;
    }
    assert nals[..|nals|] == nals;
  }

  lemma NoUnits()
    ensures Avcc([]) == [] && Split([]) == []
  {
  }

  lemma {:induction false} AvccAppend(us: seq<bytes>, u: bytes)
    ensures Avcc(us + [u]) == Avcc(us) + if u == [] then [] else LengthPrefixed(u)
  {
    if us == [] {
      assert us + [u] == [u];
    } else {
      AvccAppend(us[1..], u);
      assert (us + [u])[1..] == us[1..] + [u];
      Associative(if us[0] == [] then [] else LengthPrefixed(us[0]), Avcc(us[1..]), if u == [] then [] else LengthPrefixed(u));
    }
  }

  /** The four shifted bytes the encoder appends are the big-endian word. */
  lemma LengthBytes(n: nat)
    ensures BE32(U32(n)) == [(n / 0x100_0000) % 256, (n / 0x1_0000) % 256, (n / 0x100) % 256, n % 256]
  {
    var w: nat := U32(n);
    FourBytes(w);
    Shifted(w, n / TWO32);
  }

  /** Adding a multiple of 2^32 changes none of the four low bytes. */
  lemma Shifted(w: nat, q: nat)
    ensures (w + q * TWO32) / 0x100_0000 % 256 == w / 0x100_0000 % 256
    ensures (w + q * TWO32) / 0x1_0000 % 256 == w / 0x1_0000 % 256
    ensures (w + q * TWO32) / 0x100 % 256 == w / 0x100 % 256
    ensures (w + q * TWO32) % 256 == w % 256
  {
    Multiples(q);
    Byte(w, q * 0x100, 0x100_0000);
    Byte(w, q * 0x1_0000, 0x1_0000);
    Byte(w, q * 0x100_0000, 0x100);
    Byte(w, q * TWO32, 1);
  }

  lemma Multiples(q: nat)
    ensures q * 0x100 % 256 == q * 0x1_0000 % 256 == q * 0x100_0000 % 256 == q * TWO32 % 256 == 0
    ensures q * 0x100 * 0x100_0000 == q * 0x1_0000 * 0x1_0000 == q * 0x100_0000 * 0x100 == q * TWO32
  {
  }

  lemma Byte(w: nat, k: nat, d: nat)
    requires d > 0
    ensures k % 256 == 0 ==> (w + k * d) / d % 256 == w / d % 256
  {
    Divide(w, k, d);
    if k % 256 == 0 { assert (w / d + k) % 256 == w / d % 256; }
  }

  lemma Divide(w: nat, k: nat, d: nat)
    requires d > 0
    ensures (w + k * d) / d == w / d + k
  {
    var r := w % d;
    assert w + k * d == (w / d + k) * d + r;
    DivideUnique(w + k * d, w / d + k, r, d);
  }

  lemma DivideUnique(x: nat, q: nat, r: nat, d: nat)
    requires d > 0 && r < d && x == q * d + r
    ensures x / d == q
  {
    var p, s := x / d, x % d;
    assert x == p * d + s;
    assert p < q ==> q * d >= (p + 1) * d;
    assert q < p ==> p * d >= (q + 1) * d;
  }

  lemma DecodeFirst(u: bytes, rest: bytes)
    requires |u| < TWO32
    ensures DecodeAvcc(LengthPrefixed(u) + rest) == [u] + DecodeAvcc(rest)
  {
    hide BE, FromBE;
    var len := BE32(|u|);
    RoundTrip32(|u|);
    var s := len + u + rest;
    assert s[..4] == len && s[4..4 + |u|] == u && s[4 + |u|..] == rest;
    assert LengthPrefixed(u) + rest == s;
  }

  /** A unit of four gigabytes or more is read back shorter: its length wraps. */
  lemma DecodeLong(u: bytes, rest: bytes)
    requires |u| >= TWO32
    ensures DecodeAvcc(LengthPrefixed(u) + rest) != []
    ensures |DecodeAvcc(LengthPrefixed(u) + rest)[0]| < |u|
  {
    hide BE, FromBE;
    var n := U32(|u|);
    RoundTrip32(n);
    var s := LengthPrefixed(u) + rest;
    assert s[..4] == BE32(n);
  }

  /** Units are read back as they were written exactly when each length fits its four bytes. */
  lemma {:induction false} DecodeExactly(us: seq<bytes>)
    requires forall i :: 0 <= i < |us| ==> us[i] != []
    ensures DecodeAvcc(Avcc(us)) == us <==> forall i :: 0 <= i < |us| ==> |us[i]| < TWO32
  {
    hide DecodeAvcc, LengthPrefixed;
    if us == [] {
      NothingToDecode();
    } else {
      var u, rest := us[0], us[1..];
      assert us == [u] + rest;
      DecodeExactly(rest);
      if |u| < TWO32 {
        DecodeFirst(u, Avcc(rest));
        assert DecodeAvcc(Avcc(us))[1..] == DecodeAvcc(Avcc(rest));
      } else {
        DecodeLong(u, Avcc(rest));
      }
    }
  }

  lemma NothingToDecode()
    ensures DecodeAvcc(Avcc([])) == []
  {
  }

  /** Main result: a decoder reading the sample back sees exactly the units of the frame if and only if each is
      shorter than four gigabytes and the frame holds a unit or is empty.  A frame made of start codes
      alone is the exception: it is stored as one unit holding those codes. */
  lemma SampleRoundTrip(b: bytes)
    ensures DecodeAvcc(Sample(b)) == Split(b) <==>
              (Split(b) != [] || b == []) && forall i :: 0 <= i < |Split(b)| ==> |Split(b)[i]| < TWO32
  {
    hide DecodeAvcc, Split, LengthPrefixed;
    SplitUnits(b);
    NoUnits();
    if Split(b) != [] {
      DecodeExactly(Split(b));
    } else if b != [] {
      CodesDecode(b);
    } else {
      NothingToDecode();
      EmptyUnit();
    }
  }

  lemma EmptyUnit()
    ensures Avcc([[]]) == []
  {
  }

  lemma CodesDecode(b: bytes)
    requires b != []
    ensures DecodeAvcc(Avcc([b])) != []
  {
    hide DecodeAvcc, LengthPrefixed;
    assert Avcc([b]) == LengthPrefixed(b) + Avcc([]);
    if |b| < TWO32 { DecodeFirst(b, Avcc([])); } else { DecodeLong(b, Avcc([])); }
  }

  /** The exception is real: a lone start code is stored as a unit of its own. */
  lemma LoneStartCode()
    ensures Split(CODE) == [] && DecodeAvcc(Sample(CODE)) == [CODE]
  {
    FirstCodeCorrect(CODE, 0, 0);
    assert CODE[4..] == [];
    DecodeExactly([CODE]);
  }
}
