/** The framed wire format between origin and mirror (mirror/protocol.go), and the mirror's read loop
    (mirror/server.go).

    A frame is a type byte, the length of its body, for RTP an eight-byte origin time, and the body.  A
    stream is the bytes written to it and not yet read.
 */
module MirrorProtocol {
  import opened Bytes
  import opened Results

  const HEADER: byte := 1
  const VIDEO: byte := 2
  const AUDIO: byte := 3
  const CLOSE: byte := 4
  const PROBE: byte := 5
  const ECHO: byte := 6
  const MAX_FRAME := 65536
  const PROBE_BODY := 16

  predicate IsRTP(ft: byte) { ft == VIDEO || ft == AUDIO }

  predicate Known(ft: byte) { HEADER <= ft <= ECHO }

  // ---- raw frames ----

  datatype Raw = Raw(ft: byte, prefix: bytes, body: bytes)

  predicate WellFormed(f: Raw) {
    Known(f.ft) && |f.prefix| == (if IsRTP(f.ft) then 8 else 0) && |f.body| <= MAX_FRAME
  }

  function EncodeRaw(f: Raw): bytes { [f.ft] + BE32(U32(|f.body|)) + f.prefix + f.body }

  /** `Nothing` is io.EOF, `Partial` is io.ErrUnexpectedEOF. */
  datatype Cause = Nothing | Partial
  datatype Part = FrameHeader | OriginTime | Body
  datatype ReadError = Short(part: Part, cause: Cause) | Closed | TooLarge | UnknownType | RepeatedHeader | BadProbe
                     | NotHeader | BadHeader

  /** What the read loops take for the end of the stream. */
  predicate IsEOF(e: ReadError) { e.Closed? || (e.Short? && e.cause.Nothing?) }

  datatype Read<+T> = Read(r: Result<T, ReadError>, rest: bytes)

  function TooShort(part: Part, s: bytes): ReadError { Short(part, if s == [] then Nothing else Partial) }

  function ReadBody(ft: byte, prefix: bytes, n: nat, s: bytes): Read<Raw> {
    if |s| < n then Read(Err(TooShort(Body, s)), []) else Read(Ok(Raw(ft, prefix, s[..n])), s[n..])
  }

  function ReadPrefix(ft: byte, n: nat, s: bytes): Read<Raw> {
    if n > MAX_FRAME then Read(Err(TooLarge), s)
    else if IsRTP(ft) then
      if |s| < 8 then Read(Err(TooShort(OriginTime, s)), []) else ReadBody(ft, s[..8], n, s[8..])
    else if !Known(ft) then Read(Err(UnknownType), s)
    else ReadBody(ft, [], n, s)
  }

  function ReadRaw(s: bytes): (p: Read<Raw>)
    ensures p.r.Ok? ==> |p.rest| + 5 <= |s|
  {
    if |s| < 5 then Read(Err(TooShort(FrameHeader, s)), []) else ReadPrefix(s[0], FromBE(s[1..5]), s[5..])
  }

  lemma EncodedHeader(f: Raw, rest: bytes)
    requires WellFormed(f)
    ensures var s := EncodeRaw(f) + rest;
            |s| >= 5 && s[0] == f.ft && FromBE(s[1..5]) == |f.body| && s[5..] == f.prefix + f.body + rest
  {
    hide BE, FromBE;
    var n := |f.body|;
    RoundTrip32(n);
    var w := BE32(U32(n));
    assert U32(n) == n;
    HeaderPieces(f.ft, w, f.prefix + f.body + rest);
    assert EncodeRaw(f) + rest == [f.ft] + w + (f.prefix + f.body + rest);
  }

  lemma HeaderPieces(ft: byte, w: bytes, t: bytes)
    requires |w| == 4
    ensures var s := [ft] + w + t; |s| >= 5 && s[0] == ft && s[1..5] == w && s[5..] == t
  {
  }

  /** Main result: a frame written is the frame read, and nothing behind it is consumed. */
  lemma RawRoundTrip(f: Raw, rest: bytes)
    requires WellFormed(f)
    ensures ReadRaw(EncodeRaw(f) + rest) == Read(Ok(f), rest)
  {
    hide EncodeRaw, BE32;
    EncodedHeader(f, rest);
    var t := f.prefix + f.body + rest;
    assert t[..|f.prefix|] == f.prefix && t[|f.prefix|..] == f.body + rest;
    assert (f.body + rest)[..|f.body|] == f.body && (f.body + rest)[|f.body|..] == rest;
    assert f.prefix == [] ==> t == f.body + rest;
  }

  /** Main result: the reader accepts nothing but encodings of frames. */
  lemma ReadRawIsCanonical(s: bytes)
    requires ReadRaw(s).r.Ok?
    ensures WellFormed(ReadRaw(s).r.value)
    ensures s == EncodeRaw(ReadRaw(s).r.value) + ReadRaw(s).rest
  {
    hide BE, FromBE;
    var f, rest := ReadRaw(s).r.value, ReadRaw(s).rest;
    var w := s[1..5];
    PrefixPieces(s[0], FromBE(w), s[5..]);
    WordOfLength(w, |f.body|);
    Regroup([s[0]] + w, f.prefix, f.body, rest);
    HeaderWhole(s);
    hide ReadPrefix, ReadBody, BE32, WellFormed;
  }

  lemma Regroup(h: bytes, p: bytes, b: bytes, rest: bytes)
    ensures h + (p + b + rest) == h + p + b + rest
  {
  }

  lemma WordOfLength(w: bytes, n: nat)
    requires |w| == 4 && FromBE(w) == n <= MAX_FRAME
    ensures BE32(U32(n)) == w
  {
    hide BE, FromBE;
    BEOfFromBE(w);
  }

  lemma HeaderWhole(s: bytes)
    requires |s| >= 5
    ensures s == [s[0]] + s[1..5] + s[5..]
  {
  }

  lemma PrefixPieces(ft: byte, n: nat, t: bytes)
    requires ReadPrefix(ft, n, t).r.Ok?
    ensures var p := ReadPrefix(ft, n, t);
            && WellFormed(p.r.value) && p.r.value.ft == ft && |p.r.value.body| == n
            && t == p.r.value.prefix + p.r.value.body + p.rest
  {
    var b := if IsRTP(ft) then t[8..] else t;
    assert b == b[..n] + b[n..];
    if IsRTP(ft) { assert t == t[..8] + b; }
  }

  /** Main result: no frame's encoding is a proper prefix of another's. */
  lemma PrefixFree(f: Raw, g: Raw)
    requires WellFormed(f) && WellFormed(g)
    requires EncodeRaw(f) <= EncodeRaw(g)
    ensures f == g
  {
    var rest := EncodeRaw(g)[|EncodeRaw(f)|..];
    assert EncodeRaw(g) == EncodeRaw(f) + rest;
    RawRoundTrip(f, rest);
    RawRoundTrip(g, []);
    assert EncodeRaw(g) + [] == EncodeRaw(g);
  }

  /** Main result: a frame cut short is never read as a frame.  It passes for the end of the stream
      exactly when the cut falls right behind the length word, or behind the origin time. */
  lemma CutFrame(f: Raw, n: nat)
    requires WellFormed(f) && 0 < n < |EncodeRaw(f)|
    ensures var p := ReadRaw(EncodeRaw(f)[..n]);
            && p.r.Err? && p.r.error.Short? && p.rest == []
            && (IsEOF(p.r.error) <==> n == 5 || (IsRTP(f.ft) && n == 13))
  {
    hide BE32;
    var s := EncodeRaw(f);
    EncodedHeader(f, []);
    assert s + [] == s;
    var t := s[..n];
    if n >= 5 {
      assert t[1..5] == s[1..5] && |t[5..]| == n - 5;
      if IsRTP(f.ft) && n >= 13 { assert |t[5..][8..]| == n - 13; }
    }
  }

  // ---- frames ----

  datatype Frame = Rtp(kind: byte, originNS: int64, payload: bytes)
                 | Probe(id: uint64, sendNS: uint64)
                 | ProbeEcho(id: uint64, sendNS: uint64)

  /** What the writers accept. */
  predicate Sendable(f: Frame) { f.Rtp? ==> IsRTP(f.kind) && |f.payload| <= MAX_FRAME }

  function ProbeBody(id: uint64, sendNS: uint64): bytes { BE64(id) + BE64(sendNS) }

  function RawOf(f: Frame): Raw {
    match f
    case Rtp(kind, ns, payload) => Raw(kind, BE64(U64(ns)), payload)
    case Probe(id, ns) => Raw(PROBE, [], ProbeBody(id, ns))
    case ProbeEcho(id, ns) => Raw(ECHO, [], ProbeBody(id, ns))
  }

  function Encode(f: Frame): bytes { EncodeRaw(RawOf(f)) }

  function ParseProbe(body: bytes): Result<(uint64, uint64), ReadError> {
    if |body| != PROBE_BODY then Err(BadProbe)
    else Ok((U64(FromBE(body[..8])), U64(FromBE(body[8..]))))
  }

  function FrameOf(f: Raw): Result<Frame, ReadError> {
    if IsRTP(f.ft) then Ok(Rtp(f.ft, I64(U64(FromBE(f.prefix))), f.body))
    else if f.ft == PROBE || f.ft == ECHO then
      var p := ParseProbe(f.body);
      if p.Err? then Err(p.error)
      else if f.ft == PROBE then Ok(Probe(p.value.0, p.value.1)) else Ok(ProbeEcho(p.value.0, p.value.1))
    else if f.ft == CLOSE then Err(Closed)
    else if f.ft == HEADER then Err(RepeatedHeader)
    else Err(UnknownType)
  }

  function ReadAny(s: bytes): (p: Read<Frame>)
    ensures p.r.Ok? ==> |p.rest| < |s|
  {
    var p := ReadRaw(s);
    if p.r.Err? then Read(Err(p.r.error), p.rest) else Read(FrameOf(p.r.value), p.rest)
  }

  /** Every frame in bytes: its type, the length of what follows the origin time in four bytes, and the body. */
  lemma FrameInBytes(f: Frame)
    requires Sendable(f)
    ensures Encode(f) == match f
                         case Rtp(kind, ns, payload) => [kind] + BE32(|payload|) + BE64(U64(ns)) + payload
                         case Probe(id, ns) => [5, 0, 0, 0, 16] + BE64(id) + BE64(ns)
                         case ProbeEcho(id, ns) => [6, 0, 0, 0, 16] + BE64(id) + BE64(ns)
    ensures f.Rtp? ==> f.kind == 2 || f.kind == 3
    ensures EncodeRaw(CLOSE_FRAME) == [4, 0, 0, 0, 0]
  {
    hide BE, FromBE;
    FourBytes(0);
    match f
    case Rtp(_, _, _) =>
    case Probe(id, ns) => ProbeInBytes(PROBE, id, ns);
    case ProbeEcho(id, ns) => ProbeInBytes(ECHO, id, ns);
  }

  lemma ProbeInBytes(ft: byte, id: uint64, ns: uint64)
    ensures EncodeRaw(Raw(ft, [], ProbeBody(id, ns))) == [ft, 0, 0, 0, 16] + BE64(id) + BE64(ns)
  {
    hide BE, FromBE;
    FourBytes(16);
    RoundTrip64(id);
    RoundTrip64(ns);
    var a, b := BE64(id), BE64(ns);
    assert BE32(U32(16)) == [0, 0, 0, 16];
    assert [ft] + [0, 0, 0, 16] + [] == [ft, 0, 0, 0, 16];
    JoinThree([ft, 0, 0, 0, 16], a, b);
  }

  /** Which bytes are refused, and as what. */
  lemma RefusedWhen(s: bytes)
    ensures var e, n := ReadAny(s).r, if |s| < 5 then 0 else FromBE(s[1..5]);
            && (e == Err(TooLarge) <==> |s| >= 5 && n > 65536)
            && (e == Err(UnknownType) <==> |s| >= 5 && n <= 65536 && (s[0] == 0 || s[0] > 6))
            && (e == Err(RepeatedHeader) <==> |s| >= 5 + n && n <= 65536 && s[0] == 1)
            && (e == Err(Closed) <==> |s| >= 5 + n && n <= 65536 && s[0] == 4)
            && (e == Err(BadProbe) <==> |s| >= 5 + n && n <= 65536 && n != 16 && (s[0] == 5 || s[0] == 6))
            && e != Err(NotHeader) && e != Err(BadHeader)
  {
    hide FromBE;
  }

  lemma FrameOfRaw(f: Frame)
    requires Sendable(f)
    ensures WellFormed(RawOf(f)) && FrameOf(RawOf(f)) == Ok(f)
  {
    hide BE64, FromBE, I64;
    match f
    case Rtp(kind, ns, payload) => TimeRoundTrip(ns);
    case Probe(id, ns) => ProbeRoundTrip(id, ns);
    case ProbeEcho(id, ns) => ProbeRoundTrip(id, ns);
  }

  lemma TimeRoundTrip(ns: int64)
    ensures |BE64(U64(ns))| == 8 && I64(U64(FromBE(BE64(U64(ns))))) == ns
  {
    hide BE64, FromBE, I64, U64;
    RoundTrip64(U64(ns));
    WrapTwice(ns);
    RoundTripI64(ns);
  }

  lemma ProbeRoundTrip(id: uint64, ns: uint64)
    ensures |ProbeBody(id, ns)| == PROBE_BODY && ParseProbe(ProbeBody(id, ns)) == Ok((id, ns))
  {
    hide BE, FromBE, BE64, U64;
    RoundTrip64(id);
    RoundTrip64(ns);
    NoWrap(id);
    NoWrap(ns);
    var b := ProbeBody(id, ns);
    assert b[..8] == BE64(id) && b[8..] == BE64(ns);
  }

  lemma Word64(b: bytes)
    requires |b| == 8
    ensures FromBE(b) < TWO64 && BE64(U64(FromBE(b))) == b
  {
    hide BE, FromBE, Pow256, U64;
    PowerValues();
    FromBEBound(b);
    NoWrap(FromBE(b));
    BEOfFromBE(b);
  }

  lemma SignedWord(w: uint64)
    ensures U64(I64(w)) == w
  {
  }

  lemma RawOfFrame(f: Raw)
    requires WellFormed(f) && FrameOf(f).Ok?
    ensures Sendable(FrameOf(f).value) && RawOf(FrameOf(f).value) == f
  {
    hide BE64, FromBE, U64, I64;
    if IsRTP(f.ft) {
      Word64(f.prefix);
      SignedWord(U64(FromBE(f.prefix)));
    } else {
      Word64(f.body[..8]);
      Word64(f.body[8..]);
      assert f.body == f.body[..8] + f.body[8..];
    }
  }

  lemma AnyRoundTrip(f: Frame, rest: bytes)
    requires Sendable(f)
    ensures ReadAny(Encode(f) + rest) == Read(Ok(f), rest)
  {
    hide EncodeRaw, ReadRaw, RawOf, FrameOf;
    FrameOfRaw(f);
    RawRoundTrip(RawOf(f), rest);
  }

  // ---- whole streams ----

  function Emit(fs: seq<Frame>): bytes { if fs == [] then [] else Encode(fs[0]) + Emit(fs[1..]) }

  ghost predicate AllSendable(fs: seq<Frame>) { forall i :: 0 <= i < |fs| ==> Sendable(fs[i]) }

  datatype Session = Session(frames: seq<Frame>, end: ReadError, rest: bytes)

  /** All frames up to the first error, the error, and what is left unread. */
  function ReadAll(s: bytes): Session
    decreases |s|
  {
    var p := ReadAny(s);
    if p.r.Err? then Session([], p.r.error, p.rest)
    else
      var later := ReadAll(p.rest);
      later.(frames := [p.r.value] + later.frames)
  }

  lemma {:induction false} EmitThen(fs: seq<Frame>, tail: bytes)
    requires AllSendable(fs)
    ensures ReadAll(Emit(fs) + tail) == var t := ReadAll(tail); t.(frames := fs + t.frames)
  {
    hide ReadAny, Encode;
    if fs == [] {
      assert Emit(fs) + tail == tail;
    } else {
      EmitThen(fs[1..], tail);
      AnyRoundTrip(fs[0], Emit(fs[1..]) + tail);
      assert Emit(fs) + tail == Encode(fs[0]) + (Emit(fs[1..]) + tail);
      assert fs == [fs[0]] + fs[1..];
    }
  }

  const CLOSE_FRAME: Raw := Raw(CLOSE, [], [])

  lemma EmptyReads()
    ensures ReadAll([]) == Session([], Short(FrameHeader, Nothing), [])
  {
  }

  lemma CloseReads(junk: bytes)
    ensures ReadAll(EncodeRaw(CLOSE_FRAME) + junk) == Session([], Closed, junk)
  {
    hide EncodeRaw, ReadRaw;
    RawRoundTrip(CLOSE_FRAME, junk);
  }

  /** Main result: everything the writers accepted is read back, in order, and then the end: by a close
      frame, whatever follows it, or by the stream running out. */
  lemma StreamRoundTrip(fs: seq<Frame>, junk: bytes)
    requires AllSendable(fs)
    ensures ReadAll(Emit(fs) + EncodeRaw(CLOSE_FRAME) + junk) == Session(fs, Closed, junk)
    ensures ReadAll(Emit(fs)) == Session(fs, Short(FrameHeader, Nothing), [])
  {
    hide EncodeRaw, ReadAll, Emit;
    var c := EncodeRaw(CLOSE_FRAME) + junk;
    EmptyReads();
    EmitThen(fs, c);
    CloseReads(junk);
    assert Emit(fs) + EncodeRaw(CLOSE_FRAME) + junk == Emit(fs) + c;
    EmitThen(fs, []);
    assert Emit(fs) + [] == Emit(fs) && fs + [] == fs;
  }

  /** Main result: of any bytes at all, the frames read are exactly those whose encodings the bytes begin
      with, up to one piece that is no frame and gives the error. */
  lemma {:induction false} ReadAllIsCanonical(s: bytes) returns (tail: bytes)
    ensures var r := ReadAll(s);
            && AllSendable(r.frames) && s == Emit(r.frames) + tail
            && ReadAny(tail) == Read(Err(r.end), r.rest)
    decreases |s|
  {
    hide ReadAny, Encode, EncodeRaw;
    var p := ReadAny(s);
    if p.r.Err? {
      tail := s;
    } else {
      tail := ReadAllIsCanonical(p.rest);
      AnyIsCanonical(s);
      var r := ReadAll(p.rest);
      assert ([p.r.value] + r.frames)[1..] == r.frames;
      assert s == Encode(p.r.value) + (Emit(r.frames) + tail);
    }
  }

  lemma AnyIsCanonical(s: bytes)
    requires ReadAny(s).r.Ok?
    ensures Sendable(ReadAny(s).r.value) && s == Encode(ReadAny(s).r.value) + ReadAny(s).rest
  {
    hide EncodeRaw, ReadRaw, RawOf, FrameOf, WellFormed;
    ReadRawIsCanonical(s);
    RawOfFrame(ReadRaw(s).r.value);
  }

  /** Main result: what two streams of frames have in common decides: equal bytes, equal frames. */
  lemma EmitInjective(fs: seq<Frame>, gs: seq<Frame>)
    requires AllSendable(fs) && AllSendable(gs) && Emit(fs) == Emit(gs)
    ensures fs == gs
  {
    StreamRoundTrip(fs, []);
    StreamRoundTrip(gs, []);
  }

  // ---- the header ----

  datatype CodecInfo = CodecInfo(mime: bytes, clockRate: uint32, channels: nat, fmtp: bytes)
  datatype Header = Header(sessionID: bytes, startedAtNS: int64, video: CodecInfo, audio: CodecInfo)

  /** The JSON form of a header: any encoding that can be read back. */
  datatype HeaderCodec = HeaderCodec(enc: Header -> bytes, dec: bytes -> Option<Header>)
  {
    ghost predicate Lawful() { forall h :: dec(enc(h)) == Some(h) }
  }

  function HeaderRaw(j: HeaderCodec, h: Header): Raw { Raw(HEADER, [], j.enc(h)) }

  function DecodeHeader(j: HeaderCodec, f: Raw): Result<Header, ReadError> {
    if f.ft != HEADER then Err(NotHeader)
    else match j.dec(f.body) case None => Err(BadHeader) case Some(h) => Ok(h)
  }

  function ReadHeaderOf(j: HeaderCodec, s: bytes): Read<Header> {
    var p := ReadRaw(s);
    if p.r.Err? then Read(Err(p.r.error), p.rest) else Read(DecodeHeader(j, p.r.value), p.rest)
  }

  lemma HeaderInBytes(j: HeaderCodec, h: Header)
    requires |j.enc(h)| <= MAX_FRAME
    ensures EncodeRaw(HeaderRaw(j, h)) == [1] + BE32(|j.enc(h)|) + j.enc(h)
  {
    hide BE32;
    var n := |j.enc(h)|;
    assert U32(n) == n && [1] + BE32(n) + [] == [1] + BE32(n);
  }

  /** Main result: header first, then every frame, then the end. */
  lemma SessionRoundTrip(j: HeaderCodec, h: Header, fs: seq<Frame>, junk: bytes)
    requires j.Lawful() && |j.enc(h)| <= MAX_FRAME && AllSendable(fs)
    ensures var p := ReadHeaderOf(j, EncodeRaw(HeaderRaw(j, h)) + (Emit(fs) + EncodeRaw(CLOSE_FRAME) + junk));
            p.r == Ok(h) && ReadAll(p.rest) == Session(fs, Closed, junk)
  {
    hide EncodeRaw, ReadRaw, ReadAll, Emit;
    RawRoundTrip(HeaderRaw(j, h), Emit(fs) + EncodeRaw(CLOSE_FRAME) + junk);
    StreamRoundTrip(fs, junk);
  }

  // ---- the mirror's answers ----

  /** The echoes a mirror owes for the frames it read: each probe once, unchanged, in order. */
  function Echoes(fs: seq<Frame>): (es: seq<Frame>)
    ensures forall i :: 0 <= i < |es| ==> es[i].ProbeEcho?
  {
    if fs == [] then []
    else Echoes(fs[..|fs| - 1]) +
         var f := fs[|fs| - 1]; if f.Probe? then [ProbeEcho(f.id, f.sendNS)] else []
  }

  /** Where probes stand among the first `n` frames. */
  ghost function ProbesBefore(fs: seq<Frame>, n: nat): set<int>
    requires n <= |fs|
  {
    set j | 0 <= j < n && fs[j].Probe?
  }

  lemma {:induction false} EchoCount(fs: seq<Frame>)
    ensures |Echoes(fs)| == |ProbesBefore(fs, |fs|)|
  {
    if fs != [] {
      var n := |fs| - 1;
      EchoCount(fs[..n]);
      assert ProbesBefore(fs[..n], n) == ProbesBefore(fs, n);
      assert ProbesBefore(fs, n + 1) == ProbesBefore(fs, n) + if fs[n].Probe? then {n} else {};
    }
  }

  /** There is one answer to each probe, behind the answers to the probes before it, with the probe's own number
      and time. */
  lemma {:induction false} EchoesInOrder(fs: seq<Frame>, i: nat)
    requires i < |fs| && fs[i].Probe?
    ensures |Echoes(fs)| == |ProbesBefore(fs, |fs|)|
    ensures var k := |ProbesBefore(fs, i)|; k < |Echoes(fs)| && Echoes(fs)[k] == ProbeEcho(fs[i].id, fs[i].sendNS)
  {
    var n := |fs| - 1;
    EchoCount(fs);
    if i < n {
      EchoesInOrder(fs[..n], i);
      assert ProbesBefore(fs[..n], i) == ProbesBefore(fs, i);
    } else {
      EchoCount(fs[..n]);
      assert ProbesBefore(fs[..n], n) == ProbesBefore(fs, n);
    }
  }

  lemma {:induction false} EmitAppend(fs: seq<Frame>, gs: seq<Frame>)
    ensures Emit(fs + gs) == Emit(fs) + Emit(gs)
  {
    hide Encode, Emit;
    if fs == [] {
      EmitNone();
      assert fs + gs == gs && [] + Emit(gs) == Emit(gs);
    } else {
      var f, rest := fs[0], fs[1..];
      EmitAppend(rest, gs);
      EmitCons(f, rest);
      EmitCons(f, rest + gs);
      assert fs == [f] + rest && fs + gs == [f] + (rest + gs);
      JoinThree(Encode(f), Emit(rest), Emit(gs));
    }
  }

  lemma EmitNone()
    ensures Emit([]) == []
  {
  }

  lemma EmitCons(f: Frame, rest: seq<Frame>)
    ensures Emit([f] + rest) == Encode(f) + Emit(rest)
  {
    hide Encode;
    assert ([f] + rest)[1..] == rest;
  }

  lemma JoinThree(a: bytes, b: bytes, c: bytes)
    ensures a + (b + c) == (a + b) + c
  {
  }

  lemma EmitOne(f: Frame)
    ensures Emit([f]) == Encode(f)
  {
    assert [f][1..] == [];
    assert Encode(f) + [] == Encode(f);
  }

  /** Main result: the origin reads back one echo per probe it sent, with the identifier it sent, in the
      order it sent them, whatever RTP went between. */
  lemma ProbesComeBack(fs: seq<Frame>)
    requires AllSendable(fs)
    ensures ReadAll(Emit(Echoes(ReadAll(Emit(fs)).frames))).frames == Echoes(fs)
  {
    hide ReadAll, Emit, Echoes;
    StreamRoundTrip(fs, []);
    StreamRoundTrip(Echoes(fs), []);
  }

  // ---- the code ----

  lemma EmptyTail(a: bytes, b: bytes)
    ensures b == [] ==> a + b == a
  {
  }

  /** The bytes written to a stream and not yet read. */
  class Stream {
    var buf: bytes

    constructor (buf: bytes)
      ensures this.buf == buf
    {
      this.buf := buf;
    }

    method Write(b: bytes)
      modifies this
      ensures buf == old(buf) + b
    {
      buf := buf + b;
    }

    method WriteFrame(ft: byte, prefix: bytes, body: bytes)
      modifies this
      ensures buf == old(buf) + EncodeRaw(Raw(ft, prefix, body))
    {
      hide BE32, U32;
      var hdr := [ft] + BE32(U32(|body|));
      Write(hdr);
      if |prefix| > 0 { Write(prefix); }
      assert buf == old(buf) + hdr + prefix by { EmptyTail(old(buf) + hdr, prefix); }
      if |body| > 0 { Write(body); }
      EmptyTail(old(buf) + hdr + prefix, body);
      JoinThree(old(buf), hdr, prefix);
      JoinThree(old(buf), hdr + prefix, body);
    }

    method WriteHeader(j: HeaderCodec, h: Header) returns (ok: bool)
      modifies this
      ensures ok <==> |j.enc(h)| <= 65536
      ensures buf == if ok then old(buf) + EncodeRaw(HeaderRaw(j, h)) else old(buf)
      ensures ok ==> buf == old(buf) + ([1] + BE32(|j.enc(h)|) + j.enc(h))
    {
      hide EncodeRaw;
      var body := j.enc(h);
      if |body| > MAX_FRAME { return false; }
      WriteFrame(HEADER, [], body);
      HeaderInBytes(j, h);
      return true;
    }

    method WriteRTPFrame(kind: byte, originNS: int64, rtp: bytes) returns (ok: bool)
      modifies this
      ensures ok <==> (kind == 2 || kind == 3) && |rtp| <= 65536
      ensures buf == if ok then old(buf) + Encode(Rtp(kind, originNS, rtp)) else old(buf)
      ensures ok ==> buf == old(buf) + ([kind] + BE32(|rtp|) + BE64(U64(originNS)) + rtp)
    {
      hide EncodeRaw, BE32, BE64;
      if kind != VIDEO && kind != AUDIO { return false; }
      if |rtp| > MAX_FRAME { return false; }
      WriteFrame(kind, BE64(U64(originNS)), rtp);
      FrameInBytes(Rtp(kind, originNS, rtp));
      return true;
    }

    method WriteProbe(id: uint64, sendNS: uint64)
      modifies this
      ensures buf == old(buf) + Encode(Probe(id, sendNS))
      ensures buf == old(buf) + ([5, 0, 0, 0, 16] + BE64(id) + BE64(sendNS))
    {
      hide EncodeRaw, BE64;
      WriteFrame(PROBE, [], ProbeBody(id, sendNS));
      FrameInBytes(Probe(id, sendNS));
    }

    method WriteProbeEcho(id: uint64, sendNS: uint64)
      modifies this
      ensures buf == old(buf) + Encode(ProbeEcho(id, sendNS))
      ensures buf == old(buf) + ([6, 0, 0, 0, 16] + BE64(id) + BE64(sendNS))
    {
      hide EncodeRaw, BE64;
      WriteFrame(ECHO, [], ProbeBody(id, sendNS));
      FrameInBytes(ProbeEcho(id, sendNS));
    }

    method WriteCloseFrame()
      modifies this
      ensures buf == old(buf) + [4, 0, 0, 0, 0]
    {
      hide EncodeRaw;
      WriteFrame(CLOSE, [], []);
      FrameInBytes(Probe(0, 0));
    }

    /** io.ReadFull: all of `n` bytes, or what there is and an error. */
    method ReadFull(part: Part, n: nat) returns (r: Result<bytes, ReadError>)
      modifies this
      ensures |old(buf)| >= n ==> r == Ok(old(buf)[..n]) && buf == old(buf)[n..]
      ensures |old(buf)| < n ==> r == Err(TooShort(part, old(buf))) && buf == []
    {
      if |buf| < n {
        r := Err(TooShort(part, buf));
        buf := [];
      } else {
        r := Ok(buf[..n]);
        buf := buf[n..];
      }
    }

    method ReadFrame() returns (r: Result<Raw, ReadError>)
      modifies this
      ensures Read(r, buf) == ReadRaw(old(buf))
    {
      var hdr := ReadFull(FrameHeader, 5);
      if hdr.Err? { return Err(hdr.error); }
      var ft, n := hdr.value[0], FromBE(hdr.value[1..5]);
      assert hdr.value[1..5] == old(buf)[1..5];
      r := ReadRest(ft, n);
    }

    method ReadRest(ft: byte, n: nat) returns (r: Result<Raw, ReadError>)
      modifies this
      ensures Read(r, buf) == ReadPrefix(ft, n, old(buf))
    {
      if n > MAX_FRAME { return Err(TooLarge); }
      var prefix: bytes := [];
      if IsRTP(ft) {
        var p := ReadFull(OriginTime, 8);
        if p.Err? { return Err(p.error); }
        prefix := p.value;
      } else if !Known(ft) {
        return Err(UnknownType);
      }
      var body: bytes := [];
      ghost var s := buf;
      if n > 0 {
        var b := ReadFull(Body, n);
        if b.Err? { return Err(b.error); }
        body := b.value;
      }
      assert n == 0 ==> s[..n] == [] && s[n..] == s;
      return Ok(Raw(ft, prefix, body));
    }

    method ReadHeader(j: HeaderCodec) returns (r: Result<Header, ReadError>)
      modifies this
      ensures Read(r, buf) == ReadHeaderOf(j, old(buf))
    {
      hide ReadRaw;
      var f := ReadFrame();
      if f.Err? { return Err(f.error); }
      return DecodeHeader(j, f.value);
    }

    method ReadAnyFrame() returns (r: Result<Frame, ReadError>)
      modifies this
      ensures Read(r, buf) == ReadAny(old(buf))
      ensures r.Ok? ==> |buf| < |old(buf)|
    {
      hide ReadRaw, FrameOf;
      var f := ReadFrame();
      if f.Err? { return Err(f.error); }
      return FrameOf(f.value);
    }
  }

  /** The mirror's loop: every probe is echoed at once; the first error, the end included, leaves it. */
  method Serve(input: Stream, output: Stream) returns (frames: seq<Frame>, end: ReadError)
    requires input != output
    modifies input, output
    ensures Session(frames, end, input.buf) == ReadAll(old(input.buf))
    ensures output.buf == old(output.buf) + Emit(Echoes(frames))
  {
    hide ReadAny, Encode, BE64;
    frames := [];
    assert output.buf + Emit([]) == output.buf;
    while true
      invariant ReadAll(old(input.buf)) == var t := ReadAll(input.buf); t.(frames := frames + t.frames)
      invariant output.buf == old(output.buf) + Emit(Echoes(frames))
      decreases |input.buf|
    {
      var f := input.ReadAnyFrame();
      if f.Err? { assert frames + [] == frames; return frames, f.error; }
      ghost var before := frames;
      frames := frames + [f.value];
      assert frames[..|before|] == before;
      ghost var later := ReadAll(input.buf).frames;
      assert before + ([f.value] + later) == frames + later;
      if f.value.Probe? {
        EmitAppend(Echoes(before), [ProbeEcho(f.value.id, f.value.sendNS)]);
        EmitOne(ProbeEcho(f.value.id, f.value.sendNS));
        output.WriteProbeEcho(f.value.id, f.value.sendNS);
      } else {
        assert Echoes(before) + [] == Echoes(before);
      }
    }
  }
}
