/**
 The 16-byte wire envelope (envelope.rs) and the frame loop that reads a stream of
 envelopes (tcp_transport.rs).  CRC32C is an arbitrary function into 32 bits.
 */
module Envelope {
  import opened Bytes

  type Crc = seq<byte> -> u32

  const WIRE_ENVELOPE_MAGIC: seq<byte> := [87, 77, 66, 84]
  const WIRE_ENVELOPE_VERSION: u32 := 1
  const WIRE_ENVELOPE_BYTES: nat := 16
  const MAX_FRAME_BYTES: nat := 256 * 1024 * 1024

  datatype EnvelopeError =
    | TooShort(got: nat, need: nat)
    | BadMagic(magic: seq<byte>)
    | BadVersion(got: nat, want: nat)
    | BadLength(headerLen: nat, actualBodyBytes: nat)
    | BadCrc(headerCrc: nat, computedCrc: nat)

  datatype EnvelopeHeader = EnvelopeHeader(crc: nat, len: nat)

  function EncodeHeader(crc: nat, len: nat): (r: seq<byte>)
    ensures |r| == WIRE_ENVELOPE_BYTES
  {
    WIRE_ENVELOPE_MAGIC + (Le(WIRE_ENVELOPE_VERSION, 4) + (Le(crc, 4) + Le(len, 4)))
  }

  /** `encode_envelope`; the source panics on bodies of 4 GiB and more. */
  function EncodeEnvelope(crc: Crc, body: seq<byte>): (r: seq<byte>)
    requires |body| < U32
    ensures |r| == WIRE_ENVELOPE_BYTES + |body|
  {
    EncodeHeader(crc(body), |body|) + body
  }

  function DecodeHeader(header: seq<byte>): (r: Result<EnvelopeHeader, EnvelopeError>)
    requires |header| == WIRE_ENVELOPE_BYTES
  {
    if header[0..4] != WIRE_ENVELOPE_MAGIC then Err(BadMagic(header[0..4]))
    else
      var version := FromLe(header[4..8]);
      if version != WIRE_ENVELOPE_VERSION then Err(BadVersion(version, WIRE_ENVELOPE_VERSION))
      else Ok(EnvelopeHeader(FromLe(header[8..12]), FromLe(header[12..16])))
  }

  function VerifyCrc(crc: Crc, header: EnvelopeHeader, body: seq<byte>): (r: Result<(), EnvelopeError>)
  {
    if |body| != header.len then Err(BadLength(header.len, |body|))
    else if crc(body) != header.crc then Err(BadCrc(header.crc, crc(body)))
    else Ok(())
  }

  function DecodeEnvelope(crc: Crc, x: seq<byte>): (r: Result<seq<byte>, EnvelopeError>)
  {
    if |x| < WIRE_ENVELOPE_BYTES then Err(TooShort(|x|, WIRE_ENVELOPE_BYTES))
    else match DecodeHeader(x[..WIRE_ENVELOPE_BYTES])
         case Err(e) => Err(e)
         case Ok(h) =>
           var body := x[WIRE_ENVELOPE_BYTES..];
           if |body| != h.len then Err(BadLength(h.len, |body|))
           else match VerifyCrc(crc, h, body)
                case Err(e) => Err(e)
                case Ok(_) => Ok(body)
  }

  /** A header decodes exactly when it is the encoding of what it decodes to. */
  lemma HeaderCanonical(header: seq<byte>, h: EnvelopeHeader)
    requires |header| == WIRE_ENVELOPE_BYTES
    ensures DecodeHeader(header) == Ok(h) <==> h.crc < U32 && h.len < U32 && header == EncodeHeader(h.crc, h.len)
  {
    Capacities();
    var magic, version, crc, len := header[0..4], header[4..8], header[8..12], header[12..16];
    assert header == magic + (version + (crc + len));
    if DecodeHeader(header) == Ok(h) {
      LeEncodes(version);
      LeEncodes(crc);
      LeEncodes(len);
      FromLeBound(crc);
      FromLeBound(len);
    }
    if h.crc < U32 && h.len < U32 && header == EncodeHeader(h.crc, h.len) {
      SplitEqual(magic, version + (crc + len), WIRE_ENVELOPE_MAGIC, Le(WIRE_ENVELOPE_VERSION, 4) + (Le(h.crc, 4) + Le(h.len, 4)));
      SplitEqual(version, crc + len, Le(WIRE_ENVELOPE_VERSION, 4), Le(h.crc, 4) + Le(h.len, 4));
      SplitEqual(crc, len, Le(h.crc, 4), Le(h.len, 4));
      LeDecodes(WIRE_ENVELOPE_VERSION, 4);
      LeDecodes(h.crc, 4);
      LeDecodes(h.len, 4);
    }
  }

  /** The decoder accepts exactly the encodings. */
  lemma DecodeIffEncode(crc: Crc, x: seq<byte>, body: seq<byte>)
    ensures DecodeEnvelope(crc, x) == Ok(body) <==> |body| < U32 && x == EncodeEnvelope(crc, body)
  {
    if |x| >= WIRE_ENVELOPE_BYTES {
      var header, rest := x[..WIRE_ENVELOPE_BYTES], x[WIRE_ENVELOPE_BYTES..];
      assert x == header + rest;
      if DecodeEnvelope(crc, x) == Ok(body) {
        HeaderCanonical(header, DecodeHeader(header).value);
      }
      if |body| < U32 && x == EncodeEnvelope(crc, body) {
        SplitEqual(header, rest, EncodeHeader(crc(body), |body|), body);
        HeaderCanonical(header, EnvelopeHeader(crc(body), |body|));
      }
    }
  }

  // ---- the frame loop --------------------------------------------------

  /** Why the connection loop returned; a peer that goes away, even in mid-frame, is no error. */
  datatype FrameClose = PeerGone | ReadFault | BadEnvelope(error: EnvelopeError) | FrameTooLarge(len: nat) | HandlerFailed

  /** One turn of the loop: the body of the frame at the front of `s` and what follows it. */
  function ReadFrame(crc: Crc, s: seq<byte>): (r: Result<(seq<byte>, seq<byte>), FrameClose>)
    ensures r.Ok? ==> |r.value.1| < |s|
  {
    if |s| < WIRE_ENVELOPE_BYTES then Err(PeerGone)
    else match DecodeHeader(s[..WIRE_ENVELOPE_BYTES])
         case Err(e) => Err(BadEnvelope(e))
         case Ok(h) =>
           if h.len > MAX_FRAME_BYTES then Err(FrameTooLarge(h.len))
           else
             var rest := s[WIRE_ENVELOPE_BYTES..];
             if |rest| < h.len then Err(PeerGone)
             else match VerifyCrc(crc, h, rest[..h.len])
                  case Err(e) => Err(BadEnvelope(e))
                  case Ok(_) => Ok((rest[..h.len], rest[h.len..]))
  }

  /** All frames of a stream; `handle` says whether the n-th body is decoded, dispatched and answered. */
  function Frames(crc: Crc, handle: (nat, seq<byte>) -> bool, s: seq<byte>, n: nat): (r: (seq<seq<byte>>, FrameClose))
    decreases |s|
  {
    match ReadFrame(crc, s)
    case Err(c) => ([], c)
    case Ok((body, rest)) =>
      if !handle(n, body) then ([body], HandlerFailed)
      else
        var more := Frames(crc, handle, rest, n + 1);
        ([body] + more.0, more.1)
  }

  predicate FrameBody(body: seq<byte>) { |body| <= MAX_FRAME_BYTES }

  lemma ReadFrameSound(crc: Crc, s: seq<byte>, body: seq<byte>, rest: seq<byte>)
    requires ReadFrame(crc, s) == Ok((body, rest))
    ensures FrameBody(body) && s == EncodeEnvelope(crc, body) + rest
  {
    var header, after := s[..WIRE_ENVELOPE_BYTES], s[WIRE_ENVELOPE_BYTES..];
    HeaderCanonical(header, DecodeHeader(header).value);
    assert EncodeEnvelope(crc, body) == header + body;
    CutTwice(s, WIRE_ENVELOPE_BYTES, |body|);
  }

  lemma CutTwice<T>(s: seq<T>, m: nat, n: nat)
    requires m + n <= |s|
    ensures s == (s[..m] + s[m..][..n]) + s[m..][n..]
  {
  }

  lemma ReadFrameComplete(crc: Crc, body: seq<byte>, rest: seq<byte>)
    requires FrameBody(body)
    ensures ReadFrame(crc, EncodeEnvelope(crc, body) + rest) == Ok((body, rest))
  {
    var s := EncodeEnvelope(crc, body) + rest;
    var header, after := s[..WIRE_ENVELOPE_BYTES], s[WIRE_ENVELOPE_BYTES..];
    assert header == EncodeHeader(crc(body), |body|) && after == body + rest;
    HeaderCanonical(header, EnvelopeHeader(crc(body), |body|));
    assert after[..|body|] == body && after[|body|..] == rest;
  }

  /** The streaming reader takes a frame exactly when the whole-buffer decoder accepts its bytes. */
  lemma ReadFrameIff(crc: Crc, s: seq<byte>, body: seq<byte>, rest: seq<byte>)
    ensures ReadFrame(crc, s) == Ok((body, rest)) <==>
            && FrameBody(body) && |s| == WIRE_ENVELOPE_BYTES + |body| + |rest|
            && DecodeEnvelope(crc, s[..WIRE_ENVELOPE_BYTES + |body|]) == Ok(body)
            && s[WIRE_ENVELOPE_BYTES + |body|..] == rest
  {
    if ReadFrame(crc, s) == Ok((body, rest)) {
      ReadFrameSound(crc, s, body, rest);
      var n := WIRE_ENVELOPE_BYTES + |body|;
      assert s[..n] == EncodeEnvelope(crc, body) && s[n..] == rest;
      DecodeIffEncode(crc, s[..n], body);
    }
    if FrameBody(body) && |s| == WIRE_ENVELOPE_BYTES + |body| + |rest| {
      var n := WIRE_ENVELOPE_BYTES + |body|;
      if DecodeEnvelope(crc, s[..n]) == Ok(body) && s[n..] == rest {
        DecodeIffEncode(crc, s[..n], body);
        assert s == s[..n] + s[n..];
        ReadFrameComplete(crc, body, rest);
      }
    }
  }

  function EncodeAll(crc: Crc, bodies: seq<seq<byte>>): (r: seq<byte>)
    requires forall i :: 0 <= i < |bodies| ==> FrameBody(bodies[i])
  {
    if bodies == [] then []
    else
      assert FrameBody(bodies[0]);
      EncodeEnvelope(crc, bodies[0]) + EncodeAll(crc, bodies[1..])
  }

  /** A tail in which the reader finds no further frame because the peer stopped sending. */
  predicate PartialFrame(crc: Crc, tail: seq<byte>)
  {
    ReadFrame(crc, tail) == Err(PeerGone)
  }

  /** A frame cut short anywhere is such a tail. */
  lemma CutFrameIsPartial(crc: Crc, body: seq<byte>, n: nat)
    requires FrameBody(body) && n < |EncodeEnvelope(crc, body)|
    ensures PartialFrame(crc, EncodeEnvelope(crc, body)[..n])
  {
    if n >= WIRE_ENVELOPE_BYTES {
      var cut := EncodeEnvelope(crc, body)[..n];
      assert cut[..WIRE_ENVELOPE_BYTES] == EncodeHeader(crc(body), |body|);
      HeaderCanonical(cut[..WIRE_ENVELOPE_BYTES], EnvelopeHeader(crc(body), |body|));
    }
  }

  /** Any list of frames, followed by nothing or by a frame cut short, is read back exactly. */
  lemma {:induction false} FramesRecovered(crc: Crc, handle: (nat, seq<byte>) -> bool, bodies: seq<seq<byte>>, tail: seq<byte>, n: nat)
    requires forall i :: 0 <= i < |bodies| ==> FrameBody(bodies[i])
    requires forall i, b :: handle(i, b)
    requires PartialFrame(crc, tail)
    ensures Frames(crc, handle, EncodeAll(crc, bodies) + tail, n) == (bodies, PeerGone)
  {
    if bodies == [] {
      assert EncodeAll(crc, bodies) + tail == tail;
    } else {
      var rest := EncodeAll(crc, bodies[1..]) + tail;
      Associative(EncodeEnvelope(crc, bodies[0]), EncodeAll(crc, bodies[1..]), tail);
      ReadFrameComplete(crc, bodies[0], rest);
      FramesRecovered(crc, handle, bodies[1..], tail, n + 1);
      assert bodies == [bodies[0]] + bodies[1..];
    }
  }

  /** Whatever the stream, the bodies read are the bodies of the envelopes it starts with. */
  lemma {:induction false} FramesSound(crc: Crc, handle: (nat, seq<byte>) -> bool, s: seq<byte>, n: nat)
    ensures var bodies := Frames(crc, handle, s, n).0;
            && (forall i :: 0 <= i < |bodies| ==> FrameBody(bodies[i]))
            && EncodeAll(crc, bodies) <= s
    decreases |s|
  {
    var r := ReadFrame(crc, s);
    if r.Ok? {
      var (body, rest) := r.value;
      ReadFrameSound(crc, s, body, rest);
      if handle(n, body) {
        FramesSound(crc, handle, rest, n + 1);
        var more := Frames(crc, handle, rest, n + 1).0;
        var bodies := [body] + more;
        assert bodies[1..] == more;
        assert EncodeAll(crc, bodies) == EncodeEnvelope(crc, body) + EncodeAll(crc, more);
      } else {
        assert [body][1..] == [];
        assert EncodeAll(crc, [body]) == EncodeEnvelope(crc, body) + [];
      }
    }
  }

  /**
   * Which frames a connection handles, and why it ends: the bodies of the envelopes the stream
   * starts with, up to and including the first that is not handled; otherwise all of them, and
   * then what follows is no further frame.
   */
  ghost predicate Ends(crc: Crc, handle: (nat, seq<byte>) -> bool, s: seq<byte>, n: nat, bodies: seq<seq<byte>>, close: FrameClose)
  {
    && (forall i :: 0 <= i < |bodies| ==> FrameBody(bodies[i]))
    && EncodeAll(crc, bodies) <= s
    && var rest := s[|EncodeAll(crc, bodies)|..];
       if bodies != [] && !handle(n + |bodies| - 1, bodies[|bodies| - 1])
       then close == HandlerFailed && Handled(handle, bodies, n, |bodies| - 1)
       else ReadFrame(crc, rest) == Err(close) && Handled(handle, bodies, n, |bodies|)
  }

  /** The first `k` bodies, of which the first is the n-th, were handled. */
  predicate Handled(handle: (nat, seq<byte>) -> bool, bodies: seq<seq<byte>>, n: nat, k: nat)
    requires k <= |bodies|
  {
    forall i {:trigger bodies[i]} :: 0 <= i < k ==> handle(n + i, bodies[i])
  }

  lemma HandledBehind(handle: (nat, seq<byte>) -> bool, body: seq<byte>, more: seq<seq<byte>>, n: nat, k: nat)
    requires k <= |more| && handle(n, body) && Handled(handle, more, n + 1, k)
    ensures Handled(handle, [body] + more, n, k + 1)
  {
    var bodies := [body] + more;
    forall i | 0 <= i < k + 1
      ensures handle(n + i, bodies[i])
    {
      if i > 0 {
        assert bodies[i] == more[i - 1] && n + i == n + 1 + (i - 1);
      }
    }
  }

  lemma {:induction false} FramesEnd(crc: Crc, handle: (nat, seq<byte>) -> bool, s: seq<byte>, n: nat)
    ensures Ends(crc, handle, s, n, Frames(crc, handle, s, n).0, Frames(crc, handle, s, n).1)
    decreases |s|
  {
    FramesSound(crc, handle, s, n);
    var r := ReadFrame(crc, s);
    if r.Ok? {
      var (body, rest) := r.value;
      ReadFrameSound(crc, s, body, rest);
      if handle(n, body) {
        FramesEnd(crc, handle, rest, n + 1);
        EndsBehind(crc, handle, n, body, rest, Frames(crc, handle, rest, n + 1).0, Frames(crc, handle, rest, n + 1).1);
      }
    }
  }

  lemma EndsBehind(crc: Crc, handle: (nat, seq<byte>) -> bool, n: nat, body: seq<byte>, rest: seq<byte>,
                   more: seq<seq<byte>>, close: FrameClose)
    requires FrameBody(body) && handle(n, body) && Ends(crc, handle, rest, n + 1, more, close)
    ensures Ends(crc, handle, EncodeEnvelope(crc, body) + rest, n, [body] + more, close)
  {
    var first, tail, bodies := EncodeEnvelope(crc, body), EncodeAll(crc, more), [body] + more;
    assert bodies[1..] == more;
    assert EncodeAll(crc, bodies) == first + tail;
    BothPrefixes(first, tail, rest);
    assert forall i {:trigger bodies[i]} :: 1 <= i < |bodies| ==> bodies[i] == more[i - 1];
    if more != [] && !handle(n + |more|, more[|more| - 1]) {
      HandledBehind(handle, body, more, n, |more| - 1);
    } else {
      HandledBehind(handle, body, more, n, |more|);
    }
  }

  lemma BothPrefixes(first: seq<byte>, tail: seq<byte>, rest: seq<byte>)
    requires tail <= rest
    ensures first + tail <= first + rest && (first + rest)[|first + tail|..] == rest[|tail|..]
  {
    assert rest == tail + rest[|tail|..];
  }

  /** A header of any magic, version, checksum and length, and the bytes behind it. */
  function Framed(magic: seq<byte>, version: nat, sum: nat, len: nat, rest: seq<byte>): (s: seq<byte>)
  {
    magic + (Le(version, 4) + (Le(sum, 4) + (Le(len, 4) + rest)))
  }

  lemma FramedHeader(magic: seq<byte>, version: nat, sum: nat, len: nat, rest: seq<byte>)
    requires |magic| == 4 && version < U32 && sum < U32 && len < U32
    ensures var s := Framed(magic, version, sum, len, rest);
            && |s| == 16 + |rest| && s[16..] == rest && s[..16][0..4] == magic
            && FromLe(s[..16][4..8]) == version && FromLe(s[..16][8..12]) == sum && FromLe(s[..16][12..16]) == len
  {
    Capacities();
    LeDecodes(version, 4);
    LeDecodes(sum, 4);
    LeDecodes(len, 4);
    HeaderSlices(magic, Le(version, 4), Le(sum, 4), Le(len, 4), rest);
  }

  lemma HeaderSlices(a: seq<byte>, b: seq<byte>, c: seq<byte>, d: seq<byte>, rest: seq<byte>)
    requires |a| == |b| == |c| == |d| == 4
    ensures var s := a + (b + (c + (d + rest)));
            && s[16..] == rest
            && s[..16][0..4] == a && s[..16][4..8] == b && s[..16][8..12] == c && s[..16][12..16] == d
  {
  }

  /** What is made of a frame, in the order of the tests: magic, version, limit, bytes, checksum. */
  lemma FrameVerdict(crc: Crc, magic: seq<byte>, version: nat, sum: nat, len: nat, rest: seq<byte>)
    requires |magic| == 4 && version < U32 && sum < U32 && len < U32
    ensures ReadFrame(crc, Framed(magic, version, sum, len, rest)) ==
            if magic != Ascii("WMBT") then Err(BadEnvelope(BadMagic(magic)))
            else if version != 1 then Err(BadEnvelope(BadVersion(version, 1)))
            else if len > 256 * 1024 * 1024 then Err(FrameTooLarge(len))
            else if |rest| < len then Err(PeerGone)
            else if crc(rest[..len]) != sum then Err(BadEnvelope(BadCrc(sum, crc(rest[..len]))))
            else Ok((rest[..len], rest[len..]))
  {
    MagicIs();
    FramedHeader(magic, version, sum, len, rest);
  }

  /** And of a whole buffer, which must end with the body. */
  lemma BufferVerdict(crc: Crc, magic: seq<byte>, version: nat, sum: nat, len: nat, rest: seq<byte>)
    requires |magic| == 4 && version < U32 && sum < U32 && len < U32
    ensures DecodeEnvelope(crc, Framed(magic, version, sum, len, rest)) ==
            if magic != Ascii("WMBT") then Err(BadMagic(magic))
            else if version != 1 then Err(BadVersion(version, 1))
            else if |rest| != len then Err(BadLength(len, |rest|))
            else if crc(rest) != sum then Err(BadCrc(sum, crc(rest)))
            else Ok(rest)
  {
    MagicIs();
    FramedHeader(magic, version, sum, len, rest);
  }

  lemma MagicIs()
    ensures Ascii("WMBT") == WIRE_ENVELOPE_MAGIC
  {
  }

  /** Every stream of at least a header is framed one way, and shorter ones are no frame. */
  lemma EveryStreamIsFramed(crc: Crc, s: seq<byte>) returns (version: nat, sum: nat, len: nat)
    ensures |s| < 16 ==> ReadFrame(crc, s) == Err(PeerGone) && DecodeEnvelope(crc, s) == Err(TooShort(|s|, 16))
    ensures |s| >= 16 ==> version < U32 && sum < U32 && len < U32 && s == Framed(s[..4], version, sum, len, s[16..])
  {
    version, sum, len := 0, 0, 0;
    if |s| >= 16 {
      Capacities();
      var v, c, l := s[4..8], s[8..12], s[12..16];
      version, sum, len := FromLe(v), FromLe(c), FromLe(l);
      FromLeBound(v);
      FromLeBound(c);
      FromLeBound(l);
      LeEncodes(v);
      LeEncodes(c);
      LeEncodes(l);
      assert s == s[..4] + (v + (c + (l + s[16..])));
    }
  }

  /** The read side of `handle_compio_connection_bridge`: header, bound, body, checksum. */
  method ReadFrames(crc: Crc, handle: (nat, seq<byte>) -> bool, stream: seq<byte>, fault: bool)
    returns (bodies: seq<seq<byte>>, close: FrameClose)
    ensures bodies == Frames(crc, handle, stream, 0).0
    ensures close == if fault && Frames(crc, handle, stream, 0).1 == PeerGone then ReadFault else Frames(crc, handle, stream, 0).1
    ensures Ends(crc, handle, stream, 0, bodies, if close == ReadFault then PeerGone else close)
  {
    FramesEnd(crc, handle, stream, 0);
    NeverFaults(crc, handle, stream, 0);
    bodies := [];
    var s := stream;
    assert bodies + Frames(crc, handle, s, 0).0 == Frames(crc, handle, s, 0).0;
    while true
      invariant Resumes(crc, handle, stream, bodies, s)
      decreases |s|
    {
      ghost var front := s;
      assert bodies + [] == bodies;
      if |s| < WIRE_ENVELOPE_BYTES {
        return bodies, if fault then ReadFault else PeerGone;
      }
      var header := DecodeHeader(s[..WIRE_ENVELOPE_BYTES]);
      if header.Err? {
        return bodies, BadEnvelope(header.error);
      }
      var len := header.value.len;
      if len > MAX_FRAME_BYTES {
        return bodies, FrameTooLarge(len);
      }
      s := s[WIRE_ENVELOPE_BYTES..];
      if |s| < len {
        return bodies, if fault then ReadFault else PeerGone;
      }
      var body := s[..len];
      var verdict := VerifyCrc(crc, header.value, body);
      if verdict.Err? {
        return bodies, BadEnvelope(verdict.error);
      }
      var ok := handle(|bodies|, body);
      if !ok {
        return bodies + [body], HandlerFailed;
      }
      s := s[len..];
      ResumesNext(crc, handle, stream, bodies, front, body, s);
      bodies := bodies + [body];
    }
  }

  lemma {:induction false} NeverFaults(crc: Crc, handle: (nat, seq<byte>) -> bool, s: seq<byte>, n: nat)
    ensures Frames(crc, handle, s, n).1 != ReadFault
    decreases |s|
  {
    var r := ReadFrame(crc, s);
    if r.Ok? && handle(n, r.value.0) {
      NeverFaults(crc, handle, r.value.1, n + 1);
    }
  }

  /** With `bodies` read and `s` still to come, the loop is on its way to the frames of the stream. */
  ghost predicate Resumes(crc: Crc, handle: (nat, seq<byte>) -> bool, stream: seq<byte>, bodies: seq<seq<byte>>, s: seq<byte>)
  {
    var rest := Frames(crc, handle, s, |bodies|);
    Frames(crc, handle, stream, 0) == (bodies + rest.0, rest.1)
  }

  lemma ResumesNext(crc: Crc, handle: (nat, seq<byte>) -> bool, stream: seq<byte>, bodies: seq<seq<byte>>, s: seq<byte>, body: seq<byte>, rest: seq<byte>)
    requires Resumes(crc, handle, stream, bodies, s)
    requires ReadFrame(crc, s) == Ok((body, rest)) && handle(|bodies|, body)
    ensures Resumes(crc, handle, stream, bodies + [body], rest)
  {
    var more := Frames(crc, handle, rest, |bodies| + 1);
    assert bodies + ([body] + more.0) == (bodies + [body]) + more.0;
  }
}
