/**
 The keep-alive loop against Content-Length framing (sections 6.2 and 9.3 of RFC 9112).  The
 loop takes the declared body only for the RPC route: behind a ping or an unknown route it goes
 on right after the head.  `Reference` takes the declared body of every request before it goes
 on to the next one.
 */
module HttpFraming {
  import opened Bytes
  import opened HttpKeepAlive

  // ---- the reference parser --------------------------------------------------

  function Declared(head: RequestHead): (len: nat)
  {
    match head.contentLength
    case None => 0
    case Some(len) => len
  }

  /** A body is declared, and the loop will not take it. */
  predicate Overlooked(head: RequestHead) { !IsRpc(head) && Declared(head) > 0 }

  /** Ping and unknown routes are answered from the head alone; what they declare is skipped if the connection goes on. */
  function ReferenceBody(srv: Server, ending: Ending, head: seq<byte>, s: seq<byte>, at: nat, n: nat): (r: Round<nat>)
    requires at <= |s|
    ensures r.Next? ==> at <= r.from <= |s|
  {
    match srv.parse(head)
    case None => Stop([], BadHead)
    case Some(head) =>
      var len := Declared(head);
      if IsRpc(head) then
        if head.contentLength.None? then Stop([], LengthRequired)
        else if len > MAX_BODY_BYTES then Stop([], BodyTooLarge)
        else if |s| - at < len then Stop([], EndInBody(ending))
        else
          var body := s[at..at + len];
          if !srv.handle(n, head, body) then Stop([Request(head, body, None)], HandlerFailed)
          else if !head.keepAlive then Stop([Request(head, body, None)], NotKeptAlive)
          else Next(Request(head, body, Some(|s| - at - len)), at + len)
      else
        if !srv.handle(n, head, []) then Stop([Request(head, [], None)], HandlerFailed)
        else if !head.keepAlive then Stop([Request(head, [], None)], NotKeptAlive)
        else if |s| - at < len then Stop([Request(head, [], None)], EndInBody(ending))
        else Next(Request(head, [], Some(|s| - at - len)), at + len)
  }

  function ReferenceOne(srv: Server, ending: Ending, s: seq<byte>, n: nat): (r: Round<nat>)
    ensures r.Next? ==> 4 <= r.from <= |s|
  {
    match FindDoubleCrlf(s)
    case None => Stop([], if |s| > MAX_HEAD_BYTES then HeadTooLong else EndInHead(ending))
    case Some(p) =>
      if p + 4 > MAX_HEAD_BYTES + 1 then Stop([], HeadTooLong)
      else ReferenceBody(srv, ending, s[..p], s, p + 4, n)
  }

  /** Requests, where each of them ends, and why the connection does. */
  function Reference(srv: Server, ending: Ending, s: seq<byte>, n: nat): (r: (seq<Request>, Close))
    decreases |s|
  {
    match ReferenceOne(srv, ending, s, n)
    case Stop(handled, close) => (handled, close)
    case Next(req, from) =>
      var rest := Reference(srv, ending, s[from..], n + 1);
      ([req] + rest.0, rest.1)
  }

  // ---- when the two parsers agree ----------------------------------------------

  /** No request behind which the connection goes on has a body that the loop does not take. */
  predicate NoneOverlooked(srv: Server, ending: Ending, s: seq<byte>, n: nat)
    decreases |s|
  {
    match ParseOne(srv, ending, s, n)
    case Stop(_, _) => true
    case Next(req, from) => !Overlooked(req.head) && NoneOverlooked(srv, ending, s[from..], n + 1)
  }

  /** One request: the same, unless it goes on behind an overlooked body. */
  lemma SameUnlessOverlooked(srv: Server, ending: Ending, s: seq<byte>, n: nat)
    ensures var got, want := ParseOne(srv, ending, s, n), ReferenceOne(srv, ending, s, n);
            if got.Next? && Overlooked(got.req.head)
            then want.Next? ==> want.req != got.req
            else want == got
    ensures var got, want := ParseOne(srv, ending, s, n), ReferenceOne(srv, ending, s, n);
            got.Next? && Overlooked(got.req.head) && want.Stop? ==> want.handled != [] && want.handled[0] != got.req
  {
    var at := FindDoubleCrlf(s);
    if at.Some? {
      var parsed := srv.parse(s[..at.value]);
      if parsed.Some? && !IsRpc(parsed.value) {
        assert s[at.value + 4..at.value + 4] == [];
      }
    }
  }

  lemma {:induction false} ReferenceIff(srv: Server, ending: Ending, s: seq<byte>, n: nat)
    ensures Parse(srv, ending, s, n) == Reference(srv, ending, s, n) <==> NoneOverlooked(srv, ending, s, n)
    decreases |s|
  {
    SameUnlessOverlooked(srv, ending, s, n);
    match ParseOne(srv, ending, s, n)
    case Stop(_, _) =>
    case Next(req, from) =>
      if Overlooked(req.head) {
        assert Parse(srv, ending, s, n).0[0] == req;
        assert Reference(srv, ending, s, n).0[0] != req;
      } else {
        ReferenceIff(srv, ending, s[from..], n + 1);
        SameTail(req, Parse(srv, ending, s[from..], n + 1), Reference(srv, ending, s[from..], n + 1));
      }
  }

  // ---- the loop, read byte by byte, is the parser ------------------------------

  /** Read byte by byte, a head over the limit is refused. */
  lemma {:induction false} BytewiseTooLong(k: nat, buf: seq<byte>, sock: Socket, p: nat)
    requires FindDoubleCrlf(buf + sock.rest) == Some(p) && p + 4 > MAX_HEAD_BYTES + 1
    requires |buf| <= MAX_HEAD_BYTES + 1 && sock.turn + (MAX_HEAD_BYTES + 1 - |buf|) <= k
    ensures ReadHead(JumpAt(k), buf, sock).outcome == TooLong
    decreases MAX_HEAD_BYTES + 1 - |buf|
  {
    FindInBuffer(buf, sock.rest);
    if |buf| <= MAX_HEAD_BYTES {
      OneByte(buf, sock, k, READ_BYTES);
      BytewiseTooLong(k, buf + [sock.rest[0]], Socket(sock.rest[1..], sock.turn + 1), p);
    }
  }

  lemma BytewiseStops(srv: Server, ending: Ending, k: nat, s: seq<byte>, turn: nat, n: nat)
    requires turn + |s| <= k && ParseOne(srv, ending, s, n).Stop?
    ensures Serve(srv, ending, JumpAt(k), [], Socket(s, turn), n) == Parse(srv, ending, s, n)
  {
    assert [] + s == s;
    if HeadClear(s) {
      ServeOneIsParseOne(srv, ending, JumpAt(k), [], Socket(s, turn), n);
    } else {
      BytewiseTooLong(k, [], Socket(s, turn), FindDoubleCrlf(s).value);
    }
  }

  lemma {:induction false} BytewiseIsParse(srv: Server, ending: Ending, k: nat, s: seq<byte>, turn: nat, n: nat)
    requires turn + |s| <= k
    ensures Serve(srv, ending, JumpAt(k), [], Socket(s, turn), n) == Parse(srv, ending, s, n)
    decreases |s|
  {
    if ParseOne(srv, ending, s, n).Stop? {
      BytewiseStops(srv, ending, k, s, turn, n);
    } else {
      var Next(req, from) := ParseOne(srv, ending, s, n);
      BytewiseIsParse(srv, ending, k, s[from..], turn + from, n + 1);
      var rounds := TheseAreRounds(srv, ending, JumpAt(k));
      BytewiseRound(srv, ending, k, rounds, s, turn, n);
      AgreesAfter(rounds, Socket(s, turn), n, req, Socket(s[from..], turn + from));
    }
  }

  lemma AgreesAfter(rounds: Rounds, sock: Socket, n: nat, req: Request, next: Socket)
    requires rounds.Unroll() && rounds.one([], sock, n) == Next(req, ([], next))
    ensures rounds.all([], sock, n) == ([req] + rounds.all([], next, n + 1).0, rounds.all([], next, n + 1).1)
  {
  }

  /**
   The loop handles the requests that Content-Length framing delimits, under every split of the
   stream into reads, exactly when no head is borderline and no ping or unknown-route request
   behind which the connection goes on declares a body.
   */
  lemma LoopIsReferenceIff(srv: Server, ending: Ending, stream: seq<byte>)
    ensures (forall split :: Serve(srv, ending, split, [], Socket(stream, 0), 0) == Reference(srv, ending, stream, 0))
       <==> Clear(srv, ending, stream, 0) && NoneOverlooked(srv, ending, stream, 0)
  {
    ReferenceIff(srv, ending, stream, 0);
    SplitIndependentIff(srv, ending, stream);
    BytewiseIsParse(srv, ending, |stream|, stream, 0, 0);
  }

  // ---- streams on which it fails -------------------------------------------------

  /** No line feed of `h` is followed by a carriage return, and none ends it. */
  predicate Plain(h: seq<byte>)
  {
    (forall i {:trigger h[i]} :: 0 <= i < |h| - 1 && h[i] == 10 ==> h[i + 1] != 13) && (h != [] ==> h[|h| - 1] != 10)
  }

  lemma HeadEnds(h: seq<byte>, rest: seq<byte>)
    requires Plain(h)
    ensures FindDoubleCrlf(h + (DOUBLE_CRLF + rest)) == Some(|h|)
  {
    var s := h + (DOUBLE_CRLF + rest);
    FindsFirst(s, 0);
    assert s[|h|..|h| + 4] == DOUBLE_CRLF;
    assert CrlfAt(s, |h|);
    forall j | 0 <= j < |h|
      ensures !CrlfAt(s, j)
    {
      NotYet(h, rest, j);
    }
  }

  lemma NotYet(h: seq<byte>, rest: seq<byte>, j: nat)
    requires Plain(h) && j < |h|
    ensures !CrlfAt(h + (DOUBLE_CRLF + rest), j)
  {
    var s := h + (DOUBLE_CRLF + rest);
    CrlfMeans(s, j);
    if j + 2 < |h| {
      assert s[j + 1] == h[j + 1] && s[j + 2] == h[j + 2];
    } else if j + 1 < |h| {
      assert s[j + 1] == h[|h| - 1];
    } else {
      assert s[j + 1] == 13;
    }
  }

  lemma CrlfMeans(s: seq<byte>, j: nat)
    ensures CrlfAt(s, j) ==> j + 4 <= |s| && s[j + 1] == 10 && s[j + 2] == 13
  {
    if CrlfAt(s, j) {
      assert s[j + 1] == s[j..j + 4][1] && s[j + 2] == s[j..j + 4][2];
    }
  }

  /** A head that is answered without its body, behind which the connection goes on. */
  predicate GoesOn(srv: Server, a: seq<byte>, n: nat, len: nat)
  {
    && Plain(a) && |a| + 4 <= MAX_HEAD_BYTES
    && srv.parse(a).Some? && !IsRpc(srv.parse(a).value) && srv.parse(a).value.keepAlive
    && Declared(srv.parse(a).value) == len && srv.handle(n, srv.parse(a).value, [])
  }

  lemma LoopGoesOn(srv: Server, ending: Ending, a: seq<byte>, rest: seq<byte>, n: nat, len: nat)
    requires GoesOn(srv, a, n, len)
    ensures var s := a + (DOUBLE_CRLF + rest);
            && HeadClear(s) && s[|a| + 4..] == rest
            && ParseOne(srv, ending, s, n) == Next(Request(srv.parse(a).value, [], Some(|rest|)), |a| + 4)
  {
    var s := a + (DOUBLE_CRLF + rest);
    HeadEnds(a, rest);
    assert s[..|a|] == a && s[|a| + 4..|a| + 4] == [];
    assert s[|a| + 4..] == rest;
  }

  lemma ReferenceGoesOn(srv: Server, ending: Ending, a: seq<byte>, rest: seq<byte>, n: nat, len: nat)
    requires GoesOn(srv, a, n, len) && len <= |rest|
    ensures var s := a + (DOUBLE_CRLF + rest);
            && s[|a| + 4 + len..] == rest[len..]
            && ReferenceOne(srv, ending, s, n) == Next(Request(srv.parse(a).value, [], Some(|rest| - len)), |a| + 4 + len)
  {
    var s := a + (DOUBLE_CRLF + rest);
    HeadEnds(a, rest);
    assert s[..|a|] == a;
    assert s[|a| + 4..] == rest;
  }

  lemma NothingLeft(srv: Server, ending: Ending, n: nat)
    ensures FindDoubleCrlf([]) == None
    ensures Clear(srv, ending, [], n) && Parse(srv, ending, [], n).0 == [] && Reference(srv, ending, [], n).0 == []
  {
  }

  lemma LoopHandlesTail(srv: Server, ending: Ending, b: seq<byte>, n: nat, len: nat)
    requires GoesOn(srv, b, n, len)
    ensures var tail := b + (DOUBLE_CRLF + []); Clear(srv, ending, tail, n) && |Parse(srv, ending, tail, n).0| == 1
  {
    LoopGoesOn(srv, ending, b, [], n, len);
    NothingLeft(srv, ending, n + 1);
  }

  /**
   The body of a ping or an unknown route is taken for a request of its own: whatever the split,
   two requests are handled where Content-Length delimits one.
   */
  lemma BodyBecomesRequest(srv: Server, ending: Ending, a: seq<byte>, b: seq<byte>, len: nat, split: nat -> nat)
    requires GoesOn(srv, a, 0, |b| + 4) && GoesOn(srv, b, 1, len)
    ensures var stream := a + (DOUBLE_CRLF + (b + (DOUBLE_CRLF + [])));
            && |Reference(srv, ending, stream, 0).0| == 1
            && |Serve(srv, ending, split, [], Socket(stream, 0), 0).0| == 2
  {
    var tail := b + (DOUBLE_CRLF + []);
    var stream := a + (DOUBLE_CRLF + tail);
    ReferenceGoesOn(srv, ending, a, tail, 0, |b| + 4);
    assert tail[|b| + 4..] == [];
    NothingLeft(srv, ending, 1);
    LoopGoesOn(srv, ending, a, tail, 0, |b| + 4);
    LoopHandlesTail(srv, ending, b, 1, len);
    assert [] + stream == stream;
    ServeIsParse(srv, ending, split, [], Socket(stream, 0), 0);
  }

  // ---- two concrete streams --------------------------------------------------------

  const UPLOAD_HEAD: seq<byte> := Ascii("POST /x HTTP/1.1") + [13, 10] + Ascii("Content-Length: 30")
  const PING_HEAD: seq<byte> := Ascii("GET /wmbt/v1/ping HTTP/1.1")

  /** A server whose head parser knows these two heads, and whose answers all go out. */
  const TWO_HEADS: Server := Server(
    (head: seq<byte>) =>
      if head == UPLOAD_HEAD then Some(RequestHead(POST, Ascii("/x"), Some(30), true))
      else if head == PING_HEAD then Some(RequestHead(GET, PING_PATH, None, true))
      else None,
    (n: nat, head: RequestHead, body: seq<byte>) => true)

  lemma HeadsArePlain()
    ensures Plain(UPLOAD_HEAD) && Plain(PING_HEAD) && UPLOAD_HEAD != PING_HEAD && |PING_HEAD| == 26
  {
    var line, header := Ascii("POST /x HTTP/1.1"), Ascii("Content-Length: 30");
    assert forall i {:trigger "POST /x HTTP/1.1"[i]} :: 0 <= i < 16 ==> "POST /x HTTP/1.1"[i] as int != 10;
    assert forall i {:trigger "Content-Length: 30"[i]} :: 0 <= i < 18 ==> "Content-Length: 30"[i] as int != 10;
    assert forall i {:trigger "GET /wmbt/v1/ping HTTP/1.1"[i]} :: 0 <= i < 26 ==> "GET /wmbt/v1/ping HTTP/1.1"[i] as int != 10;
    assert forall i :: 0 <= i < 16 ==> line[i] != 10;
    assert forall i :: 0 <= i < 18 ==> header[i] != 10;
    assert UPLOAD_HEAD[18] == header[0] == 67;
    assert |UPLOAD_HEAD| == 36;
  }

  /** An unknown route with a ping request as its body: the loop answers the ping. */
  lemma PingInsideUpload(ending: Ending, split: nat -> nat)
    ensures var stream := UPLOAD_HEAD + (DOUBLE_CRLF + (PING_HEAD + (DOUBLE_CRLF + [])));
            && |Reference(TWO_HEADS, ending, stream, 0).0| == 1
            && |Serve(TWO_HEADS, ending, split, [], Socket(stream, 0), 0).0| == 2
  {
    HeadsArePlain();
    BodyBecomesRequest(TWO_HEADS, ending, UPLOAD_HEAD, PING_HEAD, 0, split);
  }

  /** A head of exactly the limit before its terminator: refused byte by byte, taken when the last read is large. */
  lemma HeadAtTheLimit(srv: Server, ending: Ending)
    ensures var stream := seq(MAX_HEAD_BYTES, _ => 97) + (DOUBLE_CRLF + []);
            && !Clear(srv, ending, stream, 0)
            && Serve(srv, ending, JumpAt(|stream|), [], Socket(stream, 0), 0) == ([], HeadTooLong)
            && Serve(srv, ending, JumpAt(MAX_HEAD_BYTES), [], Socket(stream, 0), 0) != ([], HeadTooLong)
  {
    var head: seq<byte> := seq(MAX_HEAD_BYTES, _ => 97);
    var stream := head + (DOUBLE_CRLF + []);
    HeadEnds(head, []);
    BytewiseIsParse(srv, ending, |stream|, stream, 0, 0);
    var k := JumpDisagrees(srv, ending, stream, 0, 0);
  }
}
