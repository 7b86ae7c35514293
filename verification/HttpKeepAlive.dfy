/**
 The HTTP keep-alive accumulator (http_transport.rs): one buffer, extended by socket
 reads of whatever size the peer and the kernel choose, drained request by request.

 `Parse` is a pure parser of the whole byte stream.  `Serve` is the accumulator, for one
 way of splitting the stream into reads.  The head parser and the request handler are
 parameters: nothing here depends on them.
 */
module HttpKeepAlive {
  import opened Bytes

  const MAX_HEAD_BYTES: nat := 16 * 1024
  const MAX_BODY_BYTES: nat := 256 * 1024 * 1024
  const READ_BYTES: nat := 4096

  const RPC_PATH: seq<byte> := Ascii("/wmbt/v1/rpc")
  const PING_PATH: seq<byte> := Ascii("/wmbt/v1/ping")
  const GET: seq<byte> := Ascii("GET")
  const POST: seq<byte> := Ascii("POST")
  const DOUBLE_CRLF: seq<byte> := [13, 10, 13, 10]

  datatype RequestHead = RequestHead(verb: seq<byte>, path: seq<byte>, contentLength: Option<nat>, keepAlive: bool)

  /** A handled request; `left` is how much of the stream is behind it when the loop goes on, and none when it is the last. */
  datatype Request = Request(head: RequestHead, body: seq<byte>, left: Option<nat>)

  /** How the socket ends once every byte has been read. */
  datatype Ending = Eof | Disconnect | Fault

  /** Why the connection loop returned. */
  datatype Close =
    | PeerGone
    | HeadTooLong
    | BadHead
    | LengthRequired
    | BodyTooLarge
    | PeerClosedMidBody
    | ReadFault
    | HandlerFailed
    | NotKeptAlive

  /** The head parser, and whether the n-th request is decoded, dispatched and answered without error. */
  datatype Server = Server(parse: seq<byte> -> Option<RequestHead>, handle: (nat, RequestHead, seq<byte>) -> bool)

  function EndInHead(ending: Ending): (c: Close)
  {
    if ending.Fault? then ReadFault else PeerGone
  }

  function EndInBody(ending: Ending): (c: Close)
  {
    match ending
    case Eof => PeerClosedMidBody
    case Disconnect => PeerGone
    case Fault => ReadFault
  }

  predicate IsRpc(head: RequestHead) { head.verb == POST && head.path == RPC_PATH }

  /** How many body bytes the loop takes for a request: none for ping and unknown routes. */
  function Framing(head: RequestHead): (r: Result<nat, Close>)
  {
    if head.verb == GET && head.path == PING_PATH then Ok(0)
    else if !IsRpc(head) then Ok(0)
    else match head.contentLength
         case None => Err(LengthRequired)
         case Some(len) => if len > MAX_BODY_BYTES then Err(BodyTooLarge) else Ok(len)
  }

  // ---- the head terminator ---------------------------------------------

  predicate CrlfAt(s: seq<byte>, i: nat) { i + 4 <= |s| && s[i..i + 4] == DOUBLE_CRLF }

  /** `find_double_crlf`, from index `i` on. */
  function FindFrom(s: seq<byte>, i: nat): (r: Option<nat>)
    ensures r.Some? ==> r.value + 4 <= |s|
    decreases |s| - i
  {
    if i + 4 > |s| then None
    else if CrlfAt(s, i) then Some(i)
    else FindFrom(s, i + 1)
  }

  function FindDoubleCrlf(s: seq<byte>): (r: Option<nat>)
    ensures r.Some? ==> r.value + 4 <= |s|
  {
    FindFrom(s, 0)
  }

  /** The first place where the terminator stands, if any. */
  lemma {:induction false} FindsFirst(s: seq<byte>, i: nat)
    ensures match FindFrom(s, i)
            case None => forall j {:trigger CrlfAt(s, j)} :: i <= j ==> !CrlfAt(s, j)
            case Some(p) => i <= p && CrlfAt(s, p) && forall j {:trigger CrlfAt(s, j)} :: i <= j < p ==> !CrlfAt(s, j)
    decreases |s| - i
  {
    if i + 4 <= |s| && !CrlfAt(s, i) {
      FindsFirst(s, i + 1);
    }
  }

  /** What a prefix of the stream knows about the first terminator. */
  lemma FindInPrefix(s: seq<byte>, n: nat)
    requires n <= |s|
    ensures FindDoubleCrlf(s[..n]) ==
            match FindDoubleCrlf(s)
            case None => None
            case Some(p) => if p + 4 <= n then Some(p) else None
  {
    forall j: nat
      ensures CrlfAt(s[..n], j) <==> CrlfAt(s, j) && j + 4 <= n
    {
      if j + 4 <= n {
        assert s[..n][j..j + 4] == s[j..j + 4];
      }
    }
    FindsFirst(s, 0);
    FindsFirst(s[..n], 0);
  }

  // ---- the specification: a pure parser of the whole stream --------------

  /** What one round of the loop does: stop, or handle `req` and go on behind it. */
  datatype Round<T> = Stop(handled: seq<Request>, close: Close) | Next(req: Request, from: T)

  /** The end of a round, once the request is complete. */
  function Settle<T>(srv: Server, n: nat, head: RequestHead, body: seq<byte>, left: nat, from: T): (r: Round<T>)
  {
    if !srv.handle(n, head, body) then Stop([Request(head, body, None)], HandlerFailed)
    else if !head.keepAlive then Stop([Request(head, body, None)], NotKeptAlive)
    else Next(Request(head, body, Some(left)), from)
  }

  /** The n-th request, whose head is `head` and whose body starts at `at`. */
  function ParseBody(srv: Server, ending: Ending, head: seq<byte>, s: seq<byte>, at: nat, n: nat): (r: Round<nat>)
    requires at <= |s|
    ensures r.Next? ==> at <= r.from <= |s|
  {
    match srv.parse(head)
    case None => Stop([], BadHead)
    case Some(head) =>
      match Framing(head)
      case Err(c) => Stop([], c)
      case Ok(len) =>
        if |s| - at < len then Stop([], EndInBody(ending))
        else Settle(srv, n, head, s[at..at + len], |s| - at - len, at + len)
  }

  /** The n-th request, at the front of `s`; `from` is where the next one starts. */
  function ParseOne(srv: Server, ending: Ending, s: seq<byte>, n: nat): (r: Round<nat>)
    ensures r.Next? ==> 4 <= r.from <= |s|
  {
    match FindDoubleCrlf(s)
    case None => Stop([], if |s| > MAX_HEAD_BYTES then HeadTooLong else EndInHead(ending))
    case Some(p) =>
      if p + 4 > MAX_HEAD_BYTES + 1 then Stop([], HeadTooLong)
      else ParseBody(srv, ending, s[..p], s, p + 4, n)
  }

  /** All requests in `s`, the first of which is the n-th, and the reason for stopping. */
  function Parse(srv: Server, ending: Ending, s: seq<byte>, n: nat): (r: (seq<Request>, Close))
    decreases |s|
  {
    match ParseOne(srv, ending, s, n)
    case Stop(handled, close) => (handled, close)
    case Next(req, from) =>
      var rest := Parse(srv, ending, s[from..], n + 1);
      ([req] + rest.0, rest.1)
  }

  /** A head is accepted or refused whatever the reads, unless it ends in this window. */
  predicate Borderline(end: nat) { MAX_HEAD_BYTES + 1 < end <= MAX_HEAD_BYTES + READ_BYTES }

  predicate HeadClear(s: seq<byte>)
  {
    FindDoubleCrlf(s).Some? ==> !Borderline(FindDoubleCrlf(s).value + 4)
  }

  /** No head that the parser reaches is borderline. */
  predicate Clear(srv: Server, ending: Ending, s: seq<byte>, n: nat)
    decreases |s|
  {
    && HeadClear(s)
    && match ParseOne(srv, ending, s, n)
       case Stop(_, _) => true
       case Next(_, from) => Clear(srv, ending, s[from..], n + 1)
  }

  // ---- the socket ------------------------------------------------------

  /** The bytes still to be read, and the number of reads so far. */
  datatype Socket = Socket(rest: seq<byte>, turn: nat)

  /** Size of the next read into a buffer of `cap` bytes: at least one byte, as the peer likes. */
  function ReadSize(sock: Socket, split: nat -> nat, cap: nat): (n: nat)
    requires sock.rest != [] && cap > 0
    ensures 1 <= n <= cap && n <= |sock.rest|
    ensures split(sock.turn) == 1 ==> n == 1
  {
    var want := if split(sock.turn) < 1 then 1 else split(sock.turn);
    var most := if cap < |sock.rest| then cap else |sock.rest|;
    if want < most then want else most
  }

  function Advance(sock: Socket, n: nat): (r: Socket)
    requires n <= |sock.rest|
  {
    Socket(sock.rest[n..], sock.turn + 1)
  }

  datatype HeadOutcome = Found(bodyStart: nat) | TooLong | Ended

  datatype HeadRead = HeadRead(buf: seq<byte>, sock: Socket, outcome: HeadOutcome)

  /** `read_compio_until_double_crlf` */
  function ReadHead(split: nat -> nat, buf: seq<byte>, sock: Socket): (r: HeadRead)
    ensures |r.buf| + |r.sock.rest| == |buf| + |sock.rest|
    ensures r.outcome.Found? ==> 4 <= r.outcome.bodyStart <= |r.buf|
    decreases |sock.rest|
  {
    match FindDoubleCrlf(buf)
    case Some(p) => HeadRead(buf, sock, Found(p + 4))
    case None =>
      if |buf| > MAX_HEAD_BYTES then HeadRead(buf, sock, TooLong)
      else if sock.rest == [] then HeadRead(buf, sock, Ended)
      else
        var n := ReadSize(sock, split, READ_BYTES);
        ReadHead(split, buf + sock.rest[..n], Advance(sock, n))
  }

  datatype BodyRead = BodyRead(buf: seq<byte>, sock: Socket, complete: bool)

  function BodyCap(missing: nat): (cap: nat)
    ensures cap <= missing && cap <= 4096 && (cap == missing || cap == 4096)
  {
    if missing < READ_BYTES then missing else READ_BYTES
  }

  /** The body loop of `process_compio_http_route`: never reads past the body. */
  function ReadBody(split: nat -> nat, len: nat, buf: seq<byte>, sock: Socket): (r: BodyRead)
    ensures |r.buf| + |r.sock.rest| == |buf| + |sock.rest|
    ensures r.complete ==> len <= |r.buf|
    decreases |sock.rest|
  {
    if |buf| >= len then BodyRead(buf, sock, true)
    else if sock.rest == [] then BodyRead(buf, sock, false)
    else
      var n := ReadSize(sock, split, BodyCap(len - |buf|));
      ReadBody(split, len, buf + sock.rest[..n], Advance(sock, n))
  }

  /** `process_compio_http_route`, with `buf` drained up to the body. */
  function ServeBody(srv: Server, ending: Ending, split: nat -> nat, head: seq<byte>, buf: seq<byte>, sock: Socket, n: nat): (r: Round<(seq<byte>, Socket)>)
    ensures r.Next? ==> |r.from.0| + |r.from.1.rest| <= |buf| + |sock.rest|
  {
    match srv.parse(head)
    case None => Stop([], BadHead)
    case Some(head) =>
      match Framing(head)
      case Err(c) => Stop([], c)
      case Ok(len) =>
        var b := ReadBody(split, len, buf, sock);
        if !b.complete then Stop([], EndInBody(ending))
        else Settle(srv, n, head, b.buf[..len], |b.buf| - len + |b.sock.rest|, (b.buf[len..], b.sock))
  }

  /** One round of `handle_compio_http_connection_bridge`. */
  function ServeOne(srv: Server, ending: Ending, split: nat -> nat, buf: seq<byte>, sock: Socket, n: nat): (r: Round<(seq<byte>, Socket)>)
    ensures r.Next? ==> |r.from.0| + |r.from.1.rest| < |buf| + |sock.rest|
  {
    var h := ReadHead(split, buf, sock);
    match h.outcome
    case TooLong => Stop([], HeadTooLong)
    case Ended => Stop([], EndInHead(ending))
    case Found(bodyStart) =>
      ServeBody(srv, ending, split, h.buf[..bodyStart - 4], h.buf[bodyStart..], h.sock, n)
  }

  /** The whole loop. */
  function Serve(srv: Server, ending: Ending, split: nat -> nat, buf: seq<byte>, sock: Socket, n: nat): (r: (seq<Request>, Close))
    decreases |buf| + |sock.rest|
  {
    match ServeOne(srv, ending, split, buf, sock, n)
    case Stop(handled, close) => (handled, close)
    case Next(req, from) =>
      var rest := Serve(srv, ending, split, from.0, from.1, n + 1);
      ([req] + rest.0, rest.1)
  }

  // ---- the accumulator equals the parser --------------------------------

  /** A read moves bytes from the socket to the buffer and changes nothing else. */
  lemma ReadMoves(buf: seq<byte>, sock: Socket, n: nat)
    requires n <= |sock.rest|
    ensures (buf + sock.rest[..n]) + Advance(sock, n).rest == buf + sock.rest
  {
    assert sock.rest[..n] + sock.rest[n..] == sock.rest;
  }

  /** `FindInPrefix`, for the buffer as a prefix of what is still to be handled. */
  lemma FindInBuffer(buf: seq<byte>, rest: seq<byte>)
    ensures FindDoubleCrlf(buf) ==
            match FindDoubleCrlf(buf + rest)
            case None => None
            case Some(p) => if p + 4 <= |buf| then Some(p) else None
  {
    FindInPrefix(buf + rest, |buf|);
    assert (buf + rest)[..|buf|] == buf;
  }

  /** What a head read must answer when `s` is buffer and socket together. */
  ghost predicate HeadAnswer(s: seq<byte>, outcome: HeadOutcome)
  {
    match FindDoubleCrlf(s)
    case None => outcome == if |s| > MAX_HEAD_BYTES then TooLong else Ended
    case Some(p) => Borderline(p + 4) || outcome == if p + 4 > MAX_HEAD_BYTES + 1 then TooLong else Found(p + 4)
  }

  lemma {:induction false} ReadHeadFinds(split: nat -> nat, buf: seq<byte>, sock: Socket)
    requires |buf| <= MAX_HEAD_BYTES + READ_BYTES
    ensures var r := ReadHead(split, buf, sock);
            && r.buf + r.sock.rest == buf + sock.rest
            && |r.buf| <= MAX_HEAD_BYTES + READ_BYTES
            && HeadAnswer(buf + sock.rest, r.outcome)
    decreases |sock.rest|
  {
    FindInBuffer(buf, sock.rest);
    if FindDoubleCrlf(buf).None? && |buf| <= MAX_HEAD_BYTES && sock.rest != [] {
      var n := ReadSize(sock, split, READ_BYTES);
      ReadMoves(buf, sock, n);
      ReadHeadFinds(split, buf + sock.rest[..n], Advance(sock, n));
    }
  }

  lemma {:induction false} ReadBodyFills(split: nat -> nat, len: nat, buf: seq<byte>, sock: Socket)
    ensures var r := ReadBody(split, len, buf, sock);
            && r.buf + r.sock.rest == buf + sock.rest
            && (r.complete <==> len <= |buf + sock.rest|)
            && (r.complete ==> |r.buf| == if |buf| < len then len else |buf|)
    decreases |sock.rest|
  {
    if |buf| < len && sock.rest != [] {
      var n := ReadSize(sock, split, BodyCap(len - |buf|));
      ReadMoves(buf, sock, n);
      ReadBodyFills(split, len, buf + sock.rest[..n], Advance(sock, n));
    }
  }

  lemma Drain(buf: seq<byte>, rest: seq<byte>, k: nat)
    requires k <= |buf|
    ensures buf[..k] == (buf + rest)[..k]
    ensures buf[k..] + rest == (buf + rest)[k..]
  {
  }

  /** Does a round of the loop do what the parser does on buffer and socket together? */
  ghost predicate SameRound(got: Round<(seq<byte>, Socket)>, want: Round<nat>, s: seq<byte>)
    requires want.Next? ==> want.from <= |s|
  {
    match want
    case Stop(handled, close) => got == Stop(handled, close)
    case Next(req, from) =>
      && got.Next? && got.req == req
      && got.from.0 + got.from.1.rest == s[from..] && |got.from.0| <= MAX_HEAD_BYTES + READ_BYTES
  }

  lemma ServeBodyIsParseBody(srv: Server, ending: Ending, split: nat -> nat, head: seq<byte>, buf: seq<byte>, sock: Socket, s: seq<byte>, at: nat, n: nat)
    requires at <= |s| && buf + sock.rest == s[at..] && |buf| <= MAX_HEAD_BYTES + READ_BYTES
    ensures SameRound(ServeBody(srv, ending, split, head, buf, sock, n), ParseBody(srv, ending, head, s, at, n), s)
  {
    var parsed := srv.parse(head);
    if parsed.Some? && Framing(parsed.value).Ok? {
      BodyOfRound(split, Framing(parsed.value).value, s, at, buf, sock);
    }
  }

  lemma ServeOneIsParseOne(srv: Server, ending: Ending, split: nat -> nat, buf: seq<byte>, sock: Socket, n: nat)
    requires |buf| <= MAX_HEAD_BYTES + READ_BYTES && HeadClear(buf + sock.rest)
    ensures SameRound(ServeOne(srv, ending, split, buf, sock, n), ParseOne(srv, ending, buf + sock.rest, n), buf + sock.rest)
  {
    var s := buf + sock.rest;
    var h := ReadHead(split, buf, sock);
    ReadHeadFinds(split, buf, sock);
    if h.outcome.Found? {
      var bodyStart := h.outcome.bodyStart;
      Drain(h.buf, h.sock.rest, bodyStart - 4);
      Drain(h.buf, h.sock.rest, bodyStart);
      ServeBodyIsParseBody(srv, ending, split, s[..bodyStart - 4], h.buf[bodyStart..], h.sock, s, bodyStart, n);
    }
  }

  /** The body of a round, when what follows the head is in `buf` and the socket. */
  lemma BodyOfRound(split: nat -> nat, len: nat, s: seq<byte>, bodyStart: nat, buf: seq<byte>, sock: Socket)
    requires bodyStart <= |s| && buf + sock.rest == s[bodyStart..]
    ensures var b := ReadBody(split, len, buf, sock);
            && (b.complete <==> bodyStart + len <= |s|)
            && (b.complete ==> b.buf[..len] == s[bodyStart..bodyStart + len]
                               && b.buf[len..] + b.sock.rest == s[bodyStart + len..]
                               && |b.buf[len..]| <= |buf|)
  {
    var b := ReadBody(split, len, buf, sock);
    ReadBodyFills(split, len, buf, sock);
    if b.complete {
      Drain(b.buf, b.sock.rest, len);
    }
  }

  /**
   However the socket splits the stream into reads, the loop handles exactly the requests
   that the pure parser finds in what is still to be handled: the buffer followed by the
   bytes not yet read.  It also stops for the same reason.
   */
  lemma {:induction false} ServeIsParse(srv: Server, ending: Ending, split: nat -> nat, buf: seq<byte>, sock: Socket, n: nat)
    requires |buf| <= MAX_HEAD_BYTES + READ_BYTES
    requires Clear(srv, ending, buf + sock.rest, n)
    ensures Serve(srv, ending, split, buf, sock, n) == Parse(srv, ending, buf + sock.rest, n)
    decreases |buf| + |sock.rest|
  {
    ServeOneIsParseOne(srv, ending, split, buf, sock, n);
    var round := ServeOne(srv, ending, split, buf, sock, n);
    if round.Next? {
      ServeIsParse(srv, ending, split, round.from.0, round.from.1, n + 1);
    }
  }

  /** One round, and the whole loop, as functions of buffer, socket and request number. */
  datatype Rounds = Rounds(
    one: (seq<byte>, Socket, nat) -> Round<(seq<byte>, Socket)>,
    all: (seq<byte>, Socket, nat) -> (seq<Request>, Close))
  {
    ghost predicate Are(srv: Server, ending: Ending, split: nat -> nat)
    {
      forall buf, sock, n: nat {:trigger ServeOne(srv, ending, split, buf, sock, n)} ::
        one(buf, sock, n) == ServeOne(srv, ending, split, buf, sock, n)
    }

    ghost predicate Unroll()
    {
      forall buf, sock, n: nat {:trigger one(buf, sock, n), all(buf, sock, n)} ::
        UnrollAt(buf, sock, n)
    }

    predicate UnrollAt(buf: seq<byte>, sock: Socket, n: nat)
    {
      all(buf, sock, n) == match one(buf, sock, n)
                           case Stop(handled, close) => (handled, close)
                           case Next(req, from) =>
                             ([req] + all(from.0, from.1, n + 1).0, all(from.0, from.1, n + 1).1)
    }
  }

  lemma TheseAreRounds(srv: Server, ending: Ending, split: nat -> nat) returns (rounds: Rounds)
    ensures rounds.Are(srv, ending, split) && rounds.Unroll()
    ensures forall buf, sock, n: nat :: rounds.all(buf, sock, n) == Serve(srv, ending, split, buf, sock, n)
  {
    rounds := Rounds((buf: seq<byte>, sock: Socket, n: nat) => ServeOne(srv, ending, split, buf, sock, n),
                     (buf: seq<byte>, sock: Socket, n: nat) => Serve(srv, ending, split, buf, sock, n));
    forall buf, sock, n: nat
      ensures rounds.UnrollAt(buf, sock, n)
    {
      assert rounds.all(buf, sock, n) == Serve(srv, ending, split, buf, sock, n);
    }
  }

  // ---- and only then ---------------------------------------------------

  /** Single bytes for `k` reads, then reads as large as the buffer. */
  function JumpAt(k: nat): (split: nat -> nat)
  {
    t => if t < k then 1 else READ_BYTES
  }

  lemma OneByte(buf: seq<byte>, sock: Socket, k: nat, cap: nat)
    requires sock.turn < k && sock.rest != [] && cap > 0
    ensures ReadSize(sock, JumpAt(k), cap) == 1
    ensures sock.rest[..1] == [sock.rest[0]]
    ensures Advance(sock, 1) == Socket(sock.rest[1..], sock.turn + 1)
    ensures (buf + [sock.rest[0]]) + sock.rest[1..] == buf + sock.rest
  {
  }

  /** Reading byte by byte, the head read stops right behind the terminator. */
  lemma {:induction false} BytewiseHead(k: nat, buf: seq<byte>, sock: Socket, p: nat)
    requires FindDoubleCrlf(buf + sock.rest) == Some(p) && |buf| <= p + 4 <= MAX_HEAD_BYTES + 1
    requires sock.turn + (p + 4 - |buf|) <= k
    ensures var s := buf + sock.rest;
            ReadHead(JumpAt(k), buf, sock) ==
            HeadRead(s[..p + 4], Socket(s[p + 4..], sock.turn + (p + 4 - |buf|)), Found(p + 4))
    decreases p + 4 - |buf|
  {
    FindInBuffer(buf, sock.rest);
    if |buf| < p + 4 {
      OneByte(buf, sock, k, READ_BYTES);
      BytewiseHead(k, buf + [sock.rest[0]], Socket(sock.rest[1..], sock.turn + 1), p);
    } else {
      Drain(buf, sock.rest, p + 4);
      assert buf[..p + 4] == buf && buf[p + 4..] == [];
    }
  }

  /** The jump lands a borderline head in the buffer before the length check can refuse it. */
  lemma {:induction false} JumpHead(k: nat, buf: seq<byte>, sock: Socket, p: nat)
    requires FindDoubleCrlf(buf + sock.rest) == Some(p) && Borderline(p + 4)
    requires |buf| <= MAX_HEAD_BYTES && k == sock.turn + (MAX_HEAD_BYTES - |buf|)
    ensures ReadHead(JumpAt(k), buf, sock).outcome == Found(p + 4)
    decreases MAX_HEAD_BYTES - |buf|
  {
    FindInBuffer(buf, sock.rest);
    if |buf| < MAX_HEAD_BYTES {
      OneByte(buf, sock, k, READ_BYTES);
      JumpHead(k, buf + [sock.rest[0]], Socket(sock.rest[1..], sock.turn + 1), p);
    } else {
      var n := ReadSize(sock, JumpAt(k), READ_BYTES);
      ReadMoves(buf, sock, n);
      FindInBuffer(buf + sock.rest[..n], Advance(sock, n).rest);
    }
  }

  lemma {:induction false} BytewiseBody(k: nat, len: nat, buf: seq<byte>, sock: Socket)
    requires |buf| <= len <= |buf + sock.rest|
    requires sock.turn + (len - |buf|) <= k
    ensures var s := buf + sock.rest;
            ReadBody(JumpAt(k), len, buf, sock) ==
            BodyRead(s[..len], Socket(s[len..], sock.turn + (len - |buf|)), true)
    decreases len - |buf|
  {
    if |buf| < len {
      OneByte(buf, sock, k, BodyCap(len - |buf|));
      BytewiseBody(k, len, buf + [sock.rest[0]], Socket(sock.rest[1..], sock.turn + 1));
    } else {
      Drain(buf, sock.rest, len);
      assert buf[..len] == buf && buf[len..] == [];
    }
  }

  lemma BytewiseRoute(srv: Server, ending: Ending, k: nat, head: seq<byte>, s: seq<byte>, at: nat, turn: nat, n: nat)
    requires at <= |s| && ParseBody(srv, ending, head, s, at, n).Next?
    requires turn + (ParseBody(srv, ending, head, s, at, n).from - at) <= k
    ensures var Next(req, from) := ParseBody(srv, ending, head, s, at, n);
            ServeBody(srv, ending, JumpAt(k), head, [], Socket(s[at..], turn), n)
            == Next(req, ([], Socket(s[from..], turn + (from - at))))
  {
    BytewiseRest(k, s, at, Framing(srv.parse(head).value).value, turn);
  }

  /** One request read byte by byte: the loop is back at its head with an empty buffer. */
  lemma BytewiseRound(srv: Server, ending: Ending, k: nat, rounds: Rounds, s: seq<byte>, turn: nat, n: nat)
    requires rounds.Are(srv, ending, JumpAt(k))
    requires ParseOne(srv, ending, s, n).Next? && turn + ParseOne(srv, ending, s, n).from <= k
    ensures var Next(req, from) := ParseOne(srv, ending, s, n);
            rounds.one([], Socket(s, turn), n) == Next(req, ([], Socket(s[from..], turn + from)))
  {
    BytewiseRoundAt(srv, ending, k, rounds, s, turn, n, FindDoubleCrlf(s).value);
  }

  lemma BytewiseRoundAt(srv: Server, ending: Ending, k: nat, rounds: Rounds, s: seq<byte>, turn: nat, n: nat, p: nat)
    requires rounds.Are(srv, ending, JumpAt(k))
    requires FindDoubleCrlf(s) == Some(p) && p + 4 <= MAX_HEAD_BYTES + 1 && p + 4 <= |s|
    requires ParseBody(srv, ending, s[..p], s, p + 4, n).Next? && turn + ParseBody(srv, ending, s[..p], s, p + 4, n).from <= k
    ensures var Next(req, from) := ParseBody(srv, ending, s[..p], s, p + 4, n);
            rounds.one([], Socket(s, turn), n) == Next(req, ([], Socket(s[from..], turn + from)))
  {
    BytewiseToRoute(srv, ending, k, rounds, s, turn, n, p);
    BytewiseRoute(srv, ending, k, s[..p], s, p + 4, turn + p + 4, n);
  }

  lemma BytewiseToRoute(srv: Server, ending: Ending, k: nat, rounds: Rounds, s: seq<byte>, turn: nat, n: nat, p: nat)
    requires rounds.Are(srv, ending, JumpAt(k))
    requires FindDoubleCrlf(s) == Some(p) && p + 4 <= MAX_HEAD_BYTES + 1 && p + 4 <= |s| && turn + p + 4 <= k
    ensures rounds.one([], Socket(s, turn), n)
         == ServeBody(srv, ending, JumpAt(k), s[..p], [], Socket(s[p + 4..], turn + p + 4), n)
  {
    assert [] + s == s;
    BytewiseHead(k, [], Socket(s, turn), p);
    assert s[..p + 4][..p] == s[..p] && s[..p + 4][p + 4..] == [];
    assert rounds.one([], Socket(s, turn), n) == ServeOne(srv, ending, JumpAt(k), [], Socket(s, turn), n);
  }

  lemma BytewiseRest(k: nat, s: seq<byte>, at: nat, len: nat, turn: nat)
    requires at + len <= |s| && turn + len <= k
    ensures var b := ReadBody(JumpAt(k), len, [], Socket(s[at..], turn));
            && b.complete && b.buf[..len] == s[at..at + len] && b.buf[len..] == []
            && b.sock == Socket(s[at + len..], turn + len)
  {
    var after := s[at..];
    assert [] + after == after;
    BytewiseBody(k, len, [], Socket(after, turn));
    assert after[..len] == s[at..at + len] && after[len..] == s[at + len..];
  }

  lemma JumpDisagrees(srv: Server, ending: Ending, s: seq<byte>, turn: nat, n: nat) returns (k: nat)
    requires !HeadClear(s)
    ensures k == turn + MAX_HEAD_BYTES
    ensures Serve(srv, ending, JumpAt(k), [], Socket(s, turn), n) != ([], HeadTooLong)
    ensures Parse(srv, ending, s, n) == ([], HeadTooLong)
  {
    k := turn + MAX_HEAD_BYTES;
    assert [] + s == s;
    JumpHead(k, [], Socket(s, turn), FindDoubleCrlf(s).value);
    var round := ServeOne(srv, ending, JumpAt(k), [], Socket(s, turn), n);
    assert round != Stop([], HeadTooLong);
    if round.Next? {
      assert Serve(srv, ending, JumpAt(k), [], Socket(s, turn), n).0 != [];
    }
  }

  lemma SameTail(req: Request, a: (seq<Request>, Close), b: (seq<Request>, Close))
    ensures ([req] + a.0, a.1) == ([req] + b.0, b.1) <==> a == b
  {
    assert ([req] + a.0)[1..] == a.0 && ([req] + b.0)[1..] == b.0;
  }

  /** A stream with a borderline head is split by some peer so that the loop disagrees with the parser. */
  lemma {:induction false} BorderlineDisagrees(srv: Server, ending: Ending, s: seq<byte>, turn: nat, n: nat) returns (k: nat)
    requires !Clear(srv, ending, s, n)
    ensures k >= turn
    ensures Serve(srv, ending, JumpAt(k), [], Socket(s, turn), n) != Parse(srv, ending, s, n)
    decreases |s|
  {
    if !HeadClear(s) {
      k := JumpDisagrees(srv, ending, s, turn, n);
    } else {
      var Next(req, from) := ParseOne(srv, ending, s, n);
      k := BorderlineDisagrees(srv, ending, s[from..], turn + from, n + 1);
      var rounds := TheseAreRounds(srv, ending, JumpAt(k));
      BytewiseRound(srv, ending, k, rounds, s, turn, n);
      DisagreesAfter(rounds, Socket(s, turn), n, ParseOne(srv, ending, s, n), s, Parse(srv, ending, s[from..], n + 1), turn);
    }
  }

  /** A round like the parser's, and then a disagreement, is a disagreement. */
  lemma DisagreesAfter(rounds: Rounds, sock: Socket, n: nat, round: Round<nat>, s: seq<byte>, want: (seq<Request>, Close), turn: nat)
    requires rounds.Unroll() && round.Next? && round.from <= |s|
    requires rounds.one([], sock, n) == Next(round.req, ([], Socket(s[round.from..], turn + round.from)))
    requires rounds.all([], Socket(s[round.from..], turn + round.from), n + 1) != want
    ensures rounds.all([], sock, n) != ([round.req] + want.0, want.1)
  {
    SameTail(round.req, rounds.all([], Socket(s[round.from..], turn + round.from), n + 1), want);
  }

  /** The exact condition under which the way the stream is cut into reads does not matter. */
  lemma SplitIndependentIff(srv: Server, ending: Ending, stream: seq<byte>)
    ensures Clear(srv, ending, stream, 0) <==>
            forall split :: Serve(srv, ending, split, [], Socket(stream, 0), 0) == Parse(srv, ending, stream, 0)
  {
    assert [] + stream == stream;
    if Clear(srv, ending, stream, 0) {
      forall split
        ensures Serve(srv, ending, split, [], Socket(stream, 0), 0) == Parse(srv, ending, stream, 0)
      {
        ServeIsParse(srv, ending, split, [], Socket(stream, 0), 0);
      }
    } else {
      var k := BorderlineDisagrees(srv, ending, stream, 0, 0);
    }
  }

  /** In particular: every stream whose heads end within MAX_HEAD_BYTES. */
  predicate HeadsFit(srv: Server, ending: Ending, s: seq<byte>, n: nat)
  {
    Parse(srv, ending, s, n).1 != HeadTooLong
  }

  lemma {:induction false} HeadsFitIsClear(srv: Server, ending: Ending, s: seq<byte>, n: nat)
    requires HeadsFit(srv, ending, s, n)
    ensures Clear(srv, ending, s, n)
    decreases |s|
  {
    match ParseOne(srv, ending, s, n)
    case Stop(_, _) =>
    case Next(_, from) => HeadsFitIsClear(srv, ending, s[from..], n + 1);
  }

  // ---- the loops themselves --------------------------------------------

  ghost predicate Suffix(t: seq<byte>, s: seq<byte>) { |t| <= |s| && t == s[|s| - |t|..] }

  lemma SuffixTransitive(u: seq<byte>, t: seq<byte>, s: seq<byte>)
    requires Suffix(u, t) && Suffix(t, s)
    ensures Suffix(u, s)
  {
  }

  /**
   The connection loop with its buffer and socket updated in place.  At every loop head
   the buffer followed by the bytes not yet read is the unhandled end of the stream.
   */
  method ServeConnection(srv: Server, ending: Ending, stream: seq<byte>, split: nat -> nat)
    returns (handled: seq<Request>, close: Close)
    ensures (handled, close) == Serve(srv, ending, split, [], Socket(stream, 0), 0)
    ensures Clear(srv, ending, stream, 0) ==> (handled, close) == Parse(srv, ending, stream, 0)
  {
    ghost var rounds := TheseAreRounds(srv, ending, split);
    handled, close := ServeLoop(srv, ending, stream, split, rounds);
    SplitIndependentIff(srv, ending, stream);
  }

  /** The round came out as `r` says, with buffer and socket where it left them. */
  ghost predicate CameOut(r: Round<(seq<byte>, Socket)>, step: Round<()>, buf: seq<byte>, sock: Socket)
  {
    match r
    case Stop(handled, close) => step == Stop(handled, close)
    case Next(req, from) => step == Next(req, ()) && from == (buf, sock)
  }

  method ServeLoop(srv: Server, ending: Ending, stream: seq<byte>, split: nat -> nat, ghost rounds: Rounds)
    returns (handled: seq<Request>, close: Close)
    requires rounds.Are(srv, ending, split) && rounds.Unroll()
    ensures (handled, close) == rounds.all([], Socket(stream, 0), 0)
  {
    var buf: seq<byte> := [];
    var sock := Socket(stream, 0);
    var step;
    ghost var whole := rounds.all(buf, sock, 0);
    handled := [];
    assert buf + sock.rest == stream;
    buf, sock, step := ServeRound(srv, ending, split, buf, sock, 0, rounds);
    assert step.Next? ==> handled + [step.req] == [step.req];
    while step.Next?
      invariant step.Next? ==> Suffix(buf + sock.rest, stream)
      invariant Resumes(rounds, whole, handled, step, buf, sock)
      decreases step.Next?, |buf| + |sock.rest|
    {
      ghost var buf0, sock0, handled0, step0 := buf, sock, handled, step;
      handled := handled + [step.req];
      buf, sock, step := ServeRound(srv, ending, split, buf, sock, |handled|, rounds);
      ResumesNext(rounds, whole, handled0, step0, buf0, sock0, step, buf, sock);
      if step.Next? {
        SuffixTransitive(buf + sock.rest, buf0 + sock0.rest, stream);
      }
    }
    handled, close := handled + step.handled, step.close;
  }

  /** The loop will end with `whole`, when `handled` requests are behind it and `step` is its latest round. */
  ghost predicate Resumes(rounds: Rounds, whole: (seq<Request>, Close), handled: seq<Request>, step: Round<()>, buf: seq<byte>, sock: Socket)
  {
    match step
    case Stop(last, close) => whole.0 == handled + last && whole.1 == close
    case Next(req, _) =>
      var rest := rounds.all(buf, sock, |handled| + 1);
      whole.0 == (handled + [req]) + rest.0 && whole.1 == rest.1
  }

  lemma ResumesNext(rounds: Rounds, whole: (seq<Request>, Close), handled: seq<Request>,
                    step: Round<()>, buf: seq<byte>, sock: Socket, step': Round<()>, buf': seq<byte>, sock': Socket)
    requires rounds.Unroll() && step.Next? && Resumes(rounds, whole, handled, step, buf, sock)
    requires CameOut(rounds.one(buf, sock, |handled| + 1), step', buf', sock')
    ensures Resumes(rounds, whole, handled + [step.req], step', buf', sock')
  {
    if step'.Next? {
      var rest := rounds.all(buf', sock', |handled| + 2);
      Associative(handled + [step.req], [step'.req], rest.0);
    }
  }

  /** One round: the head, then the route. */
  method ServeRound(srv: Server, ending: Ending, split: nat -> nat, buf0: seq<byte>, sock0: Socket, n: nat, ghost rounds: Rounds)
    returns (buf: seq<byte>, sock: Socket, step: Round<()>)
    requires rounds.Are(srv, ending, split)
    ensures CameOut(rounds.one(buf0, sock0, n), step, buf, sock)
    ensures step.Next? ==> Suffix(buf + sock.rest, buf0 + sock0.rest)
    ensures step.Next? ==> |buf| + |sock.rest| < |buf0| + |sock0.rest|
  {
    ghost var round := ServeOne(srv, ending, split, buf0, sock0, n);
    ReadKeeps(split, buf0, sock0);
    var outcome;
    buf, sock, outcome := ReadUntilDoubleCrlf(split, buf0, sock0);
    if outcome.TooLong? {
      return buf, sock, Stop([], HeadTooLong);
    }
    if outcome.Ended? {
      return buf, sock, Stop([], EndInHead(ending));
    }
    Drain(buf, sock.rest, outcome.bodyStart);
    var head := buf[..outcome.bodyStart - 4];
    buf := buf[outcome.bodyStart..];
    ghost var body := buf + sock.rest;
    buf, sock, step := ProcessRoute(srv, ending, split, head, buf, sock, n);
    if step.Next? {
      SuffixTransitive(buf + sock.rest, body, buf0 + sock0.rest);
    }
  }

  lemma {:induction false} ReadKeeps(split: nat -> nat, buf: seq<byte>, sock: Socket)
    ensures var r := ReadHead(split, buf, sock); r.buf + r.sock.rest == buf + sock.rest
    decreases |sock.rest|
  {
    if FindDoubleCrlf(buf).None? && |buf| <= MAX_HEAD_BYTES && sock.rest != [] {
      var n := ReadSize(sock, split, READ_BYTES);
      ReadMoves(buf, sock, n);
      ReadKeeps(split, buf + sock.rest[..n], Advance(sock, n));
    }
  }

  /** The route of one request: reads the body and drains it. */
  method ProcessRoute(srv: Server, ending: Ending, split: nat -> nat, headBytes: seq<byte>, buf0: seq<byte>, sock0: Socket, n: nat)
    returns (buf: seq<byte>, sock: Socket, step: Round<()>)
    ensures match ServeBody(srv, ending, split, headBytes, buf0, sock0, n)
            case Stop(handled, close) => step == Stop(handled, close)
            case Next(req, from) => step == Next(req, ()) && from == (buf, sock)
    ensures step.Next? ==> Suffix(buf + sock.rest, buf0 + sock0.rest)
  {
    buf, sock := buf0, sock0;
    var parsed := srv.parse(headBytes);
    if parsed.None? {
      return buf, sock, Stop([], BadHead);
    }
    var framing := Framing(parsed.value);
    if framing.Err? {
      return buf, sock, Stop([], framing.error);
    }
    ReadBodyFills(split, framing.value, buf, sock);
    var complete;
    buf, sock, complete := ReadWholeBody(split, framing.value, buf, sock);
    if !complete {
      return buf, sock, Stop([], EndInBody(ending));
    }
    var body := buf[..framing.value];
    Drain(buf, sock.rest, framing.value);
    buf := buf[framing.value..];
    step := Settle(srv, n, parsed.value, body, |buf| + |sock.rest|, ());
  }

  method ReadUntilDoubleCrlf(split: nat -> nat, buf0: seq<byte>, sock0: Socket)
    returns (buf: seq<byte>, sock: Socket, outcome: HeadOutcome)
    ensures HeadRead(buf, sock, outcome) == ReadHead(split, buf0, sock0)
  {
    buf, sock := buf0, sock0;
    while FindDoubleCrlf(buf).None?
      invariant ReadHead(split, buf, sock) == ReadHead(split, buf0, sock0)
      decreases |sock.rest|
    {
      if |buf| > MAX_HEAD_BYTES {
        return buf, sock, TooLong;
      }
      if sock.rest == [] {
        return buf, sock, Ended;
      }
      var n := ReadSize(sock, split, READ_BYTES);
      buf := buf + sock.rest[..n];
      sock := Advance(sock, n);
    }
    outcome := Found(FindDoubleCrlf(buf).value + 4);
  }

  method ReadWholeBody(split: nat -> nat, len: nat, buf0: seq<byte>, sock0: Socket)
    returns (buf: seq<byte>, sock: Socket, complete: bool)
    ensures BodyRead(buf, sock, complete) == ReadBody(split, len, buf0, sock0)
  {
    buf, sock := buf0, sock0;
    while |buf| < len
      invariant ReadBody(split, len, buf, sock) == ReadBody(split, len, buf0, sock0)
      decreases |sock.rest|
    {
      if sock.rest == [] {
        return buf, sock, false;
      }
      var n := ReadSize(sock, split, BodyCap(len - |buf|));
      buf := buf + sock.rest[..n];
      sock := Advance(sock, n);
    }
    complete := true;
  }
}
