/**
 What the keep-alive loop does with the bytes a client sends, case by case and under every split
 into reads: which request reaches the handler with which body, and where the next one starts.
 */
module HttpServed {
  import opened Bytes
  import opened HttpKeepAlive
  import opened HttpFraming

  /** The loop stands here: everything up to `s` is handled, and `s` is in the buffer and the socket. */
  ghost predicate At(buf: seq<byte>, sock: Socket, s: seq<byte>)
  {
    buf + sock.rest == s && |buf| <= MAX_HEAD_BYTES + READ_BYTES
  }

  /** The first head of `s` has `p` bytes. */
  predicate HeadEndsAt(s: seq<byte>, p: nat)
  {
    CrlfAt(s, p) && forall j {:trigger CrlfAt(s, j)} :: 0 <= j < p ==> !CrlfAt(s, j)
  }

  /** `s` starts with the head `h`, within the limit, and `t` follows it. */
  predicate StartsWith(s: seq<byte>, h: seq<byte>, t: seq<byte>)
  {
    s == h + (DOUBLE_CRLF + t) && HeadEndsAt(s, |h|) && |h| + 4 <= MAX_HEAD_BYTES + 1
  }

  lemma PlainStarts(h: seq<byte>, t: seq<byte>)
    requires Plain(h) && |h| + 4 <= MAX_HEAD_BYTES + 1
    ensures StartsWith(h + (DOUBLE_CRLF + t), h, t)
  {
    HeadEnds(h, t);
    FindsFirst(h + (DOUBLE_CRLF + t), 0);
  }

  lemma StartParts(s: seq<byte>, h: seq<byte>, t: seq<byte>)
    requires StartsWith(s, h, t)
    ensures FindDoubleCrlf(s) == Some(|h|) && s[..|h|] == h && s[|h| + 4..] == t && |s| == |h| + 4 + |t|
  {
    FindsFirst(s, 0);
  }

  /** One round of the loop is one step of the pure parser, and the loop then stands behind it. */
  lemma RoundAt(srv: Server, ending: Ending, split: nat -> nat, buf: seq<byte>, sock: Socket, s: seq<byte>, n: nat, one: Round<nat>)
    returns (buf': seq<byte>, sock': Socket)
    requires At(buf, sock, s) && HeadClear(s) && one == ParseOne(srv, ending, s, n)
    ensures var got := Serve(srv, ending, split, buf, sock, n);
            match one
            case Stop(handled, close) => got == (handled, close)
            case Next(req, from) =>
              At(buf', sock', s[from..]) && Leads(got, req, Serve(srv, ending, split, buf', sock', n + 1))
  {
    ServeOneIsParseOne(srv, ending, split, buf, sock, n);
    match ServeOne(srv, ending, split, buf, sock, n)
    case Stop(_, _) => buf', sock' := buf, sock;
    case Next(_, from) => buf', sock' := from.0, from.1;
  }

  /** `req` first, then what `rest` says. */
  predicate Leads(got: (seq<Request>, Close), req: Request, rest: (seq<Request>, Close))
  {
    got == ([req] + rest.0, rest.1)
  }

  predicate RpcHead(head: RequestHead) { head.verb == Ascii("POST") && head.path == Ascii("/wmbt/v1/rpc") }

  lemma HeadRound(srv: Server, ending: Ending, s: seq<byte>, h: seq<byte>, t: seq<byte>, n: nat)
    requires StartsWith(s, h, t)
    ensures HeadClear(s) && |h| + 4 <= |s|
    ensures ParseOne(srv, ending, s, n) == ParseBody(srv, ending, h, s, |h| + 4, n)
  {
    StartParts(s, h, t);
  }

  /** A handled request is the last one unless it succeeds on a kept-alive connection. */
  function Settled(srv: Server, n: nat, head: RequestHead, body: seq<byte>, left: nat, from: nat): (r: Round<nat>)
  {
    if !srv.handle(n, head, body) then Stop([Request(head, body, None)], HandlerFailed)
    else if !head.keepAlive then Stop([Request(head, body, None)], NotKeptAlive)
    else Next(Request(head, body, Some(left)), from)
  }

  lemma RpcRound(srv: Server, ending: Ending, s: seq<byte>, h: seq<byte>, body: seq<byte>, rest: seq<byte>, head: RequestHead, n: nat)
    requires StartsWith(s, h, body + rest)
    requires srv.parse(h) == Some(head) && RpcHead(head) && head.contentLength == Some(|body|) && |body| <= 256 * 1024 * 1024
    ensures ParseOne(srv, ending, s, n) == Settled(srv, n, head, body, |rest|, |h| + 4 + |body|)
  {
    HeadRound(srv, ending, s, h, body + rest, n);
    StartParts(s, h, body + rest);
    assert s[|h| + 4..|h| + 4 + |body|] == body;
  }

  lemma OtherRound(srv: Server, ending: Ending, s: seq<byte>, h: seq<byte>, rest: seq<byte>, head: RequestHead, n: nat)
    requires StartsWith(s, h, rest) && srv.parse(h) == Some(head) && !RpcHead(head)
    ensures ParseOne(srv, ending, s, n) == Settled(srv, n, head, [], |rest|, |h| + 4)
  {
    HeadRound(srv, ending, s, h, rest, n);
    StartParts(s, h, rest);
    assert s[|h| + 4..|h| + 4] == [];
  }

  /**
   An RPC request: the handler gets exactly the declared bytes.  If it fails, or the connection is
   not kept alive, this is the last request; otherwise the loop goes on right behind the body.
   */
  lemma RpcIsServed(srv: Server, ending: Ending, split: nat -> nat, buf: seq<byte>, sock: Socket, n: nat,
                    s: seq<byte>, h: seq<byte>, body: seq<byte>, rest: seq<byte>, head: RequestHead)
    returns (buf': seq<byte>, sock': Socket)
    requires At(buf, sock, s) && StartsWith(s, h, body + rest)
    requires srv.parse(h) == Some(head) && RpcHead(head) && head.contentLength == Some(|body|) && |body| <= 256 * 1024 * 1024
    ensures var got := Serve(srv, ending, split, buf, sock, n);
            if !srv.handle(n, head, body) then got == ([Request(head, body, None)], HandlerFailed)
            else if !head.keepAlive then got == ([Request(head, body, None)], NotKeptAlive)
            else && At(buf', sock', rest)
                 && Leads(got, Request(head, body, Some(|rest|)), Serve(srv, ending, split, buf', sock', n + 1))
  {
    HeadRound(srv, ending, s, h, body + rest, n);
    StartParts(s, h, body + rest);
    var at := |h| + 4;
    assert s[at + |body|..] == rest;
    RpcRound(srv, ending, s, h, body, rest, head, n);
    buf', sock' := RoundAt(srv, ending, split, buf, sock, s, n, Settled(srv, n, head, body, |rest|, at + |body|));
  }

  /** Any other request: no body is handed on, and the loop goes on right behind the head. */
  lemma OtherIsServed(srv: Server, ending: Ending, split: nat -> nat, buf: seq<byte>, sock: Socket, n: nat,
                      s: seq<byte>, h: seq<byte>, rest: seq<byte>, head: RequestHead)
    returns (buf': seq<byte>, sock': Socket)
    requires At(buf, sock, s) && StartsWith(s, h, rest)
    requires srv.parse(h) == Some(head) && !RpcHead(head)
    ensures var got := Serve(srv, ending, split, buf, sock, n);
            if !srv.handle(n, head, []) then got == ([Request(head, [], None)], HandlerFailed)
            else if !head.keepAlive then got == ([Request(head, [], None)], NotKeptAlive)
            else && At(buf', sock', rest)
                 && Leads(got, Request(head, [], Some(|rest|)), Serve(srv, ending, split, buf', sock', n + 1))
  {
    HeadRound(srv, ending, s, h, rest, n);
    StartParts(s, h, rest);
    OtherRound(srv, ending, s, h, rest, head, n);
    buf', sock' := RoundAt(srv, ending, split, buf, sock, s, n, Settled(srv, n, head, [], |rest|, |h| + 4));
  }

  /** What the loop gives up on without handling anything. */
  function Refusal(srv: Server, ending: Ending, h: seq<byte>, t: seq<byte>): (r: Option<Close>)
  {
    match srv.parse(h)
    case None => Some(BadHead)
    case Some(head) =>
      if !RpcHead(head) then None
      else match head.contentLength
           case None => Some(LengthRequired)
           case Some(len) =>
             if len > 256 * 1024 * 1024 then Some(BodyTooLarge)
             else if len <= |t| then None
             else Some(match ending case Eof => PeerClosedMidBody case Disconnect => PeerGone case Fault => ReadFault)
  }

  lemma RefusedIsClosed(srv: Server, ending: Ending, split: nat -> nat, buf: seq<byte>, sock: Socket, n: nat,
                        s: seq<byte>, h: seq<byte>, t: seq<byte>)
    requires At(buf, sock, s) && StartsWith(s, h, t) && Refusal(srv, ending, h, t).Some?
    ensures Serve(srv, ending, split, buf, sock, n) == ([], Refusal(srv, ending, h, t).value)
  {
    HeadRound(srv, ending, s, h, t, n);
    StartParts(s, h, t);
    var buf', sock' := RoundAt(srv, ending, split, buf, sock, s, n, ParseOne(srv, ending, s, n));
  }

  /** No head at all: too many bytes, or the peer is gone. */
  lemma NoHeadIsClosed(srv: Server, ending: Ending, split: nat -> nat, buf: seq<byte>, sock: Socket, n: nat, s: seq<byte>)
    requires At(buf, sock, s) && forall j {:trigger CrlfAt(s, j)} :: 0 <= j ==> !CrlfAt(s, j)
    ensures Serve(srv, ending, split, buf, sock, n)
         == ([], if |s| > 16 * 1024 then HeadTooLong else if ending == Fault then ReadFault else PeerGone)
  {
    FindsFirst(s, 0);
    var buf', sock' := RoundAt(srv, ending, split, buf, sock, s, n, ParseOne(srv, ending, s, n));
  }

  /** A head that ends more than one read over the limit. */
  lemma LongHeadIsClosed(srv: Server, ending: Ending, split: nat -> nat, buf: seq<byte>, sock: Socket, n: nat, s: seq<byte>, p: nat)
    requires At(buf, sock, s) && HeadEndsAt(s, p) && p + 4 > 16 * 1024 + 4096
    ensures Serve(srv, ending, split, buf, sock, n) == ([], HeadTooLong)
  {
    FindsFirst(s, 0);
    var buf', sock' := RoundAt(srv, ending, split, buf, sock, s, n, ParseOne(srv, ending, s, n));
  }

  // ---- whole conversations ---------------------------------------------------

  datatype Message = Message(head: seq<byte>, body: seq<byte>)

  /** The bytes of a pipelined conversation. */
  function Wire(ms: seq<Message>): (s: seq<byte>)
  {
    if ms == [] then [] else ms[0].head + (DOUBLE_CRLF + (ms[0].body + Wire(ms[1..])))
  }

  /** The n-th message is well framed, handled without error, and not the last of its connection. */
  predicate Proper(srv: Server, m: Message, n: nat)
  {
    && Plain(m.head) && |m.head| + 4 <= MAX_HEAD_BYTES
    && srv.parse(m.head).Some?
    && var head := srv.parse(m.head).value;
       && head.keepAlive && srv.handle(n, head, m.body)
       && (RpcHead(head) ==> head.contentLength == Some(|m.body|) && |m.body| <= MAX_BODY_BYTES)
       && (!RpcHead(head) ==> m.body == [])
  }

  /** The requests a conversation is meant to be. */
  function Meant(srv: Server, ms: seq<Message>, n: nat): (rs: seq<Request>)
    requires forall i {:trigger ms[i]} :: 0 <= i < |ms| ==> Proper(srv, ms[i], n + i)
  {
    if ms == [] then []
    else
      assert forall i {:trigger ms[1..][i]} :: 0 <= i < |ms| - 1 ==> ms[1..][i] == ms[i + 1];
      assert Proper(srv, ms[0], n + 0);
      [Request(srv.parse(ms[0].head).value, ms[0].body, Some(|Wire(ms[1..])|))] + Meant(srv, ms[1..], n + 1)
  }

  /** Under every split, a conversation is served message by message, and then the peer is gone. */
  lemma {:induction false} ConversationIsServed(srv: Server, ending: Ending, split: nat -> nat, buf: seq<byte>, sock: Socket,
                                                ms: seq<Message>, n: nat)
    requires At(buf, sock, Wire(ms)) && forall i {:trigger ms[i]} :: 0 <= i < |ms| ==> Proper(srv, ms[i], n + i)
    ensures Serve(srv, ending, split, buf, sock, n) == (Meant(srv, ms, n), if ending == Fault then ReadFault else PeerGone)
    decreases |ms|
  {
    if ms == [] {
      NoHeadIsClosed(srv, ending, split, buf, sock, n, []);
    } else {
      var buf', sock' := FirstIsServed(srv, ending, split, buf, sock, ms[0], Wire(ms[1..]), n);
      assert forall i {:trigger ms[1..][i]} :: 0 <= i < |ms| - 1 ==> ms[1..][i] == ms[i + 1];
      ConversationIsServed(srv, ending, split, buf', sock', ms[1..], n + 1);
    }
  }

  lemma FirstIsServed(srv: Server, ending: Ending, split: nat -> nat, buf: seq<byte>, sock: Socket, m: Message, rest: seq<byte>, n: nat)
    returns (buf': seq<byte>, sock': Socket)
    requires Proper(srv, m, n) && At(buf, sock, m.head + (DOUBLE_CRLF + (m.body + rest)))
    ensures At(buf', sock', rest)
    ensures Leads(Serve(srv, ending, split, buf, sock, n), Request(srv.parse(m.head).value, m.body, Some(|rest|)),
                  Serve(srv, ending, split, buf', sock', n + 1))
  {
    var head := srv.parse(m.head).value;
    var s := m.head + (DOUBLE_CRLF + (m.body + rest));
    PlainStarts(m.head, m.body + rest);
    if RpcHead(head) {
      buf', sock' := RpcIsServed(srv, ending, split, buf, sock, n, s, m.head, m.body, rest, head);
    } else {
      assert m.body + rest == rest;
      buf', sock' := OtherIsServed(srv, ending, split, buf, sock, n, s, m.head, rest, head);
    }
  }
}
