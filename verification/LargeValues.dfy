/**
 Large values over a store of small values (client.rs).

 A value that does not fit one ring frame is cut into chunks, each PUT under a
 key derived from the value's content, and then published by PUTting a manifest
 under the user's key.  Single-key PUT and GET are the daemon's atomic steps.
 */
module LargeValues {
  import opened Bytes
  import opened Text

  const FRAME_DATA_BYTES: nat := 4 * 1024 * 1024 - 16
  const LARGE_CHUNK_BYTES: nat := FRAME_DATA_BYTES - 4096
  const LARGE_MANIFEST_MAGIC: seq<byte> := Ascii("WMBT_KV_SHM_LARGE_V1")
  const LARGE_CHUNK_KEY_PREFIX: seq<byte> := Ascii("__wmbt_kv_shm_large")
  const ID_DOMAIN: seq<byte> := Ascii("wombatkv-shm-large-v1\0")

  predicate FitsOneFrame(len: nat) { len + 256 <= FRAME_DATA_BYTES }

  datatype Cell = Cell(ns: seq<byte>, key: seq<byte>)

  datatype Upload = Upload(ns: seq<byte>, key: seq<byte>, payload: seq<byte>) {
    function Target(): Cell { Cell(ns, key) }
  }

  // ---- chunking --------------------------------------------------------

  /** `payload.chunks(LARGE_CHUNK_BYTES)` */
  function Chunks(payload: seq<byte>): (r: seq<seq<byte>>)
  {
    if payload == [] then []
    else if |payload| <= LARGE_CHUNK_BYTES then [payload]
    else [payload[..LARGE_CHUNK_BYTES]] + Chunks(payload[LARGE_CHUNK_BYTES..])
  }

  /** Every chunk fits one frame, and together they spell the payload. */
  lemma {:induction false} ChunksSpell(payload: seq<byte>)
    ensures Concat(Chunks(payload)) == payload
    ensures forall i :: 0 <= i < |Chunks(payload)| ==>
              0 < |Chunks(payload)[i]| && FitsOneFrame(|Chunks(payload)[i]|)
  {
    if payload == [] {
    } else if |payload| <= LARGE_CHUNK_BYTES {
      assert Concat([payload]) == payload + Concat([]);
    } else {
      var rest := payload[LARGE_CHUNK_BYTES..];
      ChunksSpell(rest);
      assert Chunks(payload)[1..] == Chunks(rest);
      assert payload == payload[..LARGE_CHUNK_BYTES] + rest;
    }
  }

  /** `payload.len().div_ceil(LARGE_CHUNK_BYTES)` */
  lemma {:induction false} ChunkCount(payload: seq<byte>)
    ensures |Chunks(payload)| == (|payload| + LARGE_CHUNK_BYTES - 1) / LARGE_CHUNK_BYTES
    ensures |Chunks(payload)| <= |payload|
  {
    if |payload| > LARGE_CHUNK_BYTES {
      ChunkCount(payload[LARGE_CHUNK_BYTES..]);
    }
  }

  // ---- the content-derived id ------------------------------------------

  function Preimage(u: Upload): (r: seq<byte>)
  {
    ID_DOMAIN + (u.ns + ([NUL] + (u.key + ([NUL] + (Le(|u.payload|, 8) + u.payload)))))
  }

  /** Two texts without NUL, each followed by a NUL, can be told apart from what follows. */
  lemma NulTerminated(a: seq<byte>, x: seq<byte>, b: seq<byte>, y: seq<byte>)
    requires NUL !in a && NUL !in b
    requires a + ([NUL] + x) == b + ([NUL] + y)
    ensures a == b && x == y
  {
    var s := a + ([NUL] + x);
    assert s[|a|] == NUL && s[|b|] == NUL;
    assert forall i :: 0 <= i < |a| ==> s[i] == a[i] != NUL;
    assert forall i :: 0 <= i < |b| ==> s[i] == b[i] != NUL;
    SplitEqual(a, [NUL] + x, b, [NUL] + y);
    SplitEqual([NUL], x, [NUL], y);
  }

  /** The hash input determines namespace, key and payload. */
  lemma PreimageInjective(u: Upload, v: Upload)
    requires NUL !in u.ns && NUL !in u.key && NUL !in v.ns && NUL !in v.key
    requires Preimage(u) == Preimage(v)
    ensures u == v
  {
    var ut := Le(|u.payload|, 8) + u.payload;
    var vt := Le(|v.payload|, 8) + v.payload;
    SplitEqual(ID_DOMAIN, u.ns + ([NUL] + (u.key + ([NUL] + ut))),
               ID_DOMAIN, v.ns + ([NUL] + (v.key + ([NUL] + vt))));
    NulTerminated(u.ns, u.key + ([NUL] + ut), v.ns, v.key + ([NUL] + vt));
    NulTerminated(u.key, ut, v.key, vt);
    SplitEqual(Le(|u.payload|, 8), u.payload, Le(|v.payload|, 8), v.payload);
  }

  function LargeChunkKey(id: seq<byte>, idx: nat): (r: seq<byte>)
  {
    LARGE_CHUNK_KEY_PREFIX + ([SLASH] + (id + ([SLASH] + Decimal8(idx))))
  }

  /** Keys that users may not use: everything under the chunk directory. */
  predicate Reserved(key: seq<byte>) { LARGE_CHUNK_KEY_PREFIX + [SLASH] <= key }

  lemma LargeChunkKeyInjective(id: seq<byte>, i: nat, jd: seq<byte>, j: nat)
    requires |id| == |jd|
    requires LargeChunkKey(id, i) == LargeChunkKey(jd, j)
    ensures id == jd && i == j
  {
    SplitEqual(LARGE_CHUNK_KEY_PREFIX, [SLASH] + (id + ([SLASH] + Decimal8(i))),
               LARGE_CHUNK_KEY_PREFIX, [SLASH] + (jd + ([SLASH] + Decimal8(j))));
    SplitEqual([SLASH], id + ([SLASH] + Decimal8(i)), [SLASH], jd + ([SLASH] + Decimal8(j)));
    SplitEqual(id, [SLASH] + Decimal8(i), jd, [SLASH] + Decimal8(j));
    SplitEqual([SLASH], Decimal8(i), [SLASH], Decimal8(j));
    Decimal8Parses(i);
    Decimal8Parses(j);
  }

  lemma LargeChunkKeyReserved(id: seq<byte>, i: nat)
    ensures Reserved(LargeChunkKey(id, i))
  {
    assert LargeChunkKey(id, i) == (LARGE_CHUNK_KEY_PREFIX + [SLASH]) + (id + ([SLASH] + Decimal8(i)));
  }

  // ---- the manifest ----------------------------------------------------

  datatype LargeManifest = LargeManifest(id: seq<byte>, totalLen: nat, chunkCount: nat)

  function EncodeManifest(m: LargeManifest): (r: seq<byte>)
  {
    LARGE_MANIFEST_MAGIC + [LF] + (m.id + [LF] + (Decimal(m.totalLen) + [LF] + (Decimal(m.chunkCount) + [LF])))
  }

  function ParseManifest(payload: seq<byte>): (r: Option<LargeManifest>)
  {
    if !ValidUtf8(payload) then None
    else match NextLine(payload)
         case None => None
         case Some((magic, rest)) =>
           if magic != LARGE_MANIFEST_MAGIC then None
           else match NextLine(rest)
                case None => None
                case Some((id, rest)) =>
                  match NextLine(rest)
                  case None => None
                  case Some((totalLen, rest)) =>
                    match (ParseUsize(totalLen), NextLine(rest))
                    case (Some(n), Some((count, _))) =>
                      (match ParseUsize(count)
                       case Some(k) => Some(LargeManifest(id, n, k))
                       case None => None)
                    case _ => None
  }

  /** LF or CRLF. */
  predicate LineEnd(e: seq<byte>) { e == [LF] || e == [CR, LF] }

  /** What the text of a manifest leaves open: line ends, the digits of its two numbers, and what follows. */
  datatype Spelling = Spelling(e0: seq<byte>, e1: seq<byte>, len: seq<byte>, e2: seq<byte>, count: seq<byte>, tail: seq<byte>)

  ghost predicate SpellingOf(t: Spelling, m: LargeManifest)
  {
    && LineEnd(t.e0) && LineEnd(t.e1) && LineEnd(t.e2)
    && LF !in m.id && (t.e1 == [LF] ==> !EndsInCr(m.id))
    && m.totalLen < U64 && IsNumeral(t.len, m.totalLen)
    && m.chunkCount < U64 && IsNumeral(t.count, m.chunkCount)
    && (t.tail == [] || [LF] <= t.tail || [CR, LF] <= t.tail)
  }

  function ManifestText(t: Spelling, id: seq<byte>): (r: seq<byte>)
  {
    LARGE_MANIFEST_MAGIC + (t.e0 + (id + (t.e1 + (t.len + (t.e2 + (t.count + t.tail))))))
  }

  /** `payload` is a text for `m`. */
  ghost predicate Announces(payload: seq<byte>, m: LargeManifest)
  {
    ValidUtf8(payload) && exists t {:trigger SpellingOf(t, m)} :: SpellingOf(t, m) && payload == ManifestText(t, m.id)
  }

  lemma MagicIsLine()
    ensures LF !in LARGE_MANIFEST_MAGIC && !EndsInCr(LARGE_MANIFEST_MAGIC)
  {
    var text := "WMBT_KV_SHM_LARGE_V1";
    assert forall i {:trigger text[i]} :: 0 <= i < 20 ==> text[i] as int != 10;
    assert LARGE_MANIFEST_MAGIC[19] == text[19] as int;
  }

  lemma EndedLine(line: seq<byte>, e: seq<byte>, rest: seq<byte>)
    requires LF !in line && LineEnd(e) && (e == [LF] ==> !EndsInCr(line))
    ensures NextLine(line + (e + rest)) == Some((line, rest))
  {
    NextLineIff(line + (e + rest), line, rest);
  }

  lemma CountLine(count: seq<byte>, n: nat, tail: seq<byte>) returns (rest: seq<byte>)
    requires IsNumeral(count, n) && (tail == [] || [LF] <= tail || [CR, LF] <= tail)
    ensures NextLine(count + tail) == Some((count, rest))
  {
    NumeralIsLine(count, n);
    if tail == [] {
      rest := [];
      assert count + tail == count;
      NextLineIff(count, count, []);
    } else if [LF] <= tail {
      rest := tail[1..];
      assert tail == [LF] + rest;
      EndedLine(count, [LF], rest);
    } else {
      rest := tail[2..];
      assert tail == [CR, LF] + rest;
      EndedLine(count, [CR, LF], rest);
    }
  }

  lemma AnnouncedParses(t: Spelling, m: LargeManifest)
    requires SpellingOf(t, m) && ValidUtf8(ManifestText(t, m.id))
    ensures ParseManifest(ManifestText(t, m.id)) == Some(m)
  {
    var last := t.count + t.tail;
    var len := t.len + (t.e2 + last);
    MagicIsLine();
    NumeralIsLine(t.len, m.totalLen);
    EndedLine(LARGE_MANIFEST_MAGIC, t.e0, m.id + (t.e1 + len));
    EndedLine(m.id, t.e1, len);
    EndedLine(t.len, t.e2, last);
    var rest := CountLine(t.count, m.chunkCount, t.tail);
    ParseUsizeIff(t.len, m.totalLen);
    ParseUsizeIff(t.count, m.chunkCount);
  }

  /** How a line that something follows was ended. */
  lemma LineWasEnded(s: seq<byte>) returns (e: seq<byte>)
    requires NextLine(s).Some? && NextLine(s).value.1 != []
    ensures var (line, rest) := NextLine(s).value;
            LF !in line && LineEnd(e) && (e == [LF] ==> !EndsInCr(line)) && s == line + (e + rest)
  {
    var (line, rest) := NextLine(s).value;
    NextLineIff(s, line, rest);
    e := if s == line + ([LF] + rest) && !EndsInCr(line) then [LF] else [CR, LF];
  }

  lemma LastLine(s: seq<byte>) returns (tail: seq<byte>)
    requires NextLine(s).Some?
    ensures s == NextLine(s).value.0 + tail && (tail == [] || [LF] <= tail || [CR, LF] <= tail)
  {
    var (line, rest) := NextLine(s).value;
    NextLineIff(s, line, rest);
    tail := if s == line + ([LF] + rest) && !EndsInCr(line) then [LF] + rest
            else if s == line + ([CR, LF] + rest) then [CR, LF] + rest else [];
    assert line + [] == line;
  }

  lemma ParsedIsAnnounced(payload: seq<byte>, m: LargeManifest)
    requires ParseManifest(payload) == Some(m)
    ensures Announces(payload, m)
  {
    var id := NextLine(payload).value.1;
    var len := NextLine(id).value.1;
    var last := NextLine(len).value.1;
    var e0 := LineWasEnded(payload);
    var e1 := LineWasEnded(id);
    var e2 := LineWasEnded(len);
    var tail := LastLine(last);
    var t := Spelling(e0, e1, NextLine(len).value.0, e2, NextLine(last).value.0, tail);
    ParseUsizeIff(t.len, m.totalLen);
    ParseUsizeIff(t.count, m.chunkCount);
    assert SpellingOf(t, m) && payload == ManifestText(t, m.id);
  }

  /**
   Which payloads are manifests, and of what: UTF-8 texts of the magic line, the id line and two
   lines with numbers below 2^64.  Anything may follow; nothing else is a manifest.
   */
  lemma ManifestIff(payload: seq<byte>, m: LargeManifest)
    ensures ParseManifest(payload) == Some(m) <==> Announces(payload, m)
  {
    if ParseManifest(payload) == Some(m) {
      ParsedIsAnnounced(payload, m);
    } else if Announces(payload, m) {
      var t :| SpellingOf(t, m) && payload == ManifestText(t, m.id);
      AnnouncedParses(t, m);
    }
  }

  /** A payload that is no manifest's text. */
  ghost predicate Ordinary(payload: seq<byte>) { forall m :: !Announces(payload, m) }

  lemma OrdinaryIff(payload: seq<byte>)
    ensures Ordinary(payload) <==> ParseManifest(payload).None?
  {
    if Ordinary(payload) {
      if ParseManifest(payload).Some? {
        ManifestIff(payload, ParseManifest(payload).value);
      }
    } else {
      var m :| Announces(payload, m);
      ManifestIff(payload, m);
    }
  }

  lemma AnnouncedStarts(payload: seq<byte>, m: LargeManifest)
    ensures Announces(payload, m) ==> LARGE_MANIFEST_MAGIC + [LF] <= payload || LARGE_MANIFEST_MAGIC + [CR, LF] <= payload
  {
    if Announces(payload, m) {
      var t :| SpellingOf(t, m) && payload == ManifestText(t, m.id);
      var rest := m.id + (t.e1 + (t.len + (t.e2 + (t.count + t.tail))));
      Associative(LARGE_MANIFEST_MAGIC, t.e0, rest);
      assert LARGE_MANIFEST_MAGIC + t.e0 <= payload;
    }
  }

  /** Bytes that are no text, and texts that do not start with the magic line, are ordinary. */
  lemma NoMagicIsOrdinary(payload: seq<byte>)
    requires !ValidUtf8(payload) || !(LARGE_MANIFEST_MAGIC + [LF] <= payload || LARGE_MANIFEST_MAGIC + [CR, LF] <= payload)
    ensures Ordinary(payload)
  {
    forall m
      ensures !Announces(payload, m)
    {
      AnnouncedStarts(payload, m);
    }
  }

  lemma ManifestIsText(m: LargeManifest)
    requires LowerHex(m.id)
    ensures ValidUtf8(EncodeManifest(m))
  {
    DigitsAreLines(m.totalLen);
    DigitsAreLines(m.chunkCount);
    AsciiIsUtf8(EncodeManifest(m));
  }

  /** A manifest whose id is lower-case hex parses back to itself. */
  lemma ManifestRoundTrip(m: LargeManifest)
    requires LowerHex(m.id) && m.totalLen < U64 && m.chunkCount < U64
    ensures ParseManifest(EncodeManifest(m)) == Some(m)
  {
    var last := Decimal(m.chunkCount) + [LF];
    var len := Decimal(m.totalLen) + [LF] + last;
    var id := m.id + [LF] + len;
    DigitsAreLines(m.totalLen);
    DigitsAreLines(m.chunkCount);
    ManifestIsText(m);
    LineReadsBack(LARGE_MANIFEST_MAGIC, id);
    LineReadsBack(m.id, len);
    LineReadsBack(Decimal(m.totalLen), last);
    LineReadsBack(Decimal(m.chunkCount), []);
    assert Decimal(m.chunkCount) + [LF] + [] == last;
    DecimalIsUsize(m.totalLen);
    DecimalIsUsize(m.chunkCount);
  }

  lemma DigitsAreLines(n: nat)
    ensures IsAscii(Decimal(n)) && LF !in Decimal(n) && CR !in Decimal(n)
  {
    var d := Decimal(n);
    assert forall i :: 0 <= i < |d| ==> IsDigit(d[i]);
  }

  // ---- uploads of one run ----------------------------------------------

  /** The id hash, and the uploads that clients make while the system runs. */
  datatype World = World(hash: seq<byte> -> seq<byte>, uploads: iset<Upload>) {

    function Id(u: Upload): (r: seq<byte>) { hash(Preimage(u)) }

    /** What the protocol takes for granted about its callers and its hash. */
    ghost predicate Valid()
    {
      && (forall u {:trigger WellFormed(u)} :: u in uploads ==> WellFormed(u))
      && (forall u, v {:trigger Collide(u, v)} :: u in uploads && v in uploads ==> !Collide(u, v))
    }

    /** Two hash inputs with one id. */
    ghost predicate Collide(u: Upload, v: Upload) { Id(u) == Id(v) && Preimage(u) != Preimage(v) }

    /** A user key and payload, and a 64-digit hex id. */
    ghost predicate WellFormed(u: Upload)
    {
      && NUL !in u.ns && NUL !in u.key && !Reserved(u.key)
      && |u.payload| < U64
      && (FitsOneFrame(|u.payload|) ==> Ordinary(u.payload))
      && |Id(u)| == 64 && LowerHex(Id(u))
    }

    function ManifestOf(u: Upload): (m: LargeManifest)
    {
      LargeManifest(Id(u), |u.payload|, |Chunks(u.payload)|)
    }

    function ChunkCell(u: Upload, idx: nat): (c: Cell)
    {
      Cell(u.ns, LargeChunkKey(Id(u), idx))
    }

    /** The single-key PUTs of one `put_kv` call, in order; the last one is on the user's key. */
    function Puts(u: Upload): (r: seq<(Cell, seq<byte>)>)
      ensures r != [] && r[|r| - 1].0 == u.Target()
    {
      if FitsOneFrame(|u.payload|) then [(u.Target(), u.payload)]
      else
        seq(|Chunks(u.payload)|, i requires 0 <= i < |Chunks(u.payload)| => (ChunkCell(u, i), Chunks(u.payload)[i]))
        + [(u.Target(), EncodeManifest(ManifestOf(u)))]
    }
  }

  /** No PUT is too long for a frame, and exactly the payloads that fit one go out as they are. */
  lemma PutsFitFrames(w: World, u: Upload)
    requires |u.payload| < U64 && |w.Id(u)| == 64
    ensures forall i {:trigger w.Puts(u)[i]} :: 0 <= i < |w.Puts(u)| ==> |w.Puts(u)[i].1| + 256 <= 4 * 1024 * 1024 - 16
    ensures w.Puts(u) == [(u.Target(), u.payload)] <==> |u.payload| + 256 <= 4 * 1024 * 1024 - 16
  {
    ChunksSpell(u.payload);
    ChunkCount(u.payload);
    TwentyDigits();
    DigitCount(|u.payload|, 20);
    DigitCount(|Chunks(u.payload)|, 20);
    assert |LARGE_MANIFEST_MAGIC| == 20;
  }

  /** Chunk keys name one chunk of one upload. */
  lemma ChunkCellsDistinct(w: World, u: Upload, i: nat, v: Upload, j: nat)
    requires w.Valid() && u in w.uploads && v in w.uploads
    requires w.ChunkCell(u, i) == w.ChunkCell(v, j)
    ensures u == v && i == j
  {
    assert w.WellFormed(u) && w.WellFormed(v);
    LargeChunkKeyInjective(w.Id(u), i, w.Id(v), j);
    assert !w.Collide(u, v);
    PreimageInjective(u, v);
  }

  lemma ManifestParses(w: World, u: Upload)
    requires w.Valid() && u in w.uploads
    ensures ParseManifest(EncodeManifest(w.ManifestOf(u))) == Some(w.ManifestOf(u))
  {
    assert w.WellFormed(u);
    ChunkCount(u.payload);
    ManifestRoundTrip(w.ManifestOf(u));
  }

  // ---- reading ---------------------------------------------------------

  type Store = map<Cell, seq<byte>>

  datatype Outcome =
    | Hit(payload: seq<byte>)
    | Miss
    | MissingChunk(idx: nat)
    | LengthMismatch(expected: nat, got: nat)

  /** `get_large_kv` from chunk `next` on, with `out` already read, if nobody else moved. */
  function FetchFrom(store: Store, ns: seq<byte>, m: LargeManifest, next: nat, out: seq<byte>): (r: Outcome)
    decreases m.chunkCount - next
  {
    if next >= m.chunkCount then
      if |out| != m.totalLen then LengthMismatch(m.totalLen, |out|) else Hit(out)
    else
      var c := Cell(ns, LargeChunkKey(m.id, next));
      if c !in store then MissingChunk(next) else FetchFrom(store, ns, m, next + 1, out + store[c])
  }

  /** `get_kv`, if nobody else moved. */
  function GetAlone(store: Store, c: Cell): (r: Outcome)
  {
    if c !in store then Miss
    else match ParseManifest(store[c])
         case None => Hit(store[c])
         case Some(m) => FetchFrom(store, c.ns, m, 0, [])
  }

  /** The chunks that a manifest names, from `next` on. */
  predicate Named(store: Store, ns: seq<byte>, m: LargeManifest, next: nat)
  {
    forall i {:trigger LargeChunkKey(m.id, i)} :: next <= i < m.chunkCount ==> Cell(ns, LargeChunkKey(m.id, i)) in store
  }

  function Joined(store: Store, ns: seq<byte>, m: LargeManifest, next: nat): (r: seq<byte>)
    requires Named(store, ns, m, next)
    decreases m.chunkCount - next
  {
    if next >= m.chunkCount then [] else store[Cell(ns, LargeChunkKey(m.id, next))] + Joined(store, ns, m, next + 1)
  }

  /** A fetch gives `payload` exactly when the chunks it still needs are there, complete `out` to it, and have the stated length. */
  lemma {:induction false} FetchIff(store: Store, ns: seq<byte>, m: LargeManifest, next: nat, out: seq<byte>, payload: seq<byte>)
    ensures FetchFrom(store, ns, m, next, out) == Hit(payload) <==>
            Named(store, ns, m, next) && out + Joined(store, ns, m, next) == payload && |payload| == m.totalLen
    decreases m.chunkCount - next
  {
    if next >= m.chunkCount {
      assert out + [] == out;
    } else {
      var c := Cell(ns, LargeChunkKey(m.id, next));
      if c in store {
        FetchIff(store, ns, m, next + 1, out + store[c], payload);
        NamedNext(store, ns, m, next);
        if Named(store, ns, m, next) {
          Associative(out, store[c], Joined(store, ns, m, next + 1));
        }
      }
    }
  }

  lemma NamedNext(store: Store, ns: seq<byte>, m: LargeManifest, next: nat)
    requires next < m.chunkCount && Cell(ns, LargeChunkKey(m.id, next)) in store
    ensures Named(store, ns, m, next) <==> Named(store, ns, m, next + 1)
  {
  }

  /** A fetch misses exactly the first chunk that is not there, and complains of a length exactly when all are. */
  lemma {:induction false} FetchFailsIff(store: Store, ns: seq<byte>, m: LargeManifest, next: nat, out: seq<byte>, failed: Outcome)
    requires next <= m.chunkCount
    ensures FetchFrom(store, ns, m, next, out) == failed && !failed.Hit? <==> FetchFails(store, ns, m, next, out, failed)
    decreases m.chunkCount - next
  {
    if next < m.chunkCount {
      var c := Cell(ns, LargeChunkKey(m.id, next));
      if c in store {
        FetchFailsIff(store, ns, m, next + 1, out + store[c], failed);
        NamedNext(store, ns, m, next);
        if Named(store, ns, m, next) {
          Associative(out, store[c], Joined(store, ns, m, next + 1));
        }
      }
    }
  }

  ghost predicate FetchFails(store: Store, ns: seq<byte>, m: LargeManifest, next: nat, out: seq<byte>, failed: Outcome)
  {
    match failed
    case MissingChunk(idx) =>
      && next <= idx < m.chunkCount && Cell(ns, LargeChunkKey(m.id, idx)) !in store
      && (forall i {:trigger LargeChunkKey(m.id, i)} :: next <= i < idx ==> Cell(ns, LargeChunkKey(m.id, i)) in store)
    case LengthMismatch(expected, got) =>
      && Named(store, ns, m, next)
      && expected == m.totalLen != got && got == |out + Joined(store, ns, m, next)|
    case _ => false
  }

  /** The chunks that a manifest names are stored, and joined they are `payload`, of the announced length. */
  ghost predicate Delivers(store: Store, ns: seq<byte>, m: LargeManifest, payload: seq<byte>)
  {
    Named(store, ns, m, 0) && Joined(store, ns, m, 0) == payload && |payload| == m.totalLen
  }

  /** What a read gives: the stored bytes when they are no manifest, else what the manifest delivers. */
  lemma GetHitsIff(store: Store, c: Cell, payload: seq<byte>)
    ensures GetAlone(store, c) == Miss <==> c !in store
    ensures GetAlone(store, c) == Hit(payload) <==>
            c in store && ((Ordinary(store[c]) && payload == store[c])
                           || exists m :: Announces(store[c], m) && Delivers(store, c.ns, m, payload))
  {
    if c in store {
      OrdinaryIff(store[c]);
      var parsed := ParseManifest(store[c]);
      if parsed.Some? {
        NeverMisses(store, c.ns, parsed.value, 0, []);
        ManifestIff(store[c], parsed.value);
        HitIsDelivered(store, c.ns, parsed.value, payload);
        forall m | Announces(store[c], m)
          ensures m == parsed.value
        {
          ManifestIff(store[c], m);
        }
      }
    }
  }

  /** A read fails exactly when a manifest is stored whose fetch fails, and as that fetch does. */
  lemma GetFailsIff(store: Store, c: Cell, failed: Outcome)
    requires failed.MissingChunk? || failed.LengthMismatch?
    ensures GetAlone(store, c) == failed <==>
            c in store && exists m :: Announces(store[c], m) && FetchFails(store, c.ns, m, 0, [], failed)
  {
    if c in store {
      OrdinaryIff(store[c]);
      var parsed := ParseManifest(store[c]);
      if parsed.Some? {
        ManifestIff(store[c], parsed.value);
        FetchFailsIff(store, c.ns, parsed.value, 0, [], failed);
        forall m | Announces(store[c], m)
          ensures m == parsed.value
        {
          ManifestIff(store[c], m);
        }
      }
    }
  }

  lemma HitIsDelivered(store: Store, ns: seq<byte>, m: LargeManifest, payload: seq<byte>)
    ensures FetchFrom(store, ns, m, 0, []) == Hit(payload) <==> Delivers(store, ns, m, payload)
  {
    FetchIff(store, ns, m, 0, [], payload);
    if Named(store, ns, m, 0) {
      assert [] + Joined(store, ns, m, 0) == Joined(store, ns, m, 0);
    }
  }

  lemma {:induction false} NeverMisses(store: Store, ns: seq<byte>, m: LargeManifest, next: nat, out: seq<byte>)
    ensures FetchFrom(store, ns, m, next, out) != Miss
    decreases m.chunkCount - next
  {
    if next < m.chunkCount {
      var c := Cell(ns, LargeChunkKey(m.id, next));
      if c in store {
        NeverMisses(store, ns, m, next + 1, out + store[c]);
      }
    }
  }

  /** A value that is no text or lacks the magic line is read back, whatever else the store holds. */
  lemma BinaryReadsBack(store: Store, c: Cell, payload: seq<byte>)
    requires !ValidUtf8(payload) || !(LARGE_MANIFEST_MAGIC + [LF] <= payload || LARGE_MANIFEST_MAGIC + [CR, LF] <= payload)
    ensures GetAlone(store[c := payload], c) == Hit(payload)
  {
    NoMagicIsOrdinary(payload);
    GetHitsIff(store[c := payload], c, payload);
  }

  /**
   Why small user payloads must not look like manifests.  In any store, a value that is put raw is
   read back exactly when it is no manifest's text, or the manifest it spells delivers that very text.
   */
  lemma SmallPutReadsBackIff(store: Store, c: Cell, payload: seq<byte>)
    ensures var store' := store[c := payload];
            (GetAlone(store', c) == Hit(payload) <==>
             Ordinary(payload) || exists m :: Announces(payload, m) && Delivers(store', c.ns, m, payload))
  {
    GetHitsIff(store[c := payload], c, payload);
  }

  /** Such a value exists: it is accepted by `put_kv` and comes back empty. */
  lemma ManifestShapedPayloadIsLost(c: Cell)
    ensures var payload := EncodeManifest(LargeManifest([], 0, 0));
            FitsOneFrame(|payload|) && payload != [] && GetAlone(map[c := payload], c) == Hit([])
  {
    var m := LargeManifest([], 0, 0);
    ManifestRoundTrip(m);
    assert |Decimal(0)| == 1;
  }

  // ---- the concurrent system -------------------------------------------

  /** A call in progress, or a returned result not yet taken by its caller. */
  datatype Op =
    | Putting(u: Upload, next: nat)
    | Reading(cell: Cell)
    | Fetching(cell: Cell, manifest: LargeManifest, next: nat, out: seq<byte>)
    | Returned(cell: Cell, outcome: Outcome)

  datatype State = State(store: Store, ops: map<nat, Op>)

  /** `Forget` is a client that times out, fails, goes away, or has taken its result. */
  datatype Action =
    | BeginPut(op: nat, u: Upload)
    | Put(op: nat)
    | BeginGet(op: nat, cell: Cell)
    | Read(op: nat)
    | Fetch(op: nat)
    | Forget(op: nat)

  const INITIAL: State := State(map[], map[])

  ghost predicate Enabled(w: World, s: State, a: Action)
  {
    match a
    case BeginPut(op, u) => op !in s.ops && u in w.uploads
    case Put(op) => op in s.ops && s.ops[op].Putting? && s.ops[op].next < |w.Puts(s.ops[op].u)|
    case BeginGet(op, cell) => op !in s.ops && !Reserved(cell.key)
    case Read(op) => op in s.ops && s.ops[op].Reading?
    case Fetch(op) => op in s.ops && s.ops[op].Fetching?
    case Forget(op) => op in s.ops
  }

  /** The next PUT of a put call; the call ends with the PUT on the user's key. */
  ghost function AfterPut(w: World, s: State, op: nat): (r: State)
    requires Enabled(w, s, Put(op))
  {
    var p := s.ops[op];
    var put := w.Puts(p.u)[p.next];
    State(s.store[put.0 := put.1],
          if p.next + 1 == |w.Puts(p.u)| then s.ops - {op} else s.ops[op := Putting(p.u, p.next + 1)])
  }

  /** The GET on the user's key: a value, a miss, or a manifest to follow. */
  ghost function ReadCell(store: Store, c: Cell): (r: Op)
  {
    if c !in store then Returned(c, Miss)
    else match ParseManifest(store[c])
         case None => Returned(c, Hit(store[c]))
         case Some(m) => Fetching(c, m, 0, [])
  }

  /** The GET of the next chunk, or the length check after the last one. */
  ghost function FetchNext(store: Store, f: Op): (r: Op)
    requires f.Fetching?
  {
    if f.next >= f.manifest.chunkCount then
      Returned(f.cell, if |f.out| != f.manifest.totalLen then LengthMismatch(f.manifest.totalLen, |f.out|) else Hit(f.out))
    else
      var c := Cell(f.cell.ns, LargeChunkKey(f.manifest.id, f.next));
      if c !in store then Returned(f.cell, MissingChunk(f.next))
      else f.(next := f.next + 1, out := f.out + store[c])
  }

  /** One atomic step. */
  ghost function Step(w: World, s: State, a: Action): (r: State)
    requires Enabled(w, s, a)
  {
    match a
    case BeginPut(op, u) => s.(ops := s.ops[op := Putting(u, 0)])
    case Put(op) => AfterPut(w, s, op)
    case BeginGet(op, cell) => s.(ops := s.ops[op := Reading(cell)])
    case Read(op) => s.(ops := s.ops[op := ReadCell(s.store, s.ops[op].cell)])
    case Fetch(op) => s.(ops := s.ops[op := FetchNext(s.store, s.ops[op])])
    case Forget(op) => s.(ops := s.ops - {op})
  }

  // ---- calls that run to their end ------------------------------------------

  function FetchesLeft(op: Op): (n: nat)
  {
    if !op.Fetching? then 0 else if op.next >= op.manifest.chunkCount then 1 else 1 + op.manifest.chunkCount - op.next
  }

  /** A get with its chunk GETs made one after the other. */
  ghost function FetchAll(w: World, s: State, op: nat): (r: State)
    requires op in s.ops
    decreases FetchesLeft(s.ops[op])
  {
    if !s.ops[op].Fetching? then s else FetchAll(w, Step(w, s, Fetch(op)), op)
  }

  function WithOp(s: State, op: nat, o: Op): (r: State) { State(s.store, s.ops[op := o]) }

  lemma {:induction false} FetchCompletes(w: World, s: State, op: nat, f: Op)
    requires f.Fetching?
    ensures FetchAll(w, WithOp(s, op, f), op) ==
            WithOp(s, op, Returned(f.cell, FetchFrom(s.store, f.cell.ns, f.manifest, f.next, f.out)))
    decreases FetchesLeft(f)
  {
    var next := FetchNext(s.store, f);
    assert Step(w, WithOp(s, op, f), Fetch(op)) == WithOp(s, op, next);
    if next.Fetching? {
      FetchCompletes(w, s, op, next);
    }
  }

  /** In any state, reachable or not, a get left alone returns what the call gives alone, and changes nothing else. */
  lemma GetCompletes(w: World, s: State, op: nat, c: Cell)
    requires op !in s.ops && !Reserved(c.key)
    ensures Enabled(w, s, BeginGet(op, c)) && Enabled(w, Step(w, s, BeginGet(op, c)), Read(op))
    ensures FetchAll(w, Step(w, Step(w, s, BeginGet(op, c)), Read(op)), op) == WithOp(s, op, Returned(c, GetAlone(s.store, c)))
  {
    var o := ReadCell(s.store, c);
    assert Step(w, s, BeginGet(op, c)) == WithOp(s, op, Reading(c));
    assert Step(w, WithOp(s, op, Reading(c)), Read(op)) == WithOp(s, op, o);
    if o.Fetching? {
      FetchCompletes(w, s, op, o);
    }
  }

  /** The next `n` PUTs of a put call. */
  ghost function PutsOn(w: World, s: State, op: nat, n: nat): (r: State)
    requires n > 0 ==> Enabled(w, s, Put(op))
    decreases n
  {
    if n == 0 then s
    else
      var s' := Step(w, s, Put(op));
      if n > 1 && Enabled(w, s', Put(op)) then PutsOn(w, s', op, n - 1) else s'
  }

  /** A put call that is left alone makes all its PUTs in order, and is over with the last one, not before. */
  lemma {:induction false} PutCompletes(w: World, s: State, op: nat)
    requires Enabled(w, s, Put(op))
    ensures var puts := w.Puts(s.ops[op].u)[s.ops[op].next..];
            PutsOn(w, s, op, |puts|) == State(ApplyPuts(s.store, puts), s.ops - {op})
    decreases |w.Puts(s.ops[op].u)| - s.ops[op].next
  {
    var u, next := s.ops[op].u, s.ops[op].next;
    var puts := w.Puts(u);
    var store' := s.store[puts[next].0 := puts[next].1];
    ApplyFirst(s.store, puts[next..]);
    assert puts[next..][1..] == puts[next + 1..];
    if next + 1 < |puts| {
      var s' := State(store', s.ops[op := Putting(u, next + 1)]);
      assert Step(w, s, Put(op)) == s';
      PutCompletes(w, s', op);
      OpsBack(s.ops, op, Putting(u, next + 1));
    } else {
      assert Step(w, s, Put(op)) == State(store', s.ops - {op});
      assert puts[next + 1..] == [];
    }
  }

  lemma PutFromStart(w: World, s: State, op: nat, u: Upload)
    requires op !in s.ops && u in w.uploads
    ensures Enabled(w, s, BeginPut(op, u)) && Enabled(w, Step(w, s, BeginPut(op, u)), Put(op))
    ensures PutsOn(w, Step(w, s, BeginPut(op, u)), op, |w.Puts(u)|) == State(ApplyPuts(s.store, w.Puts(u)), s.ops)
  {
    var s' := WithOp(s, op, Putting(u, 0));
    assert Step(w, s, BeginPut(op, u)) == s';
    assert w.Puts(u)[0..] == w.Puts(u);
    PutCompletes(w, s', op);
    assert s'.ops - {op} == s.ops;
  }

  lemma OpsBack(ops: map<nat, Op>, op: nat, o: Op)
    ensures ops[op := o] - {op} == ops - {op}
  {
  }

  lemma {:induction false} ApplyFirst(store: Store, puts: seq<(Cell, seq<byte>)>)
    requires puts != []
    ensures ApplyPuts(store, puts) == ApplyPuts(store[puts[0].0 := puts[0].1], puts[1..])
  {
    var n := |puts| - 1;
    if n > 0 {
      ApplyFirst(store, puts[..n]);
      assert puts[..n][1..] == puts[1..][..n - 1];
    }
  }

  // ---- the specification: one atomic register per key -------------------

  datatype Register = Register(value: map<Cell, seq<byte>>, results: map<nat, Outcome>)

  datatype Event = Write(cell: Cell, payload: seq<byte>) | Observe(op: nat, cell: Cell) | Drop(op: nat) | Silent

  ghost function SpecStep(r: Register, e: Event): (r': Register)
  {
    match e
    case Write(cell, payload) => r.(value := r.value[cell := payload])
    case Observe(op, cell) =>
      r.(results := r.results[op := if cell in r.value then Hit(r.value[cell]) else Miss])
    case Drop(op) => r.(results := r.results - {op})
    case Silent => r
  }

  /** A put takes effect at its last PUT, a get at its read of the user's key. */
  ghost function EventOf(w: World, s: State, a: Action): (e: Event)
    requires Enabled(w, s, a)
  {
    match a
    case Put(op) =>
      var p := s.ops[op];
      if p.next + 1 == |w.Puts(p.u)| then Write(p.u.Target(), p.u.payload) else Silent
    case Read(op) => Observe(op, s.ops[op].cell)
    case Forget(op) => Drop(op)
    case _ => Silent
  }

  /** Has the call read the user's key? */
  predicate Committed(op: Op) { op.Fetching? || op.Returned? }

  /** What a call that has read the user's key will return, if nobody else moves. */
  ghost function Pending(store: Store, op: Op): (r: Outcome)
    requires Committed(op)
  {
    match op
    case Fetching(cell, m, next, out) => FetchFrom(store, cell.ns, m, next, out)
    case Returned(_, outcome) => outcome
  }

  ghost function ValuesOf(store: Store): (r: map<Cell, seq<byte>>)
  {
    map c | c in store && !Reserved(c.key) && GetAlone(store, c).Hit? :: GetAlone(store, c).payload
  }

  ghost function ResultsOf(store: Store, ops: map<nat, Op>): (r: map<nat, Outcome>)
  {
    map op | op in ops && Committed(ops[op]) :: Pending(store, ops[op])
  }

  /** The register a state stands for. */
  ghost function Abs(s: State): (r: Register)
  {
    Register(ValuesOf(s.store), ResultsOf(s.store, s.ops))
  }

  lemma ValuesKept(store: Store, store': Store)
    requires forall c: Cell :: !Reserved(c.key) ==> GetAlone(store', c) == GetAlone(store, c)
    ensures ValuesOf(store') == ValuesOf(store)
  {
    var l := ValuesOf(store');
    assert forall c :: c in l <==> c in ValuesOf(store);
  }

  lemma ValuesWritten(store: Store, store': Store, target: Cell, payload: seq<byte>)
    requires !Reserved(target.key) && GetAlone(store', target) == Hit(payload)
    requires forall c: Cell :: !Reserved(c.key) && c != target ==> GetAlone(store', c) == GetAlone(store, c)
    ensures ValuesOf(store') == ValuesOf(store)[target := payload]
  {
    ValueAt(store', target);
    forall c | c != target
      ensures c in ValuesOf(store') <==> c in ValuesOf(store)
      ensures c in ValuesOf(store) && c in ValuesOf(store') ==> ValuesOf(store')[c] == ValuesOf(store)[c]
    {
      ValueAt(store, c);
      ValueAt(store', c);
    }
    Overwritten(ValuesOf(store), ValuesOf(store'), target, payload);
  }

  lemma ValueAt(store: Store, c: Cell)
    ensures c in ValuesOf(store) <==> !Reserved(c.key) && GetAlone(store, c).Hit?
    ensures c in ValuesOf(store) ==> ValuesOf(store)[c] == GetAlone(store, c).payload
  {
  }

  lemma Overwritten(m: map<Cell, seq<byte>>, m': map<Cell, seq<byte>>, target: Cell, payload: seq<byte>)
    requires target in m' && m'[target] == payload
    requires forall c :: c != target ==> (c in m' <==> c in m) && (c in m && c in m' ==> m'[c] == m[c])
    ensures m' == m[target := payload]
  {
    assert forall c :: c in m' <==> c in m[target := payload];
  }

  lemma ResultsCommit(store: Store, ops: map<nat, Op>, op: nat, o: Op)
    requires Committed(o)
    ensures ResultsOf(store, ops[op := o]) == ResultsOf(store, ops)[op := Pending(store, o)]
  {
    var l := ResultsOf(store, ops[op := o]);
    var r := ResultsOf(store, ops)[op := Pending(store, o)];
    assert forall k :: k in l <==> k in r;
  }

  lemma ResultsDrop(store: Store, ops: map<nat, Op>, op: nat)
    ensures ResultsOf(store, ops - {op}) == ResultsOf(store, ops) - {op}
  {
    var l := ResultsOf(store, ops - {op});
    var r := ResultsOf(store, ops) - {op};
    assert forall k :: k in l <==> k in r;
  }

  lemma ResultsUncommitted(store: Store, ops: map<nat, Op>, op: nat, o: Op)
    requires !Committed(o) && (op in ops ==> !Committed(ops[op]))
    ensures ResultsOf(store, ops[op := o]) == ResultsOf(store, ops)
  {
    var l := ResultsOf(store, ops[op := o]);
    assert forall k :: k in l <==> k in ResultsOf(store, ops);
  }

  lemma ResultsMoved(store: Store, store': Store, ops: map<nat, Op>)
    requires forall k :: k in ops && Committed(ops[k]) ==> Pending(store, ops[k]) == Pending(store', ops[k])
    ensures ResultsOf(store', ops) == ResultsOf(store, ops)
  {
    var l := ResultsOf(store', ops);
    assert forall k :: k in l <==> k in ResultsOf(store, ops);
  }

  // ---- the invariant ---------------------------------------------------

  /** The first `n` chunks of `u` are stored, with their contents. */
  ghost predicate ChunksStored(w: World, store: Store, u: Upload, n: nat)
  {
    && n <= |Chunks(u.payload)|
    && forall i :: 0 <= i < n ==> w.ChunkCell(u, i) in store && store[w.ChunkCell(u, i)] == Chunks(u.payload)[i]
  }

  /** Cell `c` holds `u`: raw when small, as a manifest over stored chunks when large. */
  ghost predicate Holds(w: World, store: Store, c: Cell, u: Upload)
  {
    && u.Target() == c
    && c in store && store[c] == w.Puts(u)[|w.Puts(u)| - 1].1
    && (!FitsOneFrame(|u.payload|) ==> ChunksStored(w, store, u, |Chunks(u.payload)|))
  }

  ghost predicate OpInv(w: World, store: Store, op: Op)
  {
    match op
    case Putting(u, next) =>
      && u in w.uploads && next < |w.Puts(u)|
      && (!FitsOneFrame(|u.payload|) ==> ChunksStored(w, store, u, next))
    case Reading(cell) => !Reserved(cell.key)
    case Fetching(cell, m, next, out) =>
      exists u :: u in w.uploads && FetchInv(w, store, u, cell, m, next, out)
    case Returned(cell, outcome) =>
      outcome.Miss? || (outcome.Hit? && Upload(cell.ns, cell.key, outcome.payload) in w.uploads)
  }

  ghost predicate FetchInv(w: World, store: Store, u: Upload, cell: Cell, m: LargeManifest, next: nat, out: seq<byte>)
  {
    && u.Target() == cell && m == w.ManifestOf(u)
    && ChunksStored(w, store, u, |Chunks(u.payload)|)
    && next <= |Chunks(u.payload)| && out == Concat(Chunks(u.payload)[..next])
  }

  ghost predicate CellInv(w: World, store: Store, c: Cell)
  {
    exists u :: u in w.uploads && Holds(w, store, c, u)
  }

  ghost predicate Inv(w: World, s: State)
  {
    && (forall c {:trigger CellInv(w, s.store, c)} :: c in s.store && !Reserved(c.key) ==> CellInv(w, s.store, c))
    && (forall op {:trigger OpInv(w, s.store, s.ops[op])} :: op in s.ops ==> OpInv(w, s.store, s.ops[op]))
  }

  // ---- reading under the invariant --------------------------------------

  lemma NextChunkFetched(w: World, store: Store, u: Upload, next: nat, out: seq<byte>)
    requires FetchInv(w, store, u, u.Target(), w.ManifestOf(u), next, out) && next < |Chunks(u.payload)|
    ensures var out' := out + Chunks(u.payload)[next];
            && FetchInv(w, store, u, u.Target(), w.ManifestOf(u), next + 1, out')
            && FetchFrom(store, u.ns, w.ManifestOf(u), next, out) == FetchFrom(store, u.ns, w.ManifestOf(u), next + 1, out')
  {
    OneMore(Chunks(u.payload), next, out);
    NextChunkStored(w, store, u, next);
  }

  lemma OneMore(chunks: seq<seq<byte>>, next: nat, out: seq<byte>)
    requires next < |chunks| && out == Concat(chunks[..next])
    ensures out + chunks[next] == Concat(chunks[..next + 1])
  {
    ConcatSnoc(chunks[..next], chunks[next]);
    assert chunks[..next + 1] == chunks[..next] + [chunks[next]];
  }

  lemma NextChunkStored(w: World, store: Store, u: Upload, next: nat)
    requires ChunksStored(w, store, u, |Chunks(u.payload)|) && next < |Chunks(u.payload)|
    ensures w.ChunkCell(u, next) in store && store[w.ChunkCell(u, next)] == Chunks(u.payload)[next]
  {
  }

  /** With all chunks of `u` stored, a fetch from anywhere ends with the whole payload. */
  lemma {:induction false} FetchYields(w: World, store: Store, u: Upload, next: nat, out: seq<byte>)
    requires FetchInv(w, store, u, u.Target(), w.ManifestOf(u), next, out)
    ensures FetchFrom(store, u.ns, w.ManifestOf(u), next, out) == Hit(u.payload)
    decreases |Chunks(u.payload)| - next
  {
    var chunks := Chunks(u.payload);
    if next == |chunks| {
      ChunksSpell(u.payload);
      assert chunks[..next] == chunks;
    } else {
      NextChunkFetched(w, store, u, next, out);
      FetchYields(w, store, u, next + 1, out + chunks[next]);
    }
  }

  lemma HoldsReads(w: World, store: Store, c: Cell, u: Upload)
    requires w.Valid() && u in w.uploads && Holds(w, store, c, u)
    ensures GetAlone(store, c) == Hit(u.payload)
  {
    assert w.WellFormed(u);
    if FitsOneFrame(|u.payload|) {
      OrdinaryIff(u.payload);
    } else {
      ManifestParses(w, u);
      FetchYields(w, store, u, 0, []);
    }
  }

  /** A PUT of a chunk of `v` keeps every stored chunk as it is. */
  lemma ChunkPutKeepsChunks(w: World, store: Store, v: Upload, j: nat, u: Upload, n: nat)
    requires w.Valid() && u in w.uploads && v in w.uploads
    requires j < |Chunks(v.payload)| && ChunksStored(w, store, u, n)
    ensures ChunksStored(w, store[w.ChunkCell(v, j) := Chunks(v.payload)[j]], u, n)
  {
    forall i | 0 <= i < n && w.ChunkCell(u, i) == w.ChunkCell(v, j)
      ensures u == v && i == j
    {
      ChunkCellsDistinct(w, u, i, v, j);
    }
  }

  /** A PUT on a user's key touches no chunk. */
  lemma UserPutKeepsChunks(w: World, store: Store, c: Cell, value: seq<byte>, u: Upload, n: nat)
    requires !Reserved(c.key) && ChunksStored(w, store, u, n)
    ensures ChunksStored(w, store[c := value], u, n)
  {
    forall i | 0 <= i < n
      ensures w.ChunkCell(u, i) != c
    {
      LargeChunkKeyReserved(w.Id(u), i);
    }
  }

  /** Chunks stored before a PUT of the protocol are stored after it. */
  ghost predicate KeepsChunks(w: World, store: Store, store': Store)
  {
    forall u, n {:trigger ChunksStored(w, store', u, n)} ::
      u in w.uploads && ChunksStored(w, store, u, n) ==> ChunksStored(w, store', u, n)
  }

  lemma PutKeepsChunks(w: World, s: State, op: nat)
    requires w.Valid() && Inv(w, s) && Enabled(w, s, Put(op))
    ensures KeepsChunks(w, s.store, AfterPut(w, s, op).store)
  {
    var p := s.ops[op];
    assert OpInv(w, s.store, p) && w.WellFormed(p.u);
    forall u, n | u in w.uploads && ChunksStored(w, s.store, u, n)
      ensures ChunksStored(w, AfterPut(w, s, op).store, u, n)
    {
      if p.next + 1 == |w.Puts(p.u)| {
        UserPutKeepsChunks(w, s.store, p.u.Target(), w.Puts(p.u)[p.next].1, u, n);
      } else {
        ChunkPutKeepsChunks(w, s.store, p.u, p.next, u, n);
      }
    }
  }

  lemma OpInvKept(w: World, store: Store, store': Store, op: Op)
    requires KeepsChunks(w, store, store') && OpInv(w, store, op)
    ensures OpInv(w, store', op)
  {
    match op
    case Fetching(cell, m, next, out) =>
      var u :| u in w.uploads && FetchInv(w, store, u, cell, m, next, out);
      assert FetchInv(w, store', u, cell, m, next, out);
    case _ =>
  }

  /** A cell that a PUT did not write still holds the same upload. */
  lemma CellKept(w: World, store: Store, store': Store, c: Cell, u: Upload)
    requires KeepsChunks(w, store, store')
    requires u in w.uploads && Holds(w, store, c, u)
    requires c in store' && store'[c] == store[c]
    ensures Holds(w, store', c, u)
  {
  }

  /** The upload a user cell holds after a PUT: the put's own at its end, else the old one. */
  lemma CellAfterPut(w: World, s: State, op: nat, c: Cell) returns (u: Upload)
    requires w.Valid() && Inv(w, s) && Enabled(w, s, Put(op))
    requires c in AfterPut(w, s, op).store && !Reserved(c.key)
    ensures u in w.uploads && Holds(w, AfterPut(w, s, op).store, c, u)
    ensures var p := s.ops[op];
            if p.next + 1 == |w.Puts(p.u)| && c == p.u.Target() then u == p.u
            else c in s.store && Holds(w, s.store, c, u)
  {
    var p := s.ops[op];
    var store' := AfterPut(w, s, op).store;
    assert OpInv(w, s.store, p) && w.WellFormed(p.u);
    PutKeepsChunks(w, s, op);
    if p.next + 1 == |w.Puts(p.u)| && c == p.u.Target() {
      u := p.u;
    } else {
      if p.next + 1 < |w.Puts(p.u)| {
        LargeChunkKeyReserved(w.Id(p.u), p.next);
      }
      assert c in s.store && store'[c] == s.store[c];
      assert CellInv(w, s.store, c);
      u :| u in w.uploads && Holds(w, s.store, c, u);
      CellKept(w, s.store, store', c, u);
    }
  }

  lemma ChunkStoredNow(w: World, store: Store, u: Upload, n: nat)
    requires n < |Chunks(u.payload)|
    requires ChunksStored(w, store, u, n)
    requires w.ChunkCell(u, n) in store && store[w.ChunkCell(u, n)] == Chunks(u.payload)[n]
    ensures ChunksStored(w, store, u, n + 1)
  {
  }

  lemma PutterInv(w: World, s: State, op: nat)
    requires w.Valid() && Inv(w, s) && Enabled(w, s, Put(op))
    requires s.ops[op].next + 1 < |w.Puts(s.ops[op].u)|
    ensures OpInv(w, AfterPut(w, s, op).store, Putting(s.ops[op].u, s.ops[op].next + 1))
  {
    var p := s.ops[op];
    assert OpInv(w, s.store, p);
    PutKeepsChunks(w, s, op);
    ChunkStoredNow(w, AfterPut(w, s, op).store, p.u, p.next);
  }

  lemma PutPreserves(w: World, s: State, op: nat)
    requires w.Valid() && Inv(w, s) && Enabled(w, s, Put(op))
    ensures Inv(w, AfterPut(w, s, op))
  {
    var s' := AfterPut(w, s, op);
    PutKeepsChunks(w, s, op);
    forall c | c in s'.store && !Reserved(c.key)
      ensures CellInv(w, s'.store, c)
    {
      var u := CellAfterPut(w, s, op, c);
    }
    forall o | o in s'.ops
      ensures OpInv(w, s'.store, s'.ops[o])
    {
      if o == op {
        PutterInv(w, s, op);
      } else {
        OpInvKept(w, s.store, s'.store, s.ops[o]);
      }
    }
  }

  /** The GET on a user key commits the call to what the key holds now. */
  lemma ReadCommits(w: World, s: State, c: Cell)
    requires w.Valid() && Inv(w, s) && !Reserved(c.key)
    ensures OpInv(w, s.store, ReadCell(s.store, c))
    ensures Pending(s.store, ReadCell(s.store, c)) == GetAlone(s.store, c)
    ensures c in s.store ==> GetAlone(s.store, c).Hit?
  {
    if c in s.store {
      assert CellInv(w, s.store, c);
      var u :| u in w.uploads && Holds(w, s.store, c, u);
      HoldsReads(w, s.store, c, u);
      assert w.WellFormed(u);
      if FitsOneFrame(|u.payload|) {
        OrdinaryIff(u.payload);
        assert u == Upload(c.ns, c.key, u.payload);
      } else {
        ManifestParses(w, u);
        assert FetchInv(w, s.store, u, c, w.ManifestOf(u), 0, []);
      }
    }
  }

  lemma FetchedOneMore(w: World, store: Store, u: Upload, f: Op)
    requires f.Fetching? && FetchInv(w, store, u, f.cell, f.manifest, f.next, f.out)
    requires f.next < |Chunks(u.payload)|
    ensures var f' := FetchNext(store, f);
            f'.Fetching? && FetchInv(w, store, u, f'.cell, f'.manifest, f'.next, f'.out)
  {
    OneMore(Chunks(u.payload), f.next, f.out);
    NextChunkStored(w, store, u, f.next);
  }

  /** The GET of a chunk brings the call nearer to the result it is committed to. */
  lemma FetchAdvances(w: World, store: Store, f: Op)
    requires w.Valid() && f.Fetching? && OpInv(w, store, f)
    ensures OpInv(w, store, FetchNext(store, f))
    ensures Pending(store, FetchNext(store, f)) == Pending(store, f)
  {
    var u :| u in w.uploads && FetchInv(w, store, u, f.cell, f.manifest, f.next, f.out);
    var f' := FetchNext(store, f);
    FetchYields(w, store, u, f.next, f.out);
    if f.next < |Chunks(u.payload)| {
      FetchedOneMore(w, store, u, f);
      FetchYields(w, store, u, f'.next, f'.out);
    } else {
      assert f' == Returned(f.cell, Hit(u.payload));
      assert u == Upload(f.cell.ns, f.cell.key, u.payload);
    }
  }

  /** Every step of every client keeps the invariant. */
  lemma StepPreserves(w: World, s: State, a: Action)
    requires w.Valid() && Inv(w, s) && Enabled(w, s, a)
    ensures Inv(w, Step(w, s, a))
  {
    match a
    case Put(op) => PutPreserves(w, s, op);
    case Read(op) =>
      assert OpInv(w, s.store, s.ops[op]);
      ReadCommits(w, s, s.ops[op].cell);
    case Fetch(op) => FetchAdvances(w, s.store, s.ops[op]);
    case _ =>
  }

  // ---- refinement ------------------------------------------------------

  /** What the PUTs of others do to a call that is collecting chunks: nothing. */
  lemma PendingStable(w: World, store: Store, store': Store, op: Op)
    requires KeepsChunks(w, store, store') && OpInv(w, store, op)
    requires Committed(op)
    ensures Pending(store, op) == Pending(store', op)
  {
    if op.Fetching? {
      var u :| u in w.uploads && FetchInv(w, store, u, op.cell, op.manifest, op.next, op.out);
      FetchYields(w, store, u, op.next, op.out);
      FetchYields(w, store', u, op.next, op.out);
    }
  }

  lemma PutRefinesValue(w: World, s: State, op: nat, c: Cell)
    requires w.Valid() && Inv(w, s) && Enabled(w, s, Put(op)) && !Reserved(c.key)
    ensures var s' := AfterPut(w, s, op);
            var p := s.ops[op];
            GetAlone(s'.store, c) ==
            if p.next + 1 == |w.Puts(p.u)| && c == p.u.Target() then Hit(p.u.payload) else GetAlone(s.store, c)
  {
    var p := s.ops[op];
    var store' := AfterPut(w, s, op).store;
    if c in store' {
      var u := CellAfterPut(w, s, op, c);
      HoldsReads(w, store', c, u);
      if !(p.next + 1 == |w.Puts(p.u)| && c == p.u.Target()) {
        HoldsReads(w, s.store, c, u);
      }
    }
  }

  lemma CellsAreHits(w: World, s: State, c: Cell)
    requires w.Valid() && Inv(w, s) && !Reserved(c.key)
    ensures c in ValuesOf(s.store) <==> c in s.store
    ensures c in s.store ==> GetAlone(s.store, c) == Hit(ValuesOf(s.store)[c])
  {
    ReadCommits(w, s, c);
  }

  lemma PutRefinesValues(w: World, s: State, op: nat)
    requires w.Valid() && Inv(w, s) && Enabled(w, s, Put(op))
    ensures var p := s.ops[op];
            ValuesOf(AfterPut(w, s, op).store) ==
            if p.next + 1 == |w.Puts(p.u)| then ValuesOf(s.store)[p.u.Target() := p.u.payload] else ValuesOf(s.store)
  {
    var p := s.ops[op];
    var store' := AfterPut(w, s, op).store;
    assert OpInv(w, s.store, p) && w.WellFormed(p.u);
    var final := p.next + 1 == |w.Puts(p.u)|;
    forall c: Cell | !Reserved(c.key)
      ensures GetAlone(store', c) ==
              if final && c == p.u.Target() then Hit(p.u.payload) else GetAlone(s.store, c)
    {
      PutRefinesValue(w, s, op, c);
    }
    if final {
      ValuesWritten(s.store, store', p.u.Target(), p.u.payload);
    } else {
      ValuesKept(s.store, store');
    }
  }

  lemma PutRefinesResults(w: World, s: State, op: nat)
    requires w.Valid() && Inv(w, s) && Enabled(w, s, Put(op))
    ensures ResultsOf(AfterPut(w, s, op).store, AfterPut(w, s, op).ops) == ResultsOf(s.store, s.ops)
  {
    var s' := AfterPut(w, s, op);
    var p := s.ops[op];
    PutKeepsChunks(w, s, op);
    forall o | o in s.ops && Committed(s.ops[o])
      ensures Pending(s.store, s.ops[o]) == Pending(s'.store, s.ops[o])
    {
      PendingStable(w, s.store, s'.store, s.ops[o]);
    }
    ResultsMoved(s.store, s'.store, s.ops);
    ResultsUncommitted(s'.store, s.ops, op, Putting(p.u, p.next + 1));
    ResultsDrop(s'.store, s.ops, op);
    assert op !in ResultsOf(s'.store, s.ops);
  }

  lemma ReadRefines(w: World, s: State, op: nat)
    requires w.Valid() && Inv(w, s) && Enabled(w, s, Read(op))
    ensures var c := s.ops[op].cell;
            ResultsOf(s.store, s.ops[op := ReadCell(s.store, c)]) ==
            ResultsOf(s.store, s.ops)[op := if c in ValuesOf(s.store) then Hit(ValuesOf(s.store)[c]) else Miss]
  {
    var c := s.ops[op].cell;
    assert OpInv(w, s.store, s.ops[op]);
    ReadCommits(w, s, c);
    CellsAreHits(w, s, c);
    ResultsCommit(s.store, s.ops, op, ReadCell(s.store, c));
  }

  lemma FetchRefines(w: World, s: State, op: nat)
    requires w.Valid() && Inv(w, s) && Enabled(w, s, Fetch(op))
    ensures ResultsOf(s.store, s.ops[op := FetchNext(s.store, s.ops[op])]) == ResultsOf(s.store, s.ops)
  {
    FetchAdvances(w, s.store, s.ops[op]);
    ResultsCommit(s.store, s.ops, op, FetchNext(s.store, s.ops[op]));
    var r := ResultsOf(s.store, s.ops);
    assert op in r && r[op] == Pending(s.store, s.ops[op]);
    assert r[op := r[op]] == r;
  }

  lemma PutStepRefines(w: World, s: State, op: nat)
    requires w.Valid() && Inv(w, s) && Enabled(w, s, Put(op))
    ensures Abs(Step(w, s, Put(op))) == SpecStep(Abs(s), EventOf(w, s, Put(op)))
  {
    PutRefinesValues(w, s, op);
    PutRefinesResults(w, s, op);
  }

  lemma ReadStepRefines(w: World, s: State, op: nat)
    requires w.Valid() && Inv(w, s) && Enabled(w, s, Read(op))
    ensures Abs(Step(w, s, Read(op))) == SpecStep(Abs(s), EventOf(w, s, Read(op)))
  {
    ReadRefines(w, s, op);
  }

  /** Each step is a step of the register, as seen through `Abs`. */
  lemma StepRefines(w: World, s: State, a: Action)
    requires w.Valid() && Inv(w, s) && Enabled(w, s, a)
    ensures Abs(Step(w, s, a)) == SpecStep(Abs(s), EventOf(w, s, a))
  {
    match a
    case BeginPut(op, u) => ResultsUncommitted(s.store, s.ops, op, Putting(u, 0));
    case BeginGet(op, c) => ResultsUncommitted(s.store, s.ops, op, Reading(c));
    case Put(op) => PutStepRefines(w, s, op);
    case Read(op) => ReadStepRefines(w, s, op);
    case Fetch(op) => FetchRefines(w, s, op);
    case Forget(op) => ResultsDrop(s.store, s.ops, op);
  }

  // ---- whole runs ------------------------------------------------------

  ghost predicate Legal(w: World, s: State, acts: seq<Action>)
    decreases |acts|
  {
    acts == [] || (Enabled(w, s, acts[0]) && Legal(w, Step(w, s, acts[0]), acts[1..]))
  }

  ghost function Run(w: World, s: State, acts: seq<Action>): (r: State)
    requires Legal(w, s, acts)
    decreases |acts|
  {
    if acts == [] then s else Run(w, Step(w, s, acts[0]), acts[1..])
  }

  ghost function Events(w: World, s: State, acts: seq<Action>): (r: seq<Event>)
    requires Legal(w, s, acts)
    ensures |r| == |acts|
    decreases |acts|
  {
    if acts == [] then [] else [EventOf(w, s, acts[0])] + Events(w, Step(w, s, acts[0]), acts[1..])
  }

  ghost function SpecRun(r: Register, events: seq<Event>): (r': Register)
    decreases |events|
  {
    if events == [] then r else SpecRun(SpecStep(r, events[0]), events[1..])
  }

  /** Every interleaving is a run of the atomic registers. */
  lemma {:induction false} RunRefines(w: World, s: State, acts: seq<Action>)
    requires w.Valid() && Inv(w, s) && Legal(w, s, acts)
    ensures Inv(w, Run(w, s, acts))
    ensures Abs(Run(w, s, acts)) == SpecRun(Abs(s), Events(w, s, acts))
    decreases |acts|
  {
    if acts != [] {
      StepPreserves(w, s, acts[0]);
      StepRefines(w, s, acts[0]);
      RunRefines(w, Step(w, s, acts[0]), acts[1..]);
      assert Events(w, s, acts)[1..] == Events(w, Step(w, s, acts[0]), acts[1..]);
    }
  }

  /** The payload of the last write to `c`, if any. */
  ghost function LastWrite(events: seq<Event>, c: Cell): (r: Option<seq<byte>>)
    decreases |events|
  {
    if events == [] then None
    else
      var e := events[|events| - 1];
      if e.Write? && e.cell == c then Some(e.payload) else LastWrite(events[..|events| - 1], c)
  }

  lemma {:induction false} SpecRunSnoc(r: Register, events: seq<Event>, e: Event)
    ensures SpecRun(r, events + [e]) == SpecStep(SpecRun(r, events), e)
    decreases |events|
  {
    if events == [] {
      assert events + [e] == [e] && [e][1..] == [];
    } else {
      assert (events + [e])[1..] == events[1..] + [e];
      SpecRunSnoc(SpecStep(r, events[0]), events[1..], e);
    }
  }

  lemma {:induction false} RegisterHoldsLastWrite(events: seq<Event>, c: Cell)
    ensures var r := SpecRun(Register(map[], map[]), events);
            match LastWrite(events, c)
            case None => c !in r.value
            case Some(p) => c in r.value && r.value[c] == p
    decreases |events|
  {
    if events != [] {
      var n := |events| - 1;
      RegisterHoldsLastWrite(events[..n], c);
      SpecRunSnoc(Register(map[], map[]), events[..n], events[n]);
      assert events == events[..n] + [events[n]];
    }
  }

  /** A result, once observed, stays until its caller takes it or gives up. */
  lemma {:induction false} ResultStays(r: Register, events: seq<Event>, op: nat)
    requires op in r.results
    requires Drop(op) !in events && forall c :: Observe(op, c) !in events
    ensures var r' := SpecRun(r, events); op in r'.results && r'.results[op] == r.results[op]
    decreases |events|
  {
    if events != [] {
      assert events[0] in events;
      assert forall c :: Observe(op, c) != events[0];
      ResultStays(SpecStep(r, events[0]), events[1..], op);
    }
  }

  /** No action of the protocol starts over a call that has returned or is fetching. */
  lemma {:induction false} NoSecondObserve(w: World, s: State, acts: seq<Action>, op: nat)
    requires Legal(w, s, acts) && Forget(op) !in acts
    requires op in s.ops && Committed(s.ops[op])
    ensures Drop(op) !in Events(w, s, acts) && forall c :: Observe(op, c) !in Events(w, s, acts)
    ensures op in Run(w, s, acts).ops
    ensures var o := Run(w, s, acts).ops[op]; Committed(o) && o.cell == s.ops[op].cell
    decreases |acts|
  {
    if acts != [] {
      assert acts[0] in acts;
      NoSecondObserve(w, Step(w, s, acts[0]), acts[1..], op);
      assert EventOf(w, s, acts[0]) != Drop(op);
      assert forall c :: EventOf(w, s, acts[0]) != Observe(op, c);
    }
  }

  /**
   The main result.  From the empty system, whatever the clients did in `before`,
   let call `op` read its user key, and let `after` be anything at all in which the
   call is not given up.  If the call has returned by then, it returned Miss when no
   put on its key had completed in `before`, and otherwise exactly the payload of the
   last put that had: never a missing chunk, a short read or a mix.
   */
  lemma GetReturnsLastCompletedPut(w: World, before: seq<Action>, op: nat, after: seq<Action>)
    requires w.Valid() && Legal(w, INITIAL, before)
    requires Enabled(w, Run(w, INITIAL, before), Read(op))
    requires Legal(w, Step(w, Run(w, INITIAL, before), Read(op)), after) && Forget(op) !in after
    ensures var s := Run(w, INITIAL, before);
            var end := Run(w, Step(w, s, Read(op)), after);
            && op in end.ops
            && (end.ops[op].Returned? ==>
                  end.ops[op].outcome == match LastWrite(Events(w, INITIAL, before), s.ops[op].cell)
                                         case None => Miss
                                         case Some(p) => Hit(p))
  {
    var s := Run(w, INITIAL, before);
    var mid := Step(w, s, Read(op));
    var c := s.ops[op].cell;
    assert Abs(INITIAL) == Register(map[], map[]);
    RunRefines(w, INITIAL, before);
    RegisterHoldsLastWrite(Events(w, INITIAL, before), c);
    StepPreserves(w, s, Read(op));
    StepRefines(w, s, Read(op));
    RunRefines(w, mid, after);
    NoSecondObserve(w, mid, after, op);
    ResultStays(Abs(mid), Events(w, mid, after), op);
  }

  /** No reachable state has a call that failed on a chunk, whatever was abandoned. */
  lemma NoReadEverFails(w: World, acts: seq<Action>, op: nat)
    requires w.Valid() && Legal(w, INITIAL, acts)
    requires op in Run(w, INITIAL, acts).ops
    ensures var o := Run(w, INITIAL, acts).ops[op];
            o.Returned? ==> o.outcome.Miss? || (o.outcome.Hit? && Upload(o.cell.ns, o.cell.key, o.outcome.payload) in w.uploads)
  {
    RunRefines(w, INITIAL, acts);
    assert OpInv(w, Run(w, INITIAL, acts).store, Run(w, INITIAL, acts).ops[op]);
  }

  // ---- the client's own loops ------------------------------------------

  function ApplyPuts(store: Store, puts: seq<(Cell, seq<byte>)>): (r: Store)
  {
    if puts == [] then store
    else ApplyPuts(store, puts[..|puts| - 1])[puts[|puts| - 1].0 := puts[|puts| - 1].1]
  }

  lemma ApplyNext(store: Store, puts: seq<(Cell, seq<byte>)>, i: nat)
    requires i < |puts|
    ensures ApplyPuts(store, puts[..i + 1]) == ApplyPuts(store, puts[..i])[puts[i].0 := puts[i].1]
  {
    assert puts[..i + 1][..i] == puts[..i];
  }

  /** The client, seen with the daemon's keyspace it works on. */
  class RemoteKvStoreClient {
    var store: Store

    constructor ()
      ensures store == map[]
    {
      store := map[];
    }

    /** `put_kv`, where the transport fails at call number `calls`. */
    method PutKv(w: World, u: Upload, calls: nat) returns (ok: bool)
      modifies this
      ensures ok <==> |w.Puts(u)| <= calls
      ensures store == ApplyPuts(old(store), if ok then w.Puts(u) else w.Puts(u)[..calls])
    {
      ghost var puts := w.Puts(u);
      assert puts[..|puts|] == puts;
      ok := true;
      if FitsOneFrame(|u.payload|) {
        if calls == 0 {
          return false;
        }
        ApplyNext(store, puts, 0);
        store := store[u.Target() := u.payload];
        return;
      }
      var id := w.Id(u);
      var chunks := Chunks(u.payload);
      for idx := 0 to |chunks|
        invariant idx <= calls
        invariant store == ApplyPuts(old(store), puts[..idx])
      {
        if idx == calls {
          return false;
        }
        ApplyNext(old(store), puts, idx);
        store := store[Cell(u.ns, LargeChunkKey(id, idx)) := chunks[idx]];
      }
      if calls == |chunks| {
        return false;
      }
      ApplyNext(old(store), puts, |chunks|);
      store := store[u.Target() := EncodeManifest(LargeManifest(id, |u.payload|, |chunks|))];
    }

    /** `get_kv` with no other client moving: the function the refinement reads the register with. */
    method GetKv(c: Cell) returns (outcome: Outcome)
      ensures outcome == GetAlone(store, c)
    {
      if c !in store {
        return Miss;
      }
      match ParseManifest(store[c])
      case None => return Hit(store[c]);
      case Some(m) =>
        var out: seq<byte> := [];
        for idx := 0 to m.chunkCount
          invariant FetchFrom(store, c.ns, m, 0, []) == FetchFrom(store, c.ns, m, idx, out)
        {
          var chunk := Cell(c.ns, LargeChunkKey(m.id, idx));
          if chunk !in store {
            return MissingChunk(idx);
          }
          out := out + store[chunk];
        }
        if |out| != m.totalLen {
          return LengthMismatch(m.totalLen, |out|);
        }
        return Hit(out);
    }
  }
}
