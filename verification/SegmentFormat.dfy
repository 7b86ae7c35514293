/**
 WAL records and segments (wombatkv-format): length-prefixed layouts guarded by a 32-bit
 FNV-1a checksum (section 2 of draft-eastlake-fnv).
 */
module SegmentFormat {
  import opened Bytes
  import opened Tallies

  const WAL_MAGIC: seq<byte> := Ascii("WMBT_KV_WAL1")
  const WAL_HEADER_SIZE: nat := 24
  const SEGMENT_FOOTER_MAGIC: seq<byte> := Ascii("WMBT_KV_SEG1")
  const SEGMENT_FOOTER_SIZE: nat := 20
  const SEGMENT_MAGIC: seq<byte> := Ascii("WMBT_KV_SGV1")
  const SEGMENT_HEADER_SIZE: nat := 16

  datatype FormatError = InvalidMagic | UnexpectedEof | ChecksumMismatch | FieldTooLarge

  // ---- FNV-1a ----------------------------------------------------------

  const FNV_OFFSET: nat := 0x811c_9dc5
  const FNV_PRIME: nat := 16777619

  /** Exclusive or of the lowest `n` bits. */
  function Xor(a: nat, b: nat, n: nat): (r: nat)
    decreases n
  {
    if n == 0 then 0 else (if a % 2 == b % 2 then 0 else 1) + 2 * Xor(a / 2, b / 2, n - 1)
  }

  lemma {:induction false} XorBound(a: nat, b: nat, n: nat)
    ensures Xor(a, b, n) < Pow2(n)
    decreases n
  {
    if n > 0 {
      XorBound(a / 2, b / 2, n - 1);
    }
  }

  /** Exclusive or with the same operand undoes itself. */
  lemma {:induction false} XorCancels(a: nat, b: nat, n: nat)
    requires a < Pow2(n)
    ensures Xor(Xor(a, b, n), b, n) == a
    decreases n
  {
    if n > 0 {
      XorCancels(a / 2, b / 2, n - 1);
      var x := Xor(a, b, n);
      assert x / 2 == Xor(a / 2, b / 2, n - 1);
      assert x % 2 == if a % 2 == b % 2 then 0 else 1;
    }
  }

  lemma {:induction false} XorCommutes(a: nat, b: nat, n: nat)
    ensures Xor(a, b, n) == Xor(b, a, n)
    decreases n
  {
    if n > 0 {
      XorCommutes(a / 2, b / 2, n - 1);
    }
  }

  const BYTE_BITS: nat := 8

  function Xor8(a: byte, b: byte): (r: byte)
  {
    XorBound(a, b, BYTE_BITS);
    assert Pow2(8) == 256 by { assert Pow2(4) == 16; assert Pow2(6) == 64; }
    Xor(a, b, BYTE_BITS)
  }

  lemma Xor8Cancels(a: byte, b: byte)
    ensures Xor8(Xor8(a, b), b) == a && Xor8(a, b) == Xor8(b, a)
  {
    assert Pow2(8) == 256 by { assert Pow2(4) == 16; assert Pow2(6) == 64; }
    XorCancels(a, b, 8);
    XorCommutes(a, b, 8);
  }

  /** The product of a 32-bit word, given by its upper 24 and lower 8 bits, with the prime. */
  function FnvMul(high: nat, low: byte): (r: nat)
    ensures r < U32
  {
    ((high * 256 + low) * FNV_PRIME) % 0x1_0000_0000
  }

  /** `state ^= u32::from(byte); state = state.wrapping_mul(16_777_619)` */
  function FnvStep(state: nat, b: byte): (r: nat)
    ensures r < U32
  {
    FnvMul(state / 256, Xor8(state % 256, b))
  }

  /** Multiplication by the odd prime can be undone modulo 2^32. */
  lemma PrimeIsInvertible(x: nat, y: nat)
    requires x < U32 && y < U32
    requires (x * FNV_PRIME) % 0x1_0000_0000 == (y * FNV_PRIME) % 0x1_0000_0000
    ensures x == y
  {
    var d := x - y;
    var t := x * FNV_PRIME / 0x1_0000_0000 - y * FNV_PRIME / 0x1_0000_0000;
    assert d * FNV_PRIME == t * 0x1_0000_0000;
    // 16777619 * 899433627 == 1 + 3513497 * 2^32
    assert d * (FNV_PRIME * 899433627) == t * 899433627 * 0x1_0000_0000;
    var u := t * 899433627 - d * 3513497;
    assert d == u * 0x1_0000_0000;
  }

  lemma FnvMulInjective(high: nat, low: byte, high': nat, low': byte)
    requires high < 0x100_0000 && high' < 0x100_0000 && FnvMul(high, low) == FnvMul(high', low')
    ensures high == high' && low == low'
  {
    PrimeIsInvertible(high * 256 + low, high' * 256 + low');
  }

  lemma FnvStepInjective(x: nat, b: byte, y: nat, c: byte)
    requires x < U32 && y < U32 && FnvStep(x, b) == FnvStep(y, c)
    ensures x / 256 == y / 256 && Xor8(x % 256, b) == Xor8(y % 256, c)
  {
    FnvMulInjective(x / 256, Xor8(x % 256, b), y / 256, Xor8(y % 256, c));
  }

  /** `checksum32`, from a given state on. */
  function ChecksumFrom(state: nat, s: seq<byte>): (r: nat)
    decreases |s|
  {
    if s == [] then state else ChecksumFrom(FnvStep(state, s[0]), s[1..])
  }

  function Checksum32(s: seq<byte>): (r: nat)
  {
    ChecksumFrom(FNV_OFFSET, s)
  }

  /** The published values of 32-bit FNV-1a for the empty text and for "a". */
  lemma ChecksumTestVectors()
    ensures Checksum32([]) == 0x811c_9dc5 && Checksum32([97]) == 0xe40c_292c
  {
    ChecksumOfOne(FNV_OFFSET, 97, FnvStep(FNV_OFFSET, 97));
    StepOverA();
  }

  lemma ChecksumOfOne(state: nat, b: byte, next: nat)
    requires next == FnvStep(state, b)
    ensures ChecksumFrom(state, [b]) == next
  {
    assert [b][1..] == [];
    assert ChecksumFrom(next, []) == next;
  }

  lemma StepOverA()
    ensures FnvStep(FNV_OFFSET, 97) == 0xe40c_292c
  {
    XorOfA();
    ProductOfA(0xa4);
    StepParts(FNV_OFFSET, 0x81_1c9d, 0xc5, 97, 0xa4, 0xe40c_292c);
  }

  lemma StepParts(state: nat, high: nat, low: byte, b: byte, mixed: byte, next: nat)
    requires state / 256 == high && state % 256 == low && Xor8(low, b) == mixed && FnvMul(high, mixed) == next
    ensures FnvStep(state, b) == next
  {
  }

  /** 0x811c9da4 * 16777619 == 8461672 * 2^32 + 0xe40c292c */
  lemma ProductOfA(low: byte)
    requires low == 0xa4
    ensures FnvMul(0x81_1c9d, low) == 0xe40c_292c
  {
  }

  lemma XorOfA()
    ensures Xor8(0xc5, 97) == 0xa4
  {
    assert Xor(1, 0, 1) == 1;
    assert Xor(3, 1, 2) == 2;
    assert Xor(6, 3, 3) == 5;
    assert Xor(12, 6, 4) == 10;
    assert Xor(24, 12, 5) == 20;
    assert Xor(49, 24, 6) == 41;
    assert Xor(98, 48, 7) == 82;
    assert Xor(197, 97, 8) == 164;
  }

  lemma {:induction false} ChecksumBound(state: nat, s: seq<byte>)
    requires state < U32
    ensures ChecksumFrom(state, s) < U32
    decreases |s|
  {
    if s != [] {
      ChecksumBound(FnvStep(state, s[0]), s[1..]);
    }
  }

  /** Different states stay different over any tail. */
  lemma {:induction false} ChecksumKeepsStatesApart(x: nat, y: nat, s: seq<byte>)
    requires x < U32 && y < U32 && ChecksumFrom(x, s) == ChecksumFrom(y, s)
    ensures x == y
    decreases |s|
  {
    if s != [] {
      ChecksumKeepsStatesApart(FnvStep(x, s[0]), FnvStep(y, s[0]), s[1..]);
      FnvStepInjective(x, s[0], y, s[0]);
      Xor8Cancels(x % 256, s[0]);
      Xor8Cancels(y % 256, s[0]);
    }
  }

  lemma {:induction false} SubstitutionChangesChecksum(state: nat, s: seq<byte>, i: nat, b: byte)
    requires state < U32 && i < |s| && b != s[i]
    ensures ChecksumFrom(state, s[i := b]) != ChecksumFrom(state, s)
    decreases |s|
  {
    var t := s[i := b];
    if i == 0 {
      assert t[1..] == s[1..];
      if FnvStep(state, b) == FnvStep(state, s[0]) {
        FnvStepInjective(state, b, state, s[0]);
        Xor8Cancels(b, state % 256);
        Xor8Cancels(s[0], state % 256);
      }
      if ChecksumFrom(state, t) == ChecksumFrom(state, s) {
        ChecksumKeepsStatesApart(FnvStep(state, b), FnvStep(state, s[0]), s[1..]);
      }
    } else {
      assert t[1..] == s[1..][i - 1 := b];
      SubstitutionChangesChecksum(FnvStep(state, s[0]), s[1..], i - 1, b);
    }
  }

  /** FNV-1a detects every substitution of a single byte, at every length. */
  lemma ChecksumDetectsSubstitution(s: seq<byte>, i: nat, b: byte)
    requires i < |s| && b != s[i]
    ensures Checksum32(s[i := b]) != Checksum32(s)
  {
    SubstitutionChangesChecksum(FNV_OFFSET, s, i, b);
  }

  method ComputeChecksum32(s: seq<byte>) returns (state: nat)
    ensures state == Checksum32(s)
  {
    state := FNV_OFFSET;
    assert s[0..] == s;
    for i := 0 to |s|
      invariant ChecksumFrom(state, s[i..]) == Checksum32(s)
    {
      assert s[i..][1..] == s[i + 1..];
      state := FnvStep(state, s[i]);
    }
    assert s[|s|..] == [];
  }

  /** A 32-bit checksum; the codecs below are the same for any. */
  type Checksum = seq<byte> -> u32

  /** It notices every substitution of a single byte. */
  ghost predicate Detects(ck: Checksum)
  {
    forall s: seq<byte>, i: nat, b: byte {:trigger ck(s[i := b])} :: i < |s| && b != s[i] ==> ck(s[i := b]) != ck(s)
  }

  function Fnv32(s: seq<byte>): (r: u32)
    ensures r == Checksum32(s)
  {
    ChecksumBound(FNV_OFFSET, s);
    Checksum32(s)
  }

  lemma FnvDetects()
    ensures Detects(Fnv32)
  {
    forall s: seq<byte>, i: nat, b: byte {:trigger Fnv32(s[i := b])} | i < |s| && b != s[i]
      ensures Fnv32(s[i := b]) != Fnv32(s)
    {
      ChecksumDetectsSubstitution(s, i, b);
    }
  }

  // ---- WAL records -----------------------------------------------------

  datatype WalRecord = WalRecord(key: seq<byte>, meta: seq<byte>, payload: seq<byte>) {
    predicate Fits() { |key| < U16 && |meta| < U16 && |payload| < U32 }
    function Body(): (b: seq<byte>) { key + (meta + payload) }
  }

  datatype WalFields = WalFields(keyLen: nat, metaLen: nat, payloadLen: nat, checksum: nat) {
    predicate Fits() { keyLen < U16 && metaLen < U16 && payloadLen < U32 && checksum < U32 }
  }

  function WalHeader(f: WalFields): (h: seq<byte>)
    ensures |h| == WAL_HEADER_SIZE
  {
    WAL_MAGIC + (Le(f.keyLen, 2) + (Le(f.metaLen, 2) + (Le(f.payloadLen, 4) + Le(f.checksum, 4))))
  }

  function EncodeWal(ck: Checksum, r: WalRecord): (x: Result<seq<byte>, FormatError>)
  {
    if !r.Fits() then Err(FieldTooLarge)
    else Ok(WalHeader(FieldsOf(ck, r)) + r.Body())
  }

  function FieldsOf(ck: Checksum, r: WalRecord): (f: WalFields)
  {
    WalFields(|r.key|, |r.meta|, |r.payload|, ck(r.Body()))
  }

  function ReadWalHeader(header: seq<byte>): (r: Result<WalFields, FormatError>)
    requires |header| == WAL_HEADER_SIZE
  {
    if header[..12] != WAL_MAGIC then Err(InvalidMagic)
    else Ok(WalFields(FromLe(header[12..14]), FromLe(header[14..16]), FromLe(header[16..20]), FromLe(header[20..24])))
  }

  /** The rest of `decode_wal_record`, once the header is read. */
  function ReadWalBody(ck: Checksum, f: WalFields, rest: seq<byte>): (x: Result<WalRecord, FormatError>)
  {
    var n := f.keyLen + f.metaLen + f.payloadLen;
    if |rest| < n then Err(UnexpectedEof)
    else
      var body := rest[..n];
      if ck(body) != f.checksum then Err(ChecksumMismatch)
      else Ok(WalRecord(body[..f.keyLen], body[f.keyLen..f.keyLen + f.metaLen], body[f.keyLen + f.metaLen..]))
  }

  function DecodeWal(ck: Checksum, data: seq<byte>): (x: Result<WalRecord, FormatError>)
  {
    if |data| < WAL_HEADER_SIZE then Err(UnexpectedEof)
    else match ReadWalHeader(data[..WAL_HEADER_SIZE])
         case Err(e) => Err(e)
         case Ok(f) => ReadWalBody(ck, f, data[WAL_HEADER_SIZE..])
  }

  /** Exactly the records whose parts fit their length fields are encoded; all others are too large. */
  lemma WalEncodesIff(ck: Checksum, r: WalRecord)
    ensures EncodeWal(ck, r).Ok? <==> |r.key| <= 0xFFFF && |r.meta| <= 0xFFFF && |r.payload| <= 0xFFFF_FFFF
    ensures EncodeWal(ck, r).Err? ==> EncodeWal(ck, r) == Err(FieldTooLarge)
  {
  }

  /** What is made of data that holds a header: a foreign magic, missing bytes and a wrong checksum are told apart. */
  lemma WalVerdict(ck: Checksum, data: seq<byte>)
    ensures |data| < 24 ==> DecodeWal(ck, data) == Err(UnexpectedEof)
    ensures |data| >= 24 && data[..12] != Ascii("WMBT_KV_WAL1") ==> DecodeWal(ck, data) == Err(InvalidMagic)
    ensures |data| >= 24 && data[..12] == Ascii("WMBT_KV_WAL1") ==>
              var n := FromLe(data[12..14]) + FromLe(data[14..16]) + FromLe(data[16..20]);
              && (DecodeWal(ck, data) == Err(UnexpectedEof) <==> |data| < 24 + n)
              && (DecodeWal(ck, data) == Err(ChecksumMismatch) <==> |data| >= 24 + n && ck(data[24..24 + n]) != FromLe(data[20..24]))
              && (DecodeWal(ck, data).Ok? <==> |data| >= 24 + n && ck(data[24..24 + n]) == FromLe(data[20..24]))
  {
    if |data| >= 24 && data[..12] == Ascii("WMBT_KV_WAL1") {
      var header := data[..24];
      assert header[..12] == data[..12] && header[12..14] == data[12..14] && header[14..16] == data[14..16];
      assert header[16..20] == data[16..20] && header[20..24] == data[20..24];
      var n := FromLe(data[12..14]) + FromLe(data[14..16]) + FromLe(data[16..20]);
      if |data| >= 24 + n {
        assert data[24..][..n] == data[24..24 + n];
      }
    }
  }

  /** A header is read exactly when it is the encoding of its fields. */
  lemma WalHeaderIff(header: seq<byte>, f: WalFields)
    requires |header| == WAL_HEADER_SIZE
    ensures ReadWalHeader(header) == Ok(f) <==> f.Fits() && header == WalHeader(f)
  {
    Capacities();
    var a, b, c, d, e := header[..12], header[12..14], header[14..16], header[16..20], header[20..24];
    assert header == a + (b + (c + (d + e)));
    if ReadWalHeader(header) == Ok(f) {
      LeEncodes(b);
      LeEncodes(c);
      LeEncodes(d);
      LeEncodes(e);
      FromLeBound(b);
      FromLeBound(c);
      FromLeBound(d);
      FromLeBound(e);
    }
    if f.Fits() && header == WalHeader(f) {
      var e' := Le(f.checksum, 4);
      var d' := Le(f.payloadLen, 4) + e';
      var c' := Le(f.metaLen, 2) + d';
      SplitEqual(a, b + (c + (d + e)), WAL_MAGIC, Le(f.keyLen, 2) + c');
      SplitEqual(b, c + (d + e), Le(f.keyLen, 2), c');
      SplitEqual(c, d + e, Le(f.metaLen, 2), d');
      SplitEqual(d, e, Le(f.payloadLen, 4), e');
      LeDecodes(f.keyLen, 2);
      LeDecodes(f.metaLen, 2);
      LeDecodes(f.payloadLen, 4);
      LeDecodes(f.checksum, 4);
    }
  }

  lemma DecodeWalOf(ck: Checksum, f: WalFields, rest: seq<byte>)
    requires f.Fits()
    ensures DecodeWal(ck, WalHeader(f) + rest) == ReadWalBody(ck, f, rest)
  {
    var data := WalHeader(f) + rest;
    assert data[..WAL_HEADER_SIZE] == WalHeader(f) && data[WAL_HEADER_SIZE..] == rest;
    WalHeaderIff(WalHeader(f), f);
  }

  /** An encoded record decodes to itself, whatever bytes follow it. */
  lemma WalRoundTrip(ck: Checksum, r: WalRecord, tail: seq<byte>)
    requires r.Fits()
    ensures DecodeWal(ck, EncodeWal(ck, r).value + tail) == Ok(r)
  {
    var body := r.Body();
    Associative(WalHeader(FieldsOf(ck, r)), body, tail);
    DecodeWalOf(ck, FieldsOf(ck, r), body + tail);
    assert (body + tail)[..|body|] == body;
    Cut3(r.key, r.meta, r.payload);
  }

  lemma JoinBody(body: seq<byte>, a: nat, b: nat)
    requires a + b <= |body|
    ensures body[..a] + (body[a..a + b] + body[a + b..]) == body
  {
  }

  lemma PrefixOfBoth(a: seq<byte>, b: seq<byte>, n: nat)
    requires n <= |b|
    ensures a + b[..n] <= a + b
  {
  }

  lemma WalBodySound(ck: Checksum, f: WalFields, rest: seq<byte>)
    requires ReadWalBody(ck, f, rest).Ok?
    ensures var r := ReadWalBody(ck, f, rest).value;
            && FieldsOf(ck, r) == f && r.Body() == rest[..|r.Body()|]
            && |r.Body()| == f.keyLen + f.metaLen + f.payloadLen <= |rest|
  {
    JoinBody(rest[..f.keyLen + f.metaLen + f.payloadLen], f.keyLen, f.metaLen);
  }

  lemma WalSound(ck: Checksum, data: seq<byte>)
    requires DecodeWal(ck, data).Ok?
    ensures var r := DecodeWal(ck, data).value; r.Fits() && EncodeWal(ck, r).value <= data
  {
    var header, rest := data[..WAL_HEADER_SIZE], data[WAL_HEADER_SIZE..];
    var f := ReadWalHeader(header).value;
    WalHeaderIff(header, f);
    WalBodySound(ck, f, rest);
    PrefixOfBoth(header, rest, |DecodeWal(ck, data).value.Body()|);
    assert data == header + rest;
  }

  /** The decoder accepts data exactly when it starts with the encoding of the result. */
  lemma WalCanonical(ck: Checksum, data: seq<byte>, r: WalRecord)
    ensures DecodeWal(ck, data) == Ok(r) <==> r.Fits() && EncodeWal(ck, r).value <= data
  {
    if DecodeWal(ck, data) == Ok(r) {
      WalSound(ck, data);
    }
    if r.Fits() && EncodeWal(ck, r).value <= data {
      var x := EncodeWal(ck, r).value;
      WalRoundTrip(ck, r, data[|x|..]);
      assert data == x + data[|x|..];
    }
  }

  lemma UpdateBehind(front: seq<byte>, back: seq<byte>, i: nat, b: byte)
    requires |front| <= i < |front| + |back|
    ensures var whole: seq<byte> := front + back; whole[i] == back[i - |front|] && whole[i := b] == front + back[i - |front| := b]
  {
  }

  /** Changing any one byte of the body of an encoded record is noticed. */
  lemma WalDetectsSubstitution(ck: Checksum, r: WalRecord, i: nat, b: byte)
    requires Detects(ck) && r.Fits() && WAL_HEADER_SIZE <= i < |EncodeWal(ck, r).value| && b != EncodeWal(ck, r).value[i]
    ensures DecodeWal(ck, EncodeWal(ck, r).value[i := b]) == Err(ChecksumMismatch)
  {
    var body, f := r.Body(), FieldsOf(ck, r);
    var body': seq<byte> := body[i - WAL_HEADER_SIZE := b];
    UpdateBehind(WalHeader(f), body, i, b);
    assert ck(body') != ck(body);
    DecodeWalOf(ck, f, body');
    BadSumRefused(ck, f, body');
  }

  lemma BadSumRefused(ck: Checksum, f: WalFields, body: seq<byte>)
    requires |body| == f.keyLen + f.metaLen + f.payloadLen && ck(body) != f.checksum
    ensures ReadWalBody(ck, f, body) == Err(ChecksumMismatch)
  {
    TakeAll(body);
  }

  /** The same for the checksum that is in use. */
  lemma WalRecordDetectsSubstitution(r: WalRecord, i: nat, b: byte)
    requires r.Fits() && WAL_HEADER_SIZE <= i < |EncodeWal(Fnv32, r).value| && b != EncodeWal(Fnv32, r).value[i]
    ensures DecodeWal(Fnv32, EncodeWal(Fnv32, r).value[i := b]) == Err(ChecksumMismatch)
  {
    FnvDetects();
    WalDetectsSubstitution(Fnv32, r, i, b);
  }

  // ---- the segment index -----------------------------------------------

  datatype SegmentIndexEntry = SegmentIndexEntry(key: seq<byte>, payloadOffset: nat, payloadLen: nat) {
    predicate Fits() { |key| < U16 && payloadOffset < U32 && payloadLen < U32 }
  }

  function EncodeEntry(e: SegmentIndexEntry): (r: seq<byte>)
    ensures |r| == 10 + |e.key|
  {
    Le(|e.key|, 2) + (e.key + (Le(e.payloadOffset, 4) + Le(e.payloadLen, 4)))
  }

  function EncodeIndex(entries: seq<SegmentIndexEntry>): (r: seq<byte>)
  {
    if entries == [] then [] else EncodeEntry(entries[0]) + EncodeIndex(entries[1..])
  }

  /** One entry at the front of `s`, and what follows it. */
  function ParseEntry(s: seq<byte>): (r: Result<(SegmentIndexEntry, seq<byte>), FormatError>)
    ensures r.Ok? ==> |r.value.1| < |s|
  {
    if |s| < 2 then Err(UnexpectedEof)
    else
      var keyLen, s := FromLe(s[..2]), s[2..];
      if |s| < keyLen + 8 then Err(UnexpectedEof)
      else
        var key, s := s[..keyLen], s[keyLen..];
        var payloadOffset, s := FromLe(s[..4]), s[4..];
        var payloadLen, s := FromLe(s[..4]), s[4..];
        Ok((SegmentIndexEntry(key, payloadOffset, payloadLen), s))
  }

  function ParseIndex(s: seq<byte>): (r: Result<seq<SegmentIndexEntry>, FormatError>)
    decreases |s|
  {
    if s == [] then Ok([])
    else match ParseEntry(s)
         case Err(e) => Err(e)
         case Ok((entry, rest)) =>
           match ParseIndex(rest)
           case Err(e) => Err(e)
           case Ok(entries) => Ok([entry] + entries)
  }

  lemma ParseEntryComplete(e: SegmentIndexEntry, rest: seq<byte>)
    requires e.Fits()
    ensures ParseEntry(EncodeEntry(e) + rest) == Ok((e, rest))
  {
    Capacities();
    LeDecodes(|e.key|, 2);
    LeDecodes(e.payloadOffset, 4);
    LeDecodes(e.payloadLen, 4);
    var s3 := Le(e.payloadLen, 4) + rest;
    var s2 := Le(e.payloadOffset, 4) + s3;
    var s1 := e.key + s2;
    assert EncodeEntry(e) + rest == Le(|e.key|, 2) + s1;
    CutConcat(Le(|e.key|, 2), s1);
    CutConcat(e.key, s2);
    CutConcat(Le(e.payloadOffset, 4), s3);
    CutConcat(Le(e.payloadLen, 4), rest);
  }

  lemma ParseEntrySound(s: seq<byte>)
    requires ParseEntry(s).Ok?
    ensures var (e, rest) := ParseEntry(s).value; e.Fits() && s == EncodeEntry(e) + rest
  {
    Capacities();
    var n := FromLe(s[..2]);
    var s1 := s[2..];
    var s2 := s1[n..];
    var s3 := s2[4..];
    LeEncodes(s[..2]);
    LeEncodes(s2[..4]);
    LeEncodes(s3[..4]);
    FromLeBound(s[..2]);
    FromLeBound(s2[..4]);
    FromLeBound(s3[..4]);
    assert s == s[..2] + (s1[..n] + (s2[..4] + s3[..4])) + s3[4..];
  }

  predicate AllFit(entries: seq<SegmentIndexEntry>) { forall i :: 0 <= i < |entries| ==> entries[i].Fits() }

  /** The index parser accepts exactly the encodings of entry lists. */
  lemma {:induction false} ParseIndexSound(s: seq<byte>)
    requires ParseIndex(s).Ok?
    ensures AllFit(ParseIndex(s).value) && EncodeIndex(ParseIndex(s).value) == s
    decreases |s|
  {
    if s != [] {
      ParseEntrySound(s);
      var (e, rest) := ParseEntry(s).value;
      ParseIndexSound(rest);
      var entries := ParseIndex(rest).value;
      assert ([e] + entries)[1..] == entries;
    }
  }

  lemma {:induction false} ParseIndexComplete(entries: seq<SegmentIndexEntry>)
    requires AllFit(entries)
    ensures ParseIndex(EncodeIndex(entries)) == Ok(entries)
  {
    if entries != [] {
      ParseEntryComplete(entries[0], EncodeIndex(entries[1..]));
      ParseIndexComplete(entries[1..]);
      assert entries == [entries[0]] + entries[1..];
    }
  }

  lemma ParseIndexIff(s: seq<byte>, entries: seq<SegmentIndexEntry>)
    ensures ParseIndex(s) == Ok(entries) <==> AllFit(entries) && s == EncodeIndex(entries)
  {
    if ParseIndex(s) == Ok(entries) {
      ParseIndexSound(s);
    }
    if AllFit(entries) {
      ParseIndexComplete(entries);
    }
  }

  /** `parse_segment_index`: a cursor over the index bytes. */
  method ParseSegmentIndex(s: seq<byte>) returns (r: Result<seq<SegmentIndexEntry>, FormatError>)
    ensures r == ParseIndex(s)
    ensures r.Ok? ==> EncodeIndex(r.value) == s
  {
    if ParseIndex(s).Ok? {
      ParseIndexSound(s);
    }
    var rest := s;
    var entries: seq<SegmentIndexEntry> := [];
    assert ParseIndex(s).Ok? ==> [] + ParseIndex(s).value == ParseIndex(s).value;
    while rest != []
      invariant ParsedSoFar(s, entries, rest)
      decreases |rest|
    {
      ghost var front := rest;
      if |rest| < 2 {
        return Err(UnexpectedEof);
      }
      var keyLen := FromLe(rest[..2]);
      rest := rest[2..];
      if |rest| < keyLen + 8 {
        return Err(UnexpectedEof);
      }
      var key := rest[..keyLen];
      rest := rest[keyLen..];
      var payloadOffset := FromLe(rest[..4]);
      rest := rest[4..];
      var payloadLen := FromLe(rest[..4]);
      rest := rest[4..];
      ParsedNext(s, entries, front);
      entries := entries + [SegmentIndexEntry(key, payloadOffset, payloadLen)];
    }
    assert entries + [] == entries;
    return Ok(entries);
  }

  /** With `entries` parsed and `rest` to come, the parser is on its way to the index of `s`. */
  ghost predicate ParsedSoFar(s: seq<byte>, entries: seq<SegmentIndexEntry>, rest: seq<byte>)
  {
    match ParseIndex(rest)
    case Err(e) => ParseIndex(s) == Err(e)
    case Ok(more) => ParseIndex(s) == Ok(entries + more)
  }

  lemma ParsedNext(s: seq<byte>, entries: seq<SegmentIndexEntry>, rest: seq<byte>)
    requires rest != [] && ParsedSoFar(s, entries, rest) && ParseEntry(rest).Ok?
    ensures var (e, rest') := ParseEntry(rest).value; ParsedSoFar(s, entries + [e], rest')
  {
    var (e, rest') := ParseEntry(rest).value;
    if ParseIndex(rest').Ok? {
      Associative(entries, [e], ParseIndex(rest').value);
    }
  }

  // ---- the footer ------------------------------------------------------

  function EncodeFooter(indexLen: nat, indexChecksum: nat): (r: seq<byte>)
    ensures |r| == SEGMENT_FOOTER_SIZE
  {
    SEGMENT_FOOTER_MAGIC + (Le(indexLen, 4) + Le(indexChecksum, 4))
  }

  /** `decode_segment_footer` without its result: does the footer vouch for this index? */
  function CheckFooter(ck: Checksum, footer: seq<byte>, index: seq<byte>): (r: Result<(), FormatError>)
    requires |footer| == SEGMENT_FOOTER_SIZE
  {
    if footer[..12] != SEGMENT_FOOTER_MAGIC then Err(InvalidMagic)
    else if FromLe(footer[12..16]) != |index| then Err(UnexpectedEof)
    else if ck(index) != FromLe(footer[16..20]) then Err(ChecksumMismatch)
    else Ok(())
  }

  /** A footer that was encoded. */
  lemma FooterReads(indexLen: nat, checksum: nat)
    requires indexLen < U32 && checksum < U32
    ensures var footer := EncodeFooter(indexLen, checksum);
            && footer[..12] == SEGMENT_FOOTER_MAGIC
            && FromLe(footer[12..16]) == indexLen && FromLe(footer[16..20]) == checksum
  {
    Capacities();
    LeDecodes(indexLen, 4);
    LeDecodes(checksum, 4);
    Cut3(SEGMENT_FOOTER_MAGIC, Le(indexLen, 4), Le(checksum, 4));
  }

  /** The tail of `decode_segment_index`: `body` is the segment before its footer. */
  function ReadIndex(ck: Checksum, body: seq<byte>, footer: seq<byte>): (r: Result<seq<SegmentIndexEntry>, FormatError>)
    requires |footer| == SEGMENT_FOOTER_SIZE
  {
    var indexLen := FromLe(footer[12..16]);
    if |body| < indexLen then Err(UnexpectedEof)
    else
      var index := body[|body| - indexLen..];
      match CheckFooter(ck, footer, index)
      case Err(e) => Err(e)
      case Ok(_) => ParseIndex(index)
  }

  function DecodeSegmentIndex(ck: Checksum, segment: seq<byte>): (r: Result<seq<SegmentIndexEntry>, FormatError>)
  {
    if |segment| < SEGMENT_HEADER_SIZE + SEGMENT_FOOTER_SIZE then Err(UnexpectedEof)
    else if segment[..12] != SEGMENT_MAGIC then Err(InvalidMagic)
    else
      var footerStart := |segment| - SEGMENT_FOOTER_SIZE;
      ReadIndex(ck, segment[..footerStart], segment[footerStart..])
  }

  /** What is made of a segment: too short, foreign, shorter than its index, footer or checksum wrong, or its index read. */
  lemma SegmentVerdict(ck: Checksum, segment: seq<byte>)
    ensures |segment| < 36 ==> DecodeSegmentIndex(ck, segment) == Err(UnexpectedEof)
    ensures |segment| >= 36 && segment[..12] != Ascii("WMBT_KV_SGV1") ==> DecodeSegmentIndex(ck, segment) == Err(InvalidMagic)
    ensures |segment| >= 36 && segment[..12] == Ascii("WMBT_KV_SGV1") ==>
              var end := |segment| - 20;
              var n := FromLe(segment[end + 12..end + 16]);
              DecodeSegmentIndex(ck, segment) ==
              if n > end then Err(UnexpectedEof)
              else if segment[end..end + 12] != Ascii("WMBT_KV_SEG1") then Err(InvalidMagic)
              else if ck(segment[end - n..end]) != FromLe(segment[end + 16..]) then Err(ChecksumMismatch)
              else ParseIndex(segment[end - n..end])
  {
    if |segment| >= 36 && segment[..12] == Ascii("WMBT_KV_SGV1") {
      FooterSlices(segment);
      var end := |segment| - 20;
      var n := FromLe(segment[end + 12..end + 16]);
      if n <= end {
        assert segment[..end][end - n..] == segment[end - n..end];
      }
    }
  }

  lemma FooterSlices(segment: seq<byte>)
    requires |segment| >= 20
    ensures var end := |segment| - 20;
            var footer := segment[end..];
            && footer[..12] == segment[end..end + 12]
            && footer[12..16] == segment[end + 12..end + 16] && footer[16..20] == segment[end + 16..]
  {
  }

  // ---- whole segments --------------------------------------------------

  datatype Block = Block(key: seq<byte>, payload: seq<byte>)

  /** The data area and its index. */
  datatype Laid = Laid(data: seq<byte>, entries: seq<SegmentIndexEntry>)

  function BlockBytes(b: Block): (r: seq<byte>)
    ensures |r| == 6 + |b.key| + |b.payload|
  {
    Le(|b.key|, 2) + (Le(|b.payload|, 4) + (b.key + b.payload))
  }

  /** The blocks, laid out from position `base` of the segment on. */
  function Layout(base: nat, blocks: seq<Block>): (r: Result<Laid, FormatError>)
    decreases |blocks|
  {
    if blocks == [] then Ok(Laid([], []))
    else
      var b := blocks[0];
      if |b.key| >= U16 || |b.payload| >= U32 || base + 6 + |b.key| >= U32 then Err(FieldTooLarge)
      else match Layout(base + |BlockBytes(b)|, blocks[1..])
           case Err(e) => Err(e)
           case Ok(rest) =>
             Ok(Laid(BlockBytes(b) + rest.data,
                     [SegmentIndexEntry(b.key, base + 6 + |b.key|, |b.payload|)] + rest.entries))
  }

  function SegmentHeader(count: nat): (h: seq<byte>)
    ensures |h| == SEGMENT_HEADER_SIZE
  {
    SEGMENT_MAGIC + Le(count, 4)
  }

  function EncodeSegment(ck: Checksum, blocks: seq<Block>): (r: Result<seq<byte>, FormatError>)
  {
    if |blocks| >= U32 then Err(FieldTooLarge)
    else match Layout(SEGMENT_HEADER_SIZE, blocks)
         case Err(e) => Err(e)
         case Ok(laid) =>
           var index := EncodeIndex(laid.entries);
           if |index| >= U32 then Err(FieldTooLarge)
           else Ok(SegmentHeader(|blocks|) + (laid.data + (index + EncodeFooter(|index|, ck(index)))))
  }

  function BlockSize(): (f: Block -> nat) { (b: Block) => 6 + |b.key| + |b.payload| }

  function EntrySize(): (f: Block -> nat) { (b: Block) => 10 + |b.key| }

  /** Block `i` has 16- and 32-bit lengths, and its payload starts below 4 GiB. */
  predicate Placeable(base: nat, blocks: seq<Block>, i: nat)
    requires i < |blocks|
  {
    && |blocks[i].key| < U16 && |blocks[i].payload| < U32
    && base + Tally(blocks[..i], BlockSize()) + 6 + |blocks[i].key| < U32
  }

  predicate AllPlaceable(base: nat, blocks: seq<Block>)
  {
    forall i {:trigger blocks[i]} :: 0 <= i < |blocks| ==> Placeable(base, blocks, i)
  }

  lemma PlaceableTail(base: nat, blocks: seq<Block>, i: nat)
    requires 0 < i < |blocks|
    ensures Placeable(base, blocks, i) <==> Placeable(base + BlockSize()(blocks[0]), blocks[1..], i - 1)
  {
    var b := blocks[0];
    TallySplits([b], blocks[1..][..i - 1], BlockSize());
    assert blocks[..i] == [b] + blocks[1..][..i - 1];
    assert Tally([b], BlockSize()) == Tally([], BlockSize()) + BlockSize()(b);
  }

  lemma {:induction false} LayoutIff(base: nat, blocks: seq<Block>)
    ensures Layout(base, blocks).Ok? <==> AllPlaceable(base, blocks)
    ensures Layout(base, blocks).Err? ==> Layout(base, blocks) == Err(FieldTooLarge)
    decreases |blocks|
  {
    if blocks != [] {
      LayoutIff(base + |BlockBytes(blocks[0])|, blocks[1..]);
      FirstPlaceable(base, blocks);
      PlaceableRest(base, blocks);
    }
  }

  lemma FirstPlaceable(base: nat, blocks: seq<Block>)
    requires blocks != []
    ensures var b := blocks[0];
            Placeable(base, blocks, 0) <==> |b.key| < U16 && |b.payload| < U32 && base + 6 + |b.key| < U32
  {
    assert blocks[..0] == [];
  }

  lemma {:induction false} LayoutIndexSize(base: nat, blocks: seq<Block>)
    requires Layout(base, blocks).Ok?
    ensures |EncodeIndex(Layout(base, blocks).value.entries)| == Tally(blocks, EntrySize())
    decreases |blocks|
  {
    if blocks != [] {
      var b := blocks[0];
      var next := base + |BlockBytes(b)|;
      LayoutIndexSize(next, blocks[1..]);
      IndexSize(SegmentIndexEntry(b.key, base + 6 + |b.key|, |b.payload|), Layout(next, blocks[1..]).value.entries, blocks);
    }
  }

  lemma {:induction false} IndexSize(e: SegmentIndexEntry, entries: seq<SegmentIndexEntry>, blocks: seq<Block>)
    requires blocks != [] && e.key == blocks[0].key && |EncodeIndex(entries)| == Tally(blocks[1..], EntrySize())
    ensures |EncodeIndex([e] + entries)| == Tally(blocks, EntrySize())
  {
    var b, rest := blocks[0], blocks[1..];
    assert ([e] + entries)[1..] == entries && blocks == [b] + rest;
    TallySplits([b], rest, EntrySize());
    assert Tally([b], EntrySize()) == Tally([], EntrySize()) + EntrySize()(b);
  }

  lemma PlaceableRest(base: nat, blocks: seq<Block>)
    requires blocks != []
    ensures AllPlaceable(base, blocks) <==>
            Placeable(base, blocks, 0) && AllPlaceable(base + BlockSize()(blocks[0]), blocks[1..])
  {
    var next, rest := base + BlockSize()(blocks[0]), blocks[1..];
    if AllPlaceable(base, blocks) {
      forall i | 0 <= i < |rest|
        ensures Placeable(next, rest, i)
      {
        assert rest[i] == blocks[i + 1];
        PlaceableTail(base, blocks, i + 1);
      }
    }
    if Placeable(base, blocks, 0) && AllPlaceable(next, rest) {
      forall i | 0 <= i < |blocks|
        ensures Placeable(base, blocks, i)
      {
        if i > 0 {
          assert blocks[i] == rest[i - 1];
          PlaceableTail(base, blocks, i);
        }
      }
    }
  }

  /** Exactly the block lists whose count, lengths, offsets and index fit their fields are encoded; all others are too large. */
  lemma SegmentEncodesIff(ck: Checksum, blocks: seq<Block>)
    ensures EncodeSegment(ck, blocks).Ok? <==>
            |blocks| < U32 && AllPlaceable(16, blocks) && Tally(blocks, EntrySize()) < U32
    ensures EncodeSegment(ck, blocks).Err? ==> EncodeSegment(ck, blocks) == Err(FieldTooLarge)
  {
    LayoutIff(SEGMENT_HEADER_SIZE, blocks);
    if Layout(SEGMENT_HEADER_SIZE, blocks).Ok? {
      LayoutIndexSize(SEGMENT_HEADER_SIZE, blocks);
    }
  }

  /** Entry `e` describes block `b` inside `segment`. */
  ghost predicate Describes(e: SegmentIndexEntry, b: Block, segment: seq<byte>)
  {
    && e.key == b.key
    && e.payloadOffset + e.payloadLen <= |segment|
    && segment[e.payloadOffset..e.payloadOffset + e.payloadLen] == b.payload
  }

  lemma PayloadInside(pre: seq<byte>, b: Block, post: seq<byte>)
    ensures var off := |pre| + 6 + |b.key|;
            var s := pre + (BlockBytes(b) + post);
            off + |b.payload| <= |s| && s[off..off + |b.payload|] == b.payload
  {
  }

  lemma {:induction false} LayoutDescribes(pre: seq<byte>, blocks: seq<Block>, post: seq<byte>)
    requires Layout(|pre|, blocks).Ok?
    ensures var laid := Layout(|pre|, blocks).value;
            && |laid.entries| == |blocks| && AllFit(laid.entries)
            && forall i :: 0 <= i < |blocks| ==> Describes(laid.entries[i], blocks[i], pre + (laid.data + post))
    decreases |blocks|
  {
    if blocks != [] {
      var b := blocks[0];
      var mid := pre + BlockBytes(b);
      var rest := Layout(|mid|, blocks[1..]).value;
      var laid := Layout(|pre|, blocks).value;
      LayoutDescribes(mid, blocks[1..], post);
      Associative(BlockBytes(b), rest.data, post);
      Associative(pre, BlockBytes(b), rest.data + post);
      PayloadInside(pre, b, rest.data + post);
      forall i | 0 <= i < |blocks|
        ensures Describes(laid.entries[i], blocks[i], pre + (laid.data + post))
      {
        if i > 0 {
          assert Describes(rest.entries[i - 1], blocks[1..][i - 1], mid + (rest.data + post));
        }
      }
    }
  }

  lemma ReadIndexOf(ck: Checksum, front: seq<byte>, index: seq<byte>, checksum: nat)
    requires |index| < U32 && checksum < U32
    ensures ReadIndex(ck, front + index, EncodeFooter(|index|, checksum)) ==
            if ck(index) != checksum then Err(ChecksumMismatch) else ParseIndex(index)
  {
    FooterReads(|index|, checksum);
    assert (front + index)[|front|..] == index;
  }

  /** Decoding a segment, with an index of the length its footer announces. */
  lemma DecodeSegmentOf(ck: Checksum, front: seq<byte>, index: seq<byte>, checksum: nat)
    requires |front| >= SEGMENT_HEADER_SIZE && front[..12] == SEGMENT_MAGIC
    requires |index| < U32 && checksum < U32
    ensures DecodeSegmentIndex(ck, front + (index + EncodeFooter(|index|, checksum))) ==
            if ck(index) != checksum then Err(ChecksumMismatch) else ParseIndex(index)
  {
    var footer := EncodeFooter(|index|, checksum);
    Associative(front, index, footer);
    CutConcat(front + index, footer);
    TakeFront(front, index + footer, 12);
    ReadIndexOf(ck, front, index, checksum);
  }

  lemma SegmentParts(ck: Checksum, blocks: seq<Block>)
    requires EncodeSegment(ck, blocks).Ok?
    ensures var laid := Layout(SEGMENT_HEADER_SIZE, blocks).value;
            var front := SegmentHeader(|blocks|) + laid.data;
            var index := EncodeIndex(laid.entries);
            && front[..12] == SEGMENT_MAGIC && |index| < U32
            && EncodeSegment(ck, blocks).value == front + (index + EncodeFooter(|index|, ck(index)))
  {
    var laid := Layout(SEGMENT_HEADER_SIZE, blocks).value;
    var index := EncodeIndex(laid.entries);
    Associative(SegmentHeader(|blocks|), laid.data, index + EncodeFooter(|index|, ck(index)));
  }

  /**
   Every block list that encodes is found again: the decoded index lists the same keys in
   order, and each entry's offset and length cut exactly that block's payload out of the segment.
   */
  lemma SegmentRoundTrip(ck: Checksum, blocks: seq<Block>)
    requires EncodeSegment(ck, blocks).Ok?
    ensures var segment := EncodeSegment(ck, blocks).value;
            var r := DecodeSegmentIndex(ck, segment);
            && r.Ok? && |r.value| == |blocks|
            && forall i :: 0 <= i < |blocks| ==> Describes(r.value[i], blocks[i], segment)
  {
    var laid := Layout(SEGMENT_HEADER_SIZE, blocks).value;
    var header := SegmentHeader(|blocks|);
    var index := EncodeIndex(laid.entries);
    LayoutDescribes(header, blocks, index + EncodeFooter(|index|, ck(index)));
    SegmentParts(ck, blocks);
    DecodeSegmentOf(ck, header + laid.data, index, ck(index));
    ParseIndexComplete(laid.entries);
  }

  lemma UpdateBefore(front: seq<byte>, back: seq<byte>, i: nat, b: byte)
    requires i < |front|
    ensures var whole: seq<byte> := front + back; whole[i] == front[i] && whole[i := b] == front[i := b] + back
  {
  }

  /** Changing any one byte of the index of an encoded segment is noticed. */
  lemma SegmentDetectsSubstitution(ck: Checksum, blocks: seq<Block>, i: nat, b: byte)
    requires Detects(ck) && EncodeSegment(ck, blocks).Ok?
    requires var segment := EncodeSegment(ck, blocks).value;
             var indexLen := |EncodeIndex(Layout(SEGMENT_HEADER_SIZE, blocks).value.entries)|;
             |segment| - SEGMENT_FOOTER_SIZE - indexLen <= i < |segment| - SEGMENT_FOOTER_SIZE && b != segment[i]
    ensures DecodeSegmentIndex(ck, EncodeSegment(ck, blocks).value[i := b]) == Err(ChecksumMismatch)
  {
    SegmentParts(ck, blocks);
    var laid := Layout(SEGMENT_HEADER_SIZE, blocks).value;
    var front := SegmentHeader(|blocks|) + laid.data;
    var index := EncodeIndex(laid.entries);
    var footer := EncodeFooter(|index|, ck(index));
    var j := i - |front|;
    var index': seq<byte> := index[j := b];
    UpdateBehind(front, index + footer, i, b);
    UpdateBefore(index, footer, j, b);
    assert ck(index[j := b]) != ck(index);
    DecodeSegmentOf(ck, front, index', ck(index));
  }

  lemma SegmentIndexDetectsSubstitution(blocks: seq<Block>, i: nat, b: byte)
    requires EncodeSegment(Fnv32, blocks).Ok?
    requires var segment := EncodeSegment(Fnv32, blocks).value;
             var indexLen := |EncodeIndex(Layout(SEGMENT_HEADER_SIZE, blocks).value.entries)|;
             |segment| - SEGMENT_FOOTER_SIZE - indexLen <= i < |segment| - SEGMENT_FOOTER_SIZE && b != segment[i]
    ensures DecodeSegmentIndex(Fnv32, EncodeSegment(Fnv32, blocks).value[i := b]) == Err(ChecksumMismatch)
  {
    FnvDetects();
    SegmentDetectsSubstitution(Fnv32, blocks, i, b);
  }

  /** `encode_segment_v1`: data and index grow side by side. */
  method EncodeSegmentV1(blocks: seq<Block>) returns (r: Result<seq<byte>, FormatError>)
    ensures r == EncodeSegment(Fnv32, blocks)
  {
    if |blocks| >= U32 {
      return Err(FieldTooLarge);
    }
    var out := SegmentHeader(|blocks|);
    var entries: seq<SegmentIndexEntry> := [];
    ghost var data: seq<byte> := [];
    LaidStart(blocks);
    for i := 0 to |blocks|
      invariant out == SegmentHeader(|blocks|) + data
      invariant LaidSoFar(blocks, i, |out|, data, entries)
    {
      var b := blocks[i];
      if |b.key| >= U16 || |b.payload| >= U32 || |out| + 6 + |b.key| >= U32 {
        return Err(FieldTooLarge);
      }
      LaidNext(blocks, i, |out|, data, entries);
      entries := entries + [SegmentIndexEntry(b.key, |out| + 6 + |b.key|, |b.payload|)];
      Associative(SegmentHeader(|blocks|), data, BlockBytes(b));
      data := data + BlockBytes(b);
      out := out + BlockBytes(b);
    }
    LaidDone(blocks, |out|, data, entries);
    var index := EncodeIndex(entries);
    if |index| >= U32 {
      return Err(FieldTooLarge);
    }
    var checksum := ComputeChecksum32(index);
    var tail := index + EncodeFooter(|index|, checksum);
    Associative(SegmentHeader(|blocks|), data, tail);
    return Ok(out + tail);
  }

  /** With `i` blocks laid into `data` and `entries`, the rest of the layout starts at `base`. */
  ghost predicate LaidSoFar(blocks: seq<Block>, i: nat, base: nat, data: seq<byte>, entries: seq<SegmentIndexEntry>)
    requires i <= |blocks|
  {
    match Layout(base, blocks[i..])
    case Err(e) => Layout(SEGMENT_HEADER_SIZE, blocks) == Err(e)
    case Ok(rest) => Layout(SEGMENT_HEADER_SIZE, blocks) == Ok(Laid(data + rest.data, entries + rest.entries))
  }

  lemma LaidStart(blocks: seq<Block>)
    ensures LaidSoFar(blocks, 0, SEGMENT_HEADER_SIZE, [], [])
  {
    assert blocks[0..] == blocks;
    var all := Layout(SEGMENT_HEADER_SIZE, blocks);
    if all.Ok? {
      assert [] + all.value.data == all.value.data && [] + all.value.entries == all.value.entries;
    }
  }

  lemma LaidDone(blocks: seq<Block>, base: nat, data: seq<byte>, entries: seq<SegmentIndexEntry>)
    requires LaidSoFar(blocks, |blocks|, base, data, entries)
    ensures Layout(SEGMENT_HEADER_SIZE, blocks) == Ok(Laid(data, entries))
  {
    assert blocks[|blocks|..] == [] && data + [] == data && entries + [] == entries;
  }

  lemma LaidNext(blocks: seq<Block>, i: nat, base: nat, data: seq<byte>, entries: seq<SegmentIndexEntry>)
    requires i < |blocks| && LaidSoFar(blocks, i, base, data, entries)
    requires |blocks[i].key| < U16 && |blocks[i].payload| < U32 && base + 6 + |blocks[i].key| < U32
    ensures LaidSoFar(blocks, i + 1, base + |BlockBytes(blocks[i])|, data + BlockBytes(blocks[i]),
                      entries + [SegmentIndexEntry(blocks[i].key, base + 6 + |blocks[i].key|, |blocks[i].payload|)])
  {
    var b := blocks[i];
    assert blocks[i..][1..] == blocks[i + 1..];
    var next := Layout(base + |BlockBytes(b)|, blocks[i + 1..]);
    if next.Ok? {
      Associative(data, BlockBytes(b), next.value.data);
      Associative(entries, [SegmentIndexEntry(b.key, base + 6 + |b.key|, |b.payload|)], next.value.entries);
    }
  }
}
