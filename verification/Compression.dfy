/**
 The WBZ1 block envelope of compression.rs. zstd is a pair of functions of which only
 losslessness is known.
 */
module Compression {
  import opened Bytes

  const COMPRESS_MAGIC: seq<byte> := Ascii("WBZ1")
  const COMPRESS_HEADER_SIZE: nat := 10

  datatype CompressAlgo = NoCompression | ZstdCompression | Lz4Compression

  datatype BlockCompressionConfig = BlockCompressionConfig(algo: CompressAlgo, level: int)

  datatype CompressionError = PayloadTooLarge(len: nat) | Encode

  datatype Zstd = Zstd(
    compress: (seq<byte>, int) -> Option<seq<byte>>,
    decompress: (seq<byte>, nat) -> Option<seq<byte>>)
  {
    ghost predicate Lossless()
    {
      forall p, level {:trigger compress(p, level)} ::
        compress(p, level).Some? ==> decompress(compress(p, level).value, |p|) == Some(p)
    }
  }

  function AlgoFromByte(b: byte): (r: Option<CompressAlgo>)
  {
    if b == 0 then Some(NoCompression)
    else if b == 1 then Some(ZstdCompression)
    else if b == 2 then Some(Lz4Compression)
    else None
  }

  function LevelByte(level: int): (b: byte)
  {
    if level < 0 then 0 else if level > 255 then 255 else level
  }

  function Header(level: int, rawLen: nat): (r: seq<byte>)
    ensures |r| == COMPRESS_HEADER_SIZE
  {
    COMPRESS_MAGIC + ([1, LevelByte(level)] + Le(rawLen, 4))
  }

  function EncodeWithHeader(z: Zstd, cfg: BlockCompressionConfig, payload: seq<byte>): (r: Result<seq<byte>, CompressionError>)
  {
    match cfg.algo
    case NoCompression => Ok(payload)
    case ZstdCompression =>
      if |payload| >= U32 then Err(PayloadTooLarge(|payload|))
      else if z.compress(payload, cfg.level).None? then Err(Encode)
      else Ok(Header(cfg.level, |payload|) + z.compress(payload, cfg.level).value)
    case Lz4Compression => Err(Encode)
  }

  function DecodeIfCompressed(z: Zstd, bytes: seq<byte>): (r: seq<byte>)
  {
    if |bytes| < COMPRESS_HEADER_SIZE || bytes[..4] != COMPRESS_MAGIC then bytes
    else
      var rawLen := FromLe(bytes[6..10]);
      var payload := bytes[COMPRESS_HEADER_SIZE..];
      match AlgoFromByte(bytes[4])
      case None => bytes
      case Some(NoCompression) => payload
      case Some(ZstdCompression) =>
        var decoded := z.decompress(payload, rawLen);
        if decoded.Some? && |decoded.value| == rawLen then decoded.value else bytes
      case Some(Lz4Compression) => bytes
  }

  lemma HeaderFields(level: int, rawLen: nat, rest: seq<byte>)
    ensures var bytes := Header(level, rawLen) + rest;
            && bytes[..4] == COMPRESS_MAGIC && bytes[4] == 1
            && bytes[6..10] == Le(rawLen, 4) && bytes[10..] == rest
  {
    var bytes := Header(level, rawLen) + rest;
    assert forall i :: 0 <= i < 10 ==> bytes[i] == Header(level, rawLen)[i];
    assert forall i :: 6 <= i < 10 ==> Header(level, rawLen)[i] == Le(rawLen, 4)[i - 6];
  }

  /** With zstd every payload that encodes is read back, and one of 4 GiB or more is refused. */
  lemma ZstdReadsBack(z: Zstd, level: int, payload: seq<byte>)
    requires z.Lossless()
    ensures var r := EncodeWithHeader(z, BlockCompressionConfig(ZstdCompression, level), payload);
            && (r.Ok? <==> |payload| < U32 && z.compress(payload, level).Some?)
            && (r.Ok? ==> DecodeIfCompressed(z, r.value) == payload)
            && (|payload| >= U32 ==> r == Err(PayloadTooLarge(|payload|)))
  {
    if |payload| < U32 && z.compress(payload, level).Some? {
      var c := z.compress(payload, level).value;
      HeaderFields(level, |payload|, c);
      LeDecodes(|payload|, 4);
      Capacities();
    }
  }

  /**
   Which payloads encode, and as what: any as it is with compression off; with zstd those below
   4 GiB that compress, as magic, codec 1, level, 32-bit length and the compressed bytes; none with lz4.
   */
  lemma EncodesIff(z: Zstd, cfg: BlockCompressionConfig, payload: seq<byte>, encoded: seq<byte>)
    ensures EncodeWithHeader(z, cfg, payload) == Ok(encoded) <==>
            match cfg.algo
            case NoCompression => encoded == payload
            case ZstdCompression =>
              && |payload| < U32 && |encoded| >= 10
              && encoded[..4] == Ascii("WBZ1") && encoded[4] == 1
              && encoded[5] as int == (if cfg.level < 0 then 0 else if cfg.level > 255 then 255 else cfg.level)
              && encoded[6..10] == Le(|payload|, 4)
              && z.compress(payload, cfg.level) == Some(encoded[10..])
            case Lz4Compression => false
  {
    if cfg.algo.ZstdCompression? && |payload| < U32 {
      var c := z.compress(payload, cfg.level);
      if c.Some? {
        HeaderFields(cfg.level, |payload|, c.value);
      }
      if |encoded| >= 10 {
        HeaderCuts(encoded, cfg.level, |payload|);
      }
    }
  }

  lemma HeaderCuts(bytes: seq<byte>, level: int, rawLen: nat)
    requires |bytes| >= 10
    ensures bytes == Header(level, rawLen) + bytes[10..] <==>
            bytes[..4] == COMPRESS_MAGIC && bytes[4] == 1 && bytes[5] == LevelByte(level) && bytes[6..10] == Le(rawLen, 4)
  {
    assert bytes == bytes[..4] + ([bytes[4], bytes[5]] + bytes[6..10]) + bytes[10..];
    if bytes == Header(level, rawLen) + bytes[10..] {
      HeaderFields(level, rawLen, bytes[10..]);
    }
  }

  /** What is opened comes out: the rest as it is behind codec 0, decompressed behind codec 1. All else stays as it is. */
  lemma DecodesOpened(z: Zstd, bytes: seq<byte>)
    ensures DecodeIfCompressed(z, bytes) ==
            if !Opens(z, bytes) then bytes else if bytes[4] == 0 then bytes[10..] else Inner(z, bytes).value
  {
  }

  /** The decoder opens `bytes`: stored plain, or with zstd to the declared length. */
  predicate Opens(z: Zstd, bytes: seq<byte>)
  {
    && |bytes| >= COMPRESS_HEADER_SIZE
    && bytes[..4] == COMPRESS_MAGIC
    && (bytes[4] == 0 || (bytes[4] == 1 && Inner(z, bytes).Some? && |Inner(z, bytes).value| == DeclaredLength(bytes)))
  }

  function DeclaredLength(bytes: seq<byte>): (n: nat)
    requires |bytes| >= COMPRESS_HEADER_SIZE
  {
    FromLe(bytes[6..10])
  }

  function Inner(z: Zstd, bytes: seq<byte>): (r: Option<seq<byte>>)
    requires |bytes| >= COMPRESS_HEADER_SIZE
  {
    z.decompress(bytes[COMPRESS_HEADER_SIZE..], DeclaredLength(bytes))
  }

  /** An envelope that decompresses to itself, and so declares its own length. */
  predicate SelfOpening(z: Zstd, bytes: seq<byte>)
  {
    |bytes| >= COMPRESS_HEADER_SIZE && bytes[4] == 1 && DeclaredLength(bytes) == |bytes| && Inner(z, bytes) == Some(bytes)
  }

  /** Stored raw, a payload is read back exactly when the decoder does not open it, or opens it to itself. */
  lemma RawReadsBackIff(z: Zstd, payload: seq<byte>)
    ensures DecodeIfCompressed(z, payload) == payload <==> !Opens(z, payload) || SelfOpening(z, payload)
  {
    if |payload| >= COMPRESS_HEADER_SIZE {
      assert |payload[COMPRESS_HEADER_SIZE..]| < |payload|;
    }
  }

  /** Unless it declares its own length, which no reader of the payload needs zstd to see, opening it is losing it. */
  lemma RawReadsBackUnlessOpened(z: Zstd, payload: seq<byte>)
    requires |payload| >= COMPRESS_HEADER_SIZE ==> DeclaredLength(payload) != |payload|
    ensures DecodeIfCompressed(z, payload) == payload <==> !Opens(z, payload)
  {
    RawReadsBackIff(z, payload);
  }

  /** A raw payload without the magic is safe. */
  lemma NoMagicReadsBack(z: Zstd, payload: seq<byte>)
    requires !(COMPRESS_MAGIC <= payload)
    ensures DecodeIfCompressed(z, payload) == payload
  {
    if |payload| >= 4 {
      assert payload[..4] != COMPRESS_MAGIC;
    }
  }

  /** The empty envelope, stored raw, comes back as nothing. */
  lemma RawEnvelopeIsLost(z: Zstd)
    ensures var payload := COMPRESS_MAGIC + [0, 0, 0, 0, 0, 0];
            EncodeWithHeader(z, BlockCompressionConfig(NoCompression, 0), payload) == Ok(payload)
            && DecodeIfCompressed(z, payload) == []
  {
    var payload := COMPRESS_MAGIC + [0, 0, 0, 0, 0, 0];
    assert payload[..4] == COMPRESS_MAGIC && payload[4] == 0 && |payload| == 10;
  }
}
