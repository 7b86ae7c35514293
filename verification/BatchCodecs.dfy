/**
 The key-batch and bytes-batch codecs of the daemon's control path (daemon lib.rs).
 Keys are texts, that is, well-formed UTF-8; lengths and counts are 32-bit.
 */
module BatchCodecs {
  import opened Bytes
  import opened Text

  const KEY_BATCH_MAGIC: seq<byte> := Ascii("WMBT_KV_KEYS_V1\0")
  const BYTES_BATCH_MAGIC: seq<byte> := Ascii("WMBT_KV_BYTES_V1\0")

  datatype WireCodecError = BadMagic | Truncated | TrailingBytes(extra: nat) | BodyLengthMismatch | NotUtf8

  /** `n as u32` */
  function LowWord(n: nat): (r: nat)
    ensures r < U32 && (n < U32 ==> r == n)
  {
    if n < U32 then n else n % U32
  }

  /** `(n as u32).to_le_bytes()`: keeps the low 32 bits. */
  function AsU32(n: nat): (r: seq<byte>)
    ensures |r| == 4
  {
    Le(LowWord(n), 4)
  }

  /** `read_u32`: the integer at the front of `s` and what follows it. */
  function ReadU32(s: seq<byte>): (r: Result<(nat, seq<byte>), WireCodecError>)
    ensures r.Ok? ==> |r.value.1| + 4 == |s| && r.value.0 < U32
  {
    if |s| < 4 then Err(Truncated)
    else
      FromLeBound(s[..4]);
      Capacities();
      Ok((FromLe(s[..4]), s[4..]))
  }

  lemma ReadU32Sound(s: seq<byte>)
    requires |s| >= 4
    ensures FromLe(s[..4]) < U32 && AsU32(FromLe(s[..4])) == s[..4]
  {
    Capacities();
    FromLeBound(s[..4]);
    LeEncodes(s[..4]);
  }

  lemma AsU32Reads(n: nat)
    requires n < U32
    ensures FromLe(AsU32(n)) == n
  {
    Capacities();
    LeDecodes(n, 4);
  }

  lemma ReadU32Iff(s: seq<byte>, n: nat, rest: seq<byte>)
    ensures ReadU32(s) == Ok((n, rest)) <==> n < U32 && s == AsU32(n) + rest
  {
    if ReadU32(s) == Ok((n, rest)) {
      ReadU32Sound(s);
      assert s == s[..4] + s[4..];
    }
    if n < U32 && s == AsU32(n) + rest {
      CutConcat(AsU32(n), rest);
      AsU32Reads(n);
    }
  }

  // ---- lists ---------------------------------------------------------------

  /** Takes one item off the front of the data. */
  type Reader<T> = seq<byte> -> Result<(T, seq<byte>), WireCodecError>

  function EncodeMany<T>(enc: T -> seq<byte>, items: seq<T>): (r: seq<byte>)
  {
    if items == [] then [] else enc(items[0]) + EncodeMany(enc, items[1..])
  }

  /** `count` items, and what follows them. */
  function DecodeMany<T>(read: Reader<T>, s: seq<byte>, count: nat): (r: Result<(seq<T>, seq<byte>), WireCodecError>)
    decreases count
  {
    if count == 0 then Ok(([], s))
    else match read(s)
         case Err(e) => Err(e)
         case Ok((x, rest)) =>
           match DecodeMany(read, rest, count - 1)
           case Err(e) => Err(e)
           case Ok((items, end)) => Ok(([x] + items, end))
  }

  /** `read` takes off exactly what `enc` puts on, for items that fit. */
  ghost predicate Inverse<T(!new)>(enc: T -> seq<byte>, read: Reader<T>, fits: T -> bool)
  {
    && (forall s {:trigger read(s)} :: read(s).Ok? ==> fits(read(s).value.0) && s == enc(read(s).value.0) + read(s).value.1)
    && (forall x, rest {:trigger enc(x) + rest} :: fits(x) ==> read(enc(x) + rest) == Ok((x, rest)))
  }

  lemma {:induction false} DecodeManySound<T(!new)>(enc: T -> seq<byte>, read: Reader<T>, fits: T -> bool, s: seq<byte>, count: nat)
    requires Inverse(enc, read, fits) && DecodeMany(read, s, count).Ok?
    ensures var (items, rest) := DecodeMany(read, s, count).value;
            && |items| == count && (forall i :: 0 <= i < count ==> fits(items[i]))
            && s == EncodeMany(enc, items) + rest
    decreases count
  {
    if count == 0 {
      assert [] + s == s;
    } else {
      var (x, after) := read(s).value;
      DecodeManySound(enc, read, fits, after, count - 1);
      var (items, rest) := DecodeMany(read, after, count - 1).value;
      assert ([x] + items)[1..] == items;
      Associative(enc(x), EncodeMany(enc, items), rest);
    }
  }

  lemma {:induction false} DecodeManyComplete<T(!new)>(enc: T -> seq<byte>, read: Reader<T>, fits: T -> bool, items: seq<T>, rest: seq<byte>)
    requires Inverse(enc, read, fits) && forall i :: 0 <= i < |items| ==> fits(items[i])
    ensures DecodeMany(read, EncodeMany(enc, items) + rest, |items|) == Ok((items, rest))
    decreases |items|
  {
    if items == [] {
      assert [] + rest == rest;
    } else {
      var after := EncodeMany(enc, items[1..]) + rest;
      Associative(enc(items[0]), EncodeMany(enc, items[1..]), rest);
      assert read(enc(items[0]) + after) == Ok((items[0], after));
      DecodeManyComplete(enc, read, fits, items[1..], rest);
      assert items == [items[0]] + items[1..];
    }
  }

  // ---- key batches -----------------------------------------------------

  function EncodeKey(key: seq<byte>): (r: seq<byte>) { AsU32(|key|) + key }

  function EncodeKeyBatch(keys: seq<seq<byte>>): (r: seq<byte>)
  {
    KEY_BATCH_MAGIC + (AsU32(|keys|) + EncodeMany(EncodeKey, keys))
  }

  /** One key at the front of `s`. */
  function DecodeKey(s: seq<byte>): (r: Result<(seq<byte>, seq<byte>), WireCodecError>)
  {
    match ReadU32(s)
    case Err(e) => Err(e)
    case Ok((len, rest)) =>
      if len > |rest| then Err(Truncated)
      else if !ValidUtf8(rest[..len]) then Err(NotUtf8)
      else Ok((rest[..len], rest[len..]))
  }

  function DecodeKeyBatch(payload: seq<byte>): (r: Result<seq<seq<byte>>, WireCodecError>)
  {
    if !(KEY_BATCH_MAGIC <= payload) then Err(BadMagic)
    else match ReadU32(payload[|KEY_BATCH_MAGIC|..])
         case Err(e) => Err(e)
         case Ok((count, rest)) => AllRead(DecodeMany(DecodeKey, rest, count))
  }

  /** Nothing may be left. */
  function AllRead<T>(r: Result<(seq<T>, seq<byte>), WireCodecError>): (items: Result<seq<T>, WireCodecError>)
  {
    if r.Err? then Err(r.error)
    else if r.value.1 != [] then Err(TrailingBytes(|r.value.1|))
    else Ok(r.value.0)
  }

  /** What a 32-bit key batch can carry. */
  predicate KeyFits(key: seq<byte>) { |key| < U32 && ValidUtf8(key) }

  predicate KeysFit(keys: seq<seq<byte>>)
  {
    |keys| < U32 && forall i :: 0 <= i < |keys| ==> KeyFits(keys[i])
  }

  lemma DecodeKeySound(s: seq<byte>)
    requires DecodeKey(s).Ok?
    ensures KeyFits(DecodeKey(s).value.0) && s == EncodeKey(DecodeKey(s).value.0) + DecodeKey(s).value.1
  {
    var (len, after) := ReadU32(s).value;
    ReadU32Iff(s, len, after);
    var key, rest := after[..len], after[len..];
    assert after == key + rest;
    Associative(AsU32(len), key, rest);
  }

  lemma DecodeKeyComplete(key: seq<byte>, rest: seq<byte>)
    requires KeyFits(key)
    ensures DecodeKey(EncodeKey(key) + rest) == Ok((key, rest))
  {
    Associative(AsU32(|key|), key, rest);
    ReadU32Iff(EncodeKey(key) + rest, |key|, key + rest);
    CutConcat(key, rest);
  }

  lemma KeysInverse()
    ensures Inverse(EncodeKey, DecodeKey, KeyFits)
  {
    forall s: seq<byte> | DecodeKey(s).Ok?
      ensures KeyFits(DecodeKey(s).value.0) && s == EncodeKey(DecodeKey(s).value.0) + DecodeKey(s).value.1
    {
      DecodeKeySound(s);
    }
    forall key: seq<byte>, rest: seq<byte> | KeyFits(key)
      ensures DecodeKey(EncodeKey(key) + rest) == Ok((key, rest))
    {
      DecodeKeyComplete(key, rest);
    }
  }

  lemma KeyBatchSound(payload: seq<byte>)
    requires DecodeKeyBatch(payload).Ok?
    ensures var keys := DecodeKeyBatch(payload).value; KeysFit(keys) && payload == EncodeKeyBatch(keys)
  {
    var after := payload[|KEY_BATCH_MAGIC|..];
    var (count, rest) := ReadU32(after).value;
    ReadU32Iff(after, count, rest);
    KeysInverse();
    DecodeManySound(EncodeKey, DecodeKey, KeyFits, rest, count);
    var keys := DecodeMany(DecodeKey, rest, count).value.0;
    assert EncodeMany(EncodeKey, keys) + [] == EncodeMany(EncodeKey, keys);
    assert payload == KEY_BATCH_MAGIC + after;
  }

  lemma KeyBatchComplete(keys: seq<seq<byte>>)
    requires KeysFit(keys)
    ensures DecodeKeyBatch(EncodeKeyBatch(keys)) == Ok(keys)
  {
    var rest := EncodeMany(EncodeKey, keys);
    CutConcat(KEY_BATCH_MAGIC, AsU32(|keys|) + rest);
    ReadU32Iff(AsU32(|keys|) + rest, |keys|, rest);
    KeysInverse();
    DecodeManyComplete(EncodeKey, DecodeKey, KeyFits, keys, []);
    assert rest + [] == rest;
  }

  /** Encoder and decoder are inverse to each other. */
  lemma KeyBatchIff(payload: seq<byte>, keys: seq<seq<byte>>)
    ensures DecodeKeyBatch(payload) == Ok(keys) <==> KeysFit(keys) && payload == EncodeKeyBatch(keys)
  {
    if DecodeKeyBatch(payload) == Ok(keys) {
      KeyBatchSound(payload);
    }
    if KeysFit(keys) {
      KeyBatchComplete(keys);
    }
  }

  /** Of a batch with its magic and count, the keys that are there decide: bytes behind them are too many. */
  lemma KeyBatchVerdict(keys: seq<seq<byte>>, tail: seq<byte>)
    requires KeysFit(keys)
    ensures DecodeKeyBatch(KEY_BATCH_MAGIC + (AsU32(|keys|) + (EncodeMany(EncodeKey, keys) + tail))) ==
            if tail == [] then Ok(keys) else Err(TrailingBytes(|tail|))
  {
    KeyBatchOf(|keys|, EncodeMany(EncodeKey, keys) + tail);
    KeysInverse();
    DecodeManyComplete(EncodeKey, DecodeKey, KeyFits, keys, tail);
  }

  lemma KeyBatchOf(count: nat, rest: seq<byte>)
    requires count < U32
    ensures DecodeKeyBatch(KEY_BATCH_MAGIC + (AsU32(count) + rest)) == AllRead(DecodeMany(DecodeKey, rest, count))
  {
    CutConcat(KEY_BATCH_MAGIC, AsU32(count) + rest);
    ReadU32Iff(AsU32(count) + rest, count, rest);
  }

  /** A batch is foreign exactly when it does not start with its magic. */
  lemma ForeignIff(payload: seq<byte>)
    ensures DecodeKeyBatch(payload) == Err(BadMagic) <==> !(KEY_BATCH_MAGIC <= payload)
    ensures DecodeBytesBatch(payload) == Err(BadMagic) <==> !(BYTES_BATCH_MAGIC <= payload)
  {
    if KEY_BATCH_MAGIC <= payload {
      var head := ReadU32(payload[|KEY_BATCH_MAGIC|..]);
      if head.Ok? {
        ManyNeverForeign(DecodeKey, head.value.1, head.value.0);
      }
    }
    if BYTES_BATCH_MAGIC <= payload {
      var head := ReadU32(payload[|BYTES_BATCH_MAGIC|..]);
      if head.Ok? {
        ManyNeverForeign(ReadU32, head.value.1, head.value.0);
      }
    }
  }

  lemma {:induction false} ManyNeverForeign<T>(read: Reader<T>, s: seq<byte>, count: nat)
    requires forall x {:trigger read(x)} :: read(x) != Err(BadMagic)
    ensures DecodeMany(read, s, count) != Err(BadMagic)
    decreases count
  {
    if count > 0 {
      var next := read(s);
      if next.Ok? {
        ManyNeverForeign(read, next.value.1, count - 1);
      }
    }
  }

  // ---- bytes batches ---------------------------------------------------

  function Lengths(items: seq<seq<byte>>): (r: seq<nat>)
    ensures |r| == |items|
  {
    seq(|items|, i requires 0 <= i < |items| => |items[i]|)
  }

  function EncodeBytesBatch(items: seq<seq<byte>>): (r: seq<byte>)
  {
    BYTES_BATCH_MAGIC + (AsU32(|items|) + (EncodeMany(AsU32, Lengths(items)) + Concat(items)))
  }

  function Sum(lengths: seq<nat>): (n: nat)
  {
    if lengths == [] then 0 else lengths[0] + Sum(lengths[1..])
  }

  function Slice(body: seq<byte>, lengths: seq<nat>): (r: seq<seq<byte>>)
    requires |body| == Sum(lengths)
  {
    if lengths == [] then [] else [body[..lengths[0]]] + Slice(body[lengths[0]..], lengths[1..])
  }

  function DecodeBytesBatch(batch: seq<byte>): (r: Result<seq<seq<byte>>, WireCodecError>)
  {
    if !(BYTES_BATCH_MAGIC <= batch) then Err(BadMagic)
    else match ReadU32(batch[|BYTES_BATCH_MAGIC|..])
         case Err(e) => Err(e)
         case Ok((count, rest)) =>
           match DecodeMany(ReadU32, rest, count)
           case Err(e) => Err(e)
           case Ok((lengths, body)) =>
             if |body| != Sum(lengths) then Err(BodyLengthMismatch) else Ok(Slice(body, lengths))
  }

  predicate ItemsFit(items: seq<seq<byte>>)
  {
    |items| < U32 && forall i :: 0 <= i < |items| ==> |items[i]| < U32
  }

  lemma {:induction false} SumOfLengths(items: seq<seq<byte>>)
    ensures Sum(Lengths(items)) == |Concat(items)|
  {
    if items != [] {
      SumOfLengths(items[1..]);
      assert Lengths(items)[1..] == Lengths(items[1..]);
    }
  }

  lemma {:induction false} SliceOfConcat(items: seq<seq<byte>>)
    ensures Sum(Lengths(items)) == |Concat(items)| && Slice(Concat(items), Lengths(items)) == items
  {
    SumOfLengths(items);
    if items != [] {
      SliceOfConcat(items[1..]);
      assert Lengths(items)[1..] == Lengths(items[1..]);
      CutConcat(items[0], Concat(items[1..]));
      assert items == [items[0]] + items[1..];
    }
  }

  lemma {:induction false} ConcatOfSlice(body: seq<byte>, lengths: seq<nat>)
    requires |body| == Sum(lengths)
    ensures Concat(Slice(body, lengths)) == body && Lengths(Slice(body, lengths)) == lengths
  {
    if lengths != [] {
      var rest := body[lengths[0]..];
      ConcatOfSlice(rest, lengths[1..]);
      var items := Slice(body, lengths);
      assert items[1..] == Slice(rest, lengths[1..]);
      assert Lengths(items) == [lengths[0]] + Lengths(items[1..]);
      assert body == body[..lengths[0]] + rest && lengths == [lengths[0]] + lengths[1..];
    }
  }

  predicate WordFits(n: nat) { n < U32 }

  lemma WordsInverse()
    ensures Inverse(AsU32, ReadU32, WordFits)
  {
    forall s: seq<byte> | ReadU32(s).Ok?
      ensures s == AsU32(ReadU32(s).value.0) + ReadU32(s).value.1
    {
      ReadU32Iff(s, ReadU32(s).value.0, ReadU32(s).value.1);
    }
    forall n: nat, rest: seq<byte> | WordFits(n)
      ensures ReadU32(AsU32(n) + rest) == Ok((n, rest))
    {
      ReadU32Iff(AsU32(n) + rest, n, rest);
    }
  }

  lemma BytesBatchSound(batch: seq<byte>)
    requires DecodeBytesBatch(batch).Ok?
    ensures var items := DecodeBytesBatch(batch).value; ItemsFit(items) && batch == EncodeBytesBatch(items)
  {
    var after := batch[|BYTES_BATCH_MAGIC|..];
    var (count, rest) := ReadU32(after).value;
    ReadU32Iff(after, count, rest);
    WordsInverse();
    DecodeManySound(AsU32, ReadU32, WordFits, rest, count);
    var (lengths, body) := DecodeMany(ReadU32, rest, count).value;
    ConcatOfSlice(body, lengths);
    var items := Slice(body, lengths);
    assert forall i :: 0 <= i < |items| ==> |items[i]| == Lengths(items)[i] && WordFits(lengths[i]);
    assert batch == BYTES_BATCH_MAGIC + after;
  }

  lemma BytesBatchComplete(items: seq<seq<byte>>)
    requires ItemsFit(items)
    ensures DecodeBytesBatch(EncodeBytesBatch(items)) == Ok(items)
  {
    var rest := EncodeMany(AsU32, Lengths(items)) + Concat(items);
    CutConcat(BYTES_BATCH_MAGIC, AsU32(|items|) + rest);
    ReadU32Iff(AsU32(|items|) + rest, |items|, rest);
    WordsInverse();
    DecodeManyComplete(AsU32, ReadU32, WordFits, Lengths(items), Concat(items));
    SliceOfConcat(items);
  }

  /** Encoder and decoder are inverse to each other. */
  lemma BytesBatchIff(batch: seq<byte>, items: seq<seq<byte>>)
    ensures DecodeBytesBatch(batch) == Ok(items) <==> ItemsFit(items) && batch == EncodeBytesBatch(items)
  {
    if DecodeBytesBatch(batch) == Ok(items) {
      BytesBatchSound(batch);
    }
    if ItemsFit(items) {
      BytesBatchComplete(items);
    }
  }

  /** Of a batch with its magic, count and lengths, the body decides: it is cut by the lengths or refused. */
  lemma BytesBatchVerdict(lengths: seq<nat>, body: seq<byte>)
    requires |lengths| < U32 && forall i :: 0 <= i < |lengths| ==> WordFits(lengths[i])
    ensures DecodeBytesBatch(BYTES_BATCH_MAGIC + (AsU32(|lengths|) + (EncodeMany(AsU32, lengths) + body))) ==
            if |body| == Sum(lengths) then Ok(Slice(body, lengths)) else Err(BodyLengthMismatch)
  {
    var rest := EncodeMany(AsU32, lengths) + body;
    CutConcat(BYTES_BATCH_MAGIC, AsU32(|lengths|) + rest);
    ReadU32Iff(AsU32(|lengths|) + rest, |lengths|, rest);
    WordsInverse();
    DecodeManyComplete(AsU32, ReadU32, WordFits, lengths, body);
  }

  lemma WordIsCut(m: nat, n: nat)
    requires n < U32 && AsU32(m) == AsU32(n)
    ensures n == m % U32 <= m
  {
    Capacities();
    LeInjective(LowWord(m), LowWord(n), 4);
  }

  /** Words that fit and begin a list of words are at most what that list says, and equal to it if the sums are. */
  lemma {:induction false} CutWords(said: seq<nat>, read: seq<nat>, x: seq<byte>, y: seq<byte>)
    requires |read| <= |said| && (forall i :: 0 <= i < |read| ==> read[i] < U32)
    requires EncodeMany(AsU32, said) + x == EncodeMany(AsU32, read) + y
    ensures Sum(read) <= Sum(said)
    ensures |read| == |said| && Sum(read) == Sum(said) ==> read == said
    decreases |read|
  {
    if read != [] {
      var s, r := said[0], read[0];
      Associative(AsU32(s), EncodeMany(AsU32, said[1..]), x);
      Associative(AsU32(r), EncodeMany(AsU32, read[1..]), y);
      SplitEqual(AsU32(s), EncodeMany(AsU32, said[1..]) + x, AsU32(r), EncodeMany(AsU32, read[1..]) + y);
      WordIsCut(s, r);
      CutWords(said[1..], read[1..], x, y);
      assert said == [s] + said[1..] && read == [r] + read[1..];
    }
  }

  lemma {:induction false} WordsLength(words: seq<nat>)
    ensures |EncodeMany(AsU32, words)| == 4 * |words|
  {
    if words != [] {
      WordsLength(words[1..]);
    }
  }

  /** What is read back after a cut can only be what was written: too many or too long items are refused, never confused. */
  lemma BytesBatchNeverLies(items: seq<seq<byte>>, got: seq<seq<byte>>)
    requires DecodeBytesBatch(EncodeBytesBatch(items)) == Ok(got)
    ensures got == items && ItemsFit(items)
  {
    BytesBatchSound(EncodeBytesBatch(items));
    var said, read := Lengths(items), Lengths(got);
    var saidTail, readTail := EncodeMany(AsU32, said) + Concat(items), EncodeMany(AsU32, read) + Concat(got);
    SplitEqual(BYTES_BATCH_MAGIC, AsU32(|items|) + saidTail, BYTES_BATCH_MAGIC, AsU32(|got|) + readTail);
    SplitEqual(AsU32(|items|), saidTail, AsU32(|got|), readTail);
    WordIsCut(|items|, |got|);
    CutWords(said, read, Concat(items), Concat(got));
    WordsLength(said);
    WordsLength(read);
    SumOfLengths(items);
    SumOfLengths(got);
    assert forall i :: 0 <= i < |items| ==> |items[i]| == said[i] == read[i] == |got[i]|;
    BytesBatchComplete(items);
  }

  // ---- the decoders' loops ---------------------------------------------

  /** The reading loop of both decoders: `count` items, one after the other. */
  method ReadMany<T>(read: Reader<T>, s: seq<byte>, count: nat) returns (r: Result<(seq<T>, seq<byte>), WireCodecError>)
    ensures r == DecodeMany(read, s, count)
  {
    var items: seq<T> := [];
    var rest := s;
    ghost var all := DecodeMany(read, s, count);
    assert all.Ok? ==> [] + all.value.0 == all.value.0;
    for i := 0 to count
      invariant match DecodeMany(read, rest, count - i)
                case Err(e) => all == Err(e)
                case Ok((more, end)) => all == Ok((items + more, end))
    {
      var next := read(rest);
      if next.Err? {
        return Err(next.error);
      }
      ghost var more := DecodeMany(read, next.value.1, count - i - 1);
      if more.Ok? {
        Associative(items, [next.value.0], more.value.0);
      }
      items := items + [next.value.0];
      rest := next.value.1;
    }
    assert items + [] == items;
    return Ok((items, rest));
  }

  method DecodeKeyBatchLoop(payload: seq<byte>) returns (r: Result<seq<seq<byte>>, WireCodecError>)
    ensures r == DecodeKeyBatch(payload)
  {
    if !(KEY_BATCH_MAGIC <= payload) {
      return Err(BadMagic);
    }
    var head := ReadU32(payload[|KEY_BATCH_MAGIC|..]);
    if head.Err? {
      return Err(head.error);
    }
    var keys := ReadMany(DecodeKey, head.value.1, head.value.0);
    return AllRead(keys);
  }

  method DecodeBytesBatchLoop(batch: seq<byte>) returns (r: Result<seq<seq<byte>>, WireCodecError>)
    ensures r == DecodeBytesBatch(batch)
  {
    if !(BYTES_BATCH_MAGIC <= batch) {
      return Err(BadMagic);
    }
    var head := ReadU32(batch[|BYTES_BATCH_MAGIC|..]);
    if head.Err? {
      return Err(head.error);
    }
    var lens := ReadMany(ReadU32, head.value.1, head.value.0);
    if lens.Err? {
      return Err(lens.error);
    }
    var (lengths, body) := lens.value;
    if |body| != Sum(lengths) {
      return Err(BodyLengthMismatch);
    }
    var items := SliceLoop(body, lengths);
    return Ok(items);
  }

  /** The slicing loop of `decode_bytes_batch`. */
  method SliceLoop(body: seq<byte>, lengths: seq<nat>) returns (out: seq<seq<byte>>)
    requires |body| == Sum(lengths)
    ensures out == Slice(body, lengths)
    ensures Concat(out) == body && Lengths(out) == lengths
  {
    ConcatOfSlice(body, lengths);
    out := [];
    var rest := body;
    assert lengths[0..] == lengths && [] + Slice(body, lengths) == Slice(body, lengths);
    for i := 0 to |lengths|
      invariant |rest| == Sum(lengths[i..])
      invariant Slice(body, lengths) == out + Slice(rest, lengths[i..])
    {
      assert lengths[i..][1..] == lengths[i + 1..];
      Associative(out, [rest[..lengths[i]]], Slice(rest[lengths[i]..], lengths[i + 1..]));
      out := out + [rest[..lengths[i]]];
      rest := rest[lengths[i]..];
    }
    assert lengths[|lengths|..] == [] && out + [] == out;
  }
}
