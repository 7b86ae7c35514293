/**
 The wrapping bump allocator of arena.rs: a mapped file with a 64-byte header (next offset and
 wrap epoch, little-endian) and a payload area that slabs are written into one behind the other,
 starting over at the front when the tail is too short.
 */
module Arena {
  import opened Bytes
  import opened Tallies

  const ARENA_HEADER_BYTES: nat := 64
  const NEXT_OFFSET_AT: nat := 0
  const WRAP_EPOCH_AT: nat := 8

  datatype ArenaError = PayloadTooLarge(payload: nat, maxSlab: nat) | OutOfBounds(offset: nat, len: nat, arena: nat)

  function NextOffset(mem: seq<byte>): (n: nat)
    requires |mem| >= ARENA_HEADER_BYTES
  {
    FromLe(mem[NEXT_OFFSET_AT..NEXT_OFFSET_AT + 8])
  }

  function WrapEpoch(mem: seq<byte>): (n: nat)
    requires |mem| >= ARENA_HEADER_BYTES
  {
    FromLe(mem[WRAP_EPOCH_AT..WRAP_EPOCH_AT + 8])
  }

  /** How a 64-bit header field is written. */
  type FieldCodec = nat -> seq<byte>

  ghost predicate IsField(enc: FieldCodec)
  {
    forall n: nat {:trigger enc(n)} :: |enc(n)| == 8 && (n < U64 ==> FromLe(enc(n)) == n)
  }

  /** `u64::to_le_bytes` */
  const LE64: FieldCodec := n => Le(n, 8)

  lemma LE64IsField()
    ensures IsField(LE64)
  {
    forall n: nat
      ensures |LE64(n)| == 8 && (n < U64 ==> FromLe(LE64(n)) == n)
    {
      Le64(n);
    }
  }

  lemma Le64(n: nat)
    ensures |Le(n, 8)| == 8 && (n < U64 ==> FromLe(Le(n, 8)) == n)
  {
    Capacities();
    if n < U64 {
      LeDecodes(n, 8);
    }
  }

  /** `copy_from_slice` at an offset. */
  function Put(mem: seq<byte>, at: nat, bytes: seq<byte>): (r: seq<byte>)
    requires at + |bytes| <= |mem|
    ensures |r| == |mem|
  {
    mem[..at] + bytes + mem[at + |bytes|..]
  }

  /** A mapped arena; sizes stay below 2^63, as file lengths do. */
  predicate Valid(mem: seq<byte>)
  {
    ARENA_HEADER_BYTES < |mem| < U64 / 2 && ARENA_HEADER_BYTES <= NextOffset(mem) <= |mem|
  }

  ghost function Created(enc: FieldCodec, size: nat): (mem: seq<byte>)
    requires size > ARENA_HEADER_BYTES && IsField(enc)
    ensures |mem| == size
  {
    Put(seq(size, _ => 0), NEXT_OFFSET_AT, enc(ARENA_HEADER_BYTES))
  }

  // ---- one write -----------------------------------------------------------

  predicate TooLarge(mem: seq<byte>, bytes: seq<byte>)
    requires Valid(mem)
  {
    |bytes| > |mem| - ARENA_HEADER_BYTES
  }

  predicate Wraps(mem: seq<byte>, bytes: seq<byte>)
    requires Valid(mem)
  {
    NextOffset(mem) + |bytes| > |mem|
  }

  /** Where the slab goes. */
  function SlabOffset(mem: seq<byte>, bytes: seq<byte>): (o: nat)
    requires Valid(mem) && !TooLarge(mem, bytes)
    ensures ARENA_HEADER_BYTES <= o && o + |bytes| <= |mem|
  {
    if Wraps(mem, bytes) then ARENA_HEADER_BYTES else NextOffset(mem)
  }

  /** The memory after `write_payload`; unchanged when the payload is refused. */
  ghost function Written(enc: FieldCodec, mem: seq<byte>, bytes: seq<byte>): (r: seq<byte>)
    requires Valid(mem) && IsField(enc)
    ensures |r| == |mem|
  {
    if TooLarge(mem, bytes) then mem
    else
      var o := SlabOffset(mem, bytes);
      var next := enc(o + |bytes|);
      LaidOut(mem, bytes, next, enc(WrapEpoch(Moved(mem, o, bytes, next)) + 1))
  }

  lemma WrittenIs(enc: FieldCodec, mem: seq<byte>, bytes: seq<byte>, o: nat, moved: seq<byte>)
    requires Valid(mem) && IsField(enc) && !TooLarge(mem, bytes)
    requires o == SlabOffset(mem, bytes) && moved == Moved(mem, o, bytes, enc(o + |bytes|))
    ensures Written(enc, mem, bytes) ==
            if Wraps(mem, bytes) then Put(moved, WRAP_EPOCH_AT, enc(WrapEpoch(moved) + 1)) else moved
  {
  }

  /** The slab in place and the fields rewritten, the epoch only on a wrap. */
  function LaidOut(mem: seq<byte>, bytes: seq<byte>, next: seq<byte>, epoch: seq<byte>): (r: seq<byte>)
    requires Valid(mem) && !TooLarge(mem, bytes) && |next| == 8 && |epoch| == 8
    ensures |r| == |mem|
  {
    var moved := Moved(mem, SlabOffset(mem, bytes), bytes, next);
    if Wraps(mem, bytes) then Put(moved, WRAP_EPOCH_AT, epoch) else moved
  }

  /** The slab copied in, and then the next-offset field rewritten. */
  function Moved(mem: seq<byte>, o: nat, bytes: seq<byte>, next: seq<byte>): (r: seq<byte>)
    requires ARENA_HEADER_BYTES <= o && o + |bytes| <= |mem| && |next| == 8
    ensures |r| == |mem|
  {
    Put(Put(mem, o, bytes), NEXT_OFFSET_AT, next)
  }

  /** `read_payload` */
  function ReadPayload(mem: seq<byte>, offset: nat, len: u32): (r: Result<seq<byte>, ArenaError>)
  {
    if offset + len > |mem| || offset < ARENA_HEADER_BYTES then Err(OutOfBounds(offset, len, |mem|))
    else Ok(mem[offset..offset + len])
  }

  /** Exactly the ranges behind the header and within the arena are readable; the error names what was asked. */
  lemma ReadableIff(mem: seq<byte>, offset: nat, len: u32)
    ensures ReadPayload(mem, offset, len).Ok? <==> 64 <= offset && offset + len <= |mem|
    ensures var r := ReadPayload(mem, offset, len);
            r.Err? ==> r.error.OutOfBounds? && r.error.offset == offset && r.error.len == len && r.error.arena == |mem|
  {
  }

  lemma PutOutside(mem: seq<byte>, at: nat, bytes: seq<byte>, lo: nat, hi: nat)
    requires at + |bytes| <= |mem| && lo <= hi <= |mem| && (hi <= at || at + |bytes| <= lo)
    ensures Put(mem, at, bytes)[lo..hi] == mem[lo..hi]
  {
  }

  lemma PutInside(mem: seq<byte>, at: nat, bytes: seq<byte>)
    requires at + |bytes| <= |mem|
    ensures Put(mem, at, bytes)[at..at + |bytes|] == bytes
  {
  }

  /** Bytes `lo .. hi` are neither header fields nor part of the new slab. */
  predicate Clear(o: nat, len: nat, lo: nat, hi: nat)
  {
    WRAP_EPOCH_AT + 8 <= lo <= hi && (hi <= o || o + len <= lo)
  }

  lemma MovedParts(mem: seq<byte>, o: nat, bytes: seq<byte>, next: seq<byte>)
    requires ARENA_HEADER_BYTES <= o && o + |bytes| <= |mem| && |next| == 8
    ensures var moved := Moved(mem, o, bytes, next);
            && moved[NEXT_OFFSET_AT..NEXT_OFFSET_AT + 8] == next
            && moved[WRAP_EPOCH_AT..WRAP_EPOCH_AT + 8] == mem[WRAP_EPOCH_AT..WRAP_EPOCH_AT + 8]
            && moved[o..o + |bytes|] == bytes
  {
    var copied := Put(mem, o, bytes);
    PutInside(mem, o, bytes);
    PutInside(copied, NEXT_OFFSET_AT, next);
    PutOutside(mem, o, bytes, WRAP_EPOCH_AT, WRAP_EPOCH_AT + 8);
    PutOutside(copied, NEXT_OFFSET_AT, next, WRAP_EPOCH_AT, WRAP_EPOCH_AT + 8);
    PutOutside(copied, NEXT_OFFSET_AT, next, o, o + |bytes|);
  }

  lemma MovedElsewhere(mem: seq<byte>, o: nat, bytes: seq<byte>, next: seq<byte>, lo: nat, hi: nat)
    requires ARENA_HEADER_BYTES <= o && o + |bytes| <= |mem| && |next| == 8
    requires hi <= |mem| && Clear(o, |bytes|, lo, hi)
    ensures Moved(mem, o, bytes, next)[lo..hi] == mem[lo..hi]
  {
    PutOutside(mem, o, bytes, lo, hi);
    PutOutside(Put(mem, o, bytes), NEXT_OFFSET_AT, next, lo, hi);
  }

  /** A wrap: the slab at the front, and both fields rewritten. */
  function Wrapped(mem: seq<byte>, bytes: seq<byte>, next: seq<byte>, epoch: seq<byte>): (r: seq<byte>)
    requires ARENA_HEADER_BYTES + |bytes| <= |mem| && |next| == 8 && |epoch| == 8
    ensures |r| == |mem|
  {
    Put(Moved(mem, ARENA_HEADER_BYTES, bytes, next), WRAP_EPOCH_AT, epoch)
  }

  lemma WrappedParts(mem: seq<byte>, bytes: seq<byte>, next: seq<byte>, epoch: seq<byte>)
    requires ARENA_HEADER_BYTES + |bytes| <= |mem| && |next| == 8 && |epoch| == 8
    ensures var r := Wrapped(mem, bytes, next, epoch);
            && r[NEXT_OFFSET_AT..NEXT_OFFSET_AT + 8] == next
            && r[WRAP_EPOCH_AT..WRAP_EPOCH_AT + 8] == epoch
            && r[ARENA_HEADER_BYTES..ARENA_HEADER_BYTES + |bytes|] == bytes
  {
    var moved := Moved(mem, ARENA_HEADER_BYTES, bytes, next);
    MovedParts(mem, ARENA_HEADER_BYTES, bytes, next);
    PutInside(moved, WRAP_EPOCH_AT, epoch);
    PutOutside(moved, WRAP_EPOCH_AT, epoch, NEXT_OFFSET_AT, NEXT_OFFSET_AT + 8);
    PutOutside(moved, WRAP_EPOCH_AT, epoch, ARENA_HEADER_BYTES, ARENA_HEADER_BYTES + |bytes|);
  }

  lemma WrappedElsewhere(mem: seq<byte>, bytes: seq<byte>, next: seq<byte>, epoch: seq<byte>, lo: nat, hi: nat)
    requires ARENA_HEADER_BYTES + |bytes| <= |mem| && |next| == 8 && |epoch| == 8
    requires hi <= |mem| && Clear(ARENA_HEADER_BYTES, |bytes|, lo, hi)
    ensures Wrapped(mem, bytes, next, epoch)[lo..hi] == mem[lo..hi]
  {
    MovedElsewhere(mem, ARENA_HEADER_BYTES, bytes, next, lo, hi);
    PutOutside(Moved(mem, ARENA_HEADER_BYTES, bytes, next), WRAP_EPOCH_AT, epoch, lo, hi);
  }

  /** Both memories agree wherever the write has no business. */
  ghost predicate SameElsewhere(mem: seq<byte>, mem': seq<byte>, o: nat, len: nat)
    requires |mem| == |mem'|
  {
    forall lo: nat, hi: nat {:trigger Clear(o, len, lo, hi)} ::
      hi <= |mem| && Clear(o, len, lo, hi) ==> mem'[lo..hi] == mem[lo..hi]
  }

  /** Everything one successful write does, and that it does nothing else. */
  ghost predicate Effect(mem: seq<byte>, bytes: seq<byte>, mem': seq<byte>)
    requires Valid(mem) && !TooLarge(mem, bytes)
  {
    var o := SlabOffset(mem, bytes);
    && |mem'| == |mem|
    && NextOffset(mem') == o + |bytes|
    && WrapEpoch(mem') == WrapEpoch(mem) + (if Wraps(mem, bytes) then 1 else 0)
    && mem'[o..o + |bytes|] == bytes
    && SameElsewhere(mem, mem', o, |bytes|)
  }

  lemma MovedEffect(mem: seq<byte>, bytes: seq<byte>, next: seq<byte>)
    requires Valid(mem) && !TooLarge(mem, bytes) && !Wraps(mem, bytes)
    requires |next| == 8 && FromLe(next) == SlabOffset(mem, bytes) + |bytes|
    ensures Effect(mem, bytes, Moved(mem, SlabOffset(mem, bytes), bytes, next))
  {
    var o := SlabOffset(mem, bytes);
    MovedParts(mem, o, bytes, next);
    forall lo: nat, hi: nat | hi <= |mem| && Clear(o, |bytes|, lo, hi)
      ensures Moved(mem, o, bytes, next)[lo..hi] == mem[lo..hi]
    {
      MovedElsewhere(mem, o, bytes, next, lo, hi);
    }
  }

  lemma WrappedEffect(mem: seq<byte>, bytes: seq<byte>, next: seq<byte>, epoch: seq<byte>)
    requires Valid(mem) && !TooLarge(mem, bytes) && Wraps(mem, bytes)
    requires |next| == 8 && FromLe(next) == ARENA_HEADER_BYTES + |bytes|
    requires |epoch| == 8 && FromLe(epoch) == WrapEpoch(mem) + 1
    ensures Effect(mem, bytes, Wrapped(mem, bytes, next, epoch))
  {
    WrappedParts(mem, bytes, next, epoch);
    forall lo: nat, hi: nat | hi <= |mem| && Clear(ARENA_HEADER_BYTES, |bytes|, lo, hi)
      ensures Wrapped(mem, bytes, next, epoch)[lo..hi] == mem[lo..hi]
    {
      WrappedElsewhere(mem, bytes, next, epoch, lo, hi);
    }
  }

  lemma LaidOutEffect(mem: seq<byte>, bytes: seq<byte>, next: seq<byte>, epoch: seq<byte>)
    requires Valid(mem) && !TooLarge(mem, bytes)
    requires |next| == 8 && FromLe(next) == SlabOffset(mem, bytes) + |bytes|
    requires |epoch| == 8 && FromLe(epoch) == WrapEpoch(Moved(mem, SlabOffset(mem, bytes), bytes, next)) + 1
    ensures Effect(mem, bytes, LaidOut(mem, bytes, next, epoch))
  {
    if Wraps(mem, bytes) {
      MovedParts(mem, SlabOffset(mem, bytes), bytes, next);
      WrappedEffect(mem, bytes, next, epoch);
    } else {
      MovedEffect(mem, bytes, next);
    }
  }

  lemma WrittenEffect(enc: FieldCodec, mem: seq<byte>, bytes: seq<byte>)
    requires IsField(enc) && Valid(mem) && !TooLarge(mem, bytes) && WrapEpoch(mem) + 1 < U64
    ensures Effect(mem, bytes, Written(enc, mem, bytes))
  {
    var o := SlabOffset(mem, bytes);
    var next := enc(o + |bytes|);
    MovedParts(mem, o, bytes, next);
    LaidOutEffect(mem, bytes, next, enc(WrapEpoch(mem) + 1));
  }

  /** `bytes` at `at`, the next offset behind them, the epoch `bump` higher, and every other byte as it was. */
  predicate Placed(mem: seq<byte>, bytes: seq<byte>, at: nat, bump: nat, mem': seq<byte>)
    requires |mem| >= ARENA_HEADER_BYTES
  {
    && |mem'| == |mem| && at + |bytes| <= |mem|
    && NextOffset(mem') == at + |bytes|
    && WrapEpoch(mem') == WrapEpoch(mem) + bump
    && mem'[at..at + |bytes|] == bytes
    && (forall i {:trigger mem'[i]} :: 16 <= i < |mem| && !(at <= i < at + |bytes|) ==> mem'[i] == mem[i])
  }

  /** A payload that fits behind the last one goes there; one that does not starts over at the front; one that never fits is refused. */
  ghost predicate WrittenWhere(mem: seq<byte>, bytes: seq<byte>, mem': seq<byte>)
    requires |mem| >= ARENA_HEADER_BYTES
  {
    if NextOffset(mem) + |bytes| <= |mem| then Placed(mem, bytes, NextOffset(mem), 0, mem')
    else if |bytes| <= |mem| - 64 then Placed(mem, bytes, 64, 1, mem')
    else mem' == mem
  }

  lemma EffectIsPlaced(mem: seq<byte>, bytes: seq<byte>, mem': seq<byte>)
    requires Valid(mem) && !TooLarge(mem, bytes) && Effect(mem, bytes, mem')
    ensures Placed(mem, bytes, SlabOffset(mem, bytes), if Wraps(mem, bytes) then 1 else 0, mem')
  {
    var o := SlabOffset(mem, bytes);
    forall i | 16 <= i < |mem| && !(o <= i < o + |bytes|)
      ensures mem'[i] == mem[i]
    {
      assert Clear(o, |bytes|, i, i + 1);
      assert mem'[i..i + 1][0] == mem'[i] && mem[i..i + 1][0] == mem[i];
    }
  }

  lemma WriteGoesWhere(enc: FieldCodec, mem: seq<byte>, bytes: seq<byte>)
    requires IsField(enc) && Valid(mem) && WrapEpoch(mem) + 1 < U64
    ensures WrittenWhere(mem, bytes, Written(enc, mem, bytes))
  {
    if !TooLarge(mem, bytes) {
      WrittenEffect(enc, mem, bytes);
      EffectIsPlaced(mem, bytes, Written(enc, mem, bytes));
    }
  }

  // ---- histories -------------------------------------------------------------

  datatype Slab = Slab(offset: nat, epoch: nat, bytes: seq<byte>)
  {
    function End(): (n: nat) { offset + |bytes| }
  }

  /** The memory together with every slab written so far. */
  datatype History = History(mem: seq<byte>, slabs: seq<Slab>)

  ghost function Write(enc: FieldCodec, h: History, bytes: seq<byte>): (r: History)
    requires Valid(h.mem) && IsField(enc)
  {
    var mem' := Written(enc, h.mem, bytes);
    if TooLarge(h.mem, bytes) then h
    else History(mem', h.slabs + [NewSlab(h.mem, bytes, mem')])
  }

  function NewSlab(mem: seq<byte>, bytes: seq<byte>, mem': seq<byte>): (s: Slab)
    requires Valid(mem) && !TooLarge(mem, bytes) && |mem'| == |mem|
  {
    Slab(SlabOffset(mem, bytes), WrapEpoch(mem'), bytes)
  }

  /** The promise a reader may rely on: same epoch, or one wrap later and not yet reached again. */
  predicate Live(mem: seq<byte>, s: Slab)
    requires Valid(mem)
  {
    s.epoch == WrapEpoch(mem) || (s.epoch + 1 == WrapEpoch(mem) && NextOffset(mem) <= s.offset)
  }

  predicate SlabOk(mem: seq<byte>, s: Slab)
    requires Valid(mem)
  {
    && ARENA_HEADER_BYTES <= s.offset && s.End() <= |mem| && s.epoch <= WrapEpoch(mem)
    && (s.epoch == WrapEpoch(mem) ==> s.End() <= NextOffset(mem))
    && (Live(mem, s) ==> mem[s.offset..s.End()] == s.bytes)
  }

  /** Slabs of one epoch follow each other without overlap. */
  predicate Apart(s: Slab, t: Slab) { s.epoch == t.epoch ==> s.End() <= t.offset }

  /** The header outside its two fields. */
  function HeaderRest(mem: seq<byte>): (r: seq<byte>)
    requires |mem| >= ARENA_HEADER_BYTES
  {
    mem[WRAP_EPOCH_AT + 8..ARENA_HEADER_BYTES]
  }

  predicate Sound(h: History)
  {
    && Valid(h.mem)
    && HeaderRest(h.mem) == seq(ARENA_HEADER_BYTES - WRAP_EPOCH_AT - 8, _ => 0)
    && (forall i {:trigger SlabOk(h.mem, h.slabs[i])} :: 0 <= i < |h.slabs| ==> SlabOk(h.mem, h.slabs[i]))
    && (forall i, j {:trigger Apart(h.slabs[i], h.slabs[j])} ::
          0 <= i < j < |h.slabs| ==> Apart(h.slabs[i], h.slabs[j]))
  }

  lemma OldSlabSurvives(mem: seq<byte>, bytes: seq<byte>, mem': seq<byte>, s: Slab)
    requires Valid(mem) && !TooLarge(mem, bytes) && Effect(mem, bytes, mem') && SlabOk(mem, s)
    ensures Valid(mem') && SlabOk(mem', s)
  {
    if Live(mem', s) {
      assert Live(mem, s);
      assert Clear(SlabOffset(mem, bytes), |bytes|, s.offset, s.End());
    }
  }

  lemma NewSlabOk(mem: seq<byte>, bytes: seq<byte>, mem': seq<byte>)
    requires Valid(mem) && !TooLarge(mem, bytes) && Effect(mem, bytes, mem')
    ensures Valid(mem') && SlabOk(mem', NewSlab(mem, bytes, mem'))
  {
  }

  /** The new slab lies behind every earlier one of its epoch. */
  lemma NewSlabApart(mem: seq<byte>, bytes: seq<byte>, mem': seq<byte>, s: Slab)
    requires Valid(mem) && !TooLarge(mem, bytes) && Effect(mem, bytes, mem') && SlabOk(mem, s)
    ensures Apart(s, NewSlab(mem, bytes, mem'))
  {
  }

  lemma WriteKeeps(h: History, bytes: seq<byte>, h': History)
    requires Sound(h) && !TooLarge(h.mem, bytes) && Effect(h.mem, bytes, h'.mem)
    requires h'.slabs == h.slabs + [NewSlab(h.mem, bytes, h'.mem)]
    ensures Sound(h') && WrapEpoch(h'.mem) <= WrapEpoch(h.mem) + 1
  {
    assert Clear(SlabOffset(h.mem, bytes), |bytes|, WRAP_EPOCH_AT + 8, ARENA_HEADER_BYTES);
    NewSlabOk(h.mem, bytes, h'.mem);
    forall i | 0 <= i < |h'.slabs|
      ensures SlabOk(h'.mem, h'.slabs[i])
    {
      if i < |h.slabs| {
        assert SlabOk(h.mem, h.slabs[i]);
        OldSlabSurvives(h.mem, bytes, h'.mem, h.slabs[i]);
      }
    }
    forall i, j | 0 <= i < j < |h'.slabs|
      ensures Apart(h'.slabs[i], h'.slabs[j])
    {
      if j < |h.slabs| {
        assert Apart(h.slabs[i], h.slabs[j]);
      } else {
        assert SlabOk(h.mem, h.slabs[i]);
        NewSlabApart(h.mem, bytes, h'.mem, h.slabs[i]);
      }
    }
  }

  ghost predicate Reaches(enc: FieldCodec, size: nat, payloads: seq<seq<byte>>, h: History)
    requires ARENA_HEADER_BYTES < size < U64 / 2 && IsField(enc)
    decreases |payloads|
  {
    if payloads == [] then h == History(Created(enc, size), [])
    else exists g {:trigger Reaches(enc, size, payloads[..|payloads| - 1], g)} ::
           Reaches(enc, size, payloads[..|payloads| - 1], g) && Valid(g.mem) && h == Write(enc, g, payloads[|payloads| - 1])
  }

  lemma CreatedSound(enc: FieldCodec, size: nat)
    requires ARENA_HEADER_BYTES < size < U64 / 2 && IsField(enc)
    ensures Sound(History(Created(enc, size), [])) && WrapEpoch(Created(enc, size)) == 0
  {
    var zero: seq<byte> := seq(size, _ => 0);
    PutInside(zero, NEXT_OFFSET_AT, enc(ARENA_HEADER_BYTES));
    PutOutside(zero, NEXT_OFFSET_AT, enc(ARENA_HEADER_BYTES), WRAP_EPOCH_AT, WRAP_EPOCH_AT + 8);
    PutOutside(zero, NEXT_OFFSET_AT, enc(ARENA_HEADER_BYTES), WRAP_EPOCH_AT + 8, ARENA_HEADER_BYTES);
    var zeros: seq<byte> := seq(8, _ => 0);
    assert zero[WRAP_EPOCH_AT..WRAP_EPOCH_AT + 8] == zeros;
    ZerosRead(zeros);
  }

  lemma {:induction false} ZerosRead(s: seq<byte>)
    requires forall i :: 0 <= i < |s| ==> s[i] == 0
    ensures FromLe(s) == 0
  {
    if s != [] {
      ZerosRead(s[1..]);
    }
  }

  /** After every sequence of fewer than 2^64 - 1 writes: header intact, slabs apart, live slabs readable. */
  lemma {:induction false} EveryHistoryIsSound(enc: FieldCodec, size: nat, payloads: seq<seq<byte>>, h: History)
    requires IsField(enc) && ARENA_HEADER_BYTES < size < U64 / 2 && |payloads| < U64 - 1 && Reaches(enc, size, payloads, h)
    ensures Sound(h) && WrapEpoch(h.mem) <= |payloads|
    decreases |payloads|
  {
    if payloads == [] {
      CreatedSound(enc, size);
    } else {
      var n := |payloads| - 1;
      var g :| Reaches(enc, size, payloads[..n], g) && Valid(g.mem) && h == Write(enc, g, payloads[n]);
      EveryHistoryIsSound(enc, size, payloads[..n], g);
      if !TooLarge(g.mem, payloads[n]) {
        WrittenEffect(enc, g.mem, payloads[n]);
        WriteKeeps(g, payloads[n], h);
      }
    }
  }

  /** The length `write_payload` returns: `len as u32`. */
  function HandleLength(bytes: seq<byte>): (len: u32) { |bytes| % U32 }

  /** Read with its returned handle, a live slab gives back its payload exactly when the length fits 32 bits. */
  lemma HandleReadsBackIff(mem: seq<byte>, s: Slab)
    requires Valid(mem) && SlabOk(mem, s) && Live(mem, s)
    ensures ReadPayload(mem, s.offset, HandleLength(s.bytes)) == Ok(s.bytes) <==> |s.bytes| < U32
  {
    var len := HandleLength(s.bytes);
    assert |mem[s.offset..s.offset + len]| == len;
  }

  /** A history of an arena with little-endian header fields. */
  ghost predicate IsHistory(size: nat, payloads: seq<seq<byte>>, h: History)
  {
    && ARENA_HEADER_BYTES < size < U64 / 2 && |payloads| < U64 - 1
    && IsField(LE64) && Reaches(LE64, size, payloads, h)
  }

  /** After every history, every slab that is still live is read back with its handle, unless it has 4 GiB or more. */
  lemma LiveSlabReadsBack(size: nat, payloads: seq<seq<byte>>, h: History, i: nat)
    requires IsHistory(size, payloads, h) && i < |h.slabs|
    ensures Valid(h.mem)
    ensures var s := h.slabs[i];
            s.epoch == WrapEpoch(h.mem) || (s.epoch + 1 == WrapEpoch(h.mem) && NextOffset(h.mem) <= s.offset) ==>
              (ReadPayload(h.mem, s.offset, |s.bytes| % U32) == Ok(s.bytes) <==> |s.bytes| < U32)
  {
    EveryHistoryIsSound(LE64, size, payloads, h);
    assert SlabOk(h.mem, h.slabs[i]);
    if Live(h.mem, h.slabs[i]) {
      HandleReadsBackIff(h.mem, h.slabs[i]);
    }
  }

  /** Two slabs of one epoch never overlap. */
  lemma SlabsDisjoint(size: nat, payloads: seq<seq<byte>>, h: History, i: nat, j: nat)
    requires IsHistory(size, payloads, h) && i < j < |h.slabs| && h.slabs[i].epoch == h.slabs[j].epoch
    ensures h.slabs[i].End() <= h.slabs[j].offset
  {
    EveryHistoryIsSound(LE64, size, payloads, h);
    assert Apart(h.slabs[i], h.slabs[j]);
  }

  /** The header outside its two fields stays as it was made. */
  lemma HeaderStaysIntact(size: nat, payloads: seq<seq<byte>>, h: History)
    requires IsHistory(size, payloads, h)
    ensures |h.mem| >= ARENA_HEADER_BYTES && HeaderRest(h.mem) == HeaderRest(Created(LE64, size))
  {
    EveryHistoryIsSound(LE64, size, payloads, h);
    CreatedSound(LE64, size);
  }

  function Length(): (f: seq<byte> -> nat) { (bytes: seq<byte>) => |bytes| }

  /** Where the i-th of these payloads starts when none has wrapped. */
  function Start(payloads: seq<seq<byte>>, i: nat): (n: nat)
    requires i <= |payloads|
  {
    ARENA_HEADER_BYTES + Tally(payloads[..i], Length())
  }

  /** One slab per payload, one behind the other, in the first epoch. */
  ghost predicate Packed(payloads: seq<seq<byte>>, h: History)
  {
    && |h.slabs| == |payloads| && Valid(h.mem)
    && NextOffset(h.mem) == Start(payloads, |payloads|) && WrapEpoch(h.mem) == 0
    && forall i {:trigger h.slabs[i]} :: 0 <= i < |payloads| ==> h.slabs[i] == Slab(Start(payloads, i), 0, payloads[i])
  }

  lemma PackMore(payloads: seq<seq<byte>>, bytes: seq<byte>, g: History, h: History)
    requires Packed(payloads, g) && Start(payloads, |payloads|) + |bytes| <= |g.mem|
    requires Effect(g.mem, bytes, h.mem) && h.slabs == g.slabs + [NewSlab(g.mem, bytes, h.mem)]
    ensures Packed(payloads + [bytes], h)
  {
    var more, n := payloads + [bytes], |payloads|;
    assert payloads[..n] == payloads && more[..n] == payloads && more[..n + 1] == more;
    TallyMore(payloads, bytes, Length());
    forall i | 0 <= i < n
      ensures Start(more, i) == Start(payloads, i)
    {
      assert more[..i] == payloads[..i];
    }
  }

  lemma LastWrite(enc: FieldCodec, size: nat, payloads: seq<seq<byte>>, bytes: seq<byte>, h: History) returns (g: History)
    requires IsField(enc) && ARENA_HEADER_BYTES < size < U64 / 2 && Reaches(enc, size, payloads + [bytes], h)
    ensures Reaches(enc, size, payloads, g) && Valid(g.mem) && h == Write(enc, g, bytes)
  {
    assert (payloads + [bytes])[..|payloads|] == payloads;
    g :| Reaches(enc, size, payloads, g) && Valid(g.mem) && h == Write(enc, g, bytes);
  }

  lemma {:induction false} FittingIsPacked(enc: FieldCodec, size: nat, payloads: seq<seq<byte>>, h: History)
    requires IsField(enc) && ARENA_HEADER_BYTES < size < U64 / 2 && Reaches(enc, size, payloads, h)
    requires Start(payloads, |payloads|) <= size
    ensures Packed(payloads, h) && |h.mem| == size
    decreases |payloads|, 1
  {
    if payloads == [] {
      CreatedPacked(enc, size);
    } else {
      var n := |payloads| - 1;
      var front, bytes := payloads[..n], payloads[n];
      assert front + [bytes] == payloads;
      PackedAfter(enc, size, front, bytes, h);
    }
  }

  lemma CreatedPacked(enc: FieldCodec, size: nat)
    requires ARENA_HEADER_BYTES < size < U64 / 2 && IsField(enc)
    ensures Packed([], History(Created(enc, size), []))
  {
    CreatedSound(enc, size);
    CreatedNext(enc, size);
  }

  lemma {:induction false} PackedAfter(enc: FieldCodec, size: nat, front: seq<seq<byte>>, bytes: seq<byte>, h: History)
    requires IsField(enc) && ARENA_HEADER_BYTES < size < U64 / 2 && Reaches(enc, size, front + [bytes], h)
    requires Start(front + [bytes], |front| + 1) <= size
    ensures Packed(front + [bytes], h) && |h.mem| == size
    decreases |front| + 1, 0
  {
    var g := LastWrite(enc, size, front, bytes, h);
    StartMore(front, bytes);
    FittingIsPacked(enc, size, front, g);
    WritePacks(enc, front, bytes, g);
  }

  lemma WritePacks(enc: FieldCodec, payloads: seq<seq<byte>>, bytes: seq<byte>, g: History)
    requires IsField(enc) && Packed(payloads, g) && Start(payloads, |payloads|) + |bytes| <= |g.mem|
    ensures Packed(payloads + [bytes], Write(enc, g, bytes)) && |Write(enc, g, bytes).mem| == |g.mem|
  {
    WrittenEffect(enc, g.mem, bytes);
    PackMore(payloads, bytes, g, Write(enc, g, bytes));
  }

  lemma StartMore(payloads: seq<seq<byte>>, bytes: seq<byte>)
    ensures Start(payloads + [bytes], |payloads| + 1) == Start(payloads, |payloads|) + |bytes|
  {
    assert payloads[..|payloads|] == payloads && (payloads + [bytes])[..|payloads| + 1] == payloads + [bytes];
    TallyMore(payloads, bytes, Length());
  }

  lemma CreatedNext(enc: FieldCodec, size: nat)
    requires ARENA_HEADER_BYTES < size < U64 / 2 && IsField(enc)
    ensures NextOffset(Created(enc, size)) == ARENA_HEADER_BYTES
  {
    PutInside(seq(size, _ => 0), NEXT_OFFSET_AT, enc(ARENA_HEADER_BYTES));
  }

  lemma PackedReads(payloads: seq<seq<byte>>, h: History, i: nat)
    requires Packed(payloads, h) && Sound(h) && i < |payloads| && |payloads[i]| < U32
    ensures ReadPayload(h.mem, Start(payloads, i), |payloads[i]|) == Ok(payloads[i])
  {
    assert SlabOk(h.mem, h.slabs[i]);
  }

  /** Payloads that fit the arena together are all readable at the end, each where the ones before it end. */
  lemma FittingAllReadable(size: nat, payloads: seq<seq<byte>>, h: History, i: nat)
    requires IsHistory(size, payloads, h) && i < |payloads|
    requires ARENA_HEADER_BYTES + Tally(payloads, Length()) <= size && |payloads[i]| < U32
    ensures ReadPayload(h.mem, ARENA_HEADER_BYTES + Tally(payloads[..i], Length()), |payloads[i]|) == Ok(payloads[i])
  {
    WholeStart(payloads);
    FittingReads(LE64, size, payloads, h, i);
  }

  lemma WholeStart(payloads: seq<seq<byte>>)
    ensures Start(payloads, |payloads|) == ARENA_HEADER_BYTES + Tally(payloads, Length())
  {
    assert payloads[..|payloads|] == payloads;
  }

  lemma FittingReads(enc: FieldCodec, size: nat, payloads: seq<seq<byte>>, h: History, i: nat)
    requires IsField(enc) && ARENA_HEADER_BYTES < size < U64 / 2 && |payloads| < U64 - 1 && Reaches(enc, size, payloads, h)
    requires Start(payloads, |payloads|) <= size && i < |payloads| && |payloads[i]| < U32
    ensures ReadPayload(h.mem, Start(payloads, i), |payloads[i]|) == Ok(payloads[i])
  {
    FittingIsPacked(enc, size, payloads, h);
    EveryHistoryIsSound(enc, size, payloads, h);
    PackedReads(payloads, h, i);
  }

  /** Every list of payloads has its history, so the lemmas above speak of all of them. */
  lemma {:induction false} HistoryExists(size: nat, payloads: seq<seq<byte>>) returns (h: History)
    requires ARENA_HEADER_BYTES < size < U64 / 2 && |payloads| < U64 - 1
    ensures IsHistory(size, payloads, h)
    decreases |payloads|
  {
    LE64IsField();
    if payloads == [] {
      h := History(Created(LE64, size), []);
    } else {
      var n := |payloads| - 1;
      var g := HistoryExists(size, payloads[..n]);
      EveryHistoryIsSound(LE64, size, payloads[..n], g);
      h := Write(LE64, g, payloads[n]);
    }
  }

  // ---- the writer --------------------------------------------------------------

  class ArenaWriter {
    const mmap: array<byte>
    const enc: FieldCodec

    ghost predicate Ready()
      reads this, mmap
    {
      IsField(enc) && Valid(mmap[..]) && WrapEpoch(mmap[..]) + 1 < U64
    }

    constructor (size: nat)
      requires ARENA_HEADER_BYTES < size < U64 / 2
      ensures enc == LE64 && fresh(mmap) && Ready() && mmap[..] == Created(enc, size)
    {
      mmap := new byte[size](_ => 0);
      enc := LE64;
      new;
      LE64IsField();
      CopyFrom(NEXT_OFFSET_AT, enc(ARENA_HEADER_BYTES));
      CreatedSound(enc, size);
    }

    method CopyFrom(at: nat, bytes: seq<byte>)
      requires at + |bytes| <= mmap.Length
      modifies mmap
      ensures mmap[..] == Put(old(mmap[..]), at, bytes)
    {
      forall i | 0 <= i < |bytes| {
        mmap[at + i] := bytes[i];
      }
    }

    method ReadField(at: nat) returns (n: nat)
      requires at + 8 <= mmap.Length
      ensures n == FromLe(mmap[..][at..at + 8])
    {
      assert mmap[at..at + 8] == mmap[..][at..at + 8];
      n := FromLe(mmap[at..at + 8]);
    }

    /** Copy the slab, then rewrite the next offset. */
    method Place(slabOff: nat, bytes: seq<byte>)
      requires IsField(enc) && ARENA_HEADER_BYTES <= slabOff && slabOff + |bytes| <= mmap.Length
      modifies mmap
      ensures mmap[..] == Moved(old(mmap[..]), slabOff, bytes, enc(slabOff + |bytes|))
    {
      CopyFrom(slabOff, bytes);
      CopyFrom(NEXT_OFFSET_AT, enc(slabOff + |bytes|));
    }

    method BumpEpoch()
      requires IsField(enc) && mmap.Length >= ARENA_HEADER_BYTES
      modifies mmap
      ensures mmap[..] == Put(old(mmap[..]), WRAP_EPOCH_AT, enc(WrapEpoch(old(mmap[..])) + 1))
    {
      var prevEpoch := ReadField(WRAP_EPOCH_AT);
      CopyFrom(WRAP_EPOCH_AT, enc(prevEpoch + 1));
    }

    method PlaceAndBump(slabOff: nat, didWrap: bool, bytes: seq<byte>)
      requires Ready() && !TooLarge(mmap[..], bytes)
      requires didWrap == Wraps(mmap[..], bytes) && slabOff == SlabOffset(mmap[..], bytes)
      modifies mmap
      ensures mmap[..] == Written(enc, old(mmap[..]), bytes)
    {
      ghost var mem := mmap[..];
      Place(slabOff, bytes);
      ghost var moved := mmap[..];
      WrittenIs(enc, mem, bytes, slabOff, moved);
      if didWrap {
        BumpEpoch();
      }
    }

    /** `write_payload`; the returned length is cut to 32 bits. */
    method WritePayload(bytes: seq<byte>) returns (r: Result<(nat, u32), ArenaError>)
      requires Ready()
      modifies mmap
      ensures mmap[..] == Written(enc, old(mmap[..]), bytes)
      ensures WrapEpoch(old(mmap[..])) + 2 < U64 ==> Ready()
      ensures WrittenWhere(old(mmap[..]), bytes, mmap[..])
      ensures r == if NextOffset(old(mmap[..])) + |bytes| <= mmap.Length then Ok((NextOffset(old(mmap[..])), |bytes| % U32))
                   else if |bytes| <= mmap.Length - 64 then Ok((64, |bytes| % U32))
                   else Err(PayloadTooLarge(|bytes|, mmap.Length - 64))
    {
      ghost var mem := mmap[..];
      WriteGoesWhere(enc, mem, bytes);
      var maxSlab := mmap.Length - ARENA_HEADER_BYTES;
      if |bytes| > maxSlab {
        return Err(PayloadTooLarge(|bytes|, maxSlab));
      }
      var nextOff := ReadField(NEXT_OFFSET_AT);
      var didWrap := nextOff + |bytes| > mmap.Length;
      var slabOff := if didWrap then ARENA_HEADER_BYTES else nextOff;
      PlaceAndBump(slabOff, didWrap, bytes);
      WrittenEffect(enc, mem, bytes);
      return Ok((slabOff, HandleLength(bytes)));
    }
  }
}
