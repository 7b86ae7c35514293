/**
 The metadata index against the object store, over one namespace: put batches (ffi.rs
 `put_kv_blocks`), eviction cycles (lru.rs), bootstraps (embed.rs `bootstrap_world_knowledge`)
 and touches, any number of each, interleaved step by step. No lock spans the index and the
 object store.
 */
module BlockStore {
  import opened Bytes
  import opened BlockIndex
  import opened BlockKeys
  import opened Tallies

  // ---- the bucket ------------------------------------------------------------

  /**
   What the namespace's bucket is like: the object key of a block, what bootstrap makes of a listed
   key, keys that are listed with the namespace's blocks without being theirs, and whether puts
   wait for the object store.
   */
  datatype Bucket = Bucket(
    own: BlockHash -> seq<byte>, recognise: seq<byte> -> Option<BlockHash>, foreign: set<seq<byte>>, writeThrough: bool)
  {
    /** A block's own key is never taken for another block. */
    ghost predicate Valid()
    {
      forall h {:trigger own(h)} :: recognise(own(h)).None? || recognise(own(h)) == Some(h)
    }

    /** No foreign key is taken for a block. */
    predicate Quiet()
    {
      forall key :: key in foreign ==> recognise(key).None?
    }
  }

  /** The bucket of the code, with these other keys under the listed prefix. */
  function RealBucket(s3Prefix: seq<byte>, namespace: seq<byte>, foreign: set<seq<byte>>, writeThrough: bool): (b: Bucket)
  {
    Bucket((h: BlockHash) => ObjectKey(s3Prefix, namespace, BlockKey(h)), Recognise, foreign, writeThrough)
  }

  lemma RealBucketIsValid(s3Prefix: seq<byte>, namespace: seq<byte>, foreign: set<seq<byte>>, writeThrough: bool)
    ensures RealBucket(s3Prefix, namespace, foreign, writeThrough).Valid()
  {
    forall h: BlockHash
      ensures var r := Recognise(ObjectKey(s3Prefix, namespace, BlockKey(h))); r.None? || r == Some(h)
    {
      OwnKeyIsItsBlock(s3Prefix, namespace, h);
    }
  }

  /** The blocks that the listed keys are taken for, in list order. */
  function RecognisedBy(recognise: seq<byte> -> Option<BlockHash>, keys: seq<seq<byte>>): (r: seq<BlockHash>)
  {
    if keys == [] then []
    else
      var front := RecognisedBy(recognise, keys[..|keys| - 1]);
      match recognise(keys[|keys| - 1])
      case None => front
      case Some(h) => front + [h]
  }

  lemma {:induction false} RecognisedFrom(recognise: seq<byte> -> Option<BlockHash>, keys: seq<seq<byte>>, i: nat)
    requires i < |RecognisedBy(recognise, keys)|
    ensures exists j :: 0 <= j < |keys| && recognise(keys[j]) == Some(RecognisedBy(recognise, keys)[i])
  {
    var n := |keys| - 1;
    var front := RecognisedBy(recognise, keys[..n]);
    if i < |front| {
      RecognisedFrom(recognise, keys[..n], i);
      var j :| 0 <= j < n && recognise(keys[..n][j]) == Some(front[i]);
      assert recognise(keys[j]) == Some(front[i]);
    }
  }

  // ---- the state machine -----------------------------------------------------

  /** A batch first PUTs its blocks in any order, then indexes them one by one. */
  datatype Batch =
    | Putting(hashes: seq<BlockHash>, lens: seq<nat>, results: map<nat, bool>)
    | Indexing(hashes: seq<BlockHash>, lens: seq<nat>, next: nat)
    | Failed

  /** An eviction cycle: candidates still to visit, and the block between index removal and delete. */
  datatype Cycle = Cycle(queue: seq<Entry>, deleting: Option<BlockHash>)

  datatype State = State(
    index: Index, objects: set<BlockHash>,
    batches: map<nat, Batch>, cycles: map<nat, Cycle>, boots: map<nat, seq<BlockHash>>)

  datatype Action =
    | BatchBegin(id: nat, hashes: seq<BlockHash>, lens: seq<nat>)
    | BlockPut(id: nat, i: nat, ok: bool, landed: bool)
    | BatchJoin(id: nat)
    | BatchIndex(id: nat, now: nat)
    | CycleBegin(id: nat, queue: seq<Entry>)
    | CycleVisit(id: nat)
    | CycleDelete(id: nat, gone: bool)
    | BootList(id: nat, keys: seq<seq<byte>>)
    | BootInsert(id: nat, now: nat)
    | Touch(hash: BlockHash, now: nat)

  function Initial(): (s: State) { State(map[], {}, map[], map[], map[]) }

  /** The key of a stored block, or a foreign one. */
  ghost predicate Listable(env: Bucket, s: State, key: seq<byte>)
  {
    key in env.foreign || exists h :: h in s.objects && key == env.own(h)
  }

  ghost predicate Enabled(env: Bucket, s: State, a: Action)
  {
    match a
    case BatchBegin(id, hashes, lens) => id !in s.batches && |hashes| == |lens|
    case BlockPut(id, i, _, _) =>
      id in s.batches && s.batches[id].Putting? && i < |s.batches[id].hashes| && i !in s.batches[id].results
    case BatchJoin(id) =>
      id in s.batches && s.batches[id].Putting?
      && forall i :: 0 <= i < |s.batches[id].hashes| ==> i in s.batches[id].results
    case BatchIndex(id, _) =>
      id in s.batches && s.batches[id].Indexing?
      && s.batches[id].next < |s.batches[id].hashes| == |s.batches[id].lens|
    case CycleBegin(id, _) => id !in s.cycles
    case CycleVisit(id) => id in s.cycles && s.cycles[id].deleting.None? && s.cycles[id].queue != []
    case CycleDelete(id, _) => id in s.cycles && s.cycles[id].deleting.Some?
    case BootList(id, keys) => id !in s.boots && forall i {:trigger keys[i]} :: 0 <= i < |keys| ==> Listable(env, s, keys[i])
    case BootInsert(id, _) => id in s.boots && s.boots[id] != []
    case Touch(_, _) => true
  }

  /** All PUTs reported success. */
  predicate AllOk(b: Batch)
    requires b.Putting?
  {
    forall i :: 0 <= i < |b.hashes| ==> i in b.results && b.results[i]
  }

  /** With write-through off a failed PUT is reported as a success. */
  ghost function Step(env: Bucket, s: State, a: Action): (r: State)
    requires Enabled(env, s, a)
  {
    match a
    case BatchBegin(id, hashes, lens) => s.(batches := s.batches[id := Putting(hashes, lens, map[])])
    case BlockPut(id, i, ok, landed) =>
      var b := s.batches[id];
      s.(objects := if ok || landed then s.objects + {b.hashes[i]} else s.objects,
         batches := s.batches[id := b.(results := b.results[i := ok || !env.writeThrough])])
    case BatchJoin(id) =>
      var b := s.batches[id];
      s.(batches := s.batches[id := if AllOk(b) then Indexing(b.hashes, b.lens, 0) else Failed])
    case BatchIndex(id, now) =>
      var b := s.batches[id];
      s.(index := s.index[b.hashes[b.next] := NewRoot(b.lens[b.next], now)],
         batches := s.batches[id := b.(next := b.next + 1)])
    case CycleBegin(id, queue) => s.(cycles := s.cycles[id := Cycle(queue, None)])
    case CycleVisit(id) =>
      var (hash, meta) := s.cycles[id].queue[0];
      var rest := s.cycles[id].queue[1..];
      if Unchanged(s.index, hash, meta.lastAccessNs)
      then s.(index := s.index - {hash}, cycles := s.cycles[id := Cycle(rest, Some(hash))])
      else s.(cycles := s.cycles[id := Cycle(rest, None)])
    case CycleDelete(id, gone) =>
      var c := s.cycles[id];
      s.(objects := if gone then s.objects - {c.deleting.value} else s.objects,
         cycles := s.cycles[id := c.(deleting := None)])
    case BootList(id, keys) => s.(boots := s.boots[id := RecognisedBy(env.recognise, keys)])
    case BootInsert(id, now) =>
      var left := s.boots[id];
      s.(index := s.index[left[0] := NewRoot(0, now)], boots := s.boots[id := left[1..]])
    case Touch(hash, now) =>
      if hash in s.index then s.(index := s.index[hash := s.index[hash].(lastAccessNs := now)]) else s
  }

  // ---- the invariant -----------------------------------------------------------

  predicate BatchHolds(b: Batch, hash: BlockHash)
  {
    match b
    case Putting(hashes, _, _) => hash in hashes
    case Indexing(hashes, _, next) => next <= |hashes| && hash in hashes[next..]
    case Failed => false
  }

  /** A put batch, or a bootstrap that has listed the object, is still to index `hash`. */
  predicate BeingPut(s: State, hash: BlockHash)
  {
    || (exists id :: id in s.batches && BatchHolds(s.batches[id], hash))
    || (exists id :: id in s.boots && hash in s.boots[id])
  }

  /** An eviction cycle has taken `hash` out of the index and not yet finished its delete. */
  predicate BeingEvicted(s: State, hash: BlockHash)
  {
    exists id :: id in s.cycles && s.cycles[id].deleting == Some(hash)
  }

  /** No hash is put and evicted at once. */
  ghost predicate Exclusive(s: State)
  {
    forall h {:trigger BeingPut(s, h)} {:trigger BeingEvicted(s, h)} :: !(BeingPut(s, h) && BeingEvicted(s, h))
  }

  /** Every indexed hash has its object. */
  predicate IndexBacked(s: State) { s.index.Keys <= s.objects }

  predicate BatchBacked(b: Batch, objects: set<BlockHash>)
  {
    match b
    case Putting(hashes, _, results) =>
      forall i {:trigger results[i]} :: 0 <= i < |hashes| && i in results && results[i] ==> hashes[i] in objects
    case Indexing(hashes, lens, next) =>
      next <= |hashes| == |lens| && forall i {:trigger hashes[i]} :: next <= i < |hashes| ==> hashes[i] in objects
    case Failed => true
  }

  predicate BootBacked(left: seq<BlockHash>, objects: set<BlockHash>)
  {
    forall i {:trigger left[i]} :: 0 <= i < |left| ==> left[i] in objects
  }

  predicate CycleApart(c: Cycle, index: Index)
  {
    c.deleting.Some? ==> c.deleting.value !in index
  }

  predicate Inv(s: State)
  {
    && IndexBacked(s)
    && (forall id {:trigger s.batches[id]} :: id in s.batches ==>
          BatchBacked(s.batches[id], s.objects) && (s.batches[id].Putting? ==> |s.batches[id].hashes| == |s.batches[id].lens|))
    && (forall id {:trigger s.boots[id]} :: id in s.boots ==> BootBacked(s.boots[id], s.objects))
    && (forall id {:trigger s.cycles[id]} :: id in s.cycles ==> CycleApart(s.cycles[id], s.index))
  }

  /** What the theorems below take for granted of the bucket. */
  ghost predicate Orderly(env: Bucket) { env.Valid() && env.Quiet() && env.writeThrough }

  lemma DeleteKeeps(env: Bucket, s: State, id: nat, gone: bool)
    requires Inv(s) && Exclusive(s) && Enabled(env, s, CycleDelete(id, gone))
    ensures Inv(Step(env, s, CycleDelete(id, gone)))
  {
    var hash := s.cycles[id].deleting.value;
    var s' := Step(env, s, CycleDelete(id, gone));
    assert BeingEvicted(s, hash);
    assert !BeingPut(s, hash);
    forall b | b in s'.batches
      ensures BatchBacked(s'.batches[b], s'.objects)
    {
      BatchSurvives(s.batches[b], s.objects, hash);
    }
    assert hash !in s.index;
  }

  lemma BatchSurvives(b: Batch, objects: set<BlockHash>, hash: BlockHash)
    requires BatchBacked(b, objects) && !BatchHolds(b, hash)
    ensures BatchBacked(b, objects - {hash})
  {
    if b.Indexing? {
      assert forall i :: b.next <= i < |b.hashes| ==> b.hashes[i] == b.hashes[b.next..][i - b.next];
    }
  }

  lemma IndexKeeps(env: Bucket, s: State, id: nat, now: nat)
    requires Inv(s) && Exclusive(s) && Enabled(env, s, BatchIndex(id, now))
    ensures Inv(Step(env, s, BatchIndex(id, now)))
  {
    var b := s.batches[id];
    var hash := b.hashes[b.next];
    assert b.hashes[b.next..][0] == hash;
    assert BatchHolds(b, hash);
    assert BeingPut(s, hash);
    assert !BeingEvicted(s, hash);
  }

  lemma BootKeeps(env: Bucket, s: State, id: nat, now: nat)
    requires Inv(s) && Exclusive(s) && Enabled(env, s, BootInsert(id, now))
    ensures Inv(Step(env, s, BootInsert(id, now)))
  {
    var hash := s.boots[id][0];
    assert BeingPut(s, hash);
    assert !BeingEvicted(s, hash);
  }

  /** In a quiet bucket every listed key that is taken for a block is that block's. */
  lemma ListedAreStored(env: Bucket, s: State, keys: seq<seq<byte>>)
    requires env.Valid() && env.Quiet() && forall i {:trigger keys[i]} :: 0 <= i < |keys| ==> Listable(env, s, keys[i])
    ensures BootBacked(RecognisedBy(env.recognise, keys), s.objects)
  {
    var listed := RecognisedBy(env.recognise, keys);
    forall i | 0 <= i < |listed|
      ensures listed[i] in s.objects
    {
      RecognisedFrom(env.recognise, keys, i);
      var j :| 0 <= j < |keys| && env.recognise(keys[j]) == Some(listed[i]);
      assert Listable(env, s, keys[j]);
      var h :| h in s.objects && keys[j] == env.own(h);
    }
  }

  lemma JoinKeeps(env: Bucket, s: State, id: nat)
    requires Inv(s) && Enabled(env, s, BatchJoin(id))
    ensures Inv(Step(env, s, BatchJoin(id)))
  {
    var b := s.batches[id];
    if AllOk(b) {
      forall i | 0 <= i < |b.hashes|
        ensures b.hashes[i] in s.objects
      {
        assert b.results[i];
      }
    }
  }

  lemma StepKeeps(env: Bucket, s: State, a: Action)
    requires Orderly(env) && Inv(s) && Exclusive(s) && Enabled(env, s, a)
    ensures Inv(Step(env, s, a))
  {
    match a
    case CycleDelete(id, gone) => DeleteKeeps(env, s, id, gone);
    case BatchIndex(id, now) => IndexKeeps(env, s, id, now);
    case BootList(id, keys) => ListedAreStored(env, s, keys);
    case BootInsert(id, now) => BootKeeps(env, s, id, now);
    case BatchJoin(id) => JoinKeeps(env, s, id);
    case _ =>
  }

  // ---- runs --------------------------------------------------------------------

  ghost predicate Runs(env: Bucket, s: State, actions: seq<Action>)
    decreases |actions|
  {
    actions == [] || (Enabled(env, s, actions[0]) && Runs(env, Step(env, s, actions[0]), actions[1..]))
  }

  ghost function Exec(env: Bucket, s: State, actions: seq<Action>): (r: State)
    requires Runs(env, s, actions)
    decreases |actions|
  {
    if actions == [] then s else Exec(env, Step(env, s, actions[0]), actions[1..])
  }

  /** No hash is put and evicted at once, in any state the run passes through. */
  ghost predicate Disciplined(env: Bucket, s: State, actions: seq<Action>)
    requires Runs(env, s, actions)
    decreases |actions|
  {
    && Exclusive(s)
    && (actions != [] ==> Disciplined(env, Step(env, s, actions[0]), actions[1..]))
  }

  lemma {:induction false} RunKeeps(env: Bucket, s: State, actions: seq<Action>)
    requires Orderly(env) && Inv(s) && Runs(env, s, actions) && Disciplined(env, s, actions)
    ensures Inv(Exec(env, s, actions))
    decreases |actions|
  {
    if actions != [] {
      StepKeeps(env, s, actions[0]);
      RunKeeps(env, Step(env, s, actions[0]), actions[1..]);
    }
  }

  lemma InitialInv()
    ensures Inv(Initial()) && Exclusive(Initial())
  {
  }

  /** A run in which no hash is put and evicted at once. */
  ghost predicate IsDisciplinedRun(env: Bucket, actions: seq<Action>)
  {
    Runs(env, Initial(), actions) && Disciplined(env, Initial(), actions)
  }

  /** With write-through on, in a quiet bucket: after every disciplined run every indexed hash has its object. */
  lemma EveryIndexedHashIsStored(env: Bucket, actions: seq<Action>)
    requires Orderly(env) && IsDisciplinedRun(env, actions)
    ensures IndexBacked(Exec(env, Initial(), actions))
  {
    InitialInv();
    RunKeeps(env, Initial(), actions);
  }

  lemma {:induction false} IndexOnlyGrows(env: Bucket, s: State, actions: seq<Action>)
    requires Runs(env, s, actions) && forall i :: 0 <= i < |actions| ==> !actions[i].CycleVisit?
    ensures s.index.Keys <= Exec(env, s, actions).index.Keys
    decreases |actions|
  {
    if actions != [] {
      IndexOnlyGrows(env, Step(env, s, actions[0]), actions[1..]);
    }
  }

  /** A lookup of K, then anything but eviction visits: the K blocks are all there to be read. */
  lemma LookupThenHits(env: Bucket, before: seq<Action>, blocks: seq<BlockHash>, after: seq<Action>, i: nat)
    requires Orderly(env) && IsDisciplinedRun(env, before)
    requires var s := Exec(env, Initial(), before);
             && Runs(env, s, after) && Disciplined(env, s, after)
             && (forall j :: 0 <= j < |after| ==> !after[j].CycleVisit?)
             && i < LongestPrefix(s.index, blocks)
    ensures blocks[i] in Exec(env, Exec(env, Initial(), before), after).objects
  {
    InitialInv();
    RunKeeps(env, Initial(), before);
    var s := Exec(env, Initial(), before);
    RunKeeps(env, s, after);
    IndexOnlyGrows(env, s, after);
    LongestPrefixIff(s.index, blocks, LongestPrefix(s.index, blocks));
  }

  // ---- one batch, start to end -----------------------------------------------------

  /** The index after inserting blocks `0 .. n`. */
  function Inserted(m: Index, hashes: seq<BlockHash>, lens: seq<nat>, clock: nat -> nat): (r: Index)
    requires |hashes| == |lens|
  {
    if hashes == [] then m
    else
      var n := |hashes| - 1;
      Inserted(m, hashes[..n], lens[..n], clock)[hashes[n] := NewRoot(lens[n], clock(n))]
  }

  /** Every block of the batch is indexed and nothing else changes. */
  lemma {:induction false} InsertedHolds(m: Index, hashes: seq<BlockHash>, lens: seq<nat>, clock: nat -> nat, h: BlockHash)
    requires |hashes| == |lens|
    ensures h in Inserted(m, hashes, lens, clock) <==> h in m || h in hashes
    ensures h in m && h !in hashes ==> Inserted(m, hashes, lens, clock)[h] == m[h]
  {
    if hashes != [] {
      var n := |hashes| - 1;
      InsertedHolds(m, hashes[..n], lens[..n], clock, h);
      assert hashes == hashes[..n] + [hashes[n]];
    }
  }

  /** Of several blocks with one hash the last one wins. */
  lemma {:induction false} LastBlockWins(m: Index, hashes: seq<BlockHash>, lens: seq<nat>, clock: nat -> nat, i: nat)
    requires |hashes| == |lens| && i < |hashes|
    requires forall j :: i < j < |hashes| ==> hashes[j] != hashes[i]
    ensures hashes[i] in Inserted(m, hashes, lens, clock)
    ensures IsRoot(Inserted(m, hashes, lens, clock)[hashes[i]], lens[i], clock(i))
  {
    var n := |hashes| - 1;
    if i < n {
      LastBlockWins(m, hashes[..n], lens[..n], clock, i);
    }
  }

  /** A record without a parent, of `len` bytes, last used at `now`. */
  predicate IsRoot(meta: BlockMeta, len: nat, now: nat)
  {
    && meta.parentHash == seq(32, _ => 0) && meta.blockSeq == 0
    && meta.payloadBytes == len && meta.lastAccessNs == now
    && meta.modelDigest == seq(24, _ => 0) && meta.layoutTag == seq(16, _ => 0) && meta.extFlags == 0
  }

  /** The index after a batch: its blocks, each with the record of its last occurrence, and whatever else was there. */
  ghost predicate Indexed(m: Index, hashes: seq<BlockHash>, lens: seq<nat>, clock: nat -> nat, m': Index)
    requires |hashes| == |lens|
  {
    && (forall h :: h in m' <==> h in m || h in hashes)
    && (forall h :: h in m && h !in hashes ==> m'[h] == m[h])
    && (forall i {:trigger hashes[i]} :: 0 <= i < |hashes| && hashes[i] !in hashes[i + 1..] ==>
          IsRoot(m'[hashes[i]], lens[i], clock(i)))
  }

  lemma InsertedIsIndexed(m: Index, hashes: seq<BlockHash>, lens: seq<nat>, clock: nat -> nat)
    requires |hashes| == |lens|
    ensures Indexed(m, hashes, lens, clock, Inserted(m, hashes, lens, clock))
  {
    var m' := Inserted(m, hashes, lens, clock);
    forall h: BlockHash
      ensures h in m' <==> h in m || h in hashes
      ensures h in m && h !in hashes ==> m'[h] == m[h]
    {
      InsertedHolds(m, hashes, lens, clock, h);
    }
    forall i | 0 <= i < |hashes| && hashes[i] !in hashes[i + 1..]
      ensures IsRoot(m'[hashes[i]], lens[i], clock(i))
    {
      assert forall j :: i < j < |hashes| ==> hashes[j] == hashes[i + 1..][j - i - 1];
      LastBlockWins(m, hashes, lens, clock, i);
    }
  }

  function Total(lens: seq<nat>): (n: nat) { Tally(lens, (len: nat) => len) }

  /**
   * `put_kv_blocks`, embedded arm: PUT every block, give up before indexing if any PUT failed,
   * then index them in order. `ok(i)` is the outcome of block `i`'s PUT.
   */
  method PutKvBlocks(
    index: InMemoryMetadataIndex, objects: set<BlockHash>, hashes: seq<BlockHash>, lens: seq<nat>,
    ok: nat -> bool, clock: nat -> nat) returns (r: Result<nat, nat>, stored: set<BlockHash>)
    requires |hashes| == |lens|
    modifies index
    ensures forall h :: h in stored <==> h in objects || exists i :: 0 <= i < |hashes| && ok(i) && hashes[i] == h
    ensures r.Ok? <==> forall i :: 0 <= i < |hashes| ==> ok(i)
    ensures r.Err? ==> && index.entries == old(index.entries)
                       && r.error < |hashes| && !ok(r.error) && forall i :: 0 <= i < r.error ==> ok(i)
    ensures r.Ok? ==> Indexed(old(index.entries), hashes, lens, clock, index.entries) && r.value == Total(lens)
    ensures r.Ok? && old(index.entries).Keys <= objects ==> index.entries.Keys <= stored
  {
    stored := objects;
    for i := 0 to |hashes|
      invariant forall h :: h in stored <==> h in objects || exists k :: 0 <= k < i && ok(k) && hashes[k] == h
    {
      if ok(i) {
        stored := stored + {hashes[i]};
      }
    }
    for i := 0 to |hashes|
      invariant forall k :: 0 <= k < i ==> ok(k)
    {
      if !ok(i) {
        return Err(i), stored;
      }
    }
    var total := 0;
    for i := 0 to |hashes|
      invariant index.entries == Inserted(old(index.entries), hashes[..i], lens[..i], clock)
      invariant total == Total(lens[..i])
    {
      assert hashes[..i + 1][..i] == hashes[..i] && lens[..i + 1][..i] == lens[..i];
      index.Insert(hashes[i], NewRoot(lens[i], clock(i)), clock(i));
      total := total + lens[i];
    }
    assert hashes[..|hashes|] == hashes && lens[..|lens|] == lens;
    InsertedIsIndexed(old(index.entries), hashes, lens, clock);
    return Ok(total), stored;
  }

  // ---- calls of the state machine that run alone ---------------------------------------

  /** A bootstrap with its inserts made one after the other, the k-th of them at `clock(k)`. */
  ghost function BootAll(env: Bucket, s: State, id: nat, clock: nat -> nat, k: nat): (r: State)
    requires id in s.boots
    decreases |s.boots[id]|
  {
    if s.boots[id] == [] then s else BootAll(env, Step(env, s, BootInsert(id, clock(k))), id, clock, k + 1)
  }

  /** The index after inserting blocks from the k-th on. */
  function InsertedOn(m: Index, hashes: seq<BlockHash>, clock: nat -> nat, k: nat): (r: Index)
    decreases |hashes|
  {
    if hashes == [] then m else InsertedOn(m[hashes[0] := NewRoot(0, clock(k))], hashes[1..], clock, k + 1)
  }

  lemma {:induction false} BootRest(env: Bucket, s: State, id: nat, clock: nat -> nat, k: nat)
    requires id in s.boots
    ensures BootAll(env, s, id, clock, k) ==
            s.(index := InsertedOn(s.index, s.boots[id], clock, k), boots := s.boots[id := []])
    decreases |s.boots[id]|
  {
    if s.boots[id] == [] {
      assert s.boots[id := []] == s.boots;
    } else {
      BootRest(env, Step(env, s, BootInsert(id, clock(k))), id, clock, k + 1);
    }
  }

  lemma {:induction false} InsertedLast(m: Index, hashes: seq<BlockHash>, h: BlockHash, clock: nat -> nat, k: nat)
    ensures InsertedOn(m, hashes + [h], clock, k) == InsertedOn(m, hashes, clock, k)[h := NewRoot(0, clock(k + |hashes|))]
    decreases |hashes|
  {
    if hashes == [] {
      assert [] + [h] == [h] && [h][1..] == [];
    } else {
      InsertedLast(m[hashes[0] := NewRoot(0, clock(k))], hashes[1..], h, clock, k + 1);
      assert (hashes + [h])[1..] == hashes[1..] + [h];
    }
  }

  lemma {:induction false} InsertedAll(m: Index, hashes: seq<BlockHash>, clock: nat -> nat)
    ensures InsertedOn(m, hashes, clock, 0) == Inserted(m, hashes, ZeroLengths(|hashes|), clock)
  {
    if hashes != [] {
      var n := |hashes| - 1;
      InsertedAll(m, hashes[..n], clock);
      InsertedLast(m, hashes[..n], hashes[n], clock, 0);
      assert hashes == hashes[..n] + [hashes[n]];
      assert ZeroLengths(n + 1)[..n] == ZeroLengths(n);
    }
  }

  /** A bootstrap left alone indexes every block that its listing holds, as one call does, and is then through. */
  lemma BootAlone(env: Bucket, s: State, id: nat, keys: seq<seq<byte>>, clock: nat -> nat)
    requires Enabled(env, s, BootList(id, keys))
    ensures var listed := RecognisedBy(env.recognise, keys);
            var r := BootAll(env, Step(env, s, BootList(id, keys)), id, clock, 0);
            && r == s.(index := r.index, boots := s.boots[id := []])
            && Indexed(s.index, listed, seq(|listed|, _ => 0), clock, r.index)
  {
    var listed := RecognisedBy(env.recognise, keys);
    var s' := s.(boots := s.boots[id := listed]);
    assert Step(env, s, BootList(id, keys)) == s';
    BootRest(env, s', id, clock, 0);
    BootIndexes(s.index, listed, clock);
    assert s'.boots[id := []] == s.boots[id := []];
  }

  lemma BootIndexes(m: Index, listed: seq<BlockHash>, clock: nat -> nat)
    ensures Indexed(m, listed, seq(|listed|, _ => 0), clock, InsertedOn(m, listed, clock, 0))
  {
    InsertedAll(m, listed, clock);
    InsertedIsIndexed(m, listed, ZeroLengths(|listed|), clock);
    assert ZeroLengths(|listed|) == seq(|listed|, _ => 0);
  }

  /** A cycle with its visits and deletes made one after the other; every delete takes effect. */
  ghost function CycleAll(env: Bucket, s: State, id: nat): (r: State)
    requires id in s.cycles
    decreases |s.cycles[id].queue|, if s.cycles[id].deleting.Some? then 1 else 0
  {
    if s.cycles[id].deleting.Some? then CycleAll(env, Step(env, s, CycleDelete(id, true)), id)
    else if s.cycles[id].queue != [] then CycleAll(env, Step(env, s, CycleVisit(id)), id)
    else s
  }

  /** The hashes among `queue` that are indexed with their stamp when their turn comes. */
  function Evictable(m: Index, queue: seq<Entry>): (r: set<BlockHash>)
  {
    if queue == [] then {}
    else
      var (hash, meta) := queue[0];
      if hash in m && m[hash].lastAccessNs == meta.lastAccessNs then {hash} + Evictable(m - {hash}, queue[1..])
      else Evictable(m, queue[1..])
  }

  /** A cycle left alone takes exactly those out of the index and out of the store, and is then through. */
  lemma CycleAlone(env: Bucket, s: State, id: nat, queue: seq<Entry>)
    requires id !in s.cycles
    ensures var gone := Evictable(s.index, queue);
            CycleAll(env, Step(env, s, CycleBegin(id, queue)), id) ==
            s.(index := s.index - gone, objects := s.objects - gone, cycles := s.cycles[id := Cycle([], None)])
  {
    var s' := Step(env, s, CycleBegin(id, queue));
    CycleRest(env, s', id);
    assert s'.cycles[id := Cycle([], None)] == s.cycles[id := Cycle([], None)];
  }

  lemma {:induction false} CycleRest(env: Bucket, s: State, id: nat)
    requires id in s.cycles && s.cycles[id].deleting.None?
    ensures var gone := Evictable(s.index, s.cycles[id].queue);
            CycleAll(env, s, id) ==
            s.(index := s.index - gone, objects := s.objects - gone, cycles := s.cycles[id := Cycle([], None)])
    decreases |s.cycles[id].queue|
  {
    var queue := s.cycles[id].queue;
    if queue == [] {
      assert s.cycles[id := Cycle([], None)] == s.cycles;
      assert s.index - {} == s.index && s.objects - {} == s.objects;
    } else {
      var (hash, meta) := queue[0];
      var rest := Cycle(queue[1..], None);
      if hash in s.index && s.index[hash].lastAccessNs == meta.lastAccessNs {
        var s' := s.(index := s.index - {hash}, objects := s.objects - {hash}, cycles := s.cycles[id := rest]);
        VisitThenDelete(env, s, id, s');
        CycleRest(env, s', id);
        var more := Evictable(s'.index, queue[1..]);
        assert s.index - {hash} - more == s.index - ({hash} + more);
        assert s.objects - {hash} - more == s.objects - ({hash} + more);
        assert s'.cycles[id := Cycle([], None)] == s.cycles[id := Cycle([], None)];
      } else {
        var s' := s.(cycles := s.cycles[id := rest]);
        assert Step(env, s, CycleVisit(id)) == s';
        CycleRest(env, s', id);
        assert s'.cycles[id := Cycle([], None)] == s.cycles[id := Cycle([], None)];
      }
    }
  }

  lemma VisitThenDelete(env: Bucket, s: State, id: nat, s': State)
    requires id in s.cycles && s.cycles[id].deleting.None? && s.cycles[id].queue != []
    requires var (hash, meta) := s.cycles[id].queue[0];
             && hash in s.index && s.index[hash].lastAccessNs == meta.lastAccessNs
             && s' == s.(index := s.index - {hash}, objects := s.objects - {hash},
                         cycles := s.cycles[id := Cycle(s.cycles[id].queue[1..], None)])
    ensures CycleAll(env, s, id) == CycleAll(env, s', id)
  {
    var s1 := Step(env, s, CycleVisit(id));
    var s2 := Step(env, s1, CycleDelete(id, true));
    assert s2.cycles == s'.cycles;
    assert s2 == s';
    assert CycleAll(env, s1, id) == CycleAll(env, s2, id);
  }

  // ---- one bootstrap, start to end ---------------------------------------------------

  /** The blocks among the listed object keys, in list order. */
  function Recognised(keys: seq<seq<byte>>): (r: seq<BlockHash>) { RecognisedBy(Recognise, keys) }

  function ZeroLengths(n: nat): (r: seq<nat>)
    ensures |r| == n
  {
    seq(n, i => 0)
  }

  /** `bootstrap_world_knowledge`: index every recognised key, overwriting what was there. */
  method BootstrapWorldKnowledge(index: InMemoryMetadataIndex, keys: seq<seq<byte>>, clock: nat -> nat)
    returns (blocksLoaded: nat)
    modifies index
    ensures blocksLoaded == |Recognised(keys)| == |Taken(Recognise, keys)|
    ensures Indexed(old(index.entries), Recognised(keys), seq(blocksLoaded, _ => 0), clock, index.entries)
  {
    blocksLoaded := 0;
    for i := 0 to |keys|
      invariant blocksLoaded == |Recognised(keys[..i])|
      invariant index.entries == Inserted(old(index.entries), Recognised(keys[..i]), ZeroLengths(blocksLoaded), clock)
    {
      assert keys[..i + 1][..i] == keys[..i];
      var block := Recognise(keys[i]);
      if block.Some? {
        ghost var so, more := Recognised(keys[..i]), Recognised(keys[..i + 1]);
        assert more[..|so|] == so && ZeroLengths(|so| + 1)[..|so|] == ZeroLengths(|so|);
        index.Insert(block.value, NewRoot(0, clock(blocksLoaded)), clock(blocksLoaded));
        blocksLoaded := blocksLoaded + 1;
      }
    }
    assert keys[..|keys|] == keys;
    OneForEach(Recognise, keys);
    InsertedIsIndexed(old(index.entries), Recognised(keys), ZeroLengths(blocksLoaded), clock);
    assert ZeroLengths(blocksLoaded) == seq(blocksLoaded, _ => 0);
  }

  /** The keys of a listing that are recognised, by position. */
  ghost function Taken(recognise: seq<byte> -> Option<BlockHash>, keys: seq<seq<byte>>): (r: set<nat>)
  {
    set i: nat | i < |keys| && recognise(keys[i]).Some?
  }

  /** A block is taken from a listing exactly when one of its keys is recognised as it. */
  lemma {:induction false} RecognisedAre(recognise: seq<byte> -> Option<BlockHash>, keys: seq<seq<byte>>, h: BlockHash)
    ensures h in RecognisedBy(recognise, keys) <==> exists i {:trigger keys[i]} :: 0 <= i < |keys| && recognise(keys[i]) == Some(h)
  {
    if keys != [] {
      var n := |keys| - 1;
      RecognisedAre(recognise, keys[..n], h);
      InOneMore(keys[..n], keys[n], recognise, h);
      assert keys == keys[..n] + [keys[n]];
    }
  }

  lemma InOneMore(keys: seq<seq<byte>>, key: seq<byte>, recognise: seq<byte> -> Option<BlockHash>, h: BlockHash)
    ensures (exists i {:trigger (keys + [key])[i]} :: 0 <= i <= |keys| && recognise((keys + [key])[i]) == Some(h))
       <==> recognise(key) == Some(h) || exists i {:trigger keys[i]} :: 0 <= i < |keys| && recognise(keys[i]) == Some(h)
  {
    var more := keys + [key];
    assert more[|keys|] == key;
    assert forall i {:trigger keys[i]} {:trigger more[i]} :: 0 <= i < |keys| ==> more[i] == keys[i];
  }

  /** One block for each key that is recognised. */
  lemma {:induction false} OneForEach(recognise: seq<byte> -> Option<BlockHash>, keys: seq<seq<byte>>)
    ensures |RecognisedBy(recognise, keys)| == |Taken(recognise, keys)|
  {
    if keys == [] {
      assert Taken(recognise, keys) == {};
    } else {
      var n := |keys| - 1;
      OneForEach(recognise, keys[..n]);
      TakenMore(recognise, keys, n);
    }
  }

  lemma TakenMore(recognise: seq<byte> -> Option<BlockHash>, keys: seq<seq<byte>>, n: nat)
    requires n + 1 == |keys|
    ensures |Taken(recognise, keys)| == |Taken(recognise, keys[..n])| + if recognise(keys[n]).Some? then 1 else 0
  {
    var front := Taken(recognise, keys[..n]);
    assert Taken(recognise, keys) == if recognise(keys[n]).Some? then front + {n} else front;
  }
}
