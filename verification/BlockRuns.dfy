/**
 Exactly when the index names a block whose object is missing: for one run, by the order of what
 happened to the block; for a bucket, over all disciplined runs.
 */
module BlockRuns {
  import opened Bytes
  import opened BlockIndex
  import opened BlockKeys
  import opened BlockStore

  // ---- what a run does to one block ----------------------------------------------

  /** Its PUT lands, it is indexed, a visit takes it out of the index, its delete takes effect. */
  datatype Effect = Nothing | Put | Insert | Visit | Delete

  ghost function EffectOf(env: Bucket, s: State, a: Action, h: BlockHash): (e: Effect)
    requires Enabled(env, s, a)
  {
    match a
    case BlockPut(id, i, ok, landed) => if (ok || landed) && s.batches[id].hashes[i] == h then Put else Nothing
    case BatchIndex(id, _) => if s.batches[id].hashes[s.batches[id].next] == h then Insert else Nothing
    case BootInsert(id, _) => if s.boots[id][0] == h then Insert else Nothing
    case CycleVisit(id) =>
      var (hash, meta) := s.cycles[id].queue[0];
      if hash == h && Unchanged(s.index, hash, meta.lastAccessNs) then Visit else Nothing
    case CycleDelete(id, gone) => if gone && s.cycles[id].deleting.value == h then Delete else Nothing
    case _ => Nothing
  }

  ghost function Effects(env: Bucket, s: State, actions: seq<Action>, h: BlockHash): (r: seq<Effect>)
    requires Runs(env, s, actions)
    ensures |r| == |actions|
    decreases |actions|
  {
    if actions == [] then []
    else [EffectOf(env, s, actions[0], h)] + Effects(env, Step(env, s, actions[0]), actions[1..], h)
  }

  lemma StepEffect(env: Bucket, s: State, a: Action, h: BlockHash)
    requires Enabled(env, s, a)
    ensures var e := EffectOf(env, s, a, h);
            && (h in Step(env, s, a).index <==> e == Insert || (h in s.index && e != Visit))
            && (h in Step(env, s, a).objects <==> e == Put || (h in s.objects && e != Delete))
  {
  }

  /** The position of the last `e`, and -1 when there is none. */
  function Last(effects: seq<Effect>, e: Effect): (n: int)
    ensures -1 <= n < |effects|
    ensures n >= 0 ==> effects[n] == e
    ensures forall i :: n < i < |effects| ==> effects[i] != e
  {
    if effects == [] then -1
    else if effects[|effects| - 1] == e then |effects| - 1
    else Last(effects[..|effects| - 1], e)
  }

  lemma {:induction false} LastBehind(x: Effect, rest: seq<Effect>, e: Effect)
    ensures Last([x] + rest, e) == if Last(rest, e) >= 0 then Last(rest, e) + 1 else if x == e then 0 else -1
    decreases |rest|
  {
    if rest == [] {
      assert [x] + rest == [x] && [x][..0] == [];
    } else {
      LastBehind(x, rest[..|rest| - 1], e);
      assert ([x] + rest)[..|rest|] == [x] + rest[..|rest| - 1];
    }
  }

  /** The last `entry` comes after the last `exit`, or there is no exit and it was in from the start. */
  predicate EndsIn(effects: seq<Effect>, entry: Effect, exit: Effect, start: bool)
  {
    Last(effects, entry) > Last(effects, exit) || (Last(effects, exit) < 0 && start)
  }

  /** Indexed at the end: the last insert comes after the last visit, or neither happened and it was there. */
  lemma {:induction false} IndexedIff(env: Bucket, s: State, actions: seq<Action>, h: BlockHash)
    requires Runs(env, s, actions)
    ensures h in Exec(env, s, actions).index <==> EndsIn(Effects(env, s, actions, h), Insert, Visit, h in s.index)
    decreases |actions|
  {
    if actions != [] {
      StepEffect(env, s, actions[0], h);
      var rest := Effects(env, Step(env, s, actions[0]), actions[1..], h);
      IndexedIff(env, Step(env, s, actions[0]), actions[1..], h);
      LastBehind(EffectOf(env, s, actions[0], h), rest, Insert);
      LastBehind(EffectOf(env, s, actions[0], h), rest, Visit);
    }
  }

  lemma {:induction false} StoredIff(env: Bucket, s: State, actions: seq<Action>, h: BlockHash)
    requires Runs(env, s, actions)
    ensures h in Exec(env, s, actions).objects <==> EndsIn(Effects(env, s, actions, h), Put, Delete, h in s.objects)
    decreases |actions|
  {
    if actions != [] {
      StepEffect(env, s, actions[0], h);
      var rest := Effects(env, Step(env, s, actions[0]), actions[1..], h);
      StoredIff(env, Step(env, s, actions[0]), actions[1..], h);
      LastBehind(EffectOf(env, s, actions[0], h), rest, Put);
      LastBehind(EffectOf(env, s, actions[0], h), rest, Delete);
    }
  }

  // ---- the record of an indexed block ----------------------------------------------

  /** What an action writes into the record of one block: a new record, a new time, or nothing. */
  datatype Mark = NoMark | Written(len: nat, now: nat) | Touched(now: nat)

  ghost function MarkOf(env: Bucket, s: State, a: Action, h: BlockHash): (m: Mark)
    requires Enabled(env, s, a)
  {
    match a
    case BatchIndex(id, now) =>
      var b := s.batches[id];
      if b.hashes[b.next] == h then Written(b.lens[b.next], now) else NoMark
    case BootInsert(id, now) => if s.boots[id][0] == h then Written(0, now) else NoMark
    case Touch(hash, now) => if hash == h && h in s.index then Touched(now) else NoMark
    case _ => NoMark
  }

  ghost function Marks(env: Bucket, s: State, actions: seq<Action>, h: BlockHash): (r: seq<Mark>)
    requires Runs(env, s, actions)
    ensures |r| == |actions|
    decreases |actions|
  {
    if actions == [] then []
    else [MarkOf(env, s, actions[0], h)] + Marks(env, Step(env, s, actions[0]), actions[1..], h)
  }

  /** The length of the last record written, or `len` when none was. */
  ghost predicate LastLength(marks: seq<Mark>, len: nat, was: Option<nat>)
  {
    || (exists i {:trigger marks[i]} :: 0 <= i < |marks| && marks[i].Written? && marks[i].len == len
          && forall j {:trigger marks[j]} :: i < j < |marks| ==> !marks[j].Written?)
    || (was == Some(len) && forall j {:trigger marks[j]} :: 0 <= j < |marks| ==> !marks[j].Written?)
  }

  /** The time of the last mark of any kind, or `now` when there was none. */
  ghost predicate LastTime(marks: seq<Mark>, now: nat, was: Option<nat>)
  {
    || (exists i {:trigger marks[i]} :: 0 <= i < |marks| && !marks[i].NoMark? && marks[i].now == now
          && forall j {:trigger marks[j]} :: i < j < |marks| ==> marks[j].NoMark?)
    || (was == Some(now) && forall j {:trigger marks[j]} :: 0 <= j < |marks| ==> marks[j].NoMark?)
  }

  function LengthIn(m: Index, h: BlockHash): (r: Option<nat>) { if h in m then Some(m[h].payloadBytes) else None }

  function TimeIn(m: Index, h: BlockHash): (r: Option<nat>) { if h in m then Some(m[h].lastAccessNs) else None }

  lemma LengthBehind(mark: Mark, rest: seq<Mark>, len: nat, was: Option<nat>, next: Option<nat>)
    requires LastLength(rest, len, next)
    requires next.Some? ==> if mark.Written? then next.value == mark.len else next == was
    ensures LastLength([mark] + rest, len, was)
  {
    var marks := [mark] + rest;
    assert forall j {:trigger marks[j]} :: 1 <= j < |marks| ==> marks[j] == rest[j - 1];
    if i :| 0 <= i < |rest| && rest[i].Written? && rest[i].len == len && forall j {:trigger rest[j]} :: i < j < |rest| ==> !rest[j].Written? {
      assert marks[i + 1] == rest[i];
    } else {
      assert marks[0] == mark;
    }
  }

  lemma TimeBehind(mark: Mark, rest: seq<Mark>, now: nat, was: Option<nat>, next: Option<nat>)
    requires LastTime(rest, now, next)
    requires next.Some? ==> if mark.NoMark? then next == was else next.value == mark.now
    ensures LastTime([mark] + rest, now, was)
  {
    var marks := [mark] + rest;
    assert forall j {:trigger marks[j]} :: 1 <= j < |marks| ==> marks[j] == rest[j - 1];
    if i :| 0 <= i < |rest| && !rest[i].NoMark? && rest[i].now == now && forall j {:trigger rest[j]} :: i < j < |rest| ==> rest[j].NoMark? {
      assert marks[i + 1] == rest[i];
    } else {
      assert marks[0] == mark;
    }
  }

  /** After every run, an indexed block has the length it was last indexed with, and the time it was last indexed or touched. */
  lemma {:induction false} RecordIs(env: Bucket, s: State, actions: seq<Action>, h: BlockHash)
    requires Runs(env, s, actions) && h in Exec(env, s, actions).index
    ensures var meta, marks := Exec(env, s, actions).index[h], Marks(env, s, actions, h);
            LastLength(marks, meta.payloadBytes, LengthIn(s.index, h)) && LastTime(marks, meta.lastAccessNs, TimeIn(s.index, h))
    decreases |actions|
  {
    if actions != [] {
      var a := actions[0];
      var s', rest := Step(env, s, a), Marks(env, Step(env, s, a), actions[1..], h);
      var meta := Exec(env, s, actions).index[h];
      RecordIs(env, s', actions[1..], h);
      StepMarks(env, s, a, h);
      LengthBehind(MarkOf(env, s, a, h), rest, meta.payloadBytes, LengthIn(s.index, h), LengthIn(s'.index, h));
      TimeBehind(MarkOf(env, s, a, h), rest, meta.lastAccessNs, TimeIn(s.index, h), TimeIn(s'.index, h));
    }
  }

  lemma StepMarks(env: Bucket, s: State, a: Action, h: BlockHash)
    requires Enabled(env, s, a)
    ensures var mark, m, m' := MarkOf(env, s, a, h), s.index, Step(env, s, a).index;
            && (if mark.Written? then h in m' && LengthIn(m', h) == Some(mark.len)
                else LengthIn(m', h).Some? ==> LengthIn(m', h) == LengthIn(m, h))
            && (if mark.NoMark? then TimeIn(m', h).Some? ==> TimeIn(m', h) == TimeIn(m, h)
                else h in m' && TimeIn(m', h) == Some(mark.now))
  {
  }

  predicate Missing(s: State, h: BlockHash) { h in s.index && h !in s.objects }

  /** The last insert follows the last visit, and the last delete follows the last PUT or there is no PUT. */
  predicate LeavesHole(effects: seq<Effect>)
  {
    && Last(effects, Insert) > Last(effects, Visit)
    && (Last(effects, Put) < 0 || Last(effects, Delete) > Last(effects, Put))
  }

  /**
   A block ends indexed without its object exactly when its last insert follows its last successful
   visit, and its last effective delete follows its last landed PUT or no PUT ever landed.
   */
  lemma MissingIff(env: Bucket, actions: seq<Action>, h: BlockHash)
    requires Runs(env, Initial(), actions)
    ensures Missing(Exec(env, Initial(), actions), h) <==> LeavesHole(Effects(env, Initial(), actions, h))
  {
    IndexedIff(env, Initial(), actions, h);
    StoredIff(env, Initial(), actions, h);
    HoleIff(Effects(env, Initial(), actions, h));
  }

  lemma HoleIff(effects: seq<Effect>)
    ensures LeavesHole(effects) <==> EndsIn(effects, Insert, Visit, false) && !EndsIn(effects, Put, Delete, false)
  {
    if Last(effects, Put) >= 0 && Last(effects, Delete) >= 0 {
      assert effects[Last(effects, Put)] != effects[Last(effects, Delete)];
    }
  }

  // ---- an insert follows a PUT ---------------------------------------------------

  /** Whatever is about to be indexed has been stored at some time, `ever` being all that was. */
  ghost predicate OnceStored(s: State, ever: set<BlockHash>)
  {
    && s.objects <= ever
    && (forall id {:trigger s.batches[id]} :: id in s.batches ==>
          BatchBacked(s.batches[id], ever) && (s.batches[id].Putting? ==> |s.batches[id].hashes| == |s.batches[id].lens|))
    && (forall id {:trigger s.boots[id]} :: id in s.boots ==> BootBacked(s.boots[id], ever))
  }

  lemma JoinOnceStored(b: Batch, ever: set<BlockHash>)
    requires b.Putting? && BatchBacked(b, ever) && AllOk(b) && |b.hashes| == |b.lens|
    ensures BatchBacked(Indexing(b.hashes, b.lens, 0), ever)
  {
    forall i | 0 <= i < |b.hashes|
      ensures b.hashes[i] in ever
    {
      assert b.results[i];
    }
  }

  lemma PutOnceStored(env: Bucket, s: State, id: nat, i: nat, ok: bool, landed: bool, ever: set<BlockHash>)
    requires Orderly(env) && OnceStored(s, ever) && Enabled(env, s, BlockPut(id, i, ok, landed))
    ensures var s' := Step(env, s, BlockPut(id, i, ok, landed)); OnceStored(s', ever + s'.objects)
  {
    var s' := Step(env, s, BlockPut(id, i, ok, landed));
    forall b | b in s'.batches
      ensures BatchBacked(s'.batches[b], ever + s'.objects)
    {
      assert BatchBacked(s.batches[b], ever);
    }
  }

  lemma StepOnceStored(env: Bucket, s: State, a: Action, ever: set<BlockHash>)
    requires Orderly(env) && OnceStored(s, ever) && Enabled(env, s, a)
    ensures OnceStored(Step(env, s, a), ever + Step(env, s, a).objects)
  {
    if a.BlockPut? {
      PutOnceStored(env, s, a.id, a.i, a.ok, a.landed, ever);
    } else {
      assert ever + Step(env, s, a).objects == ever;
      OtherOnceStored(env, s, a, ever);
    }
  }

  lemma OtherOnceStored(env: Bucket, s: State, a: Action, ever: set<BlockHash>)
    requires Orderly(env) && OnceStored(s, ever) && Enabled(env, s, a) && !a.BlockPut?
    ensures OnceStored(Step(env, s, a), ever)
  {
    match a
    case BootList(id, keys) => ListedAreStored(env, s, keys);
    case BatchJoin(id) =>
      if AllOk(s.batches[id]) {
        JoinOnceStored(s.batches[id], ever);
      }
    case _ =>
  }

  lemma {:induction false} InsertFollowsPut(env: Bucket, s: State, actions: seq<Action>, h: BlockHash, ever: set<BlockHash>)
    requires Orderly(env) && OnceStored(s, ever) && Runs(env, s, actions)
    ensures var es := Effects(env, s, actions, h);
            Last(es, Insert) >= 0 ==> h in ever || Last(es, Put) >= 0
    decreases |actions|
  {
    if actions != [] {
      var s' := Step(env, s, actions[0]);
      var e := EffectOf(env, s, actions[0], h);
      StepEffect(env, s, actions[0], h);
      StepOnceStored(env, s, actions[0], ever);
      InsertFollowsPut(env, s', actions[1..], h, ever + s'.objects);
      var rest := Effects(env, s', actions[1..], h);
      LastBehind(e, rest, Insert);
      LastBehind(e, rest, Put);
    }
  }

  /** With write-through on, in a quiet bucket, only a delete behind the last PUT can leave a hole. */
  lemma MissingAfterDeleteIff(env: Bucket, actions: seq<Action>, h: BlockHash)
    requires Orderly(env) && Runs(env, Initial(), actions)
    ensures Missing(Exec(env, Initial(), actions), h) ==> Last(Effects(env, Initial(), actions, h), Put) >= 0
    ensures var effects := Effects(env, Initial(), actions, h);
            (Last(effects, Insert) > Last(effects, Visit) && Last(effects, Delete) > Last(effects, Put)
             <==> Missing(Exec(env, Initial(), actions), h))
  {
    MissingIff(env, actions, h);
    InsertFollowsPut(env, Initial(), actions, h, {});
  }

  // ---- runs that break it ----------------------------------------------------------

  ghost predicate IsRun(env: Bucket, s: State, actions: seq<Action>, end: State)
  {
    Runs(env, s, actions) && Exec(env, s, actions) == end
  }

  lemma Prepend(env: Bucket, s: State, a: Action, rest: seq<Action>, end: State)
    requires Enabled(env, s, a) && IsRun(env, Step(env, s, a), rest, end)
    ensures IsRun(env, s, [a] + rest, end)
    ensures Exclusive(s) && Disciplined(env, Step(env, s, a), rest) ==> Disciplined(env, s, [a] + rest)
  {
    assert ([a] + rest)[1..] == rest;
  }

  /** Batch `id` stands at `b`, with `h` stored or not. */
  ghost function At(s: State, id: nat, h: BlockHash, stored: bool, b: Batch): (r: State)
  {
    s.(objects := if stored then s.objects + {h} else s.objects, batches := s.batches[id := b])
  }

  /** One block as batch `id`, PUT and indexed. */
  ghost function AfterPutOne(s: State, id: nat, h: BlockHash, ok: bool): (r: State)
  {
    At(s, id, h, ok, Indexing([h], [1], 1)).(index := s.index[h := NewRoot(1, 7)])
  }

  lemma PutOnePuts(env: Bucket, s: State, id: nat, h: BlockHash, ok: bool)
    requires id !in s.batches && (ok || !env.writeThrough)
    ensures var begun := At(s, id, h, false, Putting([h], [1], map[]));
            && Enabled(env, s, BatchBegin(id, [h], [1])) && Step(env, s, BatchBegin(id, [h], [1])) == begun
            && Enabled(env, begun, BlockPut(id, 0, ok, ok))
            && Step(env, begun, BlockPut(id, 0, ok, ok)) == At(s, id, h, ok, Putting([h], [1], map[0 := true]))
  {
    var done := Putting([h], [1], map[0 := true]);
    assert s.batches[id := Putting([h], [1], map[])][id := done] == s.batches[id := done];
  }

  lemma PutOneIndexes(env: Bucket, s: State, id: nat, h: BlockHash, ok: bool)
    ensures var put, joined := At(s, id, h, ok, Putting([h], [1], map[0 := true])), At(s, id, h, ok, Indexing([h], [1], 0));
            && Enabled(env, put, BatchJoin(id)) && Step(env, put, BatchJoin(id)) == joined
            && Enabled(env, joined, BatchIndex(id, 7)) && Step(env, joined, BatchIndex(id, 7)) == AfterPutOne(s, id, h, ok)
  {
    var put, joined, end := Putting([h], [1], map[0 := true]), Indexing([h], [1], 0), Indexing([h], [1], 1);
    assert s.batches[id := put][id := joined] == s.batches[id := joined];
    assert s.batches[id := joined][id := end] == s.batches[id := end];
  }

  function PutOne(id: nat, h: BlockHash, ok: bool, rest: seq<Action>): (r: seq<Action>)
  {
    [BatchBegin(id, [h], [1])] + ([BlockPut(id, 0, ok, ok)] + ([BatchJoin(id)] + ([BatchIndex(id, 7)] + rest)))
  }

  lemma PutOneRuns(env: Bucket, s: State, id: nat, h: BlockHash, ok: bool, rest: seq<Action>, end: State)
    requires id !in s.batches && (ok || !env.writeThrough) && IsRun(env, AfterPutOne(s, id, h, ok), rest, end)
    ensures IsRun(env, s, PutOne(id, h, ok, rest), end)
    ensures s.cycles == map[] && Disciplined(env, AfterPutOne(s, id, h, ok), rest) ==>
              Disciplined(env, s, PutOne(id, h, ok, rest))
  {
    PutOnePuts(env, s, id, h, ok);
    PutOneIndexes(env, s, id, h, ok);
    var joined := At(s, id, h, ok, Indexing([h], [1], 0));
    var put := At(s, id, h, ok, Putting([h], [1], map[0 := true]));
    var begun := At(s, id, h, false, Putting([h], [1], map[]));
    var t3 := [BatchIndex(id, 7)] + rest;
    Prepend(env, joined, BatchIndex(id, 7), rest, end);
    var t2 := [BatchJoin(id)] + t3;
    Prepend(env, put, BatchJoin(id), t3, end);
    Prepend(env, begun, BlockPut(id, 0, ok, ok), t2, end);
    Prepend(env, s, BatchBegin(id, [h], [1]), [BlockPut(id, 0, ok, ok)] + t2, end);
  }

  /** The block is put and evicted, and put again between the visit and the delete. */
  function Race(h: BlockHash): (r: seq<Action>)
  {
    PutOne(0, h, true,
           [CycleBegin(0, [(h, NewRoot(1, 7))])] + ([CycleVisit(0)] + PutOne(1, h, true, [CycleDelete(0, true)] + [])))
  }

  lemma LastDeleteLoses(env: Bucket, s: State, h: BlockHash) returns (end: State)
    requires 1 !in s.batches && 0 in s.cycles && s.cycles[0].deleting == Some(h)
    ensures IsRun(env, AfterPutOne(s, 1, h, true), [CycleDelete(0, true)] + [], end) && !IndexBacked(end)
  {
    var before := AfterPutOne(s, 1, h, true);
    end := Step(env, before, CycleDelete(0, true));
    Prepend(env, before, CycleDelete(0, true), [], end);
    assert h in end.index.Keys && h !in end.objects;
  }

  /** The exclusion is needed, whatever the bucket: this run from the initial state leaves the block indexed without its object. */
  lemma RaceBreaks(env: Bucket, h: BlockHash)
    ensures Runs(env, Initial(), Race(h)) && !IndexBacked(Exec(env, Initial(), Race(h)))
  {
    var s1 := AfterPutOne(Initial(), 0, h, true);
    var begin := CycleBegin(0, [(h, NewRoot(1, 7))]);
    var s2 := Step(env, s1, begin);
    var s3 := Step(env, s2, CycleVisit(0));
    var end := LastDeleteLoses(env, s3, h);
    var again := PutOne(1, h, true, [CycleDelete(0, true)] + []);
    PutOneRuns(env, s3, 1, h, true, [CycleDelete(0, true)] + [], end);
    Prepend(env, s2, CycleVisit(0), again, end);
    Prepend(env, s1, begin, [CycleVisit(0)] + again, end);
    PutOneRuns(env, Initial(), 0, h, true, [begin] + ([CycleVisit(0)] + again), end);
  }

  /** Write-through is needed: best-effort mode indexes a block whose PUT failed. */
  lemma BestEffortBreaks(env: Bucket, h: BlockHash)
    requires !env.writeThrough
    ensures IsDisciplinedRun(env, PutOne(0, h, false, []))
    ensures !IndexBacked(Exec(env, Initial(), PutOne(0, h, false, [])))
  {
    var end := AfterPutOne(Initial(), 0, h, false);
    assert h in end.index.Keys && h !in end.objects;
    PutOneRuns(env, Initial(), 0, h, false, [], end);
  }

  /** Listing nothing but one key, and indexing what it is taken for. */
  function BootOne(key: seq<byte>): (r: seq<Action>) { [BootList(0, [key])] + ([BootInsert(0, 7)] + []) }

  /** Quiet is needed: a foreign key that is taken for a block gets it indexed without its object. */
  lemma ForeignKeyBreaks(env: Bucket, key: seq<byte>)
    requires key in env.foreign && env.recognise(key).Some?
    ensures IsDisciplinedRun(env, BootOne(key)) && !IndexBacked(Exec(env, Initial(), BootOne(key)))
  {
    var h := env.recognise(key).value;
    assert [key][..0] == [];
    assert RecognisedBy(env.recognise, [key]) == [h];
    assert Listable(env, Initial(), [key][0]);
    var s1 := Step(env, Initial(), BootList(0, [key]));
    var end := Step(env, s1, BootInsert(0, 7));
    assert h in end.index.Keys && h !in end.objects;
    Prepend(env, s1, BootInsert(0, 7), [], end);
    Prepend(env, Initial(), BootList(0, [key]), [BootInsert(0, 7)] + [], end);
  }

  /** Every disciplined run keeps every indexed block stored exactly when puts wait and no foreign key is taken for a block. */
  lemma AlwaysBackedIff(env: Bucket, h: BlockHash)
    requires env.Valid()
    ensures (forall actions {:trigger IsDisciplinedRun(env, actions)} ::
               IsDisciplinedRun(env, actions) ==> IndexBacked(Exec(env, Initial(), actions)))
       <==> env.writeThrough && env.Quiet()
  {
    if env.writeThrough && env.Quiet() {
      forall actions | IsDisciplinedRun(env, actions)
        ensures IndexBacked(Exec(env, Initial(), actions))
      {
        EveryIndexedHashIsStored(env, actions);
      }
    } else if !env.writeThrough {
      BestEffortBreaks(env, h);
    } else {
      var key :| key in env.foreign && env.recognise(key).Some?;
      ForeignKeyBreaks(env, key);
    }
  }

  /** In particular a nested namespace with a block in it, which the listing of the outer one includes. */
  lemma NestedNamespaceBreaks(s3Prefix: seq<byte>, outer: seq<byte>, inner: seq<byte>, h: BlockHash)
    requires EQUALS !in s3Prefix && EQUALS !in outer && EQUALS !in inner && inner != []
    ensures var key := ObjectKey(s3Prefix, Nested(outer, inner), BlockKey(h));
            var env := RealBucket(s3Prefix, outer, {key}, true);
            && ObjectBase(s3Prefix, outer) <= key && IsDisciplinedRun(env, BootOne(key))
            && !IndexBacked(Exec(env, Initial(), BootOne(key)))
  {
    var key := ObjectKey(s3Prefix, Nested(outer, inner), BlockKey(h));
    NestedNamespaceIsTaken(s3Prefix, outer, inner, h);
    ForeignKeyBreaks(RealBucket(s3Prefix, outer, {key}, true), key);
  }
}
