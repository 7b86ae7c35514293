/**
 The tiered block store of embed.rs over one namespace: flat files, foyer and the object store.
 Puts are broken into their tier writes, which may come in any order, late or never; gets are
 walked step by step, with the promoted bytes in the reader's hand between two steps; tiers may
 lose entries at any time.
 */
module TieredStore {
  import opened Bytes
  import opened Text
  import opened BlockIndex
  import opened BlockKeys
  import opened Compression

  /** The one payload of each hash, the names of a block in the tiers, and the storage codec. */
  datatype World = World(
    content: BlockHash -> seq<byte>,
    name: BlockHash -> seq<byte>,
    key: BlockHash -> seq<byte>,
    encode: seq<byte> -> Option<seq<byte>>,
    decode: seq<byte> -> seq<byte>)
  {
    /** File names and keys tell payloads apart, and what encodes is read back. */
    ghost predicate Valid()
    {
      && (forall g, h {:trigger name(g), name(h)} :: name(g) == name(h) ==> content(g) == content(h))
      && (forall g, h {:trigger key(g), key(h)} :: key(g) == key(h) ==> content(g) == content(h))
      && (forall h {:trigger content(h)} ::
            encode(content(h)).Some? ==> decode(encode(content(h)).value) == content(h))
    }
  }

  // ---- the state machine -----------------------------------------------------

  datatype Phase =
    | AtFlat | AtFoyer | AtObjects
    | Repairing(hand: seq<byte>) | FillingFlat(hand: seq<byte>) | FillingFoyer(hand: seq<byte>)
    | Hit(payload: seq<byte>) | Miss | Fault

  datatype Reader = Reader(hash: BlockHash, phase: Phase)

  /** `restore_from_s3`: keys still to do, and the bytes fetched for the first of them. */
  datatype Restorer = Restorer(queue: seq<BlockHash>, hand: Option<seq<byte>>)

  type Tier = map<seq<byte>, seq<byte>>

  datatype State = State(
    flat: Tier, foyer: Tier, objects: Tier, readers: map<nat, Reader>, restorers: map<nat, Restorer>)

  datatype Action =
    // tier writes of `put_kv` and `put_kv_async_s3`
    | WriteFlat(hash: BlockHash, ok: bool)
    | WriteFoyer(hash: BlockHash)
    | WriteObject(hash: BlockHash)
    // `delete_kv`, `clear`, and evictions inside the tiers
    | DropFlat(file: seq<byte>)
    | DropFoyer(cacheKey: seq<byte>)
    | DeleteObject(objectKey: seq<byte>)
    // `get_kv`
    | GetBegin(id: nat, hash: BlockHash)
    | GetStep(id: nat, ok: bool, fault: bool)
    // `restore_from_s3`
    | RestoreBegin(id: nat, listed: seq<BlockHash>)
    | RestoreFetch(id: nat)
    | RestorePut(id: nat)

  function Initial(): (s: State) { State(map[], map[], map[], map[], map[]) }

  predicate Final(p: Phase) { p.Hit? || p.Miss? || p.Fault? }

  predicate Enabled(w: World, s: State, a: Action)
  {
    match a
    case WriteObject(hash) => w.encode(w.content(hash)).Some?
    case GetBegin(id, _) => id !in s.readers
    case GetStep(id, _, _) => id in s.readers && !Final(s.readers[id].phase)
    case RestoreBegin(id, _) => id !in s.restorers
    case RestoreFetch(id) => id in s.restorers && s.restorers[id].hand.None? && s.restorers[id].queue != []
    case RestorePut(id) => id in s.restorers && s.restorers[id].hand.Some? && s.restorers[id].queue != []
    case _ => true
  }

  function Moved(s: State, id: nat, phase: Phase): (r: State)
    requires id in s.readers
  {
    s.(readers := s.readers[id := s.readers[id].(phase := phase)])
  }

  function FlatPut(w: World, s: State, hash: BlockHash, bytes: seq<byte>, ok: bool): (r: State)
  {
    if ok then s.(flat := s.flat[w.name(hash) := bytes]) else s
  }

  function FoyerPut(w: World, s: State, hash: BlockHash, bytes: seq<byte>): (r: State)
  {
    s.(foyer := s.foyer[w.key(hash) := bytes])
  }

  /** One step of a get; `ok` is whether a flat write succeeds, `fault` whether the object store fails. */
  function Advance(w: World, s: State, id: nat, ok: bool, fault: bool): (r: State)
    requires id in s.readers && !Final(s.readers[id].phase)
  {
    var h := s.readers[id].hash;
    match s.readers[id].phase
    case AtFlat => Moved(s, id, if w.name(h) in s.flat then Hit(s.flat[w.name(h)]) else AtFoyer)
    case AtFoyer => Moved(s, id, if w.key(h) in s.foyer then Repairing(s.foyer[w.key(h)]) else AtObjects)
    case Repairing(hand) => Moved(FlatPut(w, s, h, hand, ok), id, Hit(hand))
    case AtObjects =>
      Moved(s, id, if fault then Fault
                   else if w.key(h) in s.objects then FillingFlat(w.decode(s.objects[w.key(h)]))
                   else Miss)
    case FillingFlat(hand) => Moved(FlatPut(w, s, h, hand, ok), id, FillingFoyer(hand))
    case FillingFoyer(hand) => Moved(FoyerPut(w, s, h, hand), id, Hit(hand))
  }

  function Step(w: World, s: State, a: Action): (r: State)
    requires Enabled(w, s, a)
  {
    match a
    case WriteFlat(hash, ok) => FlatPut(w, s, hash, w.content(hash), ok)
    case WriteFoyer(hash) => FoyerPut(w, s, hash, w.content(hash))
    case WriteObject(hash) => s.(objects := s.objects[w.key(hash) := w.encode(w.content(hash)).value])
    case DropFlat(file) => s.(flat := s.flat - {file})
    case DropFoyer(cacheKey) => s.(foyer := s.foyer - {cacheKey})
    case DeleteObject(objectKey) => s.(objects := s.objects - {objectKey})
    case GetBegin(id, hash) => s.(readers := s.readers[id := Reader(hash, AtFlat)])
    case GetStep(id, ok, fault) => Advance(w, s, id, ok, fault)
    case RestoreBegin(id, listed) => s.(restorers := s.restorers[id := Restorer(listed, None)])
    case RestoreFetch(id) =>
      var queue := s.restorers[id].queue;
      var key := w.key(queue[0]);
      s.(restorers := s.restorers[id :=
        if key in s.objects then Restorer(queue, Some(w.decode(s.objects[key]))) else Restorer(queue[1..], None)])
    case RestorePut(id) =>
      var queue := s.restorers[id].queue;
      FoyerPut(w, s, queue[0], s.restorers[id].hand.value).(restorers := s.restorers[id := Restorer(queue[1..], None)])
  }

  // ---- the invariant -----------------------------------------------------------

  /** Wherever a block is found in the tiers, it is that block's payload. */
  ghost predicate Consistent(w: World, flat: Tier, foyer: Tier, objects: Tier)
  {
    && (forall h {:trigger w.name(h)} :: w.name(h) in flat ==> flat[w.name(h)] == w.content(h))
    && (forall h {:trigger w.key(h)} ::
          && (w.key(h) in foyer ==> foyer[w.key(h)] == w.content(h))
          && (w.key(h) in objects ==> w.decode(objects[w.key(h)]) == w.content(h)))
  }

  predicate ReaderOk(w: World, r: Reader)
  {
    match r.phase
    case Repairing(hand) => hand == w.content(r.hash)
    case FillingFlat(hand) => hand == w.content(r.hash)
    case FillingFoyer(hand) => hand == w.content(r.hash)
    case Hit(payload) => payload == w.content(r.hash)
    case _ => true
  }

  predicate RestorerOk(w: World, r: Restorer)
  {
    r.hand.Some? ==> r.queue != [] && r.hand.value == w.content(r.queue[0])
  }

  ghost predicate Inv(w: World, s: State)
  {
    && Consistent(w, s.flat, s.foyer, s.objects)
    && (forall id {:trigger s.readers[id]} :: id in s.readers ==> ReaderOk(w, s.readers[id]))
    && (forall id {:trigger s.restorers[id]} :: id in s.restorers ==> RestorerOk(w, s.restorers[id]))
  }

  lemma FlatPutKeeps(w: World, s: State, hash: BlockHash, ok: bool)
    requires w.Valid() && Inv(w, s)
    ensures Inv(w, FlatPut(w, s, hash, w.content(hash), ok))
  {
    if ok {
      var flat := s.flat[w.name(hash) := w.content(hash)];
      forall h | w.name(h) in flat
        ensures flat[w.name(h)] == w.content(h)
      {
        if w.name(h) == w.name(hash) {
          assert w.content(h) == w.content(hash);
        }
      }
    }
  }

  lemma FoyerPutKeeps(w: World, s: State, hash: BlockHash)
    requires w.Valid() && Inv(w, s)
    ensures Inv(w, FoyerPut(w, s, hash, w.content(hash)))
  {
    var foyer := s.foyer[w.key(hash) := w.content(hash)];
    forall h | w.key(h) in foyer
      ensures foyer[w.key(h)] == w.content(h)
    {
      if w.key(h) == w.key(hash) {
        assert w.content(h) == w.content(hash);
      }
    }
  }

  lemma ObjectPutKeeps(w: World, s: State, hash: BlockHash)
    requires w.Valid() && Inv(w, s) && Enabled(w, s, WriteObject(hash))
    ensures Inv(w, Step(w, s, WriteObject(hash)))
  {
    var objects := s.objects[w.key(hash) := w.encode(w.content(hash)).value];
    forall h | w.key(h) in objects
      ensures w.decode(objects[w.key(h)]) == w.content(h)
    {
      if w.key(h) == w.key(hash) {
        assert w.content(h) == w.content(hash);
      }
    }
  }

  lemma MovedKeeps(w: World, s: State, id: nat, phase: Phase)
    requires Inv(w, s) && id in s.readers && ReaderOk(w, Reader(s.readers[id].hash, phase))
    ensures Inv(w, Moved(s, id, phase))
  {
  }

  lemma AdvanceKeeps(w: World, s: State, id: nat, ok: bool, fault: bool)
    requires w.Valid() && Inv(w, s) && id in s.readers && !Final(s.readers[id].phase)
    ensures Inv(w, Advance(w, s, id, ok, fault))
  {
    var h := s.readers[id].hash;
    assert ReaderOk(w, s.readers[id]);
    match s.readers[id].phase
    case AtFlat => MovedKeeps(w, s, id, if w.name(h) in s.flat then Hit(s.flat[w.name(h)]) else AtFoyer);
    case AtFoyer => MovedKeeps(w, s, id, if w.key(h) in s.foyer then Repairing(s.foyer[w.key(h)]) else AtObjects);
    case Repairing(hand) =>
      FlatPutKeeps(w, s, h, ok);
      MovedKeeps(w, FlatPut(w, s, h, hand, ok), id, Hit(hand));
    case AtObjects =>
      if !fault && w.key(h) in s.objects {
        MovedKeeps(w, s, id, FillingFlat(w.decode(s.objects[w.key(h)])));
      } else {
        MovedKeeps(w, s, id, if fault then Fault else Miss);
      }
    case FillingFlat(hand) =>
      FlatPutKeeps(w, s, h, ok);
      MovedKeeps(w, FlatPut(w, s, h, hand, ok), id, FillingFoyer(hand));
    case FillingFoyer(hand) =>
      FoyerPutKeeps(w, s, h);
      MovedKeeps(w, FoyerPut(w, s, h, hand), id, Hit(hand));
  }

  lemma StepKeeps(w: World, s: State, a: Action)
    requires w.Valid() && Inv(w, s) && Enabled(w, s, a)
    ensures Inv(w, Step(w, s, a))
  {
    match a
    case WriteFlat(hash, ok) => FlatPutKeeps(w, s, hash, ok);
    case WriteFoyer(hash) => FoyerPutKeeps(w, s, hash);
    case WriteObject(hash) => ObjectPutKeeps(w, s, hash);
    case GetStep(id, ok, fault) => AdvanceKeeps(w, s, id, ok, fault);
    case RestorePut(id) =>
      assert RestorerOk(w, s.restorers[id]);
      FoyerPutKeeps(w, s, s.restorers[id].queue[0]);
    case RestoreFetch(id) =>
      assert w.key(s.restorers[id].queue[0]) in s.objects ==>
          w.decode(s.objects[w.key(s.restorers[id].queue[0])]) == w.content(s.restorers[id].queue[0]);
    case _ =>
  }

  // ---- runs --------------------------------------------------------------------

  predicate Runs(w: World, s: State, actions: seq<Action>)
    decreases |actions|
  {
    actions == [] || (Enabled(w, s, actions[0]) && Runs(w, Step(w, s, actions[0]), actions[1..]))
  }

  function Exec(w: World, s: State, actions: seq<Action>): (r: State)
    requires Runs(w, s, actions)
    decreases |actions|
  {
    if actions == [] then s else Exec(w, Step(w, s, actions[0]), actions[1..])
  }

  lemma {:induction false} RunKeeps(w: World, s: State, actions: seq<Action>)
    requires w.Valid() && Inv(w, s) && Runs(w, s, actions)
    ensures Inv(w, Exec(w, s, actions))
    decreases |actions|
  {
    if actions != [] {
      StepKeeps(w, s, actions[0]);
      RunKeeps(w, Step(w, s, actions[0]), actions[1..]);
    }
  }

  /** In every run, every get that hits returns the one payload of its hash. */
  lemma EveryHitIsTheBlock(w: World, actions: seq<Action>, id: nat)
    requires w.Valid() && Runs(w, Initial(), actions)
    requires var s := Exec(w, Initial(), actions); id in s.readers && s.readers[id].phase.Hit?
    ensures var r := Exec(w, Initial(), actions).readers[id]; r.phase.payload == w.content(r.hash)
  {
    RunKeeps(w, Initial(), actions);
    assert ReaderOk(w, Exec(w, Initial(), actions).readers[id]);
  }

  // ---- and only then -------------------------------------------------------------

  ghost predicate IsHit(w: World, s: State, actions: seq<Action>, h: BlockHash, bytes: seq<byte>)
  {
    Runs(w, s, actions) && (var end := Exec(w, s, actions); 0 in end.readers && end.readers[0] == Reader(h, Hit(bytes)))
  }

  /** Some run from `s` ends with a get of `h` that hits with `bytes`. */
  ghost predicate CanHit(w: World, s: State, h: BlockHash, bytes: seq<byte>)
  {
    exists actions :: IsHit(w, s, actions, h, bytes)
  }

  lemma CanHitVia(w: World, s: State, a: Action, h: BlockHash, bytes: seq<byte>)
    requires Enabled(w, s, a) && CanHit(w, Step(w, s, a), h, bytes)
    ensures CanHit(w, s, h, bytes)
  {
    var rest :| IsHit(w, Step(w, s, a), rest, h, bytes);
    assert ([a] + rest)[1..] == rest;
    assert IsHit(w, s, [a] + rest, h, bytes);
  }

  lemma DoneHits(w: World, s: State, h: BlockHash, bytes: seq<byte>)
    requires 0 in s.readers && s.readers[0] == Reader(h, Hit(bytes))
    ensures CanHit(w, s, h, bytes)
  {
    assert IsHit(w, s, [], h, bytes);
  }

  lemma FlatHits(w: World, s: State, h: BlockHash)
    requires 0 in s.readers && s.readers[0] == Reader(h, AtFlat) && w.name(h) in s.flat
    ensures CanHit(w, s, h, s.flat[w.name(h)])
  {
    var a := GetStep(0, true, false);
    DoneHits(w, Step(w, s, a), h, s.flat[w.name(h)]);
    CanHitVia(w, s, a, h, s.flat[w.name(h)]);
  }

  lemma FoyerHits(w: World, s: State, h: BlockHash)
    requires 0 in s.readers && s.readers[0] == Reader(h, AtFlat) && w.name(h) !in s.flat && w.key(h) in s.foyer
    ensures CanHit(w, s, h, s.foyer[w.key(h)])
  {
    var a, b := GetStep(0, true, false), s.foyer[w.key(h)];
    var s1 := Step(w, s, a);
    var s2 := Step(w, s1, a);
    DoneHits(w, Step(w, s2, a), h, b);
    CanHitVia(w, s2, a, h, b);
    CanHitVia(w, s1, a, h, b);
    CanHitVia(w, s, a, h, b);
  }

  lemma ObjectHits(w: World, s: State, h: BlockHash)
    requires 0 in s.readers && s.readers[0] == Reader(h, AtFlat)
    requires w.name(h) !in s.flat && w.key(h) !in s.foyer && w.key(h) in s.objects
    ensures CanHit(w, s, h, w.decode(s.objects[w.key(h)]))
  {
    var a, b := GetStep(0, true, false), w.decode(s.objects[w.key(h)]);
    var s1 := Step(w, s, a);
    var s2 := Step(w, s1, a);
    var s3 := Step(w, s2, a);
    FilledHits(w, s3, h, b);
    CanHitVia(w, s2, a, h, b);
    CanHitVia(w, s1, a, h, b);
    CanHitVia(w, s, a, h, b);
  }

  lemma FilledHits(w: World, s: State, h: BlockHash, b: seq<byte>)
    requires 0 in s.readers && s.readers[0] == Reader(h, FillingFlat(b))
    ensures CanHit(w, s, h, b)
  {
    var a := GetStep(0, true, false);
    var s1 := Step(w, s, a);
    DoneHits(w, Step(w, s1, a), h, b);
    CanHitVia(w, s1, a, h, b);
    CanHitVia(w, s, a, h, b);
  }

  /** Write one tier for `g`, then read `h` from it. */
  lemma WriteThenRead(w: World, g: BlockHash, h: BlockHash)
    ensures w.name(g) == w.name(h) ==> CanHit(w, Initial(), h, w.content(g))
    ensures w.key(g) == w.key(h) ==> CanHit(w, Initial(), h, w.content(g))
    ensures w.encode(w.content(h)).Some? ==> CanHit(w, Initial(), h, w.decode(w.encode(w.content(h)).value))
  {
    if w.name(g) == w.name(h) {
      var s1 := Step(w, Initial(), WriteFlat(g, true));
      FlatHits(w, Step(w, s1, GetBegin(0, h)), h);
      CanHitVia(w, s1, GetBegin(0, h), h, w.content(g));
      CanHitVia(w, Initial(), WriteFlat(g, true), h, w.content(g));
    }
    if w.key(g) == w.key(h) {
      var s1 := Step(w, Initial(), WriteFoyer(g));
      FoyerHits(w, Step(w, s1, GetBegin(0, h)), h);
      CanHitVia(w, s1, GetBegin(0, h), h, w.content(g));
      CanHitVia(w, Initial(), WriteFoyer(g), h, w.content(g));
    }
    if w.encode(w.content(h)).Some? {
      var b := w.decode(w.encode(w.content(h)).value);
      var s1 := Step(w, Initial(), WriteObject(h));
      ObjectHits(w, Step(w, s1, GetBegin(0, h)), h);
      CanHitVia(w, s1, GetBegin(0, h), h, b);
      CanHitVia(w, Initial(), WriteObject(h), h, b);
    }
  }

  /** Every hit of every run is right exactly when names and keys tell payloads apart and the codec is lossless. */
  lemma HitsAreRightIff(w: World)
    ensures w.Valid() <==> forall h, bytes {:trigger CanHit(w, Initial(), h, bytes)} ::
              CanHit(w, Initial(), h, bytes) ==> bytes == w.content(h)
  {
    if w.Valid() {
      forall h, bytes | CanHit(w, Initial(), h, bytes)
        ensures bytes == w.content(h)
      {
        var actions :| IsHit(w, Initial(), actions, h, bytes);
        EveryHitIsTheBlock(w, actions, 0);
      }
    } else {
      OnlyIfValid(w);
    }
  }

  lemma OnlyIfValid(w: World)
    requires !w.Valid()
    ensures exists h, bytes :: CanHit(w, Initial(), h, bytes) && bytes != w.content(h)
  {
    if g, h :| w.name(g) == w.name(h) && w.content(g) != w.content(h) {
      WriteThenRead(w, g, h);
    } else if g, h :| w.key(g) == w.key(h) && w.content(g) != w.content(h) {
      WriteThenRead(w, g, h);
    } else {
      var h :| w.encode(w.content(h)).Some? && w.decode(w.encode(w.content(h)).value) != w.content(h);
      WriteThenRead(w, h, h);
    }
  }

  // ---- calls that run alone ------------------------------------------------------

  /** How far a get still has to go. */
  function Ahead(p: Phase): (n: nat)
  {
    match p
    case AtFlat => 5
    case AtFoyer => 4
    case AtObjects => 3
    case FillingFlat(_) => 2
    case Repairing(_) => 1
    case FillingFoyer(_) => 1
    case _ => 0
  }

  /** A get with no other step in between. */
  function Finished(w: World, s: State, id: nat, ok: bool, fault: bool): (r: State)
    requires id in s.readers
    decreases Ahead(s.readers[id].phase)
  {
    if Final(s.readers[id].phase) then s else Finished(w, Step(w, s, GetStep(id, ok, fault)), id, ok, fault)
  }

  /** The get `id` of block `h` is in this phase, and all else is as in `s`. */
  function Reading(s: State, id: nat, h: BlockHash, phase: Phase): (r: State)
  {
    s.(readers := s.readers[id := Reader(h, phase)])
  }

  lemma FinishFilled(w: World, s: State, id: nat, h: BlockHash, hand: seq<byte>, ok: bool, fault: bool)
    ensures Finished(w, Reading(s, id, h, FillingFoyer(hand)), id, ok, fault) == Reading(FoyerPut(w, s, h, hand), id, h, Hit(hand))
    ensures Finished(w, Reading(s, id, h, Repairing(hand)), id, ok, fault) == Reading(FlatPut(w, s, h, hand, ok), id, h, Hit(hand))
  {
    var filling, repairing := Reading(s, id, h, FillingFoyer(hand)), Reading(s, id, h, Repairing(hand));
    assert Step(w, filling, GetStep(id, ok, fault)) == Reading(FoyerPut(w, s, h, hand), id, h, Hit(hand));
    assert Step(w, repairing, GetStep(id, ok, fault)) == Reading(FlatPut(w, s, h, hand, ok), id, h, Hit(hand));
  }

  lemma FinishObjects(w: World, s: State, id: nat, h: BlockHash, ok: bool, fault: bool)
    ensures Finished(w, Reading(s, id, h, AtObjects), id, ok, fault) ==
            if fault then Reading(s, id, h, Fault)
            else if w.key(h) !in s.objects then Reading(s, id, h, Miss)
            else var bytes := w.decode(s.objects[w.key(h)]);
                 Reading(FoyerPut(w, FlatPut(w, s, h, bytes, ok), h, bytes), id, h, Hit(bytes))
  {
    var at := Reading(s, id, h, AtObjects);
    var next := Step(w, at, GetStep(id, ok, fault));
    if fault {
      assert next == Reading(s, id, h, Fault);
    } else if w.key(h) !in s.objects {
      assert next == Reading(s, id, h, Miss);
    } else {
      var bytes := w.decode(s.objects[w.key(h)]);
      assert next == Reading(s, id, h, FillingFlat(bytes));
      FinishFilling(w, s, id, h, bytes, ok, fault);
    }
  }

  lemma FinishFilling(w: World, s: State, id: nat, h: BlockHash, bytes: seq<byte>, ok: bool, fault: bool)
    ensures Finished(w, Reading(s, id, h, FillingFlat(bytes)), id, ok, fault) ==
            Reading(FoyerPut(w, FlatPut(w, s, h, bytes, ok), h, bytes), id, h, Hit(bytes))
  {
    var next := Step(w, Reading(s, id, h, FillingFlat(bytes)), GetStep(id, ok, fault));
    assert next == Reading(FlatPut(w, s, h, bytes, ok), id, h, FillingFoyer(bytes));
    FinishFilled(w, FlatPut(w, s, h, bytes, ok), id, h, bytes, ok, fault);
  }

  lemma FinishFoyer(w: World, s: State, id: nat, h: BlockHash, ok: bool, fault: bool)
    ensures Finished(w, Reading(s, id, h, AtFoyer), id, ok, fault) ==
            if w.key(h) in s.foyer then Finished(w, Reading(s, id, h, Repairing(s.foyer[w.key(h)])), id, ok, fault)
            else Finished(w, Reading(s, id, h, AtObjects), id, ok, fault)
  {
    var next := Step(w, Reading(s, id, h, AtFoyer), GetStep(id, ok, fault));
    assert next == Reading(s, id, h, if w.key(h) in s.foyer then Repairing(s.foyer[w.key(h)]) else AtObjects);
  }

  /** What a get does alone: flat, then foyer, then the object store, filling on the way what it passed. */
  lemma GetAlone(w: World, s: State, id: nat, h: BlockHash, ok: bool, fault: bool)
    requires id !in s.readers
    ensures var r := Finished(w, Step(w, s, GetBegin(id, h)), id, ok, fault);
            var flat, foyer, objects := s.flat, s.foyer, s.objects;
            var name, key := w.name(h), w.key(h);
            if name in flat then r == Reading(s, id, h, Hit(flat[name]))
            else if key in foyer then
              r == Reading(s, id, h, Hit(foyer[key])).(flat := if ok then flat[name := foyer[key]] else flat)
            else if fault then r == Reading(s, id, h, Fault)
            else if key !in objects then r == Reading(s, id, h, Miss)
            else
              var bytes := w.decode(objects[key]);
              r == Reading(s, id, h, Hit(bytes)).(flat := if ok then flat[name := bytes] else flat, foyer := foyer[key := bytes])
  {
    var at := Step(w, s, GetBegin(id, h));
    assert at == Reading(s, id, h, AtFlat);
    var next := Step(w, at, GetStep(id, ok, fault));
    if w.name(h) in s.flat {
      assert next == Reading(s, id, h, Hit(s.flat[w.name(h)]));
    } else {
      assert next == Reading(s, id, h, AtFoyer);
      PastFlat(w, s, id, h, ok, fault);
    }
  }

  lemma PastFlat(w: World, s: State, id: nat, h: BlockHash, ok: bool, fault: bool)
    ensures var r := Finished(w, Reading(s, id, h, AtFoyer), id, ok, fault);
            var flat, foyer, objects := s.flat, s.foyer, s.objects;
            var name, key := w.name(h), w.key(h);
            if key in foyer then
              r == Reading(s, id, h, Hit(foyer[key])).(flat := if ok then flat[name := foyer[key]] else flat)
            else if fault then r == Reading(s, id, h, Fault)
            else if key !in objects then r == Reading(s, id, h, Miss)
            else
              var bytes := w.decode(objects[key]);
              r == Reading(s, id, h, Hit(bytes)).(flat := if ok then flat[name := bytes] else flat, foyer := foyer[key := bytes])
  {
    FinishFoyer(w, s, id, h, ok, fault);
    if w.key(h) in s.foyer {
      FinishFilled(w, s, id, h, s.foyer[w.key(h)], ok, fault);
    } else {
      FinishObjects(w, s, id, h, ok, fault);
    }
  }

  lemma ExecFirst(w: World, s: State, a: Action, rest: seq<Action>)
    requires Enabled(w, s, a) && Runs(w, Step(w, s, a), rest)
    ensures Runs(w, s, [a] + rest) && Exec(w, s, [a] + rest) == Exec(w, Step(w, s, a), rest)
  {
    assert ([a] + rest)[1..] == rest;
  }

  /** The tier writes of a put, one after the other. */
  lemma PutAlone(w: World, s: State, h: BlockHash, ok: bool)
    requires w.encode(w.content(h)).Some?
    ensures Runs(w, s, [WriteFlat(h, ok), WriteFoyer(h), WriteObject(h)])
    ensures Exec(w, s, [WriteFlat(h, ok), WriteFoyer(h), WriteObject(h)]) ==
            s.(flat := if ok then s.flat[w.name(h) := w.content(h)] else s.flat,
               foyer := s.foyer[w.key(h) := w.content(h)],
               objects := s.objects[w.key(h) := w.encode(w.content(h)).value])
  {
    var s1 := Step(w, s, WriteFlat(h, ok));
    var s2 := Step(w, s1, WriteFoyer(h));
    ExecFirst(w, s2, WriteObject(h), []);
    ExecFirst(w, s1, WriteFoyer(h), [WriteObject(h)]);
    ExecFirst(w, s, WriteFlat(h, ok), [WriteFoyer(h), WriteObject(h)]);
    assert [WriteObject(h)] + [] == [WriteObject(h)] && [WriteFoyer(h)] + [WriteObject(h)] == [WriteFoyer(h), WriteObject(h)];
    assert [WriteFlat(h, ok)] + [WriteFoyer(h), WriteObject(h)] == [WriteFlat(h, ok), WriteFoyer(h), WriteObject(h)];
  }

  /** Removals, one after the other: each takes out its own entry. */
  lemma DropsAlone(w: World, s: State, file: seq<byte>, cacheKey: seq<byte>, objectKey: seq<byte>)
    ensures var drops := [DropFlat(file), DropFoyer(cacheKey), DeleteObject(objectKey)];
            && Runs(w, s, drops)
            && Exec(w, s, drops) ==
               s.(flat := s.flat - {file}, foyer := s.foyer - {cacheKey}, objects := s.objects - {objectKey})
  {
    var s1 := Step(w, s, DropFlat(file));
    var s2 := Step(w, s1, DropFoyer(cacheKey));
    ExecFirst(w, s2, DeleteObject(objectKey), []);
    ExecFirst(w, s1, DropFoyer(cacheKey), [DeleteObject(objectKey)]);
    ExecFirst(w, s, DropFlat(file), [DropFoyer(cacheKey), DeleteObject(objectKey)]);
    assert [DeleteObject(objectKey)] + [] == [DeleteObject(objectKey)];
    assert [DropFoyer(cacheKey)] + [DeleteObject(objectKey)] == [DropFoyer(cacheKey), DeleteObject(objectKey)];
    assert [DropFlat(file)] + [DropFoyer(cacheKey), DeleteObject(objectKey)]
        == [DropFlat(file), DropFoyer(cacheKey), DeleteObject(objectKey)];
  }

  /** Foyer after the listed blocks whose object is there were put into it, in order. */
  function RestoredFrom(w: World, objects: Tier, listed: seq<BlockHash>, start: Tier): (r: Tier)
  {
    if listed == [] then start
    else
      var key := w.key(listed[|listed| - 1]);
      var front := RestoredFrom(w, objects, listed[..|listed| - 1], start);
      if key in objects then front[key := w.decode(objects[key])] else front
  }

  /** Every listed object ends up in foyer decoded, and every other entry stays. */
  lemma {:induction false} RestoredHolds(w: World, objects: Tier, listed: seq<BlockHash>, start: Tier, key: seq<byte>)
    ensures var r := RestoredFrom(w, objects, listed, start);
            if key in objects && exists i :: 0 <= i < |listed| && w.key(listed[i]) == key
            then key in r && r[key] == w.decode(objects[key])
            else (key in r <==> key in start) && (key in r ==> r[key] == start[key])
  {
    if listed != [] {
      var n := |listed| - 1;
      RestoredHolds(w, objects, listed[..n], start, key);
      assert forall i :: 0 <= i < n ==> listed[..n][i] == listed[i];
    }
  }

  lemma {:induction false} RestoredFirst(w: World, objects: Tier, listed: seq<BlockHash>, start: Tier)
    requires listed != []
    ensures RestoredFrom(w, objects, listed, start) ==
            RestoredFrom(w, objects, listed[1..], RestoredFrom(w, objects, listed[..1], start))
  {
    var n := |listed| - 1;
    if n > 0 {
      RestoredFirst(w, objects, listed[..n], start);
      assert listed[..n][1..] == listed[1..][..n - 1] && listed[..n][..1] == listed[..1];
    } else {
      assert listed[..1] == listed;
    }
  }

  /** A restore with no other step in between. */
  function RestoreAll(w: World, s: State, id: nat): (r: State)
    requires id in s.restorers
    decreases |s.restorers[id].queue|, if s.restorers[id].hand.None? then 1 else 0
  {
    var r := s.restorers[id];
    if r.queue == [] then s
    else RestoreAll(w, Step(w, s, if r.hand.None? then RestoreFetch(id) else RestorePut(id)), id)
  }

  /** The first block of the queue: fetched and put, or passed over. */
  lemma RestoreOne(w: World, s: State, id: nat)
    requires id in s.restorers && s.restorers[id].hand.None? && s.restorers[id].queue != []
    ensures var queue := s.restorers[id].queue;
            var s' := s.(foyer := RestoredFrom(w, s.objects, queue[..1], s.foyer),
                         restorers := s.restorers[id := Restorer(queue[1..], None)]);
            RestoreAll(w, s, id) == RestoreAll(w, s', id)
  {
    var queue := s.restorers[id].queue;
    var key := w.key(queue[0]);
    assert queue[..1] == [queue[0]] && [queue[0]][..0] == [];
    assert RestoredFrom(w, s.objects, [], s.foyer) == s.foyer;
    var s1 := Step(w, s, RestoreFetch(id));
    if key in s.objects {
      var s2 := Step(w, s1, RestorePut(id));
      assert RestoreAll(w, s1, id) == RestoreAll(w, s2, id);
      assert s2.restorers == s.restorers[id := Restorer(queue[1..], None)];
    }
  }

  lemma {:induction false} RestoreRest(w: World, s: State, id: nat)
    requires id in s.restorers && s.restorers[id].hand.None?
    ensures RestoreAll(w, s, id) ==
            s.(foyer := RestoredFrom(w, s.objects, s.restorers[id].queue, s.foyer),
               restorers := s.restorers[id := Restorer([], None)])
    decreases |s.restorers[id].queue|
  {
    var queue := s.restorers[id].queue;
    if queue == [] {
      assert s.restorers[id := Restorer([], None)] == s.restorers;
    } else {
      var s' := s.(foyer := RestoredFrom(w, s.objects, queue[..1], s.foyer),
                   restorers := s.restorers[id := Restorer(queue[1..], None)]);
      RestoreOne(w, s, id);
      RestoreRest(w, s', id);
      RestoredFirst(w, s.objects, queue, s.foyer);
    }
  }

  lemma RestoreAlone(w: World, s: State, id: nat, listed: seq<BlockHash>)
    requires id !in s.restorers
    ensures RestoreAll(w, Step(w, s, RestoreBegin(id, listed)), id) ==
            s.(foyer := RestoredFrom(w, s.objects, listed, s.foyer), restorers := s.restorers[id := Restorer([], None)])
  {
    var s' := s.(restorers := s.restorers[id := Restorer(listed, None)]);
    assert Step(w, s, RestoreBegin(id, listed)) == s';
    RestoreRest(w, s', id);
    assert s'.restorers[id := Restorer([], None)] == s.restorers[id := Restorer([], None)];
  }

  // ---- the code's own names and codec satisfy the assumptions --------------------

  /** The decoder leaves the payload alone, or gives it back. */
  predicate Plain(z: Zstd, payload: seq<byte>) { !Opens(z, payload) || SelfOpening(z, payload) }

  function Stored(z: Zstd, cfg: BlockCompressionConfig, payload: seq<byte>): (r: Option<seq<byte>>)
  {
    var encoded := EncodeWithHeader(z, cfg, payload);
    if encoded.Ok? then Some(encoded.value) else None
  }

  function StoreWorld(s3Prefix: seq<byte>, namespace: seq<byte>, z: Zstd, cfg: BlockCompressionConfig, content: BlockHash -> seq<byte>)
    : (w: World)
  {
    World(content,
          (h: BlockHash) => FlatName(ObjectKey(s3Prefix, namespace, BlockKey(h))),
          (h: BlockHash) => ObjectKey(s3Prefix, namespace, BlockKey(h)),
          (p: seq<byte>) => Stored(z, cfg, p),
          (b: seq<byte>) => DecodeIfCompressed(z, b))
  }

  /**
   * The code's names and envelope meet the assumptions: with zstd for every choice of payloads,
   * with compression off exactly when no payload opens as an envelope.
   */
  lemma StoreWorldValidIff(
    s3Prefix: seq<byte>, namespace: seq<byte>, z: Zstd, cfg: BlockCompressionConfig, content: BlockHash -> seq<byte>)
    requires ValidUtf8(s3Prefix) && ValidUtf8(namespace) && z.Lossless()
    ensures StoreWorld(s3Prefix, namespace, z, cfg, content).Valid()
       <==> (cfg.algo == NoCompression ==> forall h {:trigger content(h)} :: Plain(z, content(h)))
  {
    var w := StoreWorld(s3Prefix, namespace, z, cfg, content);
    forall g, h | w.name(g) == w.name(h)
      ensures content(g) == content(h)
    {
      FlatNameInjective(s3Prefix, namespace, g, h);
    }
    forall g, h | w.key(g) == w.key(h)
      ensures content(g) == content(h)
    {
      ObjectKeyInjective(s3Prefix, namespace, g, h);
    }
    forall h: BlockHash
      ensures (w.encode(content(h)).Some? ==> w.decode(w.encode(content(h)).value) == content(h))
         <==> (cfg.algo == NoCompression ==> Plain(z, content(h)))
    {
      ReadsBackIff(z, cfg, content(h));
    }
  }

  /** Something is stored exactly when the payload encodes, and with compression off it is the payload. */
  lemma StoredIff(z: Zstd, cfg: BlockCompressionConfig, payload: seq<byte>, encoded: seq<byte>)
    ensures Stored(z, cfg, payload) == Some(encoded) <==> EncodeWithHeader(z, cfg, payload) == Ok(encoded)
    ensures cfg.algo == NoCompression ==> Stored(z, cfg, payload) == Some(payload)
  {
    EncodesIff(z, cfg, payload, encoded);
  }

  lemma ReadsBackIff(z: Zstd, cfg: BlockCompressionConfig, payload: seq<byte>)
    requires z.Lossless()
    ensures (Stored(z, cfg, payload).Some? ==> DecodeIfCompressed(z, Stored(z, cfg, payload).value) == payload)
       <==> (cfg.algo == NoCompression ==> Plain(z, payload))
  {
    match cfg.algo
    case NoCompression => RawReadsBackIff(z, payload);
    case ZstdCompression =>
      assert cfg == BlockCompressionConfig(ZstdCompression, cfg.level);
      ZstdReadsBack(z, cfg.level, payload);
    case Lz4Compression =>
  }

  // ---- one call at a time ----------------------------------------------------------

  datatype GetOutcome = Found(bytes: seq<byte>) | NotFound

  /** `EmbedError`: the payload does not encode, or the object store failed. */
  datatype EmbedError = InvalidConfig | ObjectStore

  /**
   * `WombatKVKvStore` with no concurrent caller. `flatOk` tells whether flat writes succeed and
   * `storeOk` whether the object store answers.
   */
  class WombatKVKvStore {
    const world: World
    const writeThrough: bool
    var flat: Tier
    var foyer: Tier
    var objects: Tier

    constructor (world: World, writeThrough: bool)
      ensures this.world == world && this.writeThrough == writeThrough
      ensures flat == map[] && foyer == map[] && objects == map[]
    {
      this.world, this.writeThrough := world, writeThrough;
      flat, foyer, objects := map[], map[], map[];
    }

    ghost predicate Good()
      reads this
    {
      world.Valid() && Consistent(world, flat, foyer, objects)
    }

    method PutFlat(hash: BlockHash, bytes: seq<byte>, flatOk: bool)
      modifies this`flat
      ensures flat == if flatOk then old(flat)[world.name(hash) := bytes] else old(flat)
    {
      if flatOk {
        flat := flat[world.name(hash) := bytes];
      }
    }

    /** `put_kv`: both caches first, then the object store; a lost object write is reported only in write-through mode. */
    method PutKv(hash: BlockHash, payload: seq<byte>, flatOk: bool, storeOk: bool) returns (r: Result<(), EmbedError>)
      modifies this
      ensures flat == if flatOk then old(flat)[world.name(hash) := payload] else old(flat)
      ensures foyer == old(foyer)[world.key(hash) := payload]
      ensures objects == if world.encode(payload).Some? && storeOk
                         then old(objects)[world.key(hash) := world.encode(payload).value] else old(objects)
      ensures r == if world.encode(payload).None? then Err(InvalidConfig)
                   else if writeThrough && !storeOk then Err(ObjectStore) else Ok(())
      ensures r.Ok? && writeThrough ==> world.key(hash) in objects
      ensures old(Good()) && payload == world.content(hash) ==> Good()
    {
      PutFlat(hash, payload, flatOk);
      foyer := foyer[world.key(hash) := payload];
      var onWire := world.encode(payload);
      if onWire.None? {
        r := Err(InvalidConfig);
      } else if storeOk {
        objects := objects[world.key(hash) := onWire.value];
        r := Ok(());
      } else {
        r := if writeThrough then Err(ObjectStore) else Ok(());
      }
      if old(Good()) && payload == world.content(hash) {
        var s := State(old(flat), old(foyer), old(objects), map[], map[]);
        FlatPutKeeps(world, s, hash, flatOk);
        var s1 := FlatPut(world, s, hash, payload, flatOk);
        FoyerPutKeeps(world, s1, hash);
        if onWire.Some? {
          ObjectPutKeeps(world, FoyerPut(world, s1, hash, payload), hash);
        }
      }
    }

    /** `get_kv`: flat, then foyer, then the object store, filling the tiers passed on the way. */
    method GetKv(hash: BlockHash, flatOk: bool, storeOk: bool) returns (r: Result<GetOutcome, EmbedError>)
      modifies this
      ensures objects == old(objects)
      ensures world.name(hash) in old(flat) ==>
                r == Ok(Found(old(flat)[world.name(hash)])) && flat == old(flat) && foyer == old(foyer)
      ensures world.name(hash) !in old(flat) && world.key(hash) in old(foyer) ==>
                && r == Ok(Found(old(foyer)[world.key(hash)])) && foyer == old(foyer)
                && flat == if flatOk then old(flat)[world.name(hash) := r.value.bytes] else old(flat)
      ensures world.name(hash) !in old(flat) && world.key(hash) !in old(foyer) ==>
                && (r == Err(ObjectStore) <==> !storeOk)
                && (r == Ok(NotFound) <==> storeOk && world.key(hash) !in objects)
                && (r.Err? || r.value.NotFound? ==> flat == old(flat) && foyer == old(foyer))
                && (r.Ok? && r.value.Found? ==>
                      && r.value.bytes == world.decode(objects[world.key(hash)])
                      && foyer == old(foyer)[world.key(hash) := r.value.bytes]
                      && flat == if flatOk then old(flat)[world.name(hash) := r.value.bytes] else old(flat))
      ensures old(Good()) ==> Good() && (r.Ok? && r.value.Found? ==> r.value.bytes == world.content(hash))
      ensures old(Good()) && storeOk && world.key(hash) in objects ==> r == Ok(Found(world.content(hash)))
    {
      ghost var s := State(flat, foyer, objects, map[], map[]);
      if world.name(hash) in flat {
        return Ok(Found(flat[world.name(hash)]));
      }
      if world.key(hash) in foyer {
        var bytes := foyer[world.key(hash)];
        PutFlat(hash, bytes, flatOk);
        if old(Good()) {
          FlatPutKeeps(world, s, hash, flatOk);
        }
        return Ok(Found(bytes));
      }
      if !storeOk {
        return Err(ObjectStore);
      }
      if world.key(hash) !in objects {
        return Ok(NotFound);
      }
      var bytes := world.decode(objects[world.key(hash)]);
      PutFlat(hash, bytes, flatOk);
      foyer := foyer[world.key(hash) := bytes];
      if old(Good()) {
        FlatPutKeeps(world, s, hash, flatOk);
        FoyerPutKeeps(world, FlatPut(world, s, hash, bytes, flatOk), hash);
      }
      return Ok(Found(bytes));
    }

    /** `delete_kv`: the flat file goes first, if it can be removed; foyer keeps what it has. */
    method DeleteKv(hash: BlockHash, removeOk: bool, storeOk: bool) returns (r: Result<bool, EmbedError>)
      modifies this
      ensures flat == (if removeOk then old(flat) - {world.name(hash)} else old(flat)) && foyer == old(foyer)
      ensures objects == if storeOk then old(objects) - {world.key(hash)} else old(objects)
      ensures r == if storeOk then Ok(world.key(hash) in old(objects)) else Err(ObjectStore)
      ensures old(Good()) ==> Good()
    {
      if removeOk {
        flat := flat - {world.name(hash)};
      }
      if !storeOk {
        return Err(ObjectStore);
      }
      r := Ok(world.key(hash) in objects);
      objects := objects - {world.key(hash)};
    }

    /** The first `n` listed blocks that the object store holds. */
    ghost function Present(listed: seq<BlockHash>, n: nat): (r: set<nat>)
      requires n <= |listed|
      reads this`objects
    {
      set i: nat | i < n && world.key(listed[i]) in objects
    }

    lemma PresentMore(listed: seq<BlockHash>, n: nat)
      requires n < |listed|
      ensures |Present(listed, n + 1)| == |Present(listed, n)| + if world.key(listed[n]) in objects then 1 else 0
    {
      assert Present(listed, n + 1) ==
             if world.key(listed[n]) in objects then Present(listed, n) + {n} else Present(listed, n);
    }

    /** `restore_from_s3` over the listed blocks; `answers(i)` is whether the object store answers the i-th GET. */
    method RestoreFromS3(listed: seq<BlockHash>, answers: nat -> bool) returns (r: Result<nat, EmbedError>, done: nat)
      modifies this`foyer
      ensures done <= |listed| && (forall i :: 0 <= i < done ==> answers(i))
      ensures if done < |listed| then r == Err(ObjectStore) && !answers(done) else r == Ok(|Present(listed, |listed|)|)
      ensures foyer == RestoredFrom(world, objects, listed[..done], old(foyer))
      ensures old(Good()) ==> Good()
    {
      var restored := 0;
      done := 0;
      while done < |listed|
        invariant done <= |listed| && forall i :: 0 <= i < done ==> answers(i)
        invariant foyer == RestoredFrom(world, objects, listed[..done], old(foyer)) && restored == |Present(listed, done)|
        invariant old(Good()) ==> Good()
      {
        if !answers(done) {
          return Err(ObjectStore), done;
        }
        assert listed[..done + 1][..done] == listed[..done];
        var key := world.key(listed[done]);
        PresentMore(listed, done);
        if key in objects {
          if old(Good()) {
            FoyerPutKeeps(world, State(flat, foyer, objects, map[], map[]), listed[done]);
          }
          foyer := foyer[key := world.decode(objects[key])];
          restored := restored + 1;
        }
        done := done + 1;
      }
      assert listed[..|listed|] == listed;
      r := Ok(restored);
    }
  }
}
