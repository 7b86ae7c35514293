/**
 Deterministic replay of delta facts (metadata.rs): sort by (epoch, seq, write id), keep the
 first fact of every logical key, and account for the rest.
 */
module DeltaReplay {
  import opened Bytes
  import opened Text
  import Tallies

  datatype LogicalKey = LogicalKey(tenantId: seq<byte>, fingerprint: seq<byte>, prefixHash: seq<byte>)

  datatype DeltaFact = DeltaFact(
    schemaVersion: nat, epochMs: nat, seqNo: nat, key: LogicalKey, payloadDigest: seq<byte>, writeId: seq<byte>)

  datatype DeltaConflictRow = DeltaConflictRow(
    key: LogicalKey,
    winnerPayloadDigest: seq<byte>, loserPayloadDigest: seq<byte>,
    winnerWriteId: seq<byte>, loserWriteId: seq<byte>,
    winnerEpochMs: nat, loserEpochMs: nat,
    winnerSeq: nat, loserSeq: nat)

  datatype DeltaReplayOutcome = DeltaReplayOutcome(
    winners: seq<DeltaFact>, idempotent: nat, conflict: nat, rows: seq<DeltaConflictRow>)

  // ---- the order -------------------------------------------------------

  /** The sort key of `f` comes strictly before that of `g`. */
  predicate Less(f: DeltaFact, g: DeltaFact)
  {
    f.epochMs < g.epochMs
    || (f.epochMs == g.epochMs && (f.seqNo < g.seqNo || (f.seqNo == g.seqNo && TextLess(f.writeId, g.writeId))))
  }

  lemma LessIsStrictWeak(f: DeltaFact, g: DeltaFact, h: DeltaFact)
    ensures !Less(f, f)
    ensures Less(f, g) && Less(g, h) ==> Less(f, h)
    ensures !Less(f, g) && !Less(g, h) ==> !Less(f, h)
    ensures !(Less(f, g) && Less(g, f))
  {
    TextIrreflexive(f.writeId);
    TextOrder(f.writeId, g.writeId, h.writeId);
    TextOrder(g.writeId, h.writeId, f.writeId);
    TextOrder(f.writeId, h.writeId, g.writeId);
  }

  predicate SameSortKey(f: DeltaFact, g: DeltaFact)
  {
    f.epochMs == g.epochMs && f.seqNo == g.seqNo && f.writeId == g.writeId
  }

  lemma NotLessEitherWay(f: DeltaFact, g: DeltaFact)
    requires !Less(f, g) && !Less(g, f)
    ensures SameSortKey(f, g)
  {
    TextOrder(f.writeId, g.writeId, f.writeId);
  }

  // ---- the stable sort -------------------------------------------------

  predicate Sorted(s: seq<DeltaFact>)
  {
    forall i, j :: 0 <= i < j < |s| ==> !Less(s[j], s[i])
  }

  /** Put `f` behind everything that is not greater: stable insertion. */
  function Insert(f: DeltaFact, s: seq<DeltaFact>): (r: seq<DeltaFact>)
  {
    if s == [] then [f]
    else if Less(f, s[0]) then [f] + s
    else [s[0]] + Insert(f, s[1..])
  }

  /** `ordered.sort_by` */
  function SortFacts(facts: seq<DeltaFact>): (r: seq<DeltaFact>)
  {
    if facts == [] then [] else Insert(facts[|facts| - 1], SortFacts(facts[..|facts| - 1]))
  }

  lemma {:induction false} InsertPermutes(f: DeltaFact, s: seq<DeltaFact>)
    ensures multiset(Insert(f, s)) == multiset(s) + multiset{f}
  {
    if s != [] && !Less(f, s[0]) {
      InsertPermutes(f, s[1..]);
      var t := Insert(f, s[1..]);
      assert multiset([s[0]] + t) == multiset{s[0]} + multiset(t);
      assert multiset(s) == multiset{s[0]} + multiset(s[1..]) by {
        assert s == [s[0]] + s[1..];
      }
    }
  }

  lemma {:induction false} InsertSorts(f: DeltaFact, s: seq<DeltaFact>)
    requires Sorted(s)
    ensures Sorted(Insert(f, s))
  {
    if s == [] {
    } else if Less(f, s[0]) {
      forall j | 0 <= j < |s|
        ensures !Less(s[j], f)
      {
        LessIsStrictWeak(s[j], s[0], f);
        LessIsStrictWeak(s[0], f, s[0]);
      }
    } else {
      InsertSorts(f, s[1..]);
      InsertPermutes(f, s[1..]);
      var t := Insert(f, s[1..]);
      forall j | 0 <= j < |t|
        ensures !Less(t[j], s[0])
      {
        assert t[j] in multiset(t);
        assert t[j] == f || t[j] in s[1..];
      }
    }
  }

  lemma {:induction false} SortsAndPermutes(facts: seq<DeltaFact>)
    ensures Sorted(SortFacts(facts))
    ensures multiset(SortFacts(facts)) == multiset(facts)
  {
    if facts != [] {
      var n := |facts| - 1;
      SortsAndPermutes(facts[..n]);
      InsertSorts(facts[n], SortFacts(facts[..n]));
      InsertPermutes(facts[n], SortFacts(facts[..n]));
      assert facts == facts[..n] + [facts[n]];
    }
  }

  // ---- the replay ------------------------------------------------------

  datatype Tally = Tally(winners: map<LogicalKey, DeltaFact>, idempotent: nat, conflict: nat, rows: seq<DeltaConflictRow>)

  function Row(winner: DeltaFact, loser: DeltaFact): (r: DeltaConflictRow)
  {
    DeltaConflictRow(loser.key, winner.payloadDigest, loser.payloadDigest, winner.writeId, loser.writeId,
                     winner.epochMs, loser.epochMs, winner.seqNo, loser.seqNo)
  }

  /** The loop body for one fact. */
  function Visit(t: Tally, f: DeltaFact): (r: Tally)
  {
    if f.key !in t.winners then t.(winners := t.winners[f.key := f])
    else if t.winners[f.key].payloadDigest == f.payloadDigest then t.(idempotent := t.idempotent + 1)
    else t.(conflict := t.conflict + 1, rows := t.rows + [Row(t.winners[f.key], f)])
  }

  function VisitAll(s: seq<DeltaFact>): (r: Tally)
  {
    if s == [] then Tally(map[], 0, 0, []) else Visit(VisitAll(s[..|s| - 1]), s[|s| - 1])
  }

  predicate KeyLess(a: LogicalKey, b: LogicalKey)
  {
    || TextLess(a.tenantId, b.tenantId)
    || (a.tenantId == b.tenantId
        && (TextLess(a.fingerprint, b.fingerprint)
            || (a.fingerprint == b.fingerprint && TextLess(a.prefixHash, b.prefixHash))))
  }

  lemma KeyOrder(a: LogicalKey, b: LogicalKey, c: LogicalKey)
    ensures !KeyLess(a, a)
    ensures KeyLess(a, b) && KeyLess(b, c) ==> KeyLess(a, c)
    ensures KeyLess(a, b) || KeyLess(b, a) || a == b
  {
    TextIrreflexive(a.tenantId);
    TextIrreflexive(a.fingerprint);
    TextIrreflexive(a.prefixHash);
    TextOrder(a.tenantId, b.tenantId, c.tenantId);
    TextOrder(a.fingerprint, b.fingerprint, c.fingerprint);
    TextOrder(a.prefixHash, b.prefixHash, c.prefixHash);
  }

  ghost predicate IsMinKey(k: LogicalKey, keys: set<LogicalKey>)
  {
    k in keys && forall j :: j in keys && j != k ==> KeyLess(k, j)
  }

  lemma {:induction false} MinKeyExists(keys: set<LogicalKey>)
    requires keys != {}
    ensures exists k :: IsMinKey(k, keys)
    decreases |keys|
  {
    var x :| x in keys;
    if keys == {x} {
      assert IsMinKey(x, keys);
    } else {
      var rest := keys - {x};
      assert rest != {};
      MinKeyExists(rest);
      var m :| IsMinKey(m, rest);
      KeyOrder(x, m, x);
      if KeyLess(x, m) {
        forall j | j in keys && j != x
          ensures KeyLess(x, j)
        {
          KeyOrder(x, m, j);
        }
        assert IsMinKey(x, keys);
      } else {
        assert IsMinKey(m, keys);
      }
    }
  }

  ghost function MinKey(keys: set<LogicalKey>): (k: LogicalKey)
    requires keys != {}
    ensures IsMinKey(k, keys)
  {
    MinKeyExists(keys);
    var k :| IsMinKey(k, keys);
    k
  }

  /** `BTreeMap::into_values`: the values in key order. */
  ghost function IntoValues(m: map<LogicalKey, DeltaFact>): (r: seq<DeltaFact>)
    ensures |r| == |m|
    decreases |m|
  {
    if m == map[] then []
    else
      var k := MinKey(m.Keys);
      assert (m - {k}).Keys == m.Keys - {k};
      [m[k]] + IntoValues(m - {k})
  }

  /** `replay_delta_facts_with_observability` */
  ghost function Replay(deltas: seq<DeltaFact>): (r: DeltaReplayOutcome)
  {
    var t := VisitAll(SortFacts(deltas));
    DeltaReplayOutcome(IntoValues(t.winners), t.idempotent, t.conflict, t.rows)
  }

  // ---- an independent reading: the leftmost least fact of a key ----------

  ghost function Combine(a: Option<DeltaFact>, b: Option<DeltaFact>): (r: Option<DeltaFact>)
  {
    if a.None? then b else if b.None? then a else if Less(b.value, a.value) then b else a
  }

  ghost function Single(k: LogicalKey, f: DeltaFact): (r: Option<DeltaFact>)
  {
    if f.key == k then Some(f) else None
  }

  /** The earliest among the least facts of key `k`. */
  ghost function Best(k: LogicalKey, facts: seq<DeltaFact>): (r: Option<DeltaFact>)
  {
    if facts == [] then None else Combine(Best(k, facts[..|facts| - 1]), Single(k, facts[|facts| - 1]))
  }

  /** What `Best` means. */
  lemma {:induction false} BestIsLeast(k: LogicalKey, facts: seq<DeltaFact>)
    ensures match Best(k, facts)
            case None => forall i :: 0 <= i < |facts| ==> facts[i].key != k
            case Some(f) =>
              && f in facts && f.key == k
              && forall i :: 0 <= i < |facts| && facts[i].key == k ==> !Less(facts[i], f)
  {
    if facts != [] {
      var n := |facts| - 1;
      BestIsLeast(k, facts[..n]);
      var a := Best(k, facts[..n]);
      if a.Some? && facts[n].key == k {
        forall i | 0 <= i < n && facts[i].key == k
          ensures Less(facts[n], a.value) ==> !Less(facts[i], facts[n])
        {
          assert facts[i] == facts[..n][i];
          LessIsStrictWeak(facts[i], facts[n], a.value);
        }
        LessIsStrictWeak(facts[n], facts[n], facts[n]);
      } else if facts[n].key == k {
        LessIsStrictWeak(facts[n], facts[n], facts[n]);
      }
      forall i | 0 <= i < n
        ensures facts[i] == facts[..n][i]
      {
      }
    }
  }

  lemma CombineAssociates(a: Option<DeltaFact>, b: Option<DeltaFact>, c: Option<DeltaFact>)
    ensures Combine(Combine(a, b), c) == Combine(a, Combine(b, c))
  {
    if a.Some? && b.Some? && c.Some? {
      LessIsStrictWeak(c.value, b.value, a.value);
      LessIsStrictWeak(a.value, b.value, c.value);
    }
  }

  lemma {:induction false} BestOfConcat(k: LogicalKey, a: seq<DeltaFact>, b: seq<DeltaFact>)
    ensures Best(k, a + b) == Combine(Best(k, a), Best(k, b))
    decreases |b|
  {
    if b == [] {
      assert a + b == a;
    } else {
      var n := |b| - 1;
      assert (a + b)[..|a + b| - 1] == a + b[..n];
      BestOfConcat(k, a, b[..n]);
      CombineAssociates(Best(k, a), Best(k, b[..n]), Single(k, b[n]));
    }
  }

  /** The first fact of key `k`. */
  ghost function First(k: LogicalKey, s: seq<DeltaFact>): (r: Option<DeltaFact>)
  {
    if s == [] then None else if s[0].key == k then Some(s[0]) else First(k, s[1..])
  }

  lemma {:induction false} FirstOfInsert(k: LogicalKey, f: DeltaFact, s: seq<DeltaFact>)
    requires Sorted(s)
    ensures First(k, Insert(f, s)) == Combine(First(k, s), Single(k, f))
  {
    if s != [] {
      if Less(f, s[0]) {
        FirstNotBelow(k, s);
        if First(k, s).Some? {
          LessIsStrictWeak(f, First(k, s).value, s[0]);
        }
        assert ([f] + s)[1..] == s;
      } else {
        FirstOfInsert(k, f, s[1..]);
        var t := Insert(f, s);
        assert t[0] == s[0] && t[1..] == Insert(f, s[1..]);
      }
    } else {
      assert Insert(f, s)[1..] == [];
    }
  }

  lemma {:induction false} FirstNotBelow(k: LogicalKey, s: seq<DeltaFact>)
    requires Sorted(s) && s != []
    ensures First(k, s).Some? ==> First(k, s).value in s && !Less(First(k, s).value, s[0])
  {
    LessIsStrictWeak(s[0], s[0], s[0]);
    if s[0].key != k && s[1..] != [] {
      FirstNotBelow(k, s[1..]);
      if First(k, s[1..]).Some? {
        var i :| 0 <= i < |s[1..]| && s[1..][i] == First(k, s[1..]).value;
        assert s[i + 1] == First(k, s).value;
      }
    }
  }

  /** The first fact of a key after sorting is the leftmost least one before it. */
  lemma {:induction false} FirstOfSorted(k: LogicalKey, facts: seq<DeltaFact>)
    ensures First(k, SortFacts(facts)) == Best(k, facts)
  {
    if facts != [] {
      var n := |facts| - 1;
      FirstOfSorted(k, facts[..n]);
      SortsAndPermutes(facts[..n]);
      FirstOfInsert(k, facts[n], SortFacts(facts[..n]));
    }
  }

  lemma {:induction false} FirstOfSnoc(k: LogicalKey, s: seq<DeltaFact>, f: DeltaFact)
    ensures First(k, s + [f]) == if First(k, s).Some? then First(k, s) else Single(k, f)
  {
    if s == [] {
      assert s + [f] == [f] && [f][1..] == [];
    } else {
      assert (s + [f])[1..] == s[1..] + [f];
      FirstOfSnoc(k, s[1..], f);
    }
  }

  lemma {:induction false} WinnersAreFirst(s: seq<DeltaFact>)
    ensures forall k {:trigger First(k, s)} :: First(k, s) == if k in VisitAll(s).winners then Some(VisitAll(s).winners[k]) else None
  {
    if s != [] {
      var n := |s| - 1;
      WinnersAreFirst(s[..n]);
      assert s == s[..n] + [s[n]];
      forall k
        ensures First(k, s) == if k in VisitAll(s).winners then Some(VisitAll(s).winners[k]) else None
      {
        FirstOfSnoc(k, s[..n], s[n]);
      }
    }
  }

  ghost function WinnerMap(deltas: seq<DeltaFact>): (m: map<LogicalKey, DeltaFact>)
  {
    VisitAll(SortFacts(deltas)).winners
  }

  /** Winners: exactly the keys that occur, each with its leftmost least fact. */
  lemma WinnersAreBest(deltas: seq<DeltaFact>, k: LogicalKey)
    ensures Best(k, deltas) == if k in WinnerMap(deltas) then Some(WinnerMap(deltas)[k]) else None
  {
    FirstOfSorted(k, deltas);
    WinnersAreFirst(SortFacts(deltas));
  }

  /** Every winner is a fact of the input, least in (epoch, seq, write id) for its key, and every key has one. */
  lemma EachWinnerIsLeast(deltas: seq<DeltaFact>, k: LogicalKey)
    ensures k in WinnerMap(deltas) <==> exists f :: f in deltas && f.key == k
    ensures k in WinnerMap(deltas) ==>
              var w := WinnerMap(deltas)[k];
              w in deltas && w.key == k && forall f :: f in deltas && f.key == k ==> !Less(f, w) && NotLater(w, f)
  {
    WinnersAreBest(deltas, k);
    BestIsLeast(k, deltas);
    forall f | f in deltas && f.key == k
      ensures k in WinnerMap(deltas) && !Less(f, WinnerMap(deltas)[k]) && NotLater(WinnerMap(deltas)[k], f)
    {
      var i :| 0 <= i < |deltas| && deltas[i] == f;
      TextOrder(f.writeId, WinnerMap(deltas)[k].writeId, f.writeId);
    }
  }

  /** A smaller epoch, or else a smaller sequence number, or else a write id that is not greater byte by byte. */
  predicate NotLater(w: DeltaFact, f: DeltaFact)
  {
    || w.epochMs < f.epochMs
    || (w.epochMs == f.epochMs && w.seqNo < f.seqNo)
    || (w.epochMs == f.epochMs && w.seqNo == f.seqNo && (w.writeId == f.writeId || TextLess(w.writeId, f.writeId)))
  }

  // ---- the compaction law ----------------------------------------------

  ghost predicate KeyedByOwnKey(m: map<LogicalKey, DeltaFact>)
  {
    forall k :: k in m ==> m[k].key == k
  }

  lemma {:induction false} BestOfValues(k: LogicalKey, m: map<LogicalKey, DeltaFact>)
    requires KeyedByOwnKey(m)
    ensures Best(k, IntoValues(m)) == if k in m then Some(m[k]) else None
    decreases |m|
  {
    if m != map[] {
      var j := MinKey(m.Keys);
      var rest := m - {j};
      assert rest.Keys == m.Keys - {j};
      BestOfValues(k, rest);
      BestOfConcat(k, [m[j]], IntoValues(rest));
      assert [m[j]][..0] == [];
      assert Best(k, [m[j]]) == Combine(Best(k, []), Single(k, m[j]));
    }
  }

  lemma MapsEqual(m: map<LogicalKey, DeltaFact>, n: map<LogicalKey, DeltaFact>)
    requires forall k :: (k in m <==> k in n) && (k in m ==> m[k] == n[k])
    ensures m == n
  {
  }

  lemma WinnersKeyed(deltas: seq<DeltaFact>)
    ensures KeyedByOwnKey(WinnerMap(deltas))
  {
    forall k | k in WinnerMap(deltas)
      ensures WinnerMap(deltas)[k].key == k
    {
      EachWinnerIsLeast(deltas, k);
    }
  }

  /** Winners come out in strictly increasing key order. */
  lemma {:induction false} ValuesInKeyOrder(m: map<LogicalKey, DeltaFact>)
    requires KeyedByOwnKey(m)
    ensures forall i :: 0 <= i < |IntoValues(m)| ==> IntoValues(m)[i].key in m && m[IntoValues(m)[i].key] == IntoValues(m)[i]
    ensures forall i, j :: 0 <= i < j < |IntoValues(m)| ==> KeyLess(IntoValues(m)[i].key, IntoValues(m)[j].key)
    decreases |m|
  {
    if m != map[] {
      var k := MinKey(m.Keys);
      assert (m - {k}).Keys == m.Keys - {k};
      ValuesInKeyOrder(m - {k});
    }
  }

  /** Tenant, then fingerprint, then prefix hash, each byte by byte. */
  predicate KeyBefore(a: LogicalKey, b: LogicalKey)
  {
    if a.tenantId != b.tenantId then TextLess(a.tenantId, b.tenantId)
    else if a.fingerprint != b.fingerprint then TextLess(a.fingerprint, b.fingerprint)
    else TextLess(a.prefixHash, b.prefixHash)
  }

  /** One fact of `facts` for each key that occurs, not later than any other of its key, in increasing order of keys. */
  ghost predicate AreWinners(ws: seq<DeltaFact>, facts: seq<DeltaFact>)
  {
    && (forall i {:trigger ws[i]} :: 0 <= i < |ws| ==> IsEarliest(ws[i], facts))
    && (forall f {:trigger HasKey(ws, f.key)} :: f in facts ==> HasKey(ws, f.key))
    && (forall i, j {:trigger ws[i], ws[j]} :: 0 <= i < j < |ws| ==> KeyBefore(ws[i].key, ws[j].key))
  }

  ghost predicate IsEarliest(w: DeltaFact, facts: seq<DeltaFact>)
  {
    w in facts && forall f :: f in facts && f.key == w.key ==> NotLater(w, f)
  }

  predicate HasKey(ws: seq<DeltaFact>, k: LogicalKey) { exists i {:trigger ws[i]} :: 0 <= i < |ws| && ws[i].key == k }

  lemma WinnersTell(deltas: seq<DeltaFact>)
    ensures AreWinners(Replay(deltas).winners, deltas)
  {
    var m := WinnerMap(deltas);
    var ws := IntoValues(m);
    WinnersKeyed(deltas);
    ValuesInKeyOrder(m);
    forall i | 0 <= i < |ws|
      ensures IsEarliest(ws[i], deltas)
    {
      EachWinnerIsLeast(deltas, ws[i].key);
    }
    forall f | f in deltas
      ensures HasKey(ws, f.key)
    {
      EachWinnerIsLeast(deltas, f.key);
      ValuesHold(m, f.key);
    }
    forall i, j | 0 <= i < j < |ws|
      ensures KeyBefore(ws[i].key, ws[j].key)
    {
      LessIsBefore(ws[i].key, ws[j].key);
    }
  }

  lemma LessIsBefore(a: LogicalKey, b: LogicalKey)
    requires KeyLess(a, b)
    ensures KeyBefore(a, b)
  {
    TextIrreflexive(a.tenantId);
    TextIrreflexive(a.fingerprint);
  }

  lemma {:induction false} ValuesHold(m: map<LogicalKey, DeltaFact>, k: LogicalKey)
    requires KeyedByOwnKey(m) && k in m
    ensures exists i {:trigger IntoValues(m)[i]} :: 0 <= i < |IntoValues(m)| && IntoValues(m)[i].key == k
    decreases |m|
  {
    var first := MinKey(m.Keys);
    assert (m - {first}).Keys == m.Keys - {first};
    if k == first {
      assert IntoValues(m)[0].key == k;
    } else {
      ValuesHold(m - {first}, k);
      var rest := IntoValues(m - {first});
      var i :| 0 <= i < |rest| && rest[i].key == k;
      assert IntoValues(m)[i + 1] == rest[i];
    }
  }

  /** Replaying the survivors of `a` before `b` is as good as replaying all of `a` before `b`. */
  lemma CompactionLaw(a: seq<DeltaFact>, b: seq<DeltaFact>)
    ensures Replay(a + b).winners == Replay(Replay(a).winners + b).winners
  {
    var compact := Replay(a).winners;
    var m := WinnerMap(a);
    WinnersKeyed(a);
    forall k
      ensures (k in WinnerMap(a + b) <==> k in WinnerMap(compact + b))
      ensures k in WinnerMap(a + b) ==> WinnerMap(a + b)[k] == WinnerMap(compact + b)[k]
    {
      WinnersAreBest(a + b, k);
      WinnersAreBest(compact + b, k);
      BestOfConcat(k, a, b);
      BestOfConcat(k, compact, b);
      BestOfValues(k, m);
      WinnersAreBest(a, k);
    }
    MapsEqual(WinnerMap(a + b), WinnerMap(compact + b));
  }

  // ---- conservation and conflicts --------------------------------------

  lemma {:induction false} VisitsCount(s: seq<DeltaFact>)
    ensures var t := VisitAll(s);
            |t.winners| + t.idempotent + t.conflict == |s| && |t.rows| == t.conflict
  {
    if s != [] {
      VisitsCount(s[..|s| - 1]);
    }
  }

  /** Every fact is a winner, an idempotent duplicate or a conflict loser. */
  lemma NothingIsLost(deltas: seq<DeltaFact>)
    ensures var r := Replay(deltas);
            |r.winners| + r.idempotent + r.conflict == |deltas| && |r.rows| == r.conflict
  {
    VisitsCount(SortFacts(deltas));
    SortsAndPermutes(deltas);
    assert |multiset(SortFacts(deltas))| == |multiset(deltas)|;
  }

  /** 1 for a fact that carries another digest than the winner of its key in `m`. */
  ghost function LosesTo(m: map<LogicalKey, DeltaFact>): (f: DeltaFact -> nat)
  {
    (f: DeltaFact) => if f.key in m && m[f.key].payloadDigest != f.payloadDigest then 1 else 0
  }

  ghost function Losers(s: seq<DeltaFact>, m: map<LogicalKey, DeltaFact>): (n: nat)
  {
    Tallies.Tally(s, LosesTo(m))
  }

  lemma {:induction false} ConflictsAreLosers(s: seq<DeltaFact>, m: map<LogicalKey, DeltaFact>)
    requires forall k :: k in VisitAll(s).winners ==> k in m && m[k] == VisitAll(s).winners[k]
    ensures VisitAll(s).conflict == Losers(s, m)
  {
    if s != [] {
      ConflictsAreLosers(s[..|s| - 1], m);
    }
  }

  /** The conflict count does not depend on the replay: it counts the facts that disagree with their key's winner. */
  lemma ConflictsCounted(deltas: seq<DeltaFact>)
    ensures Replay(deltas).conflict == Losers(deltas, WinnerMap(deltas))
  {
    var s := SortFacts(deltas);
    SortsAndPermutes(deltas);
    ConflictsAreLosers(s, WinnerMap(deltas));
    Tallies.TallyOrderless(s, deltas, LosesTo(WinnerMap(deltas)));
  }

  /** A row reports the winner of its key and a fact of the input that disagrees with it. */
  ghost predicate RowTells(row: DeltaConflictRow, m: map<LogicalKey, DeltaFact>, facts: seq<DeltaFact>)
  {
    && row.key in m
    && row.winnerPayloadDigest == m[row.key].payloadDigest && row.winnerWriteId == m[row.key].writeId
    && row.winnerEpochMs == m[row.key].epochMs && row.winnerSeq == m[row.key].seqNo
    && row.loserPayloadDigest != row.winnerPayloadDigest
    && exists f :: f in facts && f.key == row.key && f.payloadDigest == row.loserPayloadDigest
                   && f.writeId == row.loserWriteId && f.epochMs == row.loserEpochMs && f.seqNo == row.loserSeq
  }

  lemma {:induction false} RowsTellOf(s: seq<DeltaFact>, m: map<LogicalKey, DeltaFact>)
    requires forall k :: k in VisitAll(s).winners ==> k in m && m[k] == VisitAll(s).winners[k]
    ensures forall i :: 0 <= i < |VisitAll(s).rows| ==> RowTells(VisitAll(s).rows[i], m, s)
  {
    if s != [] {
      var n := |s| - 1;
      RowsTellOf(s[..n], m);
      var rows := VisitAll(s).rows;
      forall i | 0 <= i < |rows|
        ensures RowTells(rows[i], m, s)
      {
        if i < |VisitAll(s[..n]).rows| {
          assert RowTells(VisitAll(s[..n]).rows[i], m, s[..n]);
        } else {
          assert s[n] in s;
        }
      }
    }
  }

  lemma RowsTell(deltas: seq<DeltaFact>)
    ensures forall i :: 0 <= i < |Replay(deltas).rows| ==> RowTells(Replay(deltas).rows[i], WinnerMap(deltas), deltas)
  {
    var s := SortFacts(deltas);
    SortsAndPermutes(deltas);
    RowsTellOf(s, WinnerMap(deltas));
    forall f | f in s
      ensures f in deltas
    {
      assert f in multiset(s);
    }
    forall i | 0 <= i < |VisitAll(s).rows|
      ensures RowTells(VisitAll(s).rows[i], WinnerMap(deltas), deltas)
    {
      assert RowTells(VisitAll(s).rows[i], WinnerMap(deltas), s);
    }
  }

  // ---- order independence ----------------------------------------------

  /** No two distinct facts share their sort key. */
  ghost predicate DistinctSortKeys(facts: seq<DeltaFact>)
  {
    forall f, g :: f in facts && g in facts && SameSortKey(f, g) ==> f == g
  }

  lemma SameHead(s: seq<DeltaFact>, t: seq<DeltaFact>)
    requires s != [] && t != []
    requires Sorted(s) && Sorted(t) && multiset(s) == multiset(t) && DistinctSortKeys(s)
    ensures s[0] == t[0]
  {
    assert s[0] in multiset(t) && t[0] in multiset(s);
    var i :| 0 <= i < |t| && t[i] == s[0];
    var j :| 0 <= j < |s| && s[j] == t[0];
    LessIsStrictWeak(s[0], s[0], s[0]);
    LessIsStrictWeak(t[0], t[0], t[0]);
    NotLessEitherWay(s[0], t[0]);
  }

  lemma {:induction false} SortedIsUnique(s: seq<DeltaFact>, t: seq<DeltaFact>)
    requires Sorted(s) && Sorted(t) && multiset(s) == multiset(t) && DistinctSortKeys(s)
    ensures s == t
    decreases |s|
  {
    assert |multiset(s)| == |multiset(t)|;
    if s != [] {
      SameHead(s, t);
      RemoveFirst(s);
      RemoveFirst(t);
      SortedIsUnique(s[1..], t[1..]);
      assert s == [s[0]] + s[1..] && t == [t[0]] + t[1..];
    }
  }

  /** The whole outcome, rows included, is the same for every order of the input. */
  lemma OrderDoesNotMatter(a: seq<DeltaFact>, b: seq<DeltaFact>)
    requires multiset(a) == multiset(b) && DistinctSortKeys(a)
    ensures Replay(a) == Replay(b)
  {
    var s := SortFacts(a);
    SortsAndPermutes(a);
    SortsAndPermutes(b);
    forall f | f in s
      ensures f in a
    {
      assert f in multiset(s);
    }
    SortedIsUnique(s, SortFacts(b));
  }

  /**
   The condition is needed: two facts of one logical key that share their sort key and
   differ are decided by whoever stands first in the input.
   */
  lemma TiesDependOnOrder(f: DeltaFact, g: DeltaFact)
    requires f.key == g.key && SameSortKey(f, g) && f != g
    ensures multiset([f, g]) == multiset([g, f]) && Replay([f, g]).winners != Replay([g, f]).winners
  {
    FirstOfPairWins(f, g);
    FirstOfPairWins(g, f);
  }

  lemma FirstOfPairWins(f: DeltaFact, g: DeltaFact)
    requires f.key == g.key && SameSortKey(f, g)
    ensures Best(f.key, Replay([f, g]).winners) == Some(f)
  {
    BestOfPair(f, g);
    WinnersAreBest([f, g], f.key);
    WinnersKeyed([f, g]);
    BestOfValues(f.key, WinnerMap([f, g]));
  }

  lemma BestOfPair(f: DeltaFact, g: DeltaFact)
    requires f.key == g.key && SameSortKey(f, g)
    ensures Best(f.key, [f, g]) == Some(f)
  {
    LessIsStrictWeak(f, f, f);
    assert [f, g][..1] == [f] && [f][..0] == [];
    assert Best(f.key, [f]) == Some(f);
  }

  // ---- the loop --------------------------------------------------------

  /** The source's loop: sort, then one pass over a winners map, two counters and the conflict rows. */
  method ReplayDeltaFacts(deltas: seq<DeltaFact>)
    returns (winners: map<LogicalKey, DeltaFact>, idempotent: nat, conflict: nat, rows: seq<DeltaConflictRow>)
    ensures DeltaReplayOutcome(IntoValues(winners), idempotent, conflict, rows) == Replay(deltas)
    ensures |winners| + idempotent + conflict == |deltas|
  {
    NothingIsLost(deltas);
    var ordered := SortFacts(deltas);
    winners, idempotent, conflict, rows := map[], 0, 0, [];
    for i := 0 to |ordered|
      invariant Tally(winners, idempotent, conflict, rows) == VisitAll(ordered[..i])
    {
      var delta := ordered[i];
      assert ordered[..i + 1][..i] == ordered[..i];
      if delta.key !in winners {
        winners := winners[delta.key := delta];
      } else {
        var winner := winners[delta.key];
        if winner.payloadDigest == delta.payloadDigest {
          idempotent := idempotent + 1;
        } else {
          conflict := conflict + 1;
          rows := rows + [Row(winner, delta)];
        }
      }
    }
    assert ordered[..|ordered|] == ordered;
  }
}
