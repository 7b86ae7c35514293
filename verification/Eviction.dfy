/**
 One LRU eviction cycle (lru.rs `run_cycle`). The index is shared: between two iterations of the
 cycle's loop other threads may do anything to it. `Env(i, m)` is what they leave of `m` just
 before visit `i`; the cycle is studied for every such function, and then for the identity.
 */
module Eviction {
  import opened Bytes
  import opened Text
  import opened BlockIndex
  import opened Tallies

  /** `HEADROOM_FRAC`, in hundredths. */
  const HEADROOM_PERCENT: nat := 10

  type Env = (nat, Index) -> Index

  datatype EvictionCycleOutcome = EvictionCycleOutcome(
    scanned: nat, totalBytesBefore: nat, overBudget: bool, blocksFreed: nat, bytesFreed: nat,
    skippedChanged: nat, deleteFailures: nat)

  // ---- bytes -------------------------------------------------------------

  function PayloadBytes(): (f: Entry -> nat) { (e: Entry) => e.1.payloadBytes }

  function SumBytes(s: seq<Entry>): (n: nat) { Tally(s, PayloadBytes()) }

  /** The bytes an index accounts for, in no particular order. */
  ghost function TotalBytes(m: Index): (n: nat)
    decreases |m|
  {
    if m == map[] then 0
    else
      var h :| h in m;
      assert |m - {h}| < |m| by { ShrinksBy(m, h); }
      m[h].payloadBytes + TotalBytes(m - {h})
  }

  lemma ShrinksBy(m: Index, h: BlockHash)
    requires h in m
    ensures |m - {h}| < |m|
  {
    assert (m - {h}).Keys == m.Keys - {h};
    assert |m - {h}| == |(m - {h}).Keys| && |m| == |m.Keys|;
  }

  lemma {:induction false} TotalWithout(m: Index, h: BlockHash)
    requires h in m
    ensures TotalBytes(m) == m[h].payloadBytes + TotalBytes(m - {h})
    decreases |m|
  {
    var g :| g in m && TotalBytes(m) == m[g].payloadBytes + TotalBytes(m - {g});
    if g != h {
      ShrinksBy(m, g);
      ShrinksBy(m, h);
      TotalWithout(m - {g}, h);
      TotalWithout(m - {h}, g);
      assert m - {g} - {h} == m - {h} - {g};
    }
  }

  /** Distinct hashes, each entry as the index holds it. */
  predicate Drawn(m: Index, s: seq<Entry>)
  {
    && (forall i {:trigger Held(m, m.Keys, s[i])} :: 0 <= i < |s| ==> Held(m, m.Keys, s[i]))
    && (forall i, j {:trigger s[i].0, s[j].0} :: 0 <= i < j < |s| ==> s[i].0 != s[j].0)
  }

  ghost function Hashes(s: seq<Entry>): (r: set<BlockHash>)
  {
    set i | 0 <= i < |s| :: s[i].0
  }

  /** Taking drawn entries out of an index takes exactly their bytes out. */
  lemma {:induction false} DrawnBytes(m: Index, s: seq<Entry>)
    requires Drawn(m, s)
    ensures TotalBytes(m) == SumBytes(s) + TotalBytes(m - Hashes(s))
  {
    if s == [] {
      assert m - Hashes(s) == m;
    } else {
      var n := |s| - 1;
      var front := s[..n];
      DrawnPrefix(m, s, n);
      DrawnBytes(m, front);
      var rest := m - Hashes(front);
      assert Held(m, m.Keys, s[n]);
      assert s[n].0 in rest && rest[s[n].0] == s[n].1;
      TotalWithout(rest, s[n].0);
      assert Hashes(s) == Hashes(front) + {s[n].0};
      assert rest - {s[n].0} == m - Hashes(s);
    }
  }

  // ---- the stable sort by stamp --------------------------------------------

  function Stamp(e: Entry): (n: nat) { e.1.lastAccessNs }

  predicate OldestFirst(s: seq<Entry>)
  {
    forall i, j {:trigger Stamp(s[i]), Stamp(s[j])} :: 0 <= i < j < |s| ==> Stamp(s[i]) <= Stamp(s[j])
  }

  /** Put `e` behind every entry that is not younger. */
  function InsertByStamp(e: Entry, s: seq<Entry>): (r: seq<Entry>)
  {
    if s == [] || Stamp(s[|s| - 1]) <= Stamp(e) then s + [e]
    else InsertByStamp(e, s[..|s| - 1]) + [s[|s| - 1]]
  }

  /** `sort_by_key(last_access_ns)` */
  function SortByStamp(s: seq<Entry>): (r: seq<Entry>)
  {
    if s == [] then [] else InsertByStamp(s[|s| - 1], SortByStamp(s[..|s| - 1]))
  }

  lemma {:induction false} InsertsOne(e: Entry, s: seq<Entry>)
    ensures multiset(InsertByStamp(e, s)) == multiset(s) + multiset{e}
  {
    if s != [] {
      var n := |s| - 1;
      assert s == s[..n] + [s[n]];
      if Stamp(e) < Stamp(s[n]) {
        InsertsOne(e, s[..n]);
      }
    }
  }

  lemma {:induction false} InsertKeepsOrder(e: Entry, s: seq<Entry>)
    requires OldestFirst(s)
    ensures OldestFirst(InsertByStamp(e, s))
  {
    if s != [] && Stamp(e) < Stamp(s[|s| - 1]) {
      var n := |s| - 1;
      var front, last := s[..n], s[n];
      InsertKeepsOrder(e, front);
      InsertsBelow(e, front, Stamp(last));
      YoungestLast(InsertByStamp(e, front), last);
    } else {
      YoungestLast(s, e);
    }
  }

  predicate AtMost(s: seq<Entry>, stamp: nat) { forall i {:trigger s[i]} :: 0 <= i < |s| ==> Stamp(s[i]) <= stamp }

  lemma {:induction false} InsertsBelow(e: Entry, s: seq<Entry>, stamp: nat)
    requires AtMost(s, stamp) && Stamp(e) <= stamp
    ensures AtMost(InsertByStamp(e, s), stamp)
  {
    if s != [] && Stamp(e) < Stamp(s[|s| - 1]) {
      InsertsBelow(e, s[..|s| - 1], stamp);
    }
  }

  lemma YoungestLast(s: seq<Entry>, e: Entry)
    requires OldestFirst(s) && (s != [] ==> AtMost(s, Stamp(e)) || Stamp(s[|s| - 1]) <= Stamp(e))
    ensures OldestFirst(s + [e])
  {
    var t := s + [e];
    forall i, j | 0 <= i < j < |t|
      ensures Stamp(t[i]) <= Stamp(t[j])
    {
      assert t[i] == s[i];
      if j < |s| {
        assert t[j] == s[j];
      }
    }
  }

  lemma {:induction false} SortsByStamp(s: seq<Entry>)
    ensures OldestFirst(SortByStamp(s))
    ensures multiset(SortByStamp(s)) == multiset(s)
  {
    if s != [] {
      var n := |s| - 1;
      SortsByStamp(s[..n]);
      SortedMore(s[..n], SortByStamp(s[..n]), s[n]);
      assert s == s[..n] + [s[n]];
    }
  }

  lemma SortedMore(s: seq<Entry>, sorted: seq<Entry>, e: Entry)
    requires OldestFirst(sorted) && multiset(sorted) == multiset(s)
    ensures OldestFirst(InsertByStamp(e, sorted)) && multiset(InsertByStamp(e, sorted)) == multiset(s + [e])
  {
    InsertKeepsOrder(e, sorted);
    InsertsOne(e, sorted);
  }

  /** `e` comes first: older, or as old with the smaller hash. */
  predicate Before(e: Entry, f: Entry)
  {
    Stamp(e) < Stamp(f) || (Stamp(e) == Stamp(f) && TextLess(e.0, f.0))
  }

  predicate Ranked(s: seq<Entry>)
  {
    forall i, j {:trigger Before(s[i], s[j])} :: 0 <= i < j < |s| ==> Before(s[i], s[j])
  }

  lemma {:induction false} InsertKeepsRank(e: Entry, s: seq<Entry>)
    requires Ranked(s) && forall k {:trigger TextLess(s[k].0, e.0)} :: 0 <= k < |s| ==> TextLess(s[k].0, e.0)
    ensures Ranked(InsertByStamp(e, s))
  {
    var r := InsertByStamp(e, s);
    if s == [] || Stamp(s[|s| - 1]) <= Stamp(e) {
      forall i, j | 0 <= i < j < |r|
        ensures Before(r[i], r[j])
      {
        assert TextLess(s[i].0, e.0);
        assert i < |s| - 1 ==> Before(s[i], s[|s| - 1]);
        assert j < |s| ==> Before(s[i], s[j]);
      }
    } else {
      var n := |s| - 1;
      forall i, j | 0 <= i < j < n
        ensures Before(s[..n][i], s[..n][j])
      {
        assert Before(s[i], s[j]);
      }
      forall k | 0 <= k < n
        ensures TextLess(s[..n][k].0, e.0)
      {
        assert TextLess(s[k].0, e.0);
      }
      InsertKeepsRank(e, s[..n]);
      InsertsOne(e, s[..n]);
      var t := InsertByStamp(e, s[..n]);
      forall i, j | 0 <= i < j < |r|
        ensures Before(r[i], r[j])
      {
        if j < |t| {
          assert Before(t[i], t[j]);
        } else {
          assert t[i] in multiset(t);
          if t[i] != e {
            var k :| 0 <= k < n && s[k] == t[i];
            assert Before(s[k], s[n]);
          }
        }
      }
    }
  }

  /** The sort is stable: entries of one stamp stay in hash order, so the eviction order is total. */
  lemma {:induction false} SortsStably(s: seq<Entry>)
    requires Ascending(s)
    ensures Ranked(SortByStamp(s))
  {
    if s != [] {
      var n := |s| - 1;
      var front := SortByStamp(s[..n]);
      forall i, j | 0 <= i < j < n
        ensures TextLess(s[..n][i].0, s[..n][j].0)
      {
        assert TextLess(s[i].0, s[j].0);
      }
      SortsStably(s[..n]);
      SortsByStamp(s[..n]);
      forall k | 0 <= k < |front|
        ensures TextLess(front[k].0, s[n].0)
      {
        assert front[k] in multiset(front);
        var i :| 0 <= i < n && s[i] == front[k];
        assert TextLess(s[i].0, s[n].0);
      }
      InsertKeepsRank(s[n], front);
    }
  }

  /** A snapshot, reordered, still lists every entry of the index exactly once. */
  lemma SortedSnapshot(m: Index, snapshot: seq<Entry>, sorted: seq<Entry>)
    requires IsSnapshot(m, snapshot) && multiset(sorted) == multiset(snapshot)
    ensures Drawn(m, sorted) && Hashes(sorted) == m.Keys && |sorted| == |snapshot|
  {
    assert |multiset(sorted)| == |multiset(snapshot)|;
    forall i | 0 <= i < |sorted|
      ensures Held(m, m.Keys, sorted[i]) && sorted[i].0 in m.Keys
    {
      assert sorted[i] in multiset(snapshot);
      var k :| 0 <= k < |snapshot| && snapshot[k] == sorted[i];
      assert Held(m, m.Keys, snapshot[k]);
    }
    forall i, j | 0 <= i < j < |sorted|
      ensures sorted[i].0 != sorted[j].0
    {
      if sorted[i].0 == sorted[j].0 {
        assert Held(m, m.Keys, sorted[i]) && Held(m, m.Keys, sorted[j]);
        TwiceInSeq(sorted, i, j);
        OnceInSnapshot(snapshot, sorted[i]);
      }
    }
    forall h | h in m
      ensures h in Hashes(sorted)
    {
      assert Listed(snapshot, h);
      var i :| 0 <= i < |snapshot| && snapshot[i].0 == h;
      assert snapshot[i] in multiset(sorted);
    }
  }

  lemma OnceInSnapshot(snapshot: seq<Entry>, e: Entry)
    requires Ascending(snapshot)
    ensures multiset(snapshot)[e] <= 1
  {
    if e in snapshot {
      var k :| 0 <= k < |snapshot| && snapshot[k] == e;
      assert snapshot == snapshot[..k] + [e] + snapshot[k + 1..];
      forall l | 0 <= l < |snapshot| && l != k
        ensures snapshot[l] != e
      {
        AscendingIsDistinct(snapshot, k, l);
      }
      assert e !in snapshot[..k] && e !in snapshot[k + 1..];
    }
  }

  lemma TwiceInSeq(s: seq<Entry>, i: nat, j: nat)
    requires i < j < |s| && s[i] == s[j]
    ensures multiset(s)[s[i]] >= 2
  {
    var e := s[i];
    assert s == s[..i] + [e] + s[i + 1..];
    assert s[i + 1..][j - i - 1] == e;
    assert e in multiset(s[i + 1..]);
  }

  // ---- the walk ------------------------------------------------------------

  /** Where the loop stands: the index, the entries freed, and what each visit saw. */
  datatype Walk = Walk(index: Index, freed: seq<Entry>, deleteFailures: nat, views: seq<Index>)

  /** One iteration: others move, then compare-and-delete, then the object delete. */
  function Visit(w: Walk, e: Entry, env: Env, deleted: nat -> bool): (r: Walk)
  {
    var i := |w.views|;
    var view := env(i, w.index);
    var w' := w.(index := RemovedIfUnchanged(view, e.0, Stamp(e)), views := w.views + [view]);
    if !Unchanged(view, e.0, Stamp(e)) then w'
    else w'.(freed := w.freed + [e], deleteFailures := w.deleteFailures + if deleted(i) then 0 else 1)
  }

  /** The loop from visit `|w.views|` on. */
  function Run(w: Walk, sorted: seq<Entry>, need: nat, env: Env, deleted: nat -> bool): (r: Walk)
    decreases |sorted| - |w.views|
  {
    if |w.views| >= |sorted| || SumBytes(w.freed) >= need then w
    else Run(Visit(w, sorted[|w.views|], env, deleted), sorted, need, env, deleted)
  }

  function Begin(m: Index): (w: Walk) { Walk(m, [], 0, []) }

  /** The visited entries that were unchanged when visited, in order. */
  function Surviving(sorted: seq<Entry>, views: seq<Index>): (r: seq<Entry>)
    requires |views| <= |sorted|
  {
    if views == [] then []
    else
      var n := |views| - 1;
      var front := Surviving(sorted, views[..n]);
      if Unchanged(views[n], sorted[n].0, Stamp(sorted[n])) then front + [sorted[n]] else front
  }

  /** Each visit found what the others made of what the visit before it left. */
  predicate Chained(m: Index, sorted: seq<Entry>, env: Env, views: seq<Index>)
    requires |views| <= |sorted|
  {
    forall k {:trigger views[k]} :: 0 <= k < |views| ==> views[k] == env(k, LeftBy(m, sorted, views, k))
  }

  /** The index as visit `k - 1` left it. */
  function LeftBy(m: Index, sorted: seq<Entry>, views: seq<Index>, k: nat): (r: Index)
    requires k <= |views| <= |sorted|
  {
    if k == 0 then m else RemovedIfUnchanged(views[k - 1], sorted[k - 1].0, Stamp(sorted[k - 1]))
  }

  /** The visits that freed their entry while the object delete failed. */
  ghost function Orphaning(sorted: seq<Entry>, views: seq<Index>, deleted: nat -> bool): (r: set<nat>)
    requires |views| <= |sorted|
  {
    set k: nat | k < |views| && Unchanged(views[k], sorted[k].0, Stamp(sorted[k])) && !deleted(k)
  }

  predicate Sound(w: Walk, m: Index, sorted: seq<Entry>, env: Env)
  {
    && |w.views| <= |sorted|
    && Chained(m, sorted, env, w.views)
    && w.index == LeftBy(m, sorted, w.views, |w.views|)
    && w.freed == Surviving(sorted, w.views)
    && |w.freed| <= |w.views|
  }

  lemma OrphaningMore(sorted: seq<Entry>, views: seq<Index>, view: Index, deleted: nat -> bool)
    requires |views| < |sorted|
    ensures var n, e := |views|, sorted[|views|];
            |Orphaning(sorted, views + [view], deleted)| ==
            |Orphaning(sorted, views, deleted)| + if Unchanged(view, e.0, Stamp(e)) && !deleted(n) then 1 else 0
  {
    var n, e, more := |views|, sorted[|views|], views + [view];
    var before := Orphaning(sorted, views, deleted);
    assert forall k :: 0 <= k < n ==> more[k] == views[k];
    assert Orphaning(sorted, more, deleted) == if Unchanged(view, e.0, Stamp(e)) && !deleted(n) then before + {n} else before;
  }

  lemma VisitSound(w: Walk, m: Index, sorted: seq<Entry>, env: Env, deleted: nat -> bool)
    requires Sound(w, m, sorted, env) && |w.views| < |sorted|
    ensures Sound(Visit(w, sorted[|w.views|], env, deleted), m, sorted, env)
  {
    var n := |w.views|;
    var view := env(n, w.index);
    var w' := Visit(w, sorted[n], env, deleted);
    assert w'.views == w.views + [view];
    ChainedMore(m, sorted, env, w.views, view);
    SurvivingMore(sorted, w.views, view);
  }

  lemma SurvivingMore(sorted: seq<Entry>, views: seq<Index>, view: Index)
    requires |views| < |sorted|
    ensures var e := sorted[|views|];
            Surviving(sorted, views + [view]) == Surviving(sorted, views) + if Unchanged(view, e.0, Stamp(e)) then [e] else []
  {
    assert (views + [view])[..|views|] == views;
  }

  lemma ChainedMore(m: Index, sorted: seq<Entry>, env: Env, views: seq<Index>, view: Index)
    requires |views| < |sorted| && Chained(m, sorted, env, views)
    requires view == env(|views|, LeftBy(m, sorted, views, |views|))
    ensures Chained(m, sorted, env, views + [view])
  {
    var more := views + [view];
    forall k | 0 <= k < |more|
      ensures more[k] == env(k, LeftBy(m, sorted, more, k))
    {
      assert more[k] == if k < |views| then views[k] else view;
      if k > 0 {
        assert more[k - 1] == views[k - 1];
      }
    }
  }

  /** The failure count is that of the visits, to the end of the loop. */
  lemma {:induction false} CountsOrphans(w: Walk, sorted: seq<Entry>, need: nat, env: Env, deleted: nat -> bool)
    requires |w.views| <= |sorted| && w.deleteFailures == |Orphaning(sorted, w.views, deleted)|
    ensures var r := Run(w, sorted, need, env, deleted);
            |r.views| <= |sorted| && r.deleteFailures == |Orphaning(sorted, r.views, deleted)|
    decreases |sorted| - |w.views|
  {
    if |w.views| < |sorted| && SumBytes(w.freed) < need {
      OrphaningMore(sorted, w.views, env(|w.views|, w.index), deleted);
      CountsOrphans(Visit(w, sorted[|w.views|], env, deleted), sorted, need, env, deleted);
    }
  }

  /**
   * Whatever the other threads do: the loop frees exactly the visited snapshot entries whose
   * stamp was still the snapshot's when visited, it takes nothing else out of the index, and it
   * stops short of its goal only after visiting every snapshot entry.
   */
  lemma {:induction false} FreesOnlyUnchanged(w: Walk, m: Index, sorted: seq<Entry>, need: nat, env: Env, deleted: nat -> bool)
    requires Sound(w, m, sorted, env)
    ensures var r := Run(w, sorted, need, env, deleted);
            && Sound(r, m, sorted, env)
            && w.views <= r.views
            && (SumBytes(r.freed) < need ==> |r.views| == |sorted|)
    decreases |sorted| - |w.views|
  {
    if |w.views| < |sorted| && SumBytes(w.freed) < need {
      VisitSound(w, m, sorted, env, deleted);
      FreesOnlyUnchanged(Visit(w, sorted[|w.views|], env, deleted), m, sorted, need, env, deleted);
    }
  }

  /** What `Surviving` means: an entry survives iff some visit found it unchanged. */
  lemma {:induction false} SurvivingIff(sorted: seq<Entry>, views: seq<Index>, e: Entry)
    requires |views| <= |sorted|
    ensures e in Surviving(sorted, views)
       <==> exists k {:trigger sorted[k]} ::
              0 <= k < |views| && sorted[k] == e && Unchanged(views[k], e.0, Stamp(e))
  {
    if views != [] {
      var n := |views| - 1;
      SurvivingIff(sorted, views[..n], e);
      assert forall k :: 0 <= k < n ==> views[..n][k] == views[k];
    }
  }

  /** Before each visit so far, what had been freed fell short of the goal. */
  predicate Wanting(sorted: seq<Entry>, views: seq<Index>, need: nat)
    requires |views| <= |sorted|
  {
    forall k {:trigger views[..k]} :: 0 <= k < |views| ==> SumBytes(Surviving(sorted, views[..k])) < need
  }

  /** Never a visit more than it takes. */
  lemma {:induction false} StopsAtOnce(w: Walk, m: Index, sorted: seq<Entry>, need: nat, env: Env, deleted: nat -> bool)
    requires Sound(w, m, sorted, env) && Wanting(sorted, w.views, need)
    ensures var r := Run(w, sorted, need, env, deleted); |r.views| <= |sorted| && Wanting(sorted, r.views, need)
    decreases |sorted| - |w.views|
  {
    if |w.views| < |sorted| && SumBytes(w.freed) < need {
      var w' := Visit(w, sorted[|w.views|], env, deleted);
      VisitSound(w, m, sorted, env, deleted);
      forall k | 0 <= k < |w'.views|
        ensures SumBytes(Surviving(sorted, w'.views[..k])) < need
      {
        assert w'.views[..k] == if k < |w.views| then w.views[..k] else w.views;
      }
      StopsAtOnce(w', m, sorted, need, env, deleted);
    }
  }

  // ---- without interference --------------------------------------------------

  /** Nobody else touches the index. */
  ghost predicate Alone(env: Env) { forall i: nat, m {:trigger env(i, m)} :: env(i, m) == m }

  /** Alone, every visit so far has freed its entry. */
  ghost predicate Swept(w: Walk, m: Index, sorted: seq<Entry>)
  {
    var n := |w.views|;
    n <= |sorted| && w.freed == sorted[..n] && w.index == m - Hashes(sorted[..n])
  }

  lemma SweepsOn(w: Walk, m: Index, sorted: seq<Entry>, env: Env, deleted: nat -> bool)
    requires Alone(env) && Drawn(m, sorted) && Swept(w, m, sorted) && |w.views| < |sorted|
    ensures Swept(Visit(w, sorted[|w.views|], env, deleted), m, sorted)
  {
    var n := |w.views|;
    var e := sorted[n];
    assert env(n, w.index) == w.index;
    assert Held(m, m.Keys, e);
    assert e.0 !in Hashes(sorted[..n]);
    assert Unchanged(w.index, e.0, Stamp(e));
    assert sorted[..n + 1] == sorted[..n] + [e];
    assert Hashes(sorted[..n + 1]) == Hashes(sorted[..n]) + {e.0};
    assert w.index - {e.0} == m - Hashes(sorted[..n + 1]);
  }

  lemma {:induction false} SweepsPrefix(w: Walk, m: Index, sorted: seq<Entry>, need: nat, env: Env, deleted: nat -> bool)
    requires Alone(env) && Drawn(m, sorted) && Swept(w, m, sorted)
    ensures var r := Run(w, sorted, need, env, deleted);
            Swept(r, m, sorted) && (SumBytes(r.freed) < need ==> |r.views| == |sorted|)
    decreases |sorted| - |w.views|
  {
    if |w.views| < |sorted| && SumBytes(w.freed) < need {
      SweepsOn(w, m, sorted, env, deleted);
      SweepsPrefix(Visit(w, sorted[|w.views|], env, deleted), m, sorted, need, env, deleted);
    }
  }

  /** Nothing retained was used longer ago than anything evicted. */
  ghost predicate EvictsOldest(freed: seq<Entry>, kept: Index)
  {
    forall i, h :: 0 <= i < |freed| && h in kept ==> Stamp(freed[i]) <= kept[h].lastAccessNs
  }

  lemma PrefixIsOldest(m: Index, sorted: seq<Entry>, n: nat)
    requires Drawn(m, sorted) && OldestFirst(sorted) && Hashes(sorted) == m.Keys && n <= |sorted|
    ensures EvictsOldest(sorted[..n], m - Hashes(sorted[..n]))
  {
    var kept := m - Hashes(sorted[..n]);
    forall j | 0 <= j < n
      ensures sorted[j].0 in Hashes(sorted[..n])
    {
      assert sorted[..n][j] == sorted[j];
    }
    forall i, h | 0 <= i < n && h in kept
      ensures Stamp(sorted[..n][i]) <= kept[h].lastAccessNs
    {
      assert h in Hashes(sorted);
      var j :| 0 <= j < |sorted| && sorted[j].0 == h;
      assert Held(m, m.Keys, sorted[j]) && Stamp(sorted[i]) <= Stamp(sorted[j]);
    }
  }

  /**
   * The walk evicted exactly the shortest prefix of `sorted` that leaves at most `target` bytes:
   * oldest first, bytes conserved, and over `target` had the last eviction not happened.
   */
  ghost predicate ShortestPrefix(m: Index, sorted: seq<Entry>, w: Walk, target: nat)
  {
    var n := |w.freed|;
    && 0 < n <= |sorted| && |w.views| == n && w.freed == sorted[..n]
    && w.index == m - Hashes(w.freed)
    && EvictsOldest(w.freed, w.index)
    && TotalBytes(w.index) + SumBytes(w.freed) == TotalBytes(m)
    && TotalBytes(w.index) <= target < TotalBytes(w.index) + w.freed[n - 1].1.payloadBytes
  }

  lemma SweptIsShortest(m: Index, sorted: seq<Entry>, w: Walk, target: nat)
    requires Drawn(m, sorted) && OldestFirst(sorted) && Hashes(sorted) == m.Keys
    requires Swept(w, m, sorted) && 0 < |w.freed| == |w.views|
    requires SumBytes(sorted[..|w.freed| - 1]) + target < SumBytes(sorted) <= SumBytes(w.freed) + target
    ensures ShortestPrefix(m, sorted, w, target) && TotalBytes(m) == SumBytes(sorted)
  {
    Accounts(m, sorted, |w.freed|, target);
    PrefixIsOldest(m, sorted, |w.freed|);
  }

  /** Without interference, an over-budget cycle with stamp-sorted snapshot evicts the shortest prefix. */
  lemma EvictsShortestPrefix(m: Index, snapshot: seq<Entry>, sorted: seq<Entry>, need: nat, target: nat, env: Env, deleted: nat -> bool)
    requires Alone(env) && IsSnapshot(m, snapshot) && sorted == SortByStamp(snapshot)
    requires need > 0 && need + target == SumBytes(snapshot)
    ensures TotalBytes(m) == SumBytes(snapshot)
    ensures ShortestPrefix(m, sorted, Run(Begin(m), sorted, need, env, deleted), target)
  {
    SortsByStamp(snapshot);
    TallyOrderless(sorted, snapshot, PayloadBytes());
    EvictsShortestOf(m, snapshot, sorted, need, target, env, deleted);
  }

  lemma EvictsShortestOf(m: Index, snapshot: seq<Entry>, sorted: seq<Entry>, need: nat, target: nat, env: Env, deleted: nat -> bool)
    requires Alone(env) && IsSnapshot(m, snapshot) && multiset(sorted) == multiset(snapshot) && OldestFirst(sorted)
    requires need > 0 && need + target == SumBytes(sorted)
    ensures TotalBytes(m) == SumBytes(sorted)
    ensures ShortestPrefix(m, sorted, Run(Begin(m), sorted, need, env, deleted), target)
  {
    SortedSnapshot(m, snapshot, sorted);
    SweepsFromStart(m, sorted, need, env, deleted);
    SweptIsShortest(m, sorted, Run(Begin(m), sorted, need, env, deleted), target);
  }

  lemma SweepsFromStart(m: Index, sorted: seq<Entry>, need: nat, env: Env, deleted: nat -> bool)
    requires Alone(env) && Drawn(m, sorted) && 0 < need <= SumBytes(sorted)
    ensures var r := Run(Begin(m), sorted, need, env, deleted);
            && Swept(r, m, sorted) && 0 < |r.freed| == |r.views|
            && SumBytes(sorted[..|r.freed| - 1]) < need <= SumBytes(r.freed)
  {
    var r := Run(Begin(m), sorted, need, env, deleted);
    assert m - Hashes([]) == m;
    assert sorted[..0] == [];
    SweepsPrefix(Begin(m), m, sorted, need, env, deleted);
    assert sorted[..|sorted|] == sorted;
    StopsShort(Begin(m), m, sorted, need, env, deleted);
  }

  /** Alone, the walk without its last visit falls short. */
  lemma {:induction false} StopsShort(w: Walk, m: Index, sorted: seq<Entry>, need: nat, env: Env, deleted: nat -> bool)
    requires Alone(env) && Drawn(m, sorted) && Swept(w, m, sorted) && OneShort(w, sorted, need)
    ensures OneShort(Run(w, sorted, need, env, deleted), sorted, need)
    decreases |sorted| - |w.views|
  {
    if |w.views| < |sorted| && SumBytes(w.freed) < need {
      SweepsOn(w, m, sorted, env, deleted);
      assert OneShort(Visit(w, sorted[|w.views|], env, deleted), sorted, need);
      StopsShort(Visit(w, sorted[|w.views|], env, deleted), m, sorted, need, env, deleted);
    }
  }

  predicate OneShort(w: Walk, sorted: seq<Entry>, need: nat)
  {
    0 < |w.views| <= |sorted| ==> SumBytes(sorted[..|w.views| - 1]) < need
  }

  lemma Accounts(m: Index, sorted: seq<Entry>, n: nat, target: nat)
    requires Drawn(m, sorted) && Hashes(sorted) == m.Keys && 0 < n <= |sorted|
    requires SumBytes(sorted[..n - 1]) + target < SumBytes(sorted) <= SumBytes(sorted[..n]) + target
    ensures var left := TotalBytes(m - Hashes(sorted[..n]));
            && TotalBytes(m) == SumBytes(sorted)
            && left + SumBytes(sorted[..n]) == TotalBytes(m)
            && left <= target < left + sorted[n - 1].1.payloadBytes
  {
    DrawnPrefix(m, sorted, n);
    DrawnBytes(m, sorted[..n]);
    DrawnBytes(m, sorted);
    assert m - Hashes(sorted) == map[];
    assert sorted[..n][..n - 1] == sorted[..n - 1];
  }

  lemma DrawnPrefix(m: Index, sorted: seq<Entry>, n: nat)
    requires Drawn(m, sorted) && n <= |sorted|
    ensures Drawn(m, sorted[..n])
  {
    forall i | 0 <= i < n
      ensures Held(m, m.Keys, sorted[..n][i])
    {
      assert Held(m, m.Keys, sorted[i]);
    }
  }

  // ---- the cycle -------------------------------------------------------------

  /** `(budget as f64 * (1.0 - HEADROOM_FRAC)) as u64` */
  function HeadroomTarget(budget: nat): (r: nat)
    ensures r <= budget && r * 10 <= budget * 9 < (r + 1) * 10
  {
    budget * (100 - HEADROOM_PERCENT) / 100
  }

  function Report(scanned: nat, total: nat, w: Walk): (r: EvictionCycleOutcome)
  {
    EvictionCycleOutcome(scanned, total, true, |w.freed|, SumBytes(w.freed),
                         if |w.freed| <= |w.views| then |w.views| - |w.freed| else 0, w.deleteFailures)
  }

  /**
   * A cycle that is due, told by what its visits saw: each visit found what others made of the
   * index the visit before it left, the goal was not met before any visit, it is met at the end
   * unless every entry was visited, and the counters count those visits.
   */
  ghost predicate Evicted(m: Index, snapshot: seq<Entry>, need: nat, env: Env, deleted: nat -> bool,
                          outcome: EvictionCycleOutcome, left: Index, views: seq<Index>)
  {
    var sorted := SortByStamp(snapshot);
    && |views| <= |sorted|
    && var freed := Surviving(sorted, views);
       && Chained(m, sorted, env, views) && left == LeftBy(m, sorted, views, |views|)
       && Wanting(sorted, views, need) && (SumBytes(freed) < need ==> |views| == |sorted|)
       && |freed| <= |views|
       && outcome == EvictionCycleOutcome(|snapshot|, SumBytes(snapshot), true, |freed|, SumBytes(freed),
                                          |views| - |freed|, |Orphaning(sorted, views, deleted)|)
  }

  ghost predicate WasEvicted(m: Index, snapshot: seq<Entry>, need: nat, env: Env, deleted: nat -> bool,
                             outcome: EvictionCycleOutcome, left: Index)
  {
    exists views :: Evicted(m, snapshot, need, env, deleted, outcome, left, views)
  }

  /** Whatever the other threads do, this is what the walk does. */
  lemma RunMeans(m: Index, snapshot: seq<Entry>, need: nat, env: Env, deleted: nat -> bool)
    ensures var w := Run(Begin(m), SortByStamp(snapshot), need, env, deleted);
            WasEvicted(m, snapshot, need, env, deleted, Report(|snapshot|, SumBytes(snapshot), w), w.index)
  {
    var sorted := SortByStamp(snapshot);
    var w := Run(Begin(m), sorted, need, env, deleted);
    assert Orphaning(sorted, [], deleted) == {};
    CountsOrphans(Begin(m), sorted, need, env, deleted);
    FreesOnlyUnchanged(Begin(m), m, sorted, need, env, deleted);
    StopsAtOnce(Begin(m), m, sorted, need, env, deleted);
    assert Evicted(m, snapshot, need, env, deleted, Report(|snapshot|, SumBytes(snapshot), w), w.index, w.views);
  }

  /** The outcome's counters are those of the visits: each visited entry was freed or skipped. */
  lemma CountersAddUp(m: Index, snapshot: seq<Entry>, need: nat, env: Env, deleted: nat -> bool,
                      outcome: EvictionCycleOutcome, left: Index, views: seq<Index>)
    requires IsSnapshot(m, snapshot) && Evicted(m, snapshot, need, env, deleted, outcome, left, views)
    ensures outcome.blocksFreed + outcome.skippedChanged == |views| <= outcome.scanned
    ensures outcome.deleteFailures <= outcome.blocksFreed
    ensures outcome.bytesFreed < need ==> outcome.blocksFreed + outcome.skippedChanged == outcome.scanned
  {
    var sorted := SortByStamp(snapshot);
    SortsByStamp(snapshot);
    assert |multiset(sorted)| == |multiset(snapshot)|;
    OrphansAreFreed(sorted, views, deleted);
  }

  lemma {:induction false} OrphansAreFreed(sorted: seq<Entry>, views: seq<Index>, deleted: nat -> bool)
    requires |views| <= |sorted|
    ensures |Orphaning(sorted, views, deleted)| <= |Surviving(sorted, views)|
  {
    if views == [] {
      assert Orphaning(sorted, views, deleted) == {};
    } else {
      var n := |views| - 1;
      OrphansAreFreed(sorted, views[..n], deleted);
      OrphaningMore(sorted, views[..n], views[n], deleted);
      assert views == views[..n] + [views[n]];
    }
  }

  /** Alone, a cycle that is due evicts the shortest sufficient prefix, and counts just that. */
  ghost predicate EvictedAlone(m: Index, sorted: seq<Entry>, target: nat, deleted: nat -> bool,
                               outcome: EvictionCycleOutcome, left: Index)
  {
    var n := outcome.blocksFreed;
    && 0 < n <= |sorted| && left == m - Hashes(sorted[..n]) && EvictsOldest(sorted[..n], left)
    && outcome.bytesFreed == SumBytes(sorted[..n]) && TotalBytes(left) + outcome.bytesFreed == TotalBytes(m)
    && TotalBytes(left) <= target < TotalBytes(left) + sorted[n - 1].1.payloadBytes
    && outcome.overBudget && outcome.scanned == |sorted| && outcome.totalBytesBefore == TotalBytes(m)
    && outcome.skippedChanged == 0 && outcome.deleteFailures == |set k: nat | k < n && !deleted(k)|
  }

  /** Alone, the walk brings an index down to its target, byte for byte. */
  lemma CycleMeetsTarget(m: Index, snapshot: seq<Entry>, need: nat, target: nat, env: Env, deleted: nat -> bool)
    requires Alone(env) && IsSnapshot(m, snapshot) && need > 0 && need + target == SumBytes(snapshot)
    ensures var w := Run(Begin(m), SortByStamp(snapshot), need, env, deleted);
            EvictedAlone(m, SortByStamp(snapshot), target, deleted, Report(|snapshot|, SumBytes(snapshot), w), w.index)
  {
    var sorted := SortByStamp(snapshot);
    EvictsShortestPrefix(m, snapshot, sorted, need, target, env, deleted);
    SortsByStamp(snapshot);
    assert |multiset(sorted)| == |multiset(snapshot)|;
    FailuresAlone(Begin(m), sorted, need, env, deleted);
  }

  ghost predicate DueResult(m: Index, snapshot: seq<Entry>, need: nat, target: nat, env: Env, deleted: nat -> bool,
                            outcome: EvictionCycleOutcome, left: Index)
  {
    && WasEvicted(m, snapshot, need, env, deleted, outcome, left)
    && (Alone(env) ==> EvictedAlone(m, SortByStamp(snapshot), target, deleted, outcome, left))
  }

  lemma WalkIsDue(m: Index, snapshot: seq<Entry>, total: nat, target: nat, env: Env, deleted: nat -> bool, w: Walk,
                  outcome: EvictionCycleOutcome, left: Index)
    requires IsSnapshot(m, snapshot) && total == SumBytes(snapshot) > target
    requires w == Run(Begin(m), SortByStamp(snapshot), total - target, env, deleted)
    requires outcome == Report(|snapshot|, total, w) && left == w.index
    ensures DueResult(m, snapshot, SumBytes(snapshot) - target, target, env, deleted, outcome, left)
  {
    RunMeans(m, snapshot, total - target, env, deleted);
    if Alone(env) {
      CycleMeetsTarget(m, snapshot, total - target, target, env, deleted);
    }
  }

  ghost function Failed(n: nat, deleted: nat -> bool): (r: set<nat>) { set k: nat | k < n && !deleted(k) }

  /** While every visit frees its entry, the failures are those of the visits. */
  lemma {:induction false} FailuresAlone(w: Walk, sorted: seq<Entry>, need: nat, env: Env, deleted: nat -> bool)
    requires w.deleteFailures == |Failed(|w.views|, deleted)| && |w.freed| == |w.views|
    ensures var r := Run(w, sorted, need, env, deleted);
            |r.freed| <= |r.views| && (|r.freed| == |r.views| ==> r.deleteFailures == |Failed(|r.views|, deleted)|)
    decreases |sorted| - |w.views|
  {
    if |w.views| < |sorted| && SumBytes(w.freed) < need {
      var n := |w.views|;
      var w' := Visit(w, sorted[n], env, deleted);
      assert Failed(n + 1, deleted) == if deleted(n) then Failed(n, deleted) else Failed(n, deleted) + {n};
      if |w'.freed| == |w'.views| {
        FailuresAlone(w', sorted, need, env, deleted);
      } else {
        StaysBehind(w', sorted, need, env, deleted);
      }
    }
  }

  lemma {:induction false} StaysBehind(w: Walk, sorted: seq<Entry>, need: nat, env: Env, deleted: nat -> bool)
    requires |w.freed| < |w.views|
    ensures var r := Run(w, sorted, need, env, deleted); |r.freed| < |r.views|
    decreases |sorted| - |w.views|
  {
    if |w.views| < |sorted| && SumBytes(w.freed) < need {
      StaysBehind(Visit(w, sorted[|w.views|], env, deleted), sorted, need, env, deleted);
    }
  }

  /** `run_cycle`, which here also returns the snapshot it took and the target: nine tenths of the budget, rounded down. */
  method RunCycle(index: InMemoryMetadataIndex, budget: nat, env: Env, deleted: nat -> bool)
    returns (outcome: EvictionCycleOutcome, snapshot: seq<Entry>, target: nat)
    modifies index
    ensures IsSnapshot(old(index.entries), snapshot)
    ensures target <= budget && target * 10 <= budget * 9 < (target + 1) * 10
    ensures budget == 0 || SumBytes(snapshot) <= budget ==>
              && index.entries == old(index.entries)
              && outcome == EvictionCycleOutcome(|snapshot|, SumBytes(snapshot), false, 0, 0, 0, 0)
    ensures budget != 0 && SumBytes(snapshot) > budget ==>
              DueResult(old(index.entries), snapshot, SumBytes(snapshot) - target, target, env, deleted, outcome, index.entries)
  {
    target := HeadroomTarget(budget);
    outcome, snapshot := CycleTo(index, budget, target, env, deleted);
  }

  method CycleTo(index: InMemoryMetadataIndex, budget: nat, target: nat, env: Env, deleted: nat -> bool)
    returns (outcome: EvictionCycleOutcome, snapshot: seq<Entry>)
    requires target <= budget
    modifies index
    ensures IsSnapshot(old(index.entries), snapshot)
    ensures budget == 0 || SumBytes(snapshot) <= budget ==>
              && index.entries == old(index.entries)
              && outcome == EvictionCycleOutcome(|snapshot|, SumBytes(snapshot), false, 0, 0, 0, 0)
    ensures budget != 0 && SumBytes(snapshot) > budget ==>
              DueResult(old(index.entries), snapshot, SumBytes(snapshot) - target, target, env, deleted, outcome, index.entries)
  {
    snapshot := index.Entries();
    var total := Scan(snapshot);
    if budget == 0 || total <= budget {
      return EvictionCycleOutcome(|snapshot|, total, false, 0, 0, 0, 0), snapshot;
    }
    outcome := EvictDown(index, snapshot, total, target, env, deleted);
  }

  /** The part of `run_cycle` behind its budget test. */
  method EvictDown(index: InMemoryMetadataIndex, snapshot: seq<Entry>, total: nat, target: nat, env: Env, deleted: nat -> bool)
    returns (outcome: EvictionCycleOutcome)
    requires IsSnapshot(index.entries, snapshot) && total == SumBytes(snapshot) > target
    modifies index
    ensures DueResult(old(index.entries), snapshot, SumBytes(snapshot) - target, target, env, deleted, outcome, index.entries)
  {
    ghost var m := index.entries;
    var freed, views, blocksFreed, bytesFreed, skippedChanged, deleteFailures :=
      Evict(index, SortByStamp(snapshot), total - target, env, deleted);
    outcome := EvictionCycleOutcome(|snapshot|, total, true, blocksFreed, bytesFreed, skippedChanged, deleteFailures);
    ghost var w := Walk(index.entries, freed, deleteFailures, views);
    WalkIsDue(m, snapshot, total, target, env, deleted, w, outcome, index.entries);
  }

  method Scan(snapshot: seq<Entry>) returns (total: nat)
    ensures total == SumBytes(snapshot)
  {
    total := 0;
    for i := 0 to |snapshot|
      invariant total == SumBytes(snapshot[..i])
    {
      assert snapshot[..i + 1][..i] == snapshot[..i];
      total := total + snapshot[i].1.payloadBytes;
    }
    assert snapshot[..|snapshot|] == snapshot;
  }

  /** The eviction loop. */
  method Evict(index: InMemoryMetadataIndex, sorted: seq<Entry>, need: nat, env: Env, deleted: nat -> bool)
    returns (freed: seq<Entry>, views: seq<Index>, blocksFreed: nat, bytesFreed: nat, skippedChanged: nat, deleteFailures: nat)
    modifies index
    ensures Walk(index.entries, freed, deleteFailures, views) == Run(Begin(old(index.entries)), sorted, need, env, deleted)
    ensures blocksFreed == |freed| && bytesFreed == SumBytes(freed) && skippedChanged == |views| - |freed|
  {
    freed, views := [], [];
    bytesFreed, blocksFreed, skippedChanged, deleteFailures := 0, 0, 0, 0;
    ghost var w := Begin(index.entries);
    var i := 0;
    while i < |sorted| && bytesFreed < need
      invariant i == |views| <= |sorted|
      invariant w == Walk(index.entries, freed, deleteFailures, views)
      invariant Run(Begin(old(index.entries)), sorted, need, env, deleted) == Run(w, sorted, need, env, deleted)
      invariant blocksFreed == |freed| && bytesFreed == SumBytes(freed) && skippedChanged == |views| - |freed|
    {
      var (hash, meta) := sorted[i];
      w := Visit(w, sorted[i], env, deleted);
      index.entries := env(i, index.entries);
      views := views + [index.entries];
      var removed := index.RemoveIfUnchanged(hash, meta.lastAccessNs);
      if removed {
        if !deleted(i) {
          deleteFailures := deleteFailures + 1;
        }
        bytesFreed := bytesFreed + meta.payloadBytes;
        blocksFreed := blocksFreed + 1;
        TallyMore(freed, sorted[i], PayloadBytes());
        freed := freed + [sorted[i]];
      } else {
        skippedChanged := skippedChanged + 1;
      }
      i := i + 1;
    }
  }
}
