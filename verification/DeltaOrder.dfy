/**
 When the outcome of a replay does not depend on the order of its input (metadata.rs): the exact
 condition for the winners, and for the whole outcome with its conflict rows.
 */
module DeltaOrder {
  import opened Bytes
  import opened Tallies
  import opened DeltaReplay

  ghost predicate Permutes(b: seq<DeltaFact>, a: seq<DeltaFact>) { multiset(b) == multiset(a) }

  // ---- the winners -----------------------------------------------------------

  /** `f` is a fact of `a` that no fact of its key precedes. */
  ghost predicate Least(a: seq<DeltaFact>, f: DeltaFact)
  {
    f in a && forall g {:trigger Less(g, f)} :: g in a && g.key == f.key ==> !Less(g, f)
  }

  /** Any two least facts of one key are equal. */
  ghost predicate UniqueLeast(a: seq<DeltaFact>)
  {
    forall f, g {:trigger Least(a, f), Least(a, g)} :: Least(a, f) && Least(a, g) && f.key == g.key ==> f == g
  }

  lemma SameFacts(a: seq<DeltaFact>, b: seq<DeltaFact>, f: DeltaFact)
    requires Permutes(b, a)
    ensures f in b <==> f in a
  {
    assert f in multiset(b) <==> f in multiset(a);
  }

  lemma BestIsLeastOf(a: seq<DeltaFact>, b: seq<DeltaFact>, k: LogicalKey)
    requires Permutes(b, a)
    ensures match Best(k, b)
            case None => forall f :: f in a ==> f.key != k
            case Some(f) => Least(a, f) && f.key == k
  {
    BestIsLeast(k, b);
    forall f | f in a
      ensures f in b
    {
      SameFacts(a, b, f);
    }
    if Best(k, b).Some? {
      SameFacts(a, b, Best(k, b).value);
    }
  }

  lemma UniqueLeastFixesBest(a: seq<DeltaFact>, b: seq<DeltaFact>, k: LogicalKey)
    requires Permutes(b, a) && UniqueLeast(a)
    ensures Best(k, b) == Best(k, a)
  {
    BestIsLeastOf(a, a, k);
    BestIsLeastOf(a, b, k);
  }

  lemma UniqueLeastFixesWinners(a: seq<DeltaFact>, b: seq<DeltaFact>)
    requires Permutes(b, a) && UniqueLeast(a)
    ensures WinnerMap(b) == WinnerMap(a)
  {
    forall k
      ensures (k in WinnerMap(b) <==> k in WinnerMap(a)) && (k in WinnerMap(b) ==> WinnerMap(b)[k] == WinnerMap(a)[k])
    {
      UniqueLeastFixesBest(a, b, k);
      WinnersAreBest(a, k);
      WinnersAreBest(b, k);
    }
    MapsEqual(WinnerMap(b), WinnerMap(a));
  }

  /** A permutation that starts with `f`. */
  lemma Fronted(a: seq<DeltaFact>, f: DeltaFact) returns (rest: seq<DeltaFact>)
    requires f in a
    ensures Permutes([f] + rest, a)
  {
    var i :| 0 <= i < |a| && a[i] == f;
    rest := a[..i] + a[i + 1..];
    RemoveAt(a, i);
  }

  /** A least fact wins when it comes first. */
  lemma FrontedWins(a: seq<DeltaFact>, f: DeltaFact, rest: seq<DeltaFact>)
    requires Least(a, f) && Permutes([f] + rest, a)
    ensures f.key in WinnerMap([f] + rest) && WinnerMap([f] + rest)[f.key] == f
  {
    BestOfConcat(f.key, [f], rest);
    assert [f][..0] == [];
    assert Best(f.key, [f]) == Combine(Best(f.key, []), Single(f.key, f));
    BestIsLeast(f.key, rest);
    if Best(f.key, rest).Some? {
      var g := Best(f.key, rest).value;
      assert g in [f] + rest;
      SameFacts(a, [f] + rest, g);
      assert !Less(g, f);
    }
    WinnersAreBest([f] + rest, f.key);
  }

  ghost predicate WinnersOrderFree(a: seq<DeltaFact>)
  {
    forall b {:trigger Permutes(b, a)} :: Permutes(b, a) ==> Replay(b).winners == Replay(a).winners
  }

  lemma SameValuesSameMap(a: seq<DeltaFact>, b: seq<DeltaFact>)
    requires Replay(a).winners == Replay(b).winners
    ensures WinnerMap(a) == WinnerMap(b)
  {
    WinnersKeyed(a);
    WinnersKeyed(b);
    forall k
      ensures (k in WinnerMap(a) <==> k in WinnerMap(b)) && (k in WinnerMap(a) ==> WinnerMap(a)[k] == WinnerMap(b)[k])
    {
      BestOfValues(k, WinnerMap(a));
      BestOfValues(k, WinnerMap(b));
    }
    MapsEqual(WinnerMap(a), WinnerMap(b));
  }

  /** All orders of the input have the same winners exactly when any two least facts of one key are equal. */
  lemma WinnersOrderFreeIff(a: seq<DeltaFact>)
    ensures WinnersOrderFree(a) <==> UniqueLeast(a)
  {
    if UniqueLeast(a) {
      forall b | Permutes(b, a)
        ensures Replay(b).winners == Replay(a).winners
      {
        UniqueLeastFixesWinners(a, b);
      }
    }
    if WinnersOrderFree(a) {
      forall f, g | Least(a, f) && Least(a, g) && f.key == g.key
        ensures f == g
      {
        OrderFreeLeast(a, f, g);
      }
    }
  }

  lemma OrderFreeLeast(a: seq<DeltaFact>, f: DeltaFact, g: DeltaFact)
    requires WinnersOrderFree(a) && Least(a, f) && Least(a, g) && f.key == g.key
    ensures f == g
  {
    LeastIsWinner(a, f);
    LeastIsWinner(a, g);
  }

  lemma LeastIsWinner(a: seq<DeltaFact>, f: DeltaFact)
    requires WinnersOrderFree(a) && Least(a, f)
    ensures f.key in WinnerMap(a) && WinnerMap(a)[f.key] == f
  {
    var rest := Fronted(a, f);
    FrontedWins(a, f, rest);
    SameValuesSameMap([f] + rest, a);
  }

  // ---- the rows ----------------------------------------------------------------

  ghost function Loses(m: map<LogicalKey, DeltaFact>): (p: DeltaFact -> bool)
  {
    (f: DeltaFact) => f.key in m && m[f.key].payloadDigest != f.payloadDigest
  }

  /** The part of a fact that a conflict row shows. */
  function Shown(f: DeltaFact): (r: DeltaFact) { f.(schemaVersion := 0) }

  function AllShown(s: seq<DeltaFact>): (r: seq<DeltaFact>)
    ensures |r| == |s|
  {
    seq(|s|, i requires 0 <= i < |s| => Shown(s[i]))
  }

  ghost function RowOf(m: map<LogicalKey, DeltaFact>, f: DeltaFact): (r: DeltaConflictRow)
  {
    if f.key in m then Row(m[f.key], f) else Row(f, f)
  }

  ghost function RowsOf(m: map<LogicalKey, DeltaFact>, s: seq<DeltaFact>): (r: seq<DeltaConflictRow>)
    ensures |r| == |s|
  {
    seq(|s|, i requires 0 <= i < |s| => RowOf(m, s[i]))
  }

  /** The rows are those of the losers, in sorted order. */
  lemma {:induction false} RowsAreLosers(s: seq<DeltaFact>, m: map<LogicalKey, DeltaFact>)
    requires forall k :: k in VisitAll(s).winners ==> k in m && m[k] == VisitAll(s).winners[k]
    ensures VisitAll(s).rows == RowsOf(m, Filter(s, Loses(m)))
  {
    if s != [] {
      RowsAreLosers(s[..|s| - 1], m);
    }
  }

  lemma ReplayRows(a: seq<DeltaFact>)
    ensures Replay(a).rows == RowsOf(WinnerMap(a), Filter(SortFacts(a), Loses(WinnerMap(a))))
  {
    RowsAreLosers(SortFacts(a), WinnerMap(a));
  }

  /** A least fact of its key carries another digest than `f`. */
  ghost predicate Disputed(a: seq<DeltaFact>, f: DeltaFact)
  {
    exists w {:trigger Least(a, w)} :: Least(a, w) && w.key == f.key && w.payloadDigest != f.payloadDigest
  }

  /** Two disputed facts that share their sort key share key and digest, and so show the same row. */
  ghost predicate RowTiesAgree(a: seq<DeltaFact>)
  {
    forall f, g {:trigger SameSortKey(f, g)} ::
      f in a && g in a && SameSortKey(f, g) && Disputed(a, f) && Disputed(a, g)
      ==> f.key == g.key && f.payloadDigest == g.payloadDigest
  }

  lemma DisputedIffLoses(a: seq<DeltaFact>, f: DeltaFact)
    requires UniqueLeast(a) && f in a
    ensures Disputed(a, f) <==> Loses(WinnerMap(a))(f)
  {
    EachWinnerIsLeast(a, f.key);
    assert Least(a, WinnerMap(a)[f.key]);
  }

  // ---- enough ------------------------------------------------------------------

  lemma {:induction false} FilterSorted(s: seq<DeltaFact>, p: DeltaFact -> bool)
    requires Sorted(s)
    ensures Sorted(Filter(s, p))
  {
    if s != [] {
      var n := |s| - 1;
      FilterSorted(s[..n], p);
      var front := Filter(s[..n], p);
      forall i | 0 <= i < |front|
        ensures !Less(s[n], front[i])
      {
        FilterIn(s[..n], p, front[i]);
        var j :| 0 <= j < n && s[..n][j] == front[i];
      }
    }
  }

  lemma ShownSorted(s: seq<DeltaFact>)
    requires Sorted(s)
    ensures Sorted(AllShown(s))
  {
    forall i, j | 0 <= i < j < |s|
      ensures !Less(AllShown(s)[j], AllShown(s)[i])
    {
      assert !Less(s[j], s[i]);
    }
  }

  lemma {:induction false} ShownPermutes(s: seq<DeltaFact>, t: seq<DeltaFact>)
    requires multiset(s) == multiset(t)
    ensures multiset(AllShown(s)) == multiset(AllShown(t))
    decreases |s|
  {
    assert |multiset(s)| == |multiset(t)|;
    if s != [] {
      var n := |s| - 1;
      assert s[n] in multiset(t);
      var k :| 0 <= k < |t| && t[k] == s[n];
      DropBoth(s, t, k);
      var rest := t[..k] + t[k + 1..];
      ShownPermutes(s[..n], rest);
      assert AllShown(s) == AllShown(s[..n]) + [Shown(s[n])];
      assert AllShown(t) == AllShown(t[..k]) + ([Shown(t[k])] + AllShown(t[k + 1..]));
      assert AllShown(rest) == AllShown(t[..k]) + AllShown(t[k + 1..]);
    }
  }

  lemma ShownRows(m: map<LogicalKey, DeltaFact>, s: seq<DeltaFact>)
    requires forall f :: f in s ==> f.key in m
    ensures RowsOf(m, AllShown(s)) == RowsOf(m, s)
  {
  }

  lemma LosersHaveWinners(s: seq<DeltaFact>, m: map<LogicalKey, DeltaFact>)
    ensures forall f :: f in Filter(s, Loses(m)) ==> f.key in m
  {
    forall f | f in Filter(s, Loses(m))
      ensures f.key in m
    {
      FilterIn(s, Loses(m), f);
    }
  }

  lemma ShownLosersDistinct(a: seq<DeltaFact>, s: seq<DeltaFact>)
    requires UniqueLeast(a) && RowTiesAgree(a) && Permutes(s, a)
    ensures DistinctSortKeys(AllShown(Filter(s, Loses(WinnerMap(a)))))
  {
    var losers := Filter(s, Loses(WinnerMap(a)));
    forall x, y | x in AllShown(losers) && y in AllShown(losers) && SameSortKey(x, y)
      ensures x == y
    {
      var i :| 0 <= i < |losers| && AllShown(losers)[i] == x;
      var j :| 0 <= j < |losers| && AllShown(losers)[j] == y;
      FilterIn(s, Loses(WinnerMap(a)), losers[i]);
      FilterIn(s, Loses(WinnerMap(a)), losers[j]);
      SameFacts(a, s, losers[i]);
      SameFacts(a, s, losers[j]);
      DisputedIffLoses(a, losers[i]);
      DisputedIffLoses(a, losers[j]);
      assert SameSortKey(losers[i], losers[j]);
    }
  }

  lemma TiesFixRows(a: seq<DeltaFact>, b: seq<DeltaFact>)
    requires Permutes(b, a) && UniqueLeast(a) && RowTiesAgree(a)
    ensures Replay(b).rows == Replay(a).rows
  {
    UniqueLeastFixesWinners(a, b);
    var m := WinnerMap(a);
    SortsAndPermutes(a);
    SortsAndPermutes(b);
    var p, q := Filter(SortFacts(a), Loses(m)), Filter(SortFacts(b), Loses(m));
    FilterOrderless(SortFacts(a), SortFacts(b), Loses(m));
    ShownPermutes(p, q);
    FilterSorted(SortFacts(a), Loses(m));
    FilterSorted(SortFacts(b), Loses(m));
    ShownSorted(p);
    ShownSorted(q);
    ShownLosersDistinct(a, SortFacts(a));
    SortedIsUnique(AllShown(p), AllShown(q));
    LosersHaveWinners(SortFacts(a), m);
    LosersHaveWinners(SortFacts(b), m);
    ShownRows(m, p);
    ShownRows(m, q);
    ReplayRows(a);
    ReplayRows(b);
  }

  lemma TiesFixOutcome(a: seq<DeltaFact>, b: seq<DeltaFact>)
    requires Permutes(b, a) && UniqueLeast(a) && RowTiesAgree(a)
    ensures Replay(b) == Replay(a)
  {
    UniqueLeastFixesWinners(a, b);
    TiesFixRows(a, b);
    NothingIsLost(a);
    NothingIsLost(b);
    assert |multiset(a)| == |multiset(b)|;
  }

  // ---- and needed ----------------------------------------------------------------

  function TiesWith(f: DeltaFact): (p: DeltaFact -> bool) { (g: DeltaFact) => SameSortKey(g, f) }

  lemma {:induction false} NoneTie(f: DeltaFact, s: seq<DeltaFact>)
    requires forall i :: 0 <= i < |s| ==> !SameSortKey(s[i], f)
    ensures Filter(s, TiesWith(f)) == []
  {
    if s != [] {
      NoneTie(f, s[..|s| - 1]);
    }
  }

  /** The sort is stable: a new fact goes behind those it ties with. */
  lemma {:induction false} InsertIsStable(x: DeltaFact, s: seq<DeltaFact>, f: DeltaFact)
    requires Sorted(s)
    ensures Filter(Insert(x, s), TiesWith(f)) == Filter(s, TiesWith(f)) + Filter([x], TiesWith(f))
  {
    if s == [] {
    } else if Less(x, s[0]) {
      FilterConcat([x], s, TiesWith(f));
      FilterOne(x, TiesWith(f));
      if SameSortKey(x, f) {
        forall i | 0 <= i < |s|
          ensures !SameSortKey(s[i], f)
        {
          LessIsStrictWeak(x, s[i], s[0]);
          LessIsStrictWeak(s[0], s[0], s[0]);
          LessIsStrictWeak(f, f, f);
        }
        NoneTie(f, s);
      }
    } else {
      InsertIsStable(x, s[1..], f);
      FilterConcat([s[0]], Insert(x, s[1..]), TiesWith(f));
      FilterConcat([s[0]], s[1..], TiesWith(f));
      assert s == [s[0]] + s[1..];
    }
  }

  lemma {:induction false} SortIsStable(a: seq<DeltaFact>, f: DeltaFact)
    ensures Filter(SortFacts(a), TiesWith(f)) == Filter(a, TiesWith(f))
  {
    if a != [] {
      var n := |a| - 1;
      SortIsStable(a[..n], f);
      SortsAndPermutes(a[..n]);
      InsertIsStable(a[n], SortFacts(a[..n]), f);
      FilterOne(a[n], TiesWith(f));
    }
  }

  /** The row of a fact that ties with `f`. */
  function RowTies(f: DeltaFact): (p: DeltaConflictRow -> bool)
  {
    (r: DeltaConflictRow) => r.loserEpochMs == f.epochMs && r.loserSeq == f.seqNo && r.loserWriteId == f.writeId
  }

  lemma RowsSnoc(m: map<LogicalKey, DeltaFact>, s: seq<DeltaFact>, x: DeltaFact)
    ensures RowsOf(m, s + [x]) == RowsOf(m, s) + [RowOf(m, x)]
  {
  }

  lemma {:induction false} TiesOfRows(m: map<LogicalKey, DeltaFact>, s: seq<DeltaFact>, f: DeltaFact)
    ensures Filter(RowsOf(m, s), RowTies(f)) == RowsOf(m, Filter(s, TiesWith(f)))
  {
    if s != [] {
      var front, x := s[..|s| - 1], s[|s| - 1];
      TiesOfRows(m, front, f);
      RowsSnoc(m, front, x);
      RowsSnoc(m, Filter(front, TiesWith(f)), x);
      assert s == front + [x];
      FilterConcat(RowsOf(m, front), [RowOf(m, x)], RowTies(f));
      FilterOne(RowOf(m, x), RowTies(f));
    }
  }

  lemma RowsOfTies(m: map<LogicalKey, DeltaFact>, s: seq<DeltaFact>, f: DeltaFact)
    ensures Filter(RowsOf(m, Filter(s, Loses(m))), RowTies(f)) == RowsOf(m, Filter(Filter(s, TiesWith(f)), Loses(m)))
  {
    TiesOfRows(m, Filter(s, Loses(m)), f);
    FilterSwaps(s, Loses(m), TiesWith(f));
  }

  /** Among the rows of a tie, that of the loser that comes first in the input comes first. */
  lemma FirstRowOfTie(m: map<LogicalKey, DeltaFact>, f: DeltaFact, rest: seq<DeltaFact>)
    requires WinnerMap([f] + rest) == m && Loses(m)(f)
    ensures var rows := Filter(Replay([f] + rest).rows, RowTies(f)); rows != [] && rows[0] == RowOf(m, f)
  {
    var b := [f] + rest;
    ReplayRows(b);
    RowsOfTies(m, SortFacts(b), f);
    SortIsStable(b, f);
    FilterConcat([f], rest, TiesWith(f));
    FilterOne(f, TiesWith(f));
    var ties := Filter(rest, TiesWith(f));
    FilterConcat([f], ties, Loses(m));
    FilterOne(f, Loses(m));
    assert Filter(b, TiesWith(f)) == [f] + ties;
    assert Filter([f] + ties, Loses(m))[0] == f;
  }

  ghost predicate OutcomeOrderFree(a: seq<DeltaFact>)
  {
    forall b {:trigger Permutes(b, a)} :: Permutes(b, a) ==> Replay(b) == Replay(a)
  }

  lemma FirstRowFixed(a: seq<DeltaFact>, f: DeltaFact)
    requires OutcomeOrderFree(a) && f in a && Loses(WinnerMap(a))(f)
    ensures var rows := Filter(Replay(a).rows, RowTies(f)); rows != [] && rows[0] == RowOf(WinnerMap(a), f)
  {
    var rest := Fronted(a, f);
    SameValuesSameMap([f] + rest, a);
    FirstRowOfTie(WinnerMap(a), f, rest);
  }

  lemma OrderFreeTies(a: seq<DeltaFact>, f: DeltaFact, g: DeltaFact)
    requires OutcomeOrderFree(a) && f in a && g in a && SameSortKey(f, g)
    requires Loses(WinnerMap(a))(f) && Loses(WinnerMap(a))(g)
    ensures f.key == g.key && f.payloadDigest == g.payloadDigest
  {
    FirstRowFixed(a, f);
    FirstRowFixed(a, g);
    SameTies(Replay(a).rows, f, g);
  }

  lemma {:induction false} SameTies(rows: seq<DeltaConflictRow>, f: DeltaFact, g: DeltaFact)
    requires SameSortKey(f, g)
    ensures Filter(rows, RowTies(f)) == Filter(rows, RowTies(g))
  {
    if rows != [] {
      SameTies(rows[..|rows| - 1], f, g);
    }
  }

  /**
   The whole outcome, counts and rows included, is the same for every order of the input exactly
   when any two least facts of one key are equal and any two disputed facts that share their sort
   key share key and digest.
   */
  lemma OutcomeOrderFreeIff(a: seq<DeltaFact>)
    ensures OutcomeOrderFree(a) <==> UniqueLeast(a) && RowTiesAgree(a)
  {
    if UniqueLeast(a) && RowTiesAgree(a) {
      forall b | Permutes(b, a)
        ensures Replay(b) == Replay(a)
      {
        TiesFixOutcome(a, b);
      }
    }
    if OutcomeOrderFree(a) {
      WinnersOrderFreeIff(a);
      forall f, g | f in a && g in a && SameSortKey(f, g) && Disputed(a, f) && Disputed(a, g)
        ensures f.key == g.key && f.payloadDigest == g.payloadDigest
      {
        DisputedIffLoses(a, f);
        DisputedIffLoses(a, g);
        OrderFreeTies(a, f, g);
      }
    }
  }
}
