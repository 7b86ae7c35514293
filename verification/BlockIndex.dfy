/**
 The in-memory metadata index of block_meta.rs: a locked ordered map from block hash to block
 metadata. Every operation runs under the lock, so each is one atomic step; the clock is a
 parameter.
 */
module BlockIndex {
  import opened Bytes
  import opened Text

  type BlockHash = h: seq<byte> | |h| == 32 witness seq(32, _ => 0)

  const ZERO_HASH: BlockHash := seq(32, _ => 0)

  datatype BlockMeta = BlockMeta(
    parentHash: BlockHash, blockSeq: nat, payloadBytes: nat, lastAccessNs: nat,
    modelDigest: seq<byte>, layoutTag: seq<byte>, extFlags: nat)

  type Index = map<BlockHash, BlockMeta>

  type Entry = (BlockHash, BlockMeta)

  /** `BlockMeta::new_root` with zeroed digest and layout tag, as every caller modelled here uses it. */
  function NewRoot(payloadBytes: nat, now: nat): (r: BlockMeta)
  {
    BlockMeta(ZERO_HASH, 0, payloadBytes, now, seq(24, _ => 0), seq(16, _ => 0), 0)
  }

  /** The entry is there and carries the stamp `expected`. */
  predicate Unchanged(m: Index, hash: BlockHash, expected: nat)
  {
    hash in m && m[hash].lastAccessNs == expected
  }

  /** What compare-and-delete leaves behind. */
  function RemovedIfUnchanged(m: Index, hash: BlockHash, expected: nat): (r: Index)
  {
    if Unchanged(m, hash, expected) then m - {hash} else m
  }

  // ---- longest prefix ----------------------------------------------------

  function LongestPrefix(m: Index, blocks: seq<BlockHash>): (k: nat)
    ensures k <= |blocks|
  {
    if blocks != [] && blocks[0] in m then 1 + LongestPrefix(m, blocks[1..]) else 0
  }

  /** It is the one length whose blocks are all present while the next one, if any, is absent. */
  lemma {:induction false} LongestPrefixIff(m: Index, blocks: seq<BlockHash>, k: nat)
    ensures LongestPrefix(m, blocks) == k
       <==> && k <= |blocks|
            && (forall i :: 0 <= i < k ==> blocks[i] in m)
            && (k < |blocks| ==> blocks[k] !in m)
  {
    if blocks != [] && blocks[0] in m {
      if k > 0 {
        LongestPrefixIff(m, blocks[1..], k - 1);
        assert forall i :: 1 <= i < |blocks| ==> blocks[i] == blocks[1..][i - 1];
      }
    }
  }

  // ---- bulk load -----------------------------------------------------------

  /** `or_insert` for each item in turn. */
  function BulkLoaded(m: Index, items: seq<Entry>): (r: Index)
  {
    if items == [] then m
    else
      var front := BulkLoaded(m, items[..|items| - 1]);
      var (h, meta) := items[|items| - 1];
      if h in front then front else front[h := meta]
  }

  /** Item `i` is the first one of `hash`. */
  predicate IsFirst(items: seq<Entry>, hash: BlockHash, i: int)
  {
    0 <= i < |items| && items[i].0 == hash && forall j :: 0 <= j < i ==> items[j].0 != hash
  }

  /** Present entries win; among the loaded ones the first of a hash does. */
  lemma {:induction false} BulkLoadKeepsFirst(m: Index, items: seq<Entry>, hash: BlockHash)
    ensures hash in m ==> hash in BulkLoaded(m, items) && BulkLoaded(m, items)[hash] == m[hash]
    ensures hash in BulkLoaded(m, items) <==> hash in m || exists i :: 0 <= i < |items| && items[i].0 == hash
    ensures hash !in m ==> forall i :: IsFirst(items, hash, i) ==> BulkLoaded(m, items)[hash] == items[i].1
  {
    if items != [] {
      var n := |items| - 1;
      BulkLoadKeepsFirst(m, items[..n], hash);
      assert forall i :: 0 <= i < n ==> items[i] == items[..n][i];
      assert forall i :: i < n && IsFirst(items, hash, i) ==> IsFirst(items[..n], hash, i);
    }
  }

  // ---- snapshots -----------------------------------------------------------

  predicate Ascending(s: seq<Entry>)
  {
    forall i, j {:trigger TextLess(s[i].0, s[j].0)} :: 0 <= i < j < |s| ==> TextLess(s[i].0, s[j].0)
  }

  predicate Held(m: Index, keys: set<BlockHash>, e: Entry)
  {
    e.0 in keys && e.0 in m && m[e.0] == e.1
  }

  predicate Listed(s: seq<Entry>, h: BlockHash)
  {
    exists i :: 0 <= i < |s| && s[i].0 == h
  }

  /** `s` lists exactly the entries whose hash is in `keys`. */
  predicate Lists(m: Index, keys: set<BlockHash>, s: seq<Entry>)
  {
    && (forall i {:trigger Held(m, keys, s[i])} :: 0 <= i < |s| ==> Held(m, keys, s[i]))
    && (forall h {:trigger Listed(s, h)} :: h in keys ==> Listed(s, h))
  }

  /** `entries()`: every entry once, in hash order. */
  predicate IsSnapshot(m: Index, s: seq<Entry>)
  {
    Ascending(s) && Lists(m, m.Keys, s)
  }

  lemma AscendingIsDistinct(s: seq<Entry>, i: nat, j: nat)
    requires Ascending(s) && i < |s| && j < |s| && i != j
    ensures s[i].0 != s[j].0
  {
    TextIrreflexive(s[i].0);
  }

  lemma EmptyIff(m: Index, keys: set<BlockHash>, s: seq<Entry>)
    requires Lists(m, keys, s)
    ensures s == [] <==> keys == {}
  {
    if s != [] {
      assert Held(m, keys, s[0]);
    }
    assert forall h :: h in keys ==> Listed(s, h);
  }

  lemma FirstIsLeast(m: Index, keys: set<BlockHash>, s: seq<Entry>, t: seq<Entry>)
    requires Ascending(s) && Lists(m, keys, s) && Lists(m, keys, t) && s != [] && t != []
    ensures s[0].0 == t[0].0 || TextLess(s[0].0, t[0].0)
  {
    assert Held(m, keys, t[0]) && Listed(s, t[0].0);
    var i :| 0 <= i < |s| && s[i].0 == t[0].0;
  }

  /** A snapshot is determined by the index. */
  lemma {:induction false} SnapshotUnique(m: Index, keys: set<BlockHash>, s: seq<Entry>, t: seq<Entry>)
    requires Ascending(s) && Ascending(t) && Lists(m, keys, s) && Lists(m, keys, t)
    ensures s == t
    decreases |s|
  {
    if s == [] || t == [] {
      EmptyIff(m, keys, s);
      EmptyIff(m, keys, t);
    } else {
      FirstIsLeast(m, keys, s, t);
      FirstIsLeast(m, keys, t, s);
      TextOrder(s[0].0, t[0].0, s[0].0);
      assert Held(m, keys, s[0]) && Held(m, keys, t[0]);
      ListsTail(m, keys, s);
      ListsTail(m, keys, t);
      SnapshotUnique(m, keys - {s[0].0}, s[1..], t[1..]);
      assert s == [s[0]] + s[1..] && t == [t[0]] + t[1..];
    }
  }

  lemma ListsTail(m: Index, keys: set<BlockHash>, s: seq<Entry>)
    requires s != [] && Ascending(s) && Lists(m, keys, s)
    ensures Ascending(s[1..]) && Lists(m, keys - {s[0].0}, s[1..])
  {
    var rest := s[1..];
    forall i | 0 <= i < |rest|
      ensures Held(m, keys - {s[0].0}, rest[i])
    {
      assert Held(m, keys, s[i + 1]);
      AscendingIsDistinct(s, 0, i + 1);
    }
    forall h | h in keys - {s[0].0}
      ensures Listed(rest, h)
    {
      assert Listed(s, h);
      var i :| 0 <= i < |s| && s[i].0 == h;
      assert rest[i - 1].0 == h;
    }
  }

  /** Place one more entry in order. */
  method InsertInOrder(s: seq<Entry>, e: Entry) returns (r: seq<Entry>)
    requires Ascending(s)
    requires forall i :: 0 <= i < |s| ==> s[i].0 != e.0
    ensures Ascending(r)
    ensures exists k :: 0 <= k <= |s| && r == s[..k] + [e] + s[k..]
  {
    var k := 0;
    while k < |s| && TextLess(s[k].0, e.0)
      invariant 0 <= k <= |s|
      invariant forall i :: 0 <= i < k ==> TextLess(s[i].0, e.0)
    {
      k := k + 1;
    }
    r := s[..k] + [e] + s[k..];
    forall j | k <= j < |s|
      ensures TextLess(e.0, s[j].0)
    {
      TextOrder(e.0, s[k].0, s[j].0);
    }
  }

  lemma ListsMore(m: Index, keys: set<BlockHash>, s: seq<Entry>, e: Entry, k: nat)
    requires Lists(m, keys, s) && e.0 in m && m[e.0] == e.1 && k <= |s|
    ensures Lists(m, keys + {e.0}, s[..k] + [e] + s[k..])
  {
    var r := s[..k] + [e] + s[k..];
    assert r[k] == e;
    forall i | 0 <= i < |r|
      ensures Held(m, keys + {e.0}, r[i])
    {
      if i != k {
        var j := if i < k then i else i - 1;
        assert r[i] == s[j] && Held(m, keys, s[j]);
      }
    }
    forall h | h in keys + {e.0}
      ensures Listed(r, h)
    {
      if h != e.0 {
        assert Listed(s, h);
        var i :| 0 <= i < |s| && s[i].0 == h;
        assert r[if i < k then i else i + 1] == s[i];
      }
    }
  }

  // ---- the index -------------------------------------------------------------

  class InMemoryMetadataIndex {
    var entries: Index

    constructor ()
      ensures entries == map[]
    {
      entries := map[];
    }

    method Insert(hash: BlockHash, meta: BlockMeta, now: nat)
      modifies this
      ensures entries == old(entries)[hash := meta.(lastAccessNs := now)]
    {
      entries := entries[hash := meta.(lastAccessNs := now)];
    }

    method GetAndTouch(hash: BlockHash, now: nat) returns (r: Option<BlockMeta>)
      modifies this
      ensures entries.Keys == old(entries).Keys
      ensures hash !in old(entries) ==> r == None && entries == old(entries)
      ensures hash in old(entries) ==>
                && r == Some(old(entries)[hash].(lastAccessNs := now))
                && entries == old(entries)[hash := r.value]
    {
      if hash !in entries {
        return None;
      }
      var touched := entries[hash].(lastAccessNs := now);
      entries := entries[hash := touched];
      return Some(touched);
    }

    method Remove(hash: BlockHash) returns (existed: bool)
      modifies this
      ensures existed <==> hash in old(entries)
      ensures entries == old(entries) - {hash}
    {
      existed := hash in entries;
      entries := entries - {hash};
    }

    method RemoveIfUnchanged(hash: BlockHash, expected: nat) returns (removed: bool)
      modifies this
      ensures removed <==> hash in old(entries) && old(entries)[hash].lastAccessNs == expected
      ensures entries == if removed then old(entries) - {hash} else old(entries)
    {
      if hash in entries && entries[hash].lastAccessNs == expected {
        entries := entries - {hash};
        return true;
      }
      return false;
    }

    method BulkLoad(items: seq<Entry>)
      modifies this
      ensures entries == BulkLoaded(old(entries), items)
    {
      for i := 0 to |items|
        invariant entries == BulkLoaded(old(entries), items[..i])
      {
        assert items[..i + 1][..i] == items[..i];
        var (h, meta) := items[i];
        if h !in entries {
          entries := entries[h := meta];
        }
      }
      assert items[..|items|] == items;
    }

    method LongestPrefixLoop(blocks: seq<BlockHash>) returns (k: nat)
      ensures k == LongestPrefix(entries, blocks)
    {
      k := 0;
      while k < |blocks| && blocks[k] in entries
        invariant k <= |blocks|
        invariant forall i :: 0 <= i < k ==> blocks[i] in entries
      {
        k := k + 1;
      }
      LongestPrefixIff(entries, blocks, k);
    }

    method Entries() returns (s: seq<Entry>)
      ensures IsSnapshot(entries, s)
    {
      s := [];
      var left := entries.Keys;
      assert entries.Keys - left == {};
      while left != {}
        invariant left <= entries.Keys
        invariant Ascending(s) && Lists(entries, entries.Keys - left, s)
        decreases left
      {
        var h :| h in left;
        forall i | 0 <= i < |s|
          ensures s[i].0 != h
        {
          assert Held(entries, entries.Keys - left, s[i]);
        }
        ghost var before := s;
        s := InsertInOrder(s, (h, entries[h]));
        ghost var k :| 0 <= k <= |before| && s == before[..k] + [(h, entries[h])] + before[k..];
        ListsMore(entries, entries.Keys - left, before, (h, entries[h]), k);
        assert entries.Keys - (left - {h}) == (entries.Keys - left) + {h};
        left := left - {h};
      }
      assert entries.Keys - left == entries.Keys;
    }
  }
}
