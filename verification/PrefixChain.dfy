/**
 The prefix-chain store (reuse.rs): blocks of tokens are addressed by a hash that is chained
 over the whole prefix, so a flat map behaves like a trie.

 The hash is a parameter.  It is taken to be collision-free on the inputs that are hashed in
 the run at hand, and on nothing else; that these inputs can be told apart is proved.
 */
module PrefixChain {
  import opened Bytes

  type token = u32

  type Hash = seq<byte> -> seq<byte>

  const SEED_DOMAIN: seq<byte> := Ascii("tp-seed-v1")
  const CHAIN_DOMAIN: seq<byte> := Ascii("tp-chain-v1")

  /** Tenant and model fingerprint: whose chain it is. */
  datatype Owner = Owner(tenantId: seq<byte>, fingerprint: seq<byte>) {
    ghost predicate Valid() { |fingerprint| == 32 }
  }

  datatype BlockKey = BlockKey(owner: Owner, prefixHash: seq<byte>, blockIndex: nat)

  datatype LookupResult = LookupResult(matchedBlocks: nat, payloads: seq<seq<byte>>, missingKeys: seq<BlockKey>)

  // ---- hash inputs -----------------------------------------------------

  function TokenBytes(block: seq<token>): (r: seq<byte>)
    ensures |r| == 4 * |block|
  {
    if block == [] then [] else Le(block[0], 4) + TokenBytes(block[1..])
  }

  function SeedInput(owner: Owner): (r: seq<byte>)
  {
    SEED_DOMAIN + (owner.tenantId + owner.fingerprint)
  }

  function MixInput(prev: seq<byte>, data: seq<byte>): (r: seq<byte>)
  {
    CHAIN_DOMAIN + (prev + (Le(|data|, 8) + data))
  }

  lemma TokenInjective(x: token, y: token)
    requires Le(x, 4) == Le(y, 4)
    ensures x == y
  {
    Capacities();
    LeInjective(x, y, 4);
  }

  lemma {:induction false} TokenBytesInjective(a: seq<token>, b: seq<token>)
    requires TokenBytes(a) == TokenBytes(b)
    ensures a == b
  {
    if a != [] && b != [] {
      SplitEqual(Le(a[0], 4), TokenBytes(a[1..]), Le(b[0], 4), TokenBytes(b[1..]));
      TokenInjective(a[0], b[0]);
      TokenBytesInjective(a[1..], b[1..]);
      assert a == [a[0]] + a[1..] && b == [b[0]] + b[1..];
    }
  }

  lemma SeedInputInjective(o: Owner, p: Owner)
    requires o.Valid() && p.Valid() && SeedInput(o) == SeedInput(p)
    ensures o == p
  {
    SplitEqual(SEED_DOMAIN, o.tenantId + o.fingerprint, SEED_DOMAIN, p.tenantId + p.fingerprint);
    SplitEqual(o.tenantId, o.fingerprint, p.tenantId, p.fingerprint);
  }

  lemma MixInputInjective(prev: seq<byte>, data: seq<byte>, prev': seq<byte>, data': seq<byte>)
    requires |prev| == |prev'| && MixInput(prev, data) == MixInput(prev', data')
    ensures prev == prev' && data == data'
  {
    var t, t' := Le(|data|, 8) + data, Le(|data'|, 8) + data';
    SplitEqual(CHAIN_DOMAIN, prev + t, CHAIN_DOMAIN, prev' + t');
    SplitEqual(prev, t, prev', t');
    SplitEqual(Le(|data|, 8), data, Le(|data'|, 8), data');
  }

  /** A seed is never mistaken for a link of a chain. */
  lemma SeedIsNotMix(o: Owner, prev: seq<byte>, data: seq<byte>)
    ensures SeedInput(o) != MixInput(prev, data)
  {
    assert SeedInput(o)[3] == 115 && MixInput(prev, data)[3] == 99;
  }

  // ---- the chain -------------------------------------------------------

  /** What is hashed for a whole prefix: the seed, or the hash before it and its last block. */
  function LinkInput(h: Hash, owner: Owner, blocks: seq<seq<token>>): (r: seq<byte>)
    decreases |blocks|, 0
  {
    if blocks == [] then SeedInput(owner)
    else MixInput(ChainHash(h, owner, blocks[..|blocks| - 1]), TokenBytes(blocks[|blocks| - 1]))
  }

  /** The hash of a whole prefix. */
  function ChainHash(h: Hash, owner: Owner, blocks: seq<seq<token>>): (r: seq<byte>)
    decreases |blocks|, 1
  {
    h(LinkInput(h, owner, blocks))
  }

  /** The hash, and the inputs that it is asked to hash. */
  datatype World = World(h: Hash, inputs: iset<seq<byte>>) {

    ghost predicate Valid()
    {
      && (forall x {:trigger h(x)} :: x in inputs ==> |h(x)| == 32)
      && (forall x, y {:trigger h(x), h(y)} :: x in inputs && y in inputs && h(x) == h(y) ==> x == y)
    }

    /** Every input on the way along this chain is among the inputs. */
    ghost predicate Hashes(owner: Owner, blocks: seq<seq<token>>)
      decreases |blocks|
    {
      && owner.Valid() && LinkInput(h, owner, blocks) in inputs
      && (blocks != [] ==> Hashes(owner, blocks[..|blocks| - 1]))
    }
  }

  lemma DigestLength(w: World, o: Owner, a: seq<seq<token>>)
    requires w.Valid() && w.Hashes(o, a)
    ensures |ChainHash(w.h, o, a)| == 32
  {
  }

  /** The last link of two chains with one hash. */
  lemma SameLink(w: World, o: Owner, a: seq<seq<token>>, x: seq<token>, p: Owner, b: seq<seq<token>>, y: seq<token>)
    requires w.Valid() && w.Hashes(o, a) && w.Hashes(p, b)
    requires MixInput(ChainHash(w.h, o, a), TokenBytes(x)) == MixInput(ChainHash(w.h, p, b), TokenBytes(y))
    ensures ChainHash(w.h, o, a) == ChainHash(w.h, p, b) && x == y
  {
    DigestLength(w, o, a);
    DigestLength(w, p, b);
    MixInputInjective(ChainHash(w.h, o, a), TokenBytes(x), ChainHash(w.h, p, b), TokenBytes(y));
    TokenBytesInjective(x, y);
  }

  /** What equal inputs of the last hash say about the chains. */
  lemma SameLinkInput(w: World, o: Owner, a: seq<seq<token>>, p: Owner, b: seq<seq<token>>)
    requires w.Valid() && w.Hashes(o, a) && w.Hashes(p, b)
    requires LinkInput(w.h, o, a) == LinkInput(w.h, p, b)
    ensures (a == []) == (b == []) && (a == [] ==> o == p)
    ensures a != [] && b != [] ==>
              && a[|a| - 1] == b[|b| - 1]
              && ChainHash(w.h, o, a[..|a| - 1]) == ChainHash(w.h, p, b[..|b| - 1])
  {
    if a == [] && b == [] {
      SeedInputInjective(o, p);
    } else if a == [] {
      SeedIsNotMix(o, ChainHash(w.h, p, b[..|b| - 1]), TokenBytes(b[|b| - 1]));
    } else if b == [] {
      SeedIsNotMix(p, ChainHash(w.h, o, a[..|a| - 1]), TokenBytes(a[|a| - 1]));
    } else {
      SameLink(w, o, a[..|a| - 1], a[|a| - 1], p, b[..|b| - 1], b[|b| - 1]);
    }
  }

  lemma SnocEqual<T>(a: seq<T>, b: seq<T>)
    requires a != [] && b != [] && a[..|a| - 1] == b[..|b| - 1] && a[|a| - 1] == b[|b| - 1]
    ensures a == b
  {
    assert a == a[..|a| - 1] + [a[|a| - 1]];
    assert b == b[..|b| - 1] + [b[|b| - 1]];
  }

  /** Different chains have different hashes, whatever their owners and lengths. */
  lemma {:induction false} ChainHashInjective(w: World, o: Owner, a: seq<seq<token>>, p: Owner, b: seq<seq<token>>)
    requires w.Valid() && w.Hashes(o, a) && w.Hashes(p, b)
    requires ChainHash(w.h, o, a) == ChainHash(w.h, p, b)
    ensures o == p && a == b
    decreases |a|
  {
    SameLinkInput(w, o, a, p, b);
    if a != [] {
      ChainHashInjective(w, o, a[..|a| - 1], p, b[..|b| - 1]);
      SnocEqual(a, b);
    }
  }

  lemma {:induction false} HashesPrefix(w: World, o: Owner, a: seq<seq<token>>, n: nat)
    requires w.Hashes(o, a) && n <= |a|
    ensures w.Hashes(o, a[..n])
    decreases |a|
  {
    if n == |a| {
      assert a[..n] == a;
    } else {
      var front := a[..|a| - 1];
      assert front[..n] == a[..n];
      HashesPrefix(w, o, front, n);
    }
  }

  // ---- the store -------------------------------------------------------

  /** How prefixes are named.  The source names them by `ChainHash`; what follows needs only that names differ. */
  type Naming = (Owner, seq<seq<token>>) -> seq<byte>

  function ByHash(h: Hash): (name: Naming)
  {
    (owner, blocks) => ChainHash(h, owner, blocks)
  }

  type Blocks = map<BlockKey, seq<byte>>

  datatype Publication = Publication(owner: Owner, blocks: seq<seq<token>>, payloads: seq<seq<byte>>) {
    /** `publish_prefix` accepts it. */
    predicate Accepted() { |blocks| == |payloads| <= U32 }
  }

  predicate AllAccepted(log: seq<Publication>) { forall p :: p in log ==> p.Accepted() }

  function KeyAt(name: Naming, owner: Owner, blocks: seq<seq<token>>, i: nat): (k: BlockKey)
    requires i < |blocks|
  {
    BlockKey(owner, name(owner, blocks[..i + 1]), i)
  }

  /** The map after the first `n` insertions of `publish_prefix`. */
  function PublishUpTo(name: Naming, m: Blocks, p: Publication, n: nat): (r: Blocks)
    requires n <= |p.blocks| && n <= |p.payloads|
  {
    if n == 0 then m else PublishUpTo(name, m, p, n - 1)[KeyAt(name, p.owner, p.blocks, n - 1) := p.payloads[n - 1]]
  }

  ghost function StoreAfter(name: Naming, log: seq<Publication>): (r: Blocks)
    requires AllAccepted(log)
  {
    if log == [] then map[]
    else
      var p := log[|log| - 1];
      assert p in log;
      PublishUpTo(name, StoreAfter(name, log[..|log| - 1]), p, |p.blocks|)
  }

  // ---- the specification: a plain trie -----------------------------------

  /** The payload last published for `prefix`, by any publication that runs through it. */
  ghost function LastPayload(log: seq<Publication>, owner: Owner, prefix: seq<seq<token>>): (r: Option<seq<byte>>)
    requires prefix != [] && AllAccepted(log)
  {
    if log == [] then None
    else
      var p := log[|log| - 1];
      assert p in log;
      if p.owner == owner && prefix <= p.blocks then Some(p.payloads[|prefix| - 1])
      else LastPayload(log[..|log| - 1], owner, prefix)
  }

  ghost predicate PublishedPrefix(log: seq<Publication>, owner: Owner, prefix: seq<seq<token>>)
  {
    exists p :: p in log && p.owner == owner && prefix <= p.blocks
  }

  lemma {:induction false} HasPayloadIffPublished(log: seq<Publication>, owner: Owner, prefix: seq<seq<token>>)
    requires prefix != [] && AllAccepted(log)
    ensures LastPayload(log, owner, prefix).Some? <==> PublishedPrefix(log, owner, prefix)
  {
    if log != [] {
      var n := |log| - 1;
      HasPayloadIffPublished(log[..n], owner, prefix);
      assert log == log[..n] + [log[n]];
    }
  }

  /** Names tell known prefixes apart. */
  ghost predicate Separates(name: Naming, known: (Owner, seq<seq<token>>) -> bool)
  {
    forall o, a, p, b {:trigger name(o, a), name(p, b)} ::
      known(o, a) && known(p, b) && name(o, a) == name(p, b) ==> o == p && a == b
  }

  ghost predicate ChainKnown(known: (Owner, seq<seq<token>>) -> bool, owner: Owner, blocks: seq<seq<token>>)
  {
    forall n {:trigger blocks[..n]} :: 0 < n <= |blocks| ==> known(owner, blocks[..n])
  }

  ghost predicate LogKnown(known: (Owner, seq<seq<token>>) -> bool, log: seq<Publication>)
  {
    forall p :: p in log ==> ChainKnown(known, p.owner, p.blocks)
  }

  /** Two keys are the same key exactly when they name the same prefix of the same owner. */
  lemma KeysNamePrefixes(name: Naming, known: (Owner, seq<seq<token>>) -> bool, o: Owner, a: seq<seq<token>>, i: nat, p: Owner, b: seq<seq<token>>, j: nat)
    requires Separates(name, known) && ChainKnown(known, o, a) && ChainKnown(known, p, b) && i < |a| && j < |b|
    ensures KeyAt(name, o, a, i) == KeyAt(name, p, b, j) <==> o == p && a[..i + 1] == b[..j + 1]
  {
  }

  /** What one publication does to the key of a prefix of `q`. */
  lemma {:induction false} PublishWrites(name: Naming, known: (Owner, seq<seq<token>>) -> bool, m: Blocks, p: Publication, n: nat, owner: Owner, q: seq<seq<token>>, i: nat)
    requires Separates(name, known) && ChainKnown(known, p.owner, p.blocks) && ChainKnown(known, owner, q)
    requires p.Accepted() && n <= |p.blocks| && i < |q|
    ensures var k := KeyAt(name, owner, q, i);
            var r := PublishUpTo(name, m, p, n);
            if i < n && p.owner == owner && q[..i + 1] == p.blocks[..i + 1] then k in r && r[k] == p.payloads[i]
            else (k in r <==> k in m) && (k in m ==> r[k] == m[k])
    decreases n
  {
    if n > 0 {
      PublishWrites(name, known, m, p, n - 1, owner, q, i);
      KeysNamePrefixes(name, known, owner, q, i, p.owner, p.blocks, n - 1);
      if i != n - 1 {
        assert |q[..i + 1]| != |p.blocks[..n]|;
      }
    }
  }

  lemma PrefixIff<T>(q: seq<T>, n: nat, b: seq<T>)
    requires n <= |q|
    ensures q[..n] <= b <==> n <= |b| && q[..n] == b[..n]
  {
  }

  /** The flat map is the trie. */
  lemma {:induction false} StoreIsTrie(name: Naming, known: (Owner, seq<seq<token>>) -> bool, log: seq<Publication>, owner: Owner, q: seq<seq<token>>, i: nat)
    requires Separates(name, known) && LogKnown(known, log) && ChainKnown(known, owner, q) && i < |q|
    requires AllAccepted(log)
    ensures var k := KeyAt(name, owner, q, i);
            var m := StoreAfter(name, log);
            LastPayload(log, owner, q[..i + 1]) == if k in m then Some(m[k]) else None
    decreases |log|
  {
    if log != [] {
      var n := |log| - 1;
      assert log[n] in log;
      StoreIsTrie(name, known, log[..n], owner, q, i);
      PrefixIff(q, i + 1, log[n].blocks);
      PublishWrites(name, known, StoreAfter(name, log[..n]), log[n], |log[n].blocks|, owner, q, i);
    }
  }

  // ---- lookup ----------------------------------------------------------

  /** `lookup_prefix`, after the first `n` hashes. */
  function LookupUpTo(name: Naming, m: Blocks, owner: Owner, q: seq<seq<token>>, n: nat): (r: LookupResult)
    requires n <= |q|
    decreases n
  {
    if n == 0 then LookupResult(0, [], [])
    else
      var r := LookupUpTo(name, m, owner, q, n - 1);
      var k := KeyAt(name, owner, q, n - 1);
      if r.missingKeys == [] && k in m then LookupResult(r.matchedBlocks + 1, r.payloads + [m[k]], [])
      else r.(missingKeys := r.missingKeys + [k])
  }

  function Lookup(name: Naming, m: Blocks, owner: Owner, q: seq<seq<token>>): (r: LookupResult)
  {
    LookupUpTo(name, m, owner, q, |q|)
  }

  ghost predicate LookupShape(name: Naming, m: Blocks, owner: Owner, q: seq<seq<token>>, n: nat, r: LookupResult)
    requires n <= |q|
  {
    && r.matchedBlocks <= n
    && |r.payloads| == r.matchedBlocks
    && (forall i :: 0 <= i < r.matchedBlocks ==> KeyAt(name, owner, q, i) in m && r.payloads[i] == m[KeyAt(name, owner, q, i)])
    && (r.matchedBlocks < n ==> KeyAt(name, owner, q, r.matchedBlocks) !in m)
    && |r.missingKeys| == n - r.matchedBlocks
    && (forall i :: r.matchedBlocks <= i < n ==> r.missingKeys[i - r.matchedBlocks] == KeyAt(name, owner, q, i))
  }

  lemma {:induction false} LookupScans(name: Naming, m: Blocks, owner: Owner, q: seq<seq<token>>, n: nat)
    requires n <= |q|
    ensures LookupShape(name, m, owner, q, n, LookupUpTo(name, m, owner, q, n))
    decreases n
  {
    if n > 0 {
      LookupScans(name, m, owner, q, n - 1);
    }
  }

  lemma MatchedIffPublished(name: Naming, known: (Owner, seq<seq<token>>) -> bool, log: seq<Publication>, owner: Owner, q: seq<seq<token>>, n: nat)
    requires Separates(name, known) && LogKnown(known, log) && ChainKnown(known, owner, q) && 0 < n <= |q|
    requires AllAccepted(log)
    ensures PublishedPrefix(log, owner, q[..n]) <==> n <= Lookup(name, StoreAfter(name, log), owner, q).matchedBlocks
  {
    var m := StoreAfter(name, log);
    var r := Lookup(name, m, owner, q);
    LookupScans(name, m, owner, q, |q|);
    if n <= r.matchedBlocks {
      HasPayloadIffPublished(log, owner, q[..n]);
      StoreIsTrie(name, known, log, owner, q, n - 1);
      assert q[..n - 1 + 1] == q[..n];
    } else {
      var cut := r.matchedBlocks + 1;
      HasPayloadIffPublished(log, owner, q[..cut]);
      StoreIsTrie(name, known, log, owner, q, r.matchedBlocks);
      PrefixesPublished(log, owner, q, cut, n);
    }
  }

  /** What is published is published with all its prefixes. */
  lemma PrefixesPublished(log: seq<Publication>, owner: Owner, q: seq<seq<token>>, m: nat, n: nat)
    requires m <= n <= |q|
    ensures PublishedPrefix(log, owner, q[..n]) ==> PublishedPrefix(log, owner, q[..m])
  {
    if PublishedPrefix(log, owner, q[..n]) {
      var p :| p in log && p.owner == owner && q[..n] <= p.blocks;
      assert q[..m] <= q[..n];
    }
  }

  /** The answer of a plain trie. */
  ghost predicate TrieAnswer(name: Naming, log: seq<Publication>, owner: Owner, q: seq<seq<token>>, r: LookupResult)
    requires AllAccepted(log)
  {
    // The longest prefix of the query that a publication of the owner runs through.
    && r.matchedBlocks <= |q|
    && (forall n {:trigger q[..n]} :: 0 < n <= |q| ==> (PublishedPrefix(log, owner, q[..n]) <==> n <= r.matchedBlocks))
    // For each of its blocks, the payload last published.
    && |r.payloads| == r.matchedBlocks
    && (forall i :: 0 <= i < r.matchedBlocks ==> LastPayload(log, owner, q[..i + 1]) == Some(r.payloads[i]))
    // The keys of the rest, in order.
    && |r.missingKeys| == |q| - r.matchedBlocks
    && (forall i :: r.matchedBlocks <= i < |q| ==> r.missingKeys[i - r.matchedBlocks] == KeyAt(name, owner, q, i))
  }

  lemma LookupAnswersAsTrie(name: Naming, known: (Owner, seq<seq<token>>) -> bool, log: seq<Publication>, owner: Owner, q: seq<seq<token>>)
    requires Separates(name, known) && LogKnown(known, log) && ChainKnown(known, owner, q)
    requires AllAccepted(log)
    ensures TrieAnswer(name, log, owner, q, Lookup(name, StoreAfter(name, log), owner, q))
  {
    var m := StoreAfter(name, log);
    var r := Lookup(name, m, owner, q);
    LookupScans(name, m, owner, q, |q|);
    forall i | 0 <= i < r.matchedBlocks
      ensures LastPayload(log, owner, q[..i + 1]) == Some(r.payloads[i])
    {
      StoreIsTrie(name, known, log, owner, q, i);
    }
    forall n | 0 < n <= |q|
      ensures PublishedPrefix(log, owner, q[..n]) <==> n <= r.matchedBlocks
    {
      MatchedIffPublished(name, known, log, owner, q, n);
    }
  }

  lemma HashesSeparate(w: World)
    requires w.Valid()
    ensures Separates(ByHash(w.h), (o, a) => w.Hashes(o, a))
  {
    var name := ByHash(w.h);
    forall o, a, p, b | w.Hashes(o, a) && w.Hashes(p, b) && name(o, a) == name(p, b)
      ensures o == p && a == b
    {
      ChainHashInjective(w, o, a, p, b);
    }
  }

  lemma HashesAlong(w: World, owner: Owner, blocks: seq<seq<token>>)
    requires w.Hashes(owner, blocks)
    ensures ChainKnown((o, a) => w.Hashes(o, a), owner, blocks)
  {
    forall n | 0 < n <= |blocks|
      ensures w.Hashes(owner, blocks[..n])
    {
      HashesPrefix(w, owner, blocks, n);
    }
  }

  /**
   After any log of accepted publications, a lookup in the hashed map answers as the trie does,
   provided the hash does not collide on the inputs of the published and queried chains.
   */
  lemma LookupIsTrieLookup(w: World, log: seq<Publication>, owner: Owner, q: seq<seq<token>>)
    requires w.Valid() && AllAccepted(log)
    requires w.Hashes(owner, q) && forall p :: p in log ==> w.Hashes(p.owner, p.blocks)
    ensures TrieAnswer(ByHash(w.h), log, owner, q, Lookup(ByHash(w.h), StoreAfter(ByHash(w.h), log), owner, q))
  {
    HashesSeparate(w);
    HashesAlong(w, owner, q);
    forall p | p in log
      ensures ChainKnown((o, a) => w.Hashes(o, a), p.owner, p.blocks)
    {
      HashesAlong(w, p.owner, p.blocks);
    }
    LookupAnswersAsTrie(ByHash(w.h), (o, a) => w.Hashes(o, a), log, owner, q);
  }

  // ---- the source's own loops ------------------------------------------

  lemma NextLink(h: Hash, owner: Owner, blocks: seq<seq<token>>, n: nat)
    requires n < |blocks|
    ensures ByHash(h)(owner, blocks[..n + 1]) == h(MixInput(ByHash(h)(owner, blocks[..n]), TokenBytes(blocks[n])))
  {
    var a := blocks[..n + 1];
    assert a[..|a| - 1] == blocks[..n] && a[|a| - 1] == blocks[n];
    assert LinkInput(h, owner, a) == MixInput(ChainHash(h, owner, blocks[..n]), TokenBytes(blocks[n]));
  }

  /** `chained_prefix_hashes`: one running hash over the blocks. */
  method ChainedPrefixHashes(h: Hash, owner: Owner, blocks: seq<seq<token>>) returns (out: seq<seq<byte>>)
    ensures |out| == |blocks|
    ensures forall i :: 0 <= i < |blocks| ==> out[i] == ByHash(h)(owner, blocks[..i + 1])
  {
    ghost var name := ByHash(h);
    var current := h(SeedInput(owner));
    assert current == name(owner, []) && blocks[..0] == [];
    out := [];
    for n := 0 to |blocks|
      invariant current == name(owner, blocks[..n])
      invariant |out| == n && forall i :: 0 <= i < n ==> out[i] == name(owner, blocks[..i + 1])
    {
      NextLink(h, owner, blocks, n);
      current := h(MixInput(current, TokenBytes(blocks[n])));
      out := out + [current];
    }
  }

  datatype PublishError = LengthMismatch | IndexOverflow

  class InMemoryKvStore {
    var blocks: Blocks

    constructor ()
      ensures blocks == map[]
    {
      blocks := map[];
    }

    /** On an index overflow the blocks before it have been published. */
    method PublishPrefix(h: Hash, p: Publication) returns (r: Result<(), PublishError>)
      modifies this
      ensures r == if |p.blocks| != |p.payloads| then Err(LengthMismatch)
                   else if |p.blocks| > 0x1_0000_0000 then Err(IndexOverflow) else Ok(())
      ensures r == Err(LengthMismatch) ==> blocks == old(blocks)
      ensures r.Ok? ==> blocks == PublishUpTo(ByHash(h), old(blocks), p, |p.blocks|)
      ensures r == Err(IndexOverflow) ==> blocks == PublishUpTo(ByHash(h), old(blocks), p, U32)
    {
      if |p.blocks| != |p.payloads| {
        return Err(LengthMismatch);
      }
      var hashes := ChainedPrefixHashes(h, p.owner, p.blocks);
      for index := 0 to |hashes|
        invariant index <= U32
        invariant blocks == PublishUpTo(ByHash(h), old(blocks), p, index)
      {
        if index >= U32 {
          return Err(IndexOverflow);
        }
        blocks := blocks[BlockKey(p.owner, hashes[index], index) := p.payloads[index]];
      }
      return Ok(());
    }

    method LookupPrefix(h: Hash, owner: Owner, q: seq<seq<token>>) returns (r: LookupResult)
      requires |q| <= U32
      ensures r == Lookup(ByHash(h), blocks, owner, q)
    {
      var hashes := ChainedPrefixHashes(h, owner, q);
      var payloads: seq<seq<byte>>, missingKeys: seq<BlockKey>, matchedBlocks := [], [], 0;
      for index := 0 to |hashes|
        invariant LookupResult(matchedBlocks, payloads, missingKeys) == LookupUpTo(ByHash(h), blocks, owner, q, index)
      {
        var key := BlockKey(owner, hashes[index], index);
        if missingKeys == [] {
          if key in blocks {
            payloads := payloads + [blocks[key]];
            matchedBlocks := matchedBlocks + 1;
          } else {
            missingKeys := missingKeys + [key];
          }
        } else {
          missingKeys := missingKeys + [key];
        }
      }
      r := LookupResult(matchedBlocks, payloads, missingKeys);
    }
  }
}
