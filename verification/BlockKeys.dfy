/**
 Names of blocks: the content-addressed block key (ffi.rs), the object key (embed.rs), the
 flat-tier file name (kv_blob_cache.rs), the hex decoders, and the recogniser that bootstrap
 applies to listed object keys.
 */
module BlockKeys {
  import opened Bytes
  import opened Text
  import opened BlockIndex

  const BLOCK_KEY_PREFIX: seq<byte> := Ascii("wombatkv/v1/block/b3=")
  const EQUALS: byte := 61
  const UNDERSCORE: byte := 95

  // ---- hex -----------------------------------------------------------------

  /** Two hex digits per byte, either case. */
  function Unhex(s: seq<byte>): (r: Option<seq<byte>>)
    ensures r.Some? ==> 2 * |r.value| == |s|
  {
    if s == [] then Some([])
    else if |s| == 1 then None
    else match (Nibble(s[0]), Nibble(s[1]), Unhex(s[2..]))
         case (Some(hi), Some(lo), Some(rest)) => Some([16 * hi + lo] + rest)
         case _ => None
  }

  function LowerCase(b: byte): (r: byte) { if 65 <= b <= 90 then b + 32 else b }

  function LowerCased(s: seq<byte>): (r: seq<byte>)
  {
    if s == [] then [] else [LowerCase(s[0])] + LowerCased(s[1..])
  }

  lemma NibbleIff(b: byte, n: nat)
    requires n < 16
    ensures Nibble(b) == Some(n) <==> LowerCase(b) == HexDigit(n)
  {
  }

  lemma PairIff(hi: nat, lo: nat, b: byte)
    requires hi < 16 && lo < 16
    ensures 16 * hi + lo == b <==> hi == b / 16 && lo == b % 16
  {
  }

  /** The decoders undo `{b:02x}`, and accept nothing else up to letter case. */
  lemma {:induction false} UnhexIff(s: seq<byte>, h: seq<byte>)
    ensures Unhex(s) == Some(h) <==> LowerCased(s) == Hex(h)
    decreases |s|
  {
    CasedLength(s);
    if |s| >= 2 && h != [] {
      UnhexIff(s[2..], h[1..]);
      CasedPair(s);
      assert h == [h[0]] + h[1..];
      NibbleIff(s[0], h[0] / 16);
      NibbleIff(s[1], h[0] % 16);
      UnhexPair(s, h);
      if LowerCased(s) == Hex(h) {
        SplitEqual([LowerCase(s[0]), LowerCase(s[1])], LowerCased(s[2..]), [HexDigit(h[0] / 16), HexDigit(h[0] % 16)], Hex(h[1..]));
      }
    }
  }

  lemma {:induction false} CasedLength(s: seq<byte>)
    ensures |LowerCased(s)| == |s|
  {
    if s != [] {
      CasedLength(s[1..]);
    }
  }

  lemma CasedPair(s: seq<byte>)
    requires |s| >= 2
    ensures LowerCased(s) == [LowerCase(s[0]), LowerCase(s[1])] + LowerCased(s[2..])
  {
    assert s[1..][1..] == s[2..];
  }

  lemma UnhexPair(s: seq<byte>, h: seq<byte>)
    requires |s| >= 2 && h != []
    ensures Unhex(s) == Some(h) <==>
              Nibble(s[0]) == Some(h[0] / 16) && Nibble(s[1]) == Some(h[0] % 16) && Unhex(s[2..]) == Some(h[1..])
  {
    assert h == [h[0]] + h[1..];
    if Nibble(s[0]).Some? && Nibble(s[1]).Some? && Unhex(s[2..]).Some? {
      var hi, lo, rest := Nibble(s[0]).value, Nibble(s[1]).value, Unhex(s[2..]).value;
      PairIff(hi, lo, h[0]);
      assert ([16 * hi + lo] + rest)[0] == 16 * hi + lo && ([16 * hi + lo] + rest)[1..] == rest;
    }
  }

  lemma {:induction false} LowerStays(s: seq<byte>)
    requires LowerHex(s)
    ensures LowerCased(s) == s
  {
    if s != [] {
      assert IsLowerHex(s[0]);
      LowerStays(s[1..]);
    }
  }

  /** `parse_block_hash_hex`, and `decode_hex32` likewise. */
  function ParseBlockHash(hex: seq<byte>): (r: Option<BlockHash>)
  {
    if |hex| != 64 then None else Unhex(hex)
  }

  lemma HexParses(h: BlockHash)
    ensures ParseBlockHash(Hex(h)) == Some(h)
  {
    HexIsLower(h);
    LowerStays(Hex(h));
    UnhexIff(Hex(h), h);
  }

  /** The decoding loop, pair by pair. */
  method DecodeHex32(hex: seq<byte>) returns (r: Option<BlockHash>)
    ensures r == ParseBlockHash(hex)
  {
    if |hex| != 64 {
      return None;
    }
    var out: seq<byte> := [];
    assert hex[0..] == hex;
    assert Unhex(hex).Some? ==> [] + Unhex(hex).value == Unhex(hex).value;
    for i := 0 to 32
      invariant |out| == i
      invariant match Unhex(hex[2 * i..])
                case None => Unhex(hex) == None
                case Some(rest) => Unhex(hex) == Some(out + rest)
    {
      var hi, lo := Nibble(hex[2 * i]), Nibble(hex[2 * i + 1]);
      assert hex[2 * i..][2..] == hex[2 * (i + 1)..];
      if hi.None? || lo.None? {
        return None;
      }
      if Unhex(hex[2 * (i + 1)..]).Some? {
        Associative(out, [16 * hi.value + lo.value], Unhex(hex[2 * (i + 1)..]).value);
      }
      out := out + [16 * hi.value + lo.value];
    }
    assert hex[64..] == [] && out + [] == out;
    return Some(out);
  }

  // ---- keys ----------------------------------------------------------------

  /** `block_key_for_hash` */
  function BlockKey(h: BlockHash): (r: seq<byte>)
    ensures |r| == |BLOCK_KEY_PREFIX| + 64
  {
    BLOCK_KEY_PREFIX + Hex(h)
  }

  /** What `object_key` puts before the key. */
  function ObjectBase(s3Prefix: seq<byte>, namespace: seq<byte>): (r: seq<byte>)
    ensures r != [] && r[|r| - 1] == SLASH
  {
    if namespace == [] then s3Prefix + [SLASH] else s3Prefix + [SLASH] + namespace + [SLASH]
  }

  /** `object_key`, which is also the cache key. */
  function ObjectKey(s3Prefix: seq<byte>, namespace: seq<byte>, key: seq<byte>): (r: seq<byte>)
  {
    ObjectBase(s3Prefix, namespace) + key
  }

  lemma BlockKeyInjective(g: BlockHash, h: BlockHash)
    requires BlockKey(g) == BlockKey(h)
    ensures g == h
  {
    SplitEqual(BLOCK_KEY_PREFIX, Hex(g), BLOCK_KEY_PREFIX, Hex(h));
    HexParses(g);
    HexParses(h);
  }

  lemma ObjectKeyInjective(s3Prefix: seq<byte>, namespace: seq<byte>, g: BlockHash, h: BlockHash)
    requires ObjectKey(s3Prefix, namespace, BlockKey(g)) == ObjectKey(s3Prefix, namespace, BlockKey(h))
    ensures g == h
  {
    var base := ObjectBase(s3Prefix, namespace);
    SplitEqual(base, BlockKey(g), base, BlockKey(h));
    BlockKeyInjective(g, h);
  }

  // ---- flat-tier file names --------------------------------------------------

  /** ASCII letters and digits, and `-_.=`. */
  predicate Kept(b: byte)
  {
    48 <= b <= 57 || 65 <= b <= 90 || 97 <= b <= 122 || b == 45 || b == UNDERSCORE || b == 46 || b == EQUALS
  }

  /** An ASCII letter or digit, or one of - _ . = */
  predicate SafeChar(c: scalar)
  {
    || 'A' as int <= c <= 'Z' as int || 'a' as int <= c <= 'z' as int || '0' as int <= c <= '9' as int
    || c == '-' as int || c == '_' as int || c == '.' as int || c == '=' as int
  }

  /** Length of the first character; ill-formed text does not occur in a `str`. */
  function CharWidth(s: seq<byte>): (n: nat)
    requires s != []
    ensures 1 <= n <= |s|
  {
    if HeadWidth(s) == 0 then 1 else HeadWidth(s)
  }

  /** One output character per input character: itself if kept, else an underscore. */
  function Sanitize(s: seq<byte>): (r: seq<byte>)
    decreases |s|
  {
    if s == [] then []
    else [if Kept(s[0]) then s[0] else UNDERSCORE] + Sanitize(s[CharWidth(s)..])
  }

  /** `path_for_key`, relative to the cache root. */
  function FlatName(key: seq<byte>): (r: seq<byte>)
  {
    Sanitize(key) + Ascii(".kv")
  }

  /** Every character becomes one byte: itself if it is kept, else an underscore. */
  lemma {:induction false} SanitizeIs(text: seq<scalar>)
    ensures |Sanitize(Utf8(text))| == |text|
    ensures forall i {:trigger text[i]} :: 0 <= i < |text| ==>
              Sanitize(Utf8(text))[i] as int == if SafeChar(text[i]) then text[i] else '_' as int
  {
    if text != [] {
      var head, rest := Utf8Char(text[0]), Utf8(text[1..]);
      SanitizeIs(text[1..]);
      CharIsHead(text[0], rest);
      assert (head + rest)[|head|..] == rest;
      assert forall i {:trigger text[i]} :: 1 <= i < |text| ==> text[i] == text[1..][i - 1];
    }
  }

  lemma {:induction false} SanitizeConcat(a: seq<byte>, b: seq<byte>)
    requires ValidUtf8(a)
    ensures Sanitize(a + b) == Sanitize(a) + Sanitize(b)
    decreases |a|
  {
    if a == [] {
      assert a + b == b;
    } else {
      var n := HeadWidth(a);
      HeadIsLocal(a, b);
      assert (a + b)[n..] == a[n..] + b;
      SanitizeConcat(a[n..], b);
      Associative([if Kept(a[0]) then a[0] else UNDERSCORE], Sanitize(a[n..]), Sanitize(b));
    }
  }

  lemma {:induction false} Utf8Concat(a: seq<byte>, b: seq<byte>)
    requires ValidUtf8(a) && ValidUtf8(b)
    ensures ValidUtf8(a + b)
    decreases |a|
  {
    if a == [] {
      assert a + b == b;
    } else {
      HeadIsLocal(a, b);
      assert (a + b)[HeadWidth(a)..] == a[HeadWidth(a)..] + b;
      Utf8Concat(a[HeadWidth(a)..], b);
    }
  }

  lemma BaseIsText(s3Prefix: seq<byte>, namespace: seq<byte>)
    requires ValidUtf8(s3Prefix) && ValidUtf8(namespace)
    ensures ValidUtf8(ObjectBase(s3Prefix, namespace) + BLOCK_KEY_PREFIX)
  {
    AsciiIsUtf8([SLASH]);
    AsciiIsUtf8(BLOCK_KEY_PREFIX);
    Utf8Concat(s3Prefix, [SLASH]);
    Utf8Concat(s3Prefix + [SLASH], namespace);
    Utf8Concat(s3Prefix + [SLASH] + namespace, [SLASH]);
    Utf8Concat(ObjectBase(s3Prefix, namespace), BLOCK_KEY_PREFIX);
  }

  lemma HeadIsLocal(a: seq<byte>, b: seq<byte>)
    requires a != [] && HeadWidth(a) > 0
    ensures HeadWidth(a + b) == HeadWidth(a)
  {
    var s := a + b;
    assert forall i :: 0 <= i < |a| ==> s[i] == a[i];
  }

  lemma {:induction false} SanitizeHex(s: seq<byte>)
    requires LowerHex(s)
    ensures Sanitize(s) == s
    decreases |s|
  {
    if s != [] {
      assert IsLowerHex(s[0]);
      SanitizeHex(s[1..]);
    }
  }

  /** Block keys of one namespace have distinct file names. */
  lemma FlatNameInjective(s3Prefix: seq<byte>, namespace: seq<byte>, g: BlockHash, h: BlockHash)
    requires ValidUtf8(s3Prefix) && ValidUtf8(namespace)
    requires FlatName(ObjectKey(s3Prefix, namespace, BlockKey(g))) == FlatName(ObjectKey(s3Prefix, namespace, BlockKey(h)))
    ensures g == h
  {
    var base := ObjectBase(s3Prefix, namespace) + BLOCK_KEY_PREFIX;
    BaseIsText(s3Prefix, namespace);
    BlockFlatName(base, g);
    BlockFlatName(base, h);
    Associative(ObjectBase(s3Prefix, namespace), BLOCK_KEY_PREFIX, Hex(g));
    Associative(ObjectBase(s3Prefix, namespace), BLOCK_KEY_PREFIX, Hex(h));
    SplitEqual(Sanitize(base), Hex(g) + Ascii(".kv"), Sanitize(base), Hex(h) + Ascii(".kv"));
    SplitEqual(Hex(g), Ascii(".kv"), Hex(h), Ascii(".kv"));
    HexParses(g);
    HexParses(h);
  }

  lemma BlockFlatName(base: seq<byte>, h: BlockHash)
    requires ValidUtf8(base)
    ensures FlatName(base + Hex(h)) == Sanitize(base) + (Hex(h) + Ascii(".kv"))
  {
    SanitizeConcat(base, Hex(h));
    HexIsLower(h);
    SanitizeHex(Hex(h));
    Associative(Sanitize(base), Hex(h), Ascii(".kv"));
  }

  /** For arbitrary keys the file name is not injective. */
  lemma FlatNamesCollide()
    ensures Ascii("a/b") != Ascii("a_b") && FlatName(Ascii("a/b")) == FlatName(Ascii("a_b"))
  {
    var x, y := Ascii("a/b"), Ascii("a_b");
    assert x[1] != y[1];
    assert x[1..][1..] == [98] && y[1..][1..] == [98];
    assert CharWidth(x) == 1 && CharWidth(y) == 1 && CharWidth(x[1..]) == 1 && CharWidth(y[1..]) == 1;
    assert Sanitize(x[1..]) == Sanitize(y[1..]);
  }

  // ---- recognising listed object keys ----------------------------------------

  predicate Occurs(s: seq<byte>, pattern: seq<byte>, i: int)
  {
    0 <= i <= |s| && pattern <= s[i..]
  }

  /** `str::find`: the first position at which `pattern` occurs. */
  function FindText(s: seq<byte>, pattern: seq<byte>): (r: Option<nat>)
    ensures r.Some? ==> r.value + |pattern| <= |s|
  {
    if pattern <= s then Some(0)
    else if s == [] then None
    else match FindText(s[1..], pattern)
         case None => None
         case Some(i) => Some(i + 1)
  }

  lemma OccursShifted(s: seq<byte>, pattern: seq<byte>, i: nat)
    requires s != []
    ensures Occurs(s, pattern, i + 1) <==> Occurs(s[1..], pattern, i)
  {
    if i + 1 <= |s| {
      assert s[i + 1..] == s[1..][i..];
    }
  }

  lemma {:induction false} FoundOccurs(s: seq<byte>, pattern: seq<byte>)
    ensures FindText(s, pattern).Some? ==> Occurs(s, pattern, FindText(s, pattern).value)
  {
    if pattern <= s {
      assert s[0..] == s;
    } else if s != [] && FindText(s[1..], pattern).Some? {
      FoundOccurs(s[1..], pattern);
      OccursShifted(s, pattern, FindText(s[1..], pattern).value);
    }
  }

  lemma {:induction false} FoundFirst(s: seq<byte>, pattern: seq<byte>, i: nat)
    requires Occurs(s, pattern, i)
    ensures FindText(s, pattern).Some? && FindText(s, pattern).value <= i
  {
    if i == 0 {
      assert s[0..] == s;
    } else if !(pattern <= s) {
      OccursShifted(s, pattern, i - 1);
      FoundFirst(s[1..], pattern, i - 1);
    }
  }

  /** The search finds an occurrence, and none is further left. */
  lemma FindsFirstOccurrence(s: seq<byte>, pattern: seq<byte>, i: nat)
    ensures FindText(s, pattern).Some? ==> Occurs(s, pattern, FindText(s, pattern).value)
    ensures Occurs(s, pattern, i) ==> FindText(s, pattern).Some? && FindText(s, pattern).value <= i
  {
    FoundOccurs(s, pattern);
    if Occurs(s, pattern, i) {
      FoundFirst(s, pattern, i);
    }
  }

  const BLOCK_KEY_INFIX: seq<byte> := [SLASH] + BLOCK_KEY_PREFIX

  /** The block a listed object key stands for, if bootstrap takes it for one. */
  function Recognise(objectKey: seq<byte>): (r: Option<BlockHash>)
  {
    match FindText(objectKey, BLOCK_KEY_INFIX)
    case None => None
    case Some(i) => ParseBlockHash(objectKey[i + |BLOCK_KEY_INFIX|..])
  }

  /** No occurrence further left than `at`. */
  ghost predicate Leftmost(s: seq<byte>, pattern: seq<byte>, at: nat)
  {
    forall i {:trigger Occurs(s, pattern, i)} :: 0 <= i < at ==> !Occurs(s, pattern, i)
  }

  lemma FoundAtIff(s: seq<byte>, pattern: seq<byte>, at: nat)
    requires Occurs(s, pattern, at)
    ensures FindText(s, pattern).Some? && FindText(s, pattern).value <= at
    ensures FindText(s, pattern).value == at <==> Leftmost(s, pattern, at)
  {
    FindsFirstOccurrence(s, pattern, at);
    var found := FindText(s, pattern).value;
    assert Occurs(s, pattern, found);
    forall i | 0 <= i < at && Occurs(s, pattern, i)
      ensures found < at
    {
      FindsFirstOccurrence(s, pattern, i);
    }
  }

  lemma RecogniseAt(key: seq<byte>, at: nat, h: BlockHash)
    requires at <= |key| && key[at..] == BLOCK_KEY_INFIX + Hex(h)
    ensures Recognise(key) == Some(h) <==> Leftmost(key, BLOCK_KEY_INFIX, at)
  {
    FoundAtIff(key, BLOCK_KEY_INFIX, at);
    var found := FindText(key, BLOCK_KEY_INFIX).value;
    assert |key| == at + |BLOCK_KEY_INFIX| + 64;
    if found == at {
      CutConcat(BLOCK_KEY_INFIX, Hex(h));
      assert key[found + |BLOCK_KEY_INFIX|..] == key[at..][|BLOCK_KEY_INFIX|..];
      HexParses(h);
    }
  }

  /**
   * Bootstrap recognises a stored block as itself exactly when the infix does not already occur
   * further left, in the bucket prefix or the namespace.
   */
  lemma RecogniseIff(s3Prefix: seq<byte>, namespace: seq<byte>, h: BlockHash)
    ensures var key := ObjectKey(s3Prefix, namespace, BlockKey(h));
            Recognise(key) == Some(h) <==> Leftmost(key, BLOCK_KEY_INFIX, |ObjectBase(s3Prefix, namespace)| - 1)
  {
    var base := ObjectBase(s3Prefix, namespace);
    var at := |base| - 1;
    assert base == base[..at] + [SLASH];
    Associative(base[..at], [SLASH], BlockKey(h));
    CutConcat(base[..at], [SLASH] + BlockKey(h));
    Associative([SLASH], BLOCK_KEY_PREFIX, Hex(h));
    RecogniseAt(ObjectKey(s3Prefix, namespace, BlockKey(h)), at, h);
  }

  /** In particular whenever neither the prefix nor the namespace contains an equals sign. */
  lemma RecognisesOwnBlocks(s3Prefix: seq<byte>, namespace: seq<byte>, h: BlockHash)
    requires EQUALS !in s3Prefix && EQUALS !in namespace
    ensures Recognise(ObjectKey(s3Prefix, namespace, BlockKey(h))) == Some(h)
  {
    HexParses(h);
    TailDecides(ObjectBase(s3Prefix, namespace), Hex(h), h);
  }

  lemma OnlyLastIsEquals(k: nat)
    requires k < |BLOCK_KEY_PREFIX| - 1
    ensures BLOCK_KEY_PREFIX[k] != EQUALS
  {
    assert BLOCK_KEY_PREFIX[k] == "wombatkv/v1/block/b3="[k] as int;
  }

  // ---- what else is recognised -------------------------------------------------

  lemma OccurrenceCuts(key: seq<byte>, pattern: seq<byte>, i: nat)
    requires Occurs(key, pattern, i)
    ensures i + |pattern| <= |key| && key[i..] == pattern + key[i + |pattern|..]
  {
    assert key[i..] == key[i..][..|pattern|] + key[i..][|pattern|..];
  }

  /** The hash of a key, if any: 64 hex digits of either case behind the first place where the infix stands. */
  lemma RecogniseExactly(key: seq<byte>, h: BlockHash)
    ensures Recognise(key) == Some(h) <==>
            exists p: nat :: IsFirstInfix(key, p) && LowerCased(key[p + |BLOCK_KEY_INFIX|..]) == Hex(h)
  {
    var found := FindText(key, BLOCK_KEY_INFIX);
    if found.Some? {
      var p := found.value;
      var hex := key[p + |BLOCK_KEY_INFIX|..];
      UnhexIff(hex, h);
      CasedLength(hex);
      forall q: nat | IsFirstInfix(key, q)
        ensures q == p
      {
        FoundAtIff(key, BLOCK_KEY_INFIX, q);
      }
      FoundOccurs(key, BLOCK_KEY_INFIX);
      FoundAtIff(key, BLOCK_KEY_INFIX, p);
      assert IsFirstInfix(key, p);
    } else {
      forall q: nat
        ensures !IsFirstInfix(key, q)
      {
        if Occurs(key, BLOCK_KEY_INFIX, q) {
          FoundAtIff(key, BLOCK_KEY_INFIX, q);
        }
      }
    }
  }

  ghost predicate IsFirstInfix(key: seq<byte>, p: nat)
  {
    Occurs(key, BLOCK_KEY_INFIX, p) && p + |BLOCK_KEY_INFIX| <= |key| && Leftmost(key, BLOCK_KEY_INFIX, p)
  }

  lemma FoundMeans(key: seq<byte>)
    requires Recognise(key).Some?
    ensures var i := FindText(key, BLOCK_KEY_INFIX).value;
            && i + |BLOCK_KEY_INFIX| + 64 == |key|
            && key[i..] == BLOCK_KEY_INFIX + key[|key| - 64..]
            && Unhex(key[|key| - 64..]) == Some(Recognise(key).value)
  {
    var i := FindText(key, BLOCK_KEY_INFIX).value;
    FoundOccurs(key, BLOCK_KEY_INFIX);
    OccurrenceCuts(key, BLOCK_KEY_INFIX, i);
    assert i + |BLOCK_KEY_INFIX| == |key| - 64;
  }

  /** A block's own key is recognised as that block or not at all. */
  lemma OwnKeyIsItsBlock(s3Prefix: seq<byte>, namespace: seq<byte>, h: BlockHash)
    ensures var r := Recognise(ObjectKey(s3Prefix, namespace, BlockKey(h))); r.None? || r == Some(h)
  {
    var key := ObjectKey(s3Prefix, namespace, BlockKey(h));
    if Recognise(key).Some? {
      FoundMeans(key);
      assert key[|key| - 64..] == Hex(h);
      HexParses(h);
    }
  }

  /** The search stops at the end of the namespace's own base, and the hex is lower case. */
  predicate OwnShape(s3Prefix: seq<byte>, namespace: seq<byte>, key: seq<byte>)
  {
    var base := ObjectBase(s3Prefix, namespace);
    base <= key && FindText(key, BLOCK_KEY_INFIX) == Some(|base| - 1) && |key| >= 64 && LowerHex(key[|key| - 64..])
  }

  /** A recognised key is the block's own key in this namespace exactly when it has that shape. */
  lemma RecognisedIsOwnIff(s3Prefix: seq<byte>, namespace: seq<byte>, key: seq<byte>)
    requires Recognise(key).Some?
    ensures key == ObjectKey(s3Prefix, namespace, BlockKey(Recognise(key).value)) <==> OwnShape(s3Prefix, namespace, key)
  {
    var h := Recognise(key).value;
    var base := ObjectBase(s3Prefix, namespace);
    FoundMeans(key);
    if key == ObjectKey(s3Prefix, namespace, BlockKey(h)) {
      assert key[|key| - 64..] == Hex(h);
      HexIsLower(h);
      assert |key| == |base| + |BLOCK_KEY_PREFIX| + 64;
    }
    if OwnShape(s3Prefix, namespace, key) {
      var tail := key[|key| - 64..];
      LowerStays(tail);
      UnhexIff(tail, h);
      OwnFromShape(base, key, tail);
    }
  }

  lemma OwnFromShape(base: seq<byte>, key: seq<byte>, tail: seq<byte>)
    requires base != [] && base[|base| - 1] == SLASH && base <= key
    requires key[|base| - 1..] == BLOCK_KEY_INFIX + tail
    ensures key == base + (BLOCK_KEY_PREFIX + tail)
  {
    var at := |base| - 1;
    assert key == key[..at] + key[at..];
    assert key[..at] == base[..at] && base == base[..at] + [SLASH];
    Associative([SLASH], BLOCK_KEY_PREFIX, tail);
    Associative(base[..at], [SLASH], BLOCK_KEY_PREFIX + tail);
  }

  function Nested(outer: seq<byte>, inner: seq<byte>): (r: seq<byte>)
  {
    if outer == [] then inner else outer + [SLASH] + inner
  }

  lemma BaseNests(s3Prefix: seq<byte>, outer: seq<byte>, inner: seq<byte>)
    requires inner != []
    ensures ObjectBase(s3Prefix, Nested(outer, inner)) == ObjectBase(s3Prefix, outer) + (inner + [SLASH])
  {
    if outer == [] {
      Associative(s3Prefix + [SLASH], inner, [SLASH]);
    } else {
      var p := s3Prefix + [SLASH];
      Associative(p, outer + [SLASH], inner);
      Associative(p, outer, [SLASH]);
      Associative(p + outer + [SLASH], inner, [SLASH]);
    }
  }

  /** The keys of a nested namespace are listed with, and taken for, blocks of the outer one. */
  lemma NestedNamespaceIsTaken(s3Prefix: seq<byte>, outer: seq<byte>, inner: seq<byte>, h: BlockHash)
    requires EQUALS !in s3Prefix && EQUALS !in outer && EQUALS !in inner && inner != []
    ensures var key := ObjectKey(s3Prefix, Nested(outer, inner), BlockKey(h));
            && ObjectBase(s3Prefix, outer) <= key && Recognise(key) == Some(h)
            && key != ObjectKey(s3Prefix, outer, BlockKey(h))
  {
    RecognisesOwnBlocks(s3Prefix, Nested(outer, inner), h);
    BaseNests(s3Prefix, outer, inner);
    ExtendedBase(ObjectBase(s3Prefix, outer), inner + [SLASH], BlockKey(h));
  }

  lemma ExtendedBase(base: seq<byte>, more: seq<byte>, key: seq<byte>)
    requires more != []
    ensures base <= (base + more) + key && (base + more) + key != base + key
  {
    assert |(base + more) + key| > |base + key|;
  }

  lemma {:induction false} UnhexUpper(n: nat)
    ensures Unhex(seq(2 * n, _ => 65)) == Some(seq(n, _ => 170))
  {
    var s: seq<byte> := seq(2 * n, _ => 65);
    if n > 0 {
      UnhexUpper(n - 1);
      assert s[2..] == seq(2 * (n - 1), _ => 65);
      var r: seq<byte> := seq(n, _ => 170);
      assert [170] + seq(n - 1, _ => 170) == r;
    }
  }

  /** Upper-case hex is taken for the block, whose own key is another one. */
  lemma UpperCaseIsTaken(s3Prefix: seq<byte>, namespace: seq<byte>)
    requires EQUALS !in s3Prefix && EQUALS !in namespace
    ensures var h: BlockHash := seq(32, _ => 170);
            var key := ObjectKey(s3Prefix, namespace, BLOCK_KEY_PREFIX + seq(64, _ => 65));
            Recognise(key) == Some(h) && key != ObjectKey(s3Prefix, namespace, BlockKey(h))
  {
    var h: BlockHash := seq(32, _ => 170);
    var upper: seq<byte> := seq(64, _ => 65);
    UnhexUpper(32);
    TailDecides(ObjectBase(s3Prefix, namespace), upper, h);
    HexIsLower(h);
    assert IsLowerHex(Hex(h)[0]) && !IsLowerHex(upper[0]);
    if ObjectKey(s3Prefix, namespace, BLOCK_KEY_PREFIX + upper) == ObjectKey(s3Prefix, namespace, BlockKey(h)) {
      SameTail(ObjectBase(s3Prefix, namespace), upper, Hex(h));
    }
  }

  lemma SameTail(base: seq<byte>, a: seq<byte>, b: seq<byte>)
    requires base + (BLOCK_KEY_PREFIX + a) == base + (BLOCK_KEY_PREFIX + b)
    ensures a == b
  {
    SplitEqual(base, BLOCK_KEY_PREFIX + a, base, BLOCK_KEY_PREFIX + b);
    SplitEqual(BLOCK_KEY_PREFIX, a, BLOCK_KEY_PREFIX, b);
  }

  /** Behind a base without an equals sign, the hex decides. */
  lemma TailDecides(base: seq<byte>, tail: seq<byte>, h: BlockHash)
    requires base != [] && base[|base| - 1] == SLASH && EQUALS !in base
    requires |tail| == 64 && Unhex(tail) == Some(h)
    ensures Recognise(base + (BLOCK_KEY_PREFIX + tail)) == Some(h)
  {
    var key := base + (BLOCK_KEY_PREFIX + tail);
    var at := |base| - 1;
    InfixAt(base, tail);
    FoundAtIff(key, BLOCK_KEY_INFIX, at);
    forall i | 0 <= i < at
      ensures !Occurs(key, BLOCK_KEY_INFIX, i)
    {
      NoOccurrenceBefore(base, tail, i);
    }
  }

  lemma InfixAt(base: seq<byte>, tail: seq<byte>)
    requires base != [] && base[|base| - 1] == SLASH
    ensures var key := base + (BLOCK_KEY_PREFIX + tail);
            Occurs(key, BLOCK_KEY_INFIX, |base| - 1) && key[|base| - 1 + |BLOCK_KEY_INFIX|..] == tail
  {
    var key := base + (BLOCK_KEY_PREFIX + tail);
    var at := |base| - 1;
    assert base == base[..at] + [SLASH];
    assert key[at..] == [SLASH] + (BLOCK_KEY_PREFIX + tail);
    Associative([SLASH], BLOCK_KEY_PREFIX, tail);
    CutConcat(BLOCK_KEY_INFIX, tail);
  }

  lemma NoOccurrenceBefore(base: seq<byte>, tail: seq<byte>, i: nat)
    requires EQUALS !in base && i < |base| - 1
    ensures !Occurs(base + (BLOCK_KEY_PREFIX + tail), BLOCK_KEY_INFIX, i)
  {
    var key := base + (BLOCK_KEY_PREFIX + tail);
    var last := |BLOCK_KEY_INFIX| - 1;
    var j := i + last;
    if j >= |base| {
      OnlyLastIsEquals(j - |base|);
    }
    assert key[j] == if j < |base| then base[j] else BLOCK_KEY_PREFIX[j - |base|];
    assert BLOCK_KEY_INFIX[last] == EQUALS;
    assert |key[i..]| > last ==> key[i..][last] == key[j];
  }
}
