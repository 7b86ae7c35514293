/**
 Text as its UTF-8 bytes: the well-formedness test of `str::from_utf8`, decimal
 formatting and parsing, lower-case hex, and `str::lines`.
 */
module Text {
  import opened Bytes

  const NUL: byte := 0
  const LF: byte := 10
  const CR: byte := 13
  const PLUS: byte := 43
  const SLASH: byte := 47

  // ---- UTF-8 -----------------------------------------------------------

  predicate Continuation(b: byte) { 0x80 <= b <= 0xBF }

  /** Number of bytes of the well-formed UTF-8 sequence at the head of `s`; 0 when ill-formed. */
  function HeadWidth(s: seq<byte>): (n: nat)
    requires s != []
    ensures n <= |s| && n <= 4
  {
    var b := s[0];
    if b < 0x80 then 1
    else if 0xC2 <= b <= 0xDF && |s| >= 2 && Continuation(s[1]) then 2
    else if 0xE0 <= b <= 0xEF && |s| >= 3 && Continuation(s[1]) && Continuation(s[2])
            && (b == 0xE0 ==> s[1] >= 0xA0) && (b == 0xED ==> s[1] <= 0x9F) then 3
    else if 0xF0 <= b <= 0xF4 && |s| >= 4 && Continuation(s[1]) && Continuation(s[2]) && Continuation(s[3])
            && (b == 0xF0 ==> s[1] >= 0x90) && (b == 0xF4 ==> s[1] <= 0x8F) then 4
    else 0
  }

  predicate ValidUtf8(s: seq<byte>)
    decreases |s|
  {
    s == [] || (HeadWidth(s) > 0 && ValidUtf8(s[HeadWidth(s)..]))
  }

  predicate IsAscii(s: seq<byte>) { forall i :: 0 <= i < |s| ==> s[i] < 0x80 }

  lemma {:induction false} AsciiIsUtf8(s: seq<byte>)
    requires IsAscii(s)
    ensures ValidUtf8(s)
  {
    if s != [] {
      AsciiIsUtf8(s[1..]);
    }
  }

  /** A Unicode scalar value. */
  type scalar = c: int | 0 <= c < 0xD800 || 0xE000 <= c < 0x110000

  /** The UTF-8 bytes of one character (section 3 of RFC 3629). */
  function Utf8Char(c: scalar): (r: seq<byte>)
    ensures 1 <= |r| <= 4
  {
    if c < 0x80 then [c]
    else
      var last, high := 0x80 + c % 0x40, c / 0x40;
      if c < 0x800 then [0xC0 + high, last]
      else if c < 0x10000 then [0xE0 + high / 0x40, 0x80 + high % 0x40, last]
      else [0xF0 + high / 0x40 / 0x40, 0x80 + high / 0x40 % 0x40, 0x80 + high % 0x40, last]
  }

  function Utf8(text: seq<scalar>): (r: seq<byte>)
  {
    if text == [] then [] else Utf8Char(text[0]) + Utf8(text[1..])
  }

  lemma CharIsHead(c: scalar, rest: seq<byte>)
    ensures HeadWidth(Utf8Char(c) + rest) == |Utf8Char(c)|
  {
    var s, high := Utf8Char(c) + rest, c / 0x40;
    if c < 0x800 {
      assert c >= 0x80 ==> s[1] == 0x80 + c % 0x40;
    } else if c < 0x10000 {
      assert s[1] == 0x80 + high % 0x40 && s[2] == 0x80 + c % 0x40;
    } else {
      assert s[1] == 0x80 + high / 0x40 % 0x40 && s[2] == 0x80 + high % 0x40 && s[3] == 0x80 + c % 0x40;
    }
  }

  /** A value from its bits above the last six and a continuation byte. */
  function Shifted(high: nat, last: byte): (n: nat)
    requires Continuation(last)
    ensures n / 0x40 == high && n % 0x40 == last - 0x80
  {
    0x40 * high + (last - 0x80)
  }

  lemma HeadIsChar(s: seq<byte>) returns (c: scalar)
    requires s != [] && HeadWidth(s) > 0
    ensures Utf8Char(c) == s[..HeadWidth(s)]
  {
    var w := HeadWidth(s);
    if w == 1 {
      c := s[0];
    } else if w == 2 {
      c := Shifted(s[0] - 0xC0, s[1]);
    } else if w == 3 {
      c := ThreeBytes(s[0], s[1], s[2]);
    } else {
      c := FourBytes(s[0], s[1], s[2], s[3]);
    }
  }

  lemma ThreeBytes(a: byte, b: byte, d: byte) returns (c: scalar)
    requires 0xE0 <= a <= 0xEF && Continuation(b) && Continuation(d)
    requires (a == 0xE0 ==> b >= 0xA0) && (a == 0xED ==> b <= 0x9F)
    ensures Utf8Char(c) == [a, b, d]
  {
    c := Shifted(Shifted(a - 0xE0, b), d);
  }

  lemma FourBytes(a: byte, b: byte, d: byte, e: byte) returns (c: scalar)
    requires 0xF0 <= a <= 0xF4 && Continuation(b) && Continuation(d) && Continuation(e)
    requires (a == 0xF0 ==> b >= 0x90) && (a == 0xF4 ==> b <= 0x8F)
    ensures Utf8Char(c) == [a, b, d, e]
  {
    c := Shifted(Shifted(Shifted(a - 0xF0, b), d), e);
  }

  lemma {:induction false} TextIsValid(text: seq<scalar>)
    ensures ValidUtf8(Utf8(text))
  {
    if text != [] {
      var head, rest := Utf8Char(text[0]), Utf8(text[1..]);
      TextIsValid(text[1..]);
      CharIsHead(text[0], rest);
      assert (head + rest)[|head|..] == rest;
    }
  }

  lemma {:induction false} ValidIsText(s: seq<byte>) returns (text: seq<scalar>)
    requires ValidUtf8(s)
    ensures Utf8(text) == s
    decreases |s|
  {
    if s == [] {
      text := [];
    } else {
      var c := HeadIsChar(s);
      var rest := ValidIsText(s[HeadWidth(s)..]);
      text := [c] + rest;
      assert text[1..] == rest;
      assert s == s[..HeadWidth(s)] + s[HeadWidth(s)..];
    }
  }

  /** Exactly the encodings of texts are valid. */
  lemma ValidUtf8Iff(s: seq<byte>)
    ensures ValidUtf8(s) <==> exists text :: Utf8(text) == s
  {
    if ValidUtf8(s) {
      var text := ValidIsText(s);
    } else if text :| Utf8(text) == s {
      TextIsValid(text);
    }
  }

  // ---- decimal ---------------------------------------------------------

  predicate IsDigit(b: byte) { 48 <= b <= 57 }

  predicate AllDigits(s: seq<byte>) { forall i :: 0 <= i < |s| ==> IsDigit(s[i]) }

  /** `{n}` */
  function Decimal(n: nat): (s: seq<byte>)
    ensures s != [] && AllDigits(s)
  {
    if n < 10 then [48 + n] else Decimal(n / 10) + [48 + n % 10]
  }

  /** The value of a digit string, most significant digit first. */
  function DecimalValue(s: seq<byte>): (n: nat)
    requires AllDigits(s)
  {
    if s == [] then 0 else 10 * DecimalValue(s[..|s| - 1]) + (s[|s| - 1] - 48)
  }

  lemma {:induction false} DecimalParses(n: nat)
    ensures DecimalValue(Decimal(n)) == n
  {
    if n >= 10 {
      DecimalParses(n / 10);
      assert Decimal(n)[..|Decimal(n)| - 1] == Decimal(n / 10);
    }
  }

  function Pow10(k: nat): (n: nat) { if k == 0 then 1 else 10 * Pow10(k - 1) }

  lemma {:induction false} DigitCount(n: nat, k: nat)
    requires k > 0 && n < Pow10(k)
    ensures |Decimal(n)| <= k
  {
    if n >= 10 {
      assert n / 10 < Pow10(k - 1);
      DigitCount(n / 10, k - 1);
    }
  }

  lemma TwentyDigits()
    ensures U64 <= Pow10(20)
  {
    assert Pow10(5) == 100000;
    assert Pow10(10) == 100000 * Pow10(5);
    assert Pow10(15) == 100000 * Pow10(10);
    assert Pow10(20) == 100000 * Pow10(15);
  }

  function Zeros(n: nat): (s: seq<byte>)
    ensures |s| == n && AllDigits(s)
  {
    seq(n, i => 48)
  }

  lemma {:induction false} LeadingZeros(n: nat, s: seq<byte>)
    requires AllDigits(s)
    ensures DecimalValue(Zeros(n) + s) == DecimalValue(s)
    decreases n + |s|
  {
    var t := Zeros(n) + s;
    if s != [] {
      LeadingZeros(n, s[..|s| - 1]);
      assert t[..|t| - 1] == Zeros(n) + s[..|s| - 1];
    } else if n > 0 {
      LeadingZeros(n - 1, []);
      assert t[..|t| - 1] == Zeros(n - 1) + [];
    }
  }

  /** `{n:08}` */
  function Decimal8(n: nat): (s: seq<byte>)
    ensures AllDigits(s)
  {
    var d := Decimal(n);
    if |d| < 8 then Zeros(8 - |d|) + d else d
  }

  /** The digits of `n` behind just enough zeros to make eight. */
  lemma Decimal8Is(n: nat)
    ensures |Decimal8(n)| == if |Decimal(n)| < 8 then 8 else |Decimal(n)|
    ensures exists k: nat {:trigger Zeros(k)} :: Decimal8(n) == Zeros(k) + Decimal(n)
  {
    if |Decimal(n)| >= 8 {
      assert Decimal8(n) == Zeros(0) + Decimal(n);
    }
  }

  lemma Decimal8Parses(n: nat)
    ensures DecimalValue(Decimal8(n)) == n
  {
    DecimalParses(n);
    var d := Decimal(n);
    if |d| < 8 {
      LeadingZeros(8 - |d|, d);
    }
  }

  /** `str::parse::<usize>` on a 64-bit host: an optional plus sign, then digits, then the range check. */
  function ParseUsize(s: seq<byte>): (r: Option<nat>)
  {
    var digits := if s != [] && s[0] == PLUS then s[1..] else s;
    if digits == [] || !AllDigits(digits) || DecimalValue(digits) >= U64 then None
    else Some(DecimalValue(digits))
  }

  lemma DecimalIsUsize(n: nat)
    requires n < U64
    ensures ParseUsize(Decimal(n)) == Some(n)
  {
    DecimalParses(n);
    assert IsDigit(Decimal(n)[0]);
  }

  /** The decimal digits of `n`, with any number of leading zeros. */
  ghost predicate Spells(s: seq<byte>, n: nat)
  {
    exists k: nat {:trigger Zeros(k)} :: s == Zeros(k) + Decimal(n)
  }

  /** The same, with an optional plus sign. */
  ghost predicate IsNumeral(s: seq<byte>, n: nat)
  {
    Spells(s, n) || (s != [] && s[0] == PLUS && Spells(s[1..], n))
  }

  lemma {:induction false} DigitsSpell(s: seq<byte>) returns (k: nat)
    requires s != [] && AllDigits(s)
    ensures s == Zeros(k) + Decimal(DecimalValue(s))
  {
    var n := |s| - 1;
    var front := s[..n];
    if n == 0 {
      k := 0;
      assert DecimalValue(s) == s[0] - 48;
      assert s == Zeros(0) + [s[0]];
    } else {
      k := DigitsSpell(front);
      assert s == front + [s[n]];
      k := SpellsMore(k, DecimalValue(front), s[n]);
    }
  }

  lemma SpellsMore(k: nat, v: nat, digit: byte) returns (l: nat)
    requires IsDigit(digit)
    ensures (Zeros(k) + Decimal(v)) + [digit] == Zeros(l) + Decimal(10 * v + (digit - 48))
  {
    var d := digit - 48;
    assert (10 * v + d) / 10 == v && (10 * v + d) % 10 == d;
    l := if v == 0 then k + 1 else k;
  }

  lemma SpellsIff(s: seq<byte>, n: nat)
    ensures Spells(s, n) <==> s != [] && AllDigits(s) && DecimalValue(s) == n
  {
    if s != [] && AllDigits(s) && DecimalValue(s) == n {
      var k := DigitsSpell(s);
    } else if Spells(s, n) {
      var k: nat :| s == Zeros(k) + Decimal(n);
      LeadingZeros(k, Decimal(n));
      DecimalParses(n);
    }
  }

  lemma NoSignIsDigit(s: seq<byte>, n: nat)
    requires Spells(s, n)
    ensures s != [] && s[0] != PLUS
  {
    SpellsIff(s, n);
  }

  /** What `str::parse::<usize>` accepts, and as which number. */
  lemma ParseUsizeIff(s: seq<byte>, n: nat)
    ensures ParseUsize(s) == Some(n) <==> n < U64 && IsNumeral(s, n)
  {
    var signed := s != [] && s[0] == PLUS;
    var digits := if signed then s[1..] else s;
    assert IsNumeral(s, n) <==> Spells(digits, n) by {
      if Spells(s, n) {
        NoSignIsDigit(s, n);
      }
    }
    SpellsIff(digits, n);
  }

  lemma NumeralIsLine(s: seq<byte>, n: nat)
    requires IsNumeral(s, n)
    ensures s != [] && LF !in s && CR !in s
  {
    SpellsIff(s, n);
    if s != [] && s[0] == PLUS {
      SpellsIff(s[1..], n);
      assert s == [PLUS] + s[1..];
    }
  }

  // ---- hex -------------------------------------------------------------

  function HexDigit(n: nat): (b: byte)
    requires n < 16
  {
    if n < 10 then 48 + n else 87 + n
  }

  /** `{b:02x}` for every byte. */
  function Hex(s: seq<byte>): (r: seq<byte>)
    ensures |r| == 2 * |s|
  {
    if s == [] then [] else [HexDigit(s[0] / 16), HexDigit(s[0] % 16)] + Hex(s[1..])
  }

  function Nibble(b: byte): (r: Option<nat>)
    ensures r.Some? ==> r.value < 16
  {
    if 48 <= b <= 57 then Some(b - 48)
    else if 97 <= b <= 102 then Some(b - 87)
    else if 65 <= b <= 70 then Some(b - 55)
    else None
  }

  predicate IsLowerHex(b: byte) { 48 <= b <= 57 || 97 <= b <= 102 }

  predicate LowerHex(s: seq<byte>) { forall i :: 0 <= i < |s| ==> IsLowerHex(s[i]) }

  lemma {:induction false} HexIsLower(s: seq<byte>)
    ensures LowerHex(Hex(s))
  {
    if s != [] {
      HexIsLower(s[1..]);
    }
  }

  // ---- lines -----------------------------------------------------------

  /** Index of the first `b` in `s`. */
  function Find(s: seq<byte>, b: byte): (r: Option<nat>)
    ensures r.Some? ==> r.value < |s| && s[r.value] == b && b !in s[..r.value]
    ensures r.None? ==> b !in s
  {
    if s == [] then None
    else if s[0] == b then Some(0)
    else
      assert s == [s[0]] + s[1..];
      match Find(s[1..], b)
      case None => None
      case Some(i) =>
        assert s[..i + 1] == [s[0]] + s[1..][..i];
        Some(i + 1)
  }

  /** One step of `str::lines`: the next line and what follows it. */
  function NextLine(s: seq<byte>): (r: Option<(seq<byte>, seq<byte>)>)
  {
    if s == [] then None
    else match Find(s, LF)
         case None => Some((s, []))
         case Some(i) =>
           var line := s[..i];
           var line := if line != [] && line[|line| - 1] == CR then line[..|line| - 1] else line;
           Some((line, s[i + 1..]))
  }

  predicate EndsInCr(line: seq<byte>) { line != [] && line[|line| - 1] == CR }

  /** `s` is `line`, then a line end and `rest`, or nothing more: LF ends a line, and takes one CR before it along. */
  predicate IsLine(s: seq<byte>, line: seq<byte>, rest: seq<byte>)
  {
    && LF !in line
    && (|| (s == line + ([LF] + rest) && !EndsInCr(line))
        || s == line + ([CR, LF] + rest)
        || (s == line && line != [] && rest == []))
  }

  lemma {:induction false} FindsAt(s: seq<byte>, b: byte, i: nat)
    requires i < |s| && s[i] == b && b !in s[..i]
    ensures Find(s, b) == Some(i)
  {
    if i > 0 {
      assert s[0] == s[..i][0];
      assert forall j {:trigger s[1..][j]} :: 0 <= j < i - 1 ==> s[1..][j] == s[..i][j + 1];
      FindsAt(s[1..], b, i - 1);
    }
  }

  /** The lines of a text, without naming how they are looked for. */
  lemma NextLineIff(s: seq<byte>, line: seq<byte>, rest: seq<byte>)
    ensures NextLine(s) == Some((line, rest)) <==> IsLine(s, line, rest)
  {
    if IsLine(s, line, rest) {
      LineIsNext(s, line, rest);
    } else if NextLine(s) == Some((line, rest)) {
      NextIsLine(s);
    }
  }

  lemma NextIsLine(s: seq<byte>)
    requires s != []
    ensures IsLine(s, NextLine(s).value.0, NextLine(s).value.1)
  {
    if Find(s, LF).Some? {
      var i := Find(s, LF).value;
      var (line, rest) := NextLine(s).value;
      assert s == s[..i] + ([LF] + rest);
      if EndsInCr(s[..i]) {
        assert s[..i] == line + [CR];
        assert s == line + ([CR, LF] + rest);
        assert forall j :: 0 <= j < |line| ==> line[j] == s[..i][j];
      }
    }
  }

  lemma LineIsNext(s: seq<byte>, line: seq<byte>, rest: seq<byte>)
    requires IsLine(s, line, rest)
    ensures NextLine(s) == Some((line, rest))
  {
    if s == line + ([LF] + rest) && !EndsInCr(line) {
      assert s[..|line|] == line && s[|line|] == LF && s[|line| + 1..] == rest;
      FindsAt(s, LF, |line|);
    } else if s == line + ([CR, LF] + rest) {
      assert s[..|line| + 1] == line + [CR] && s[|line| + 1] == LF && s[|line| + 2..] == rest;
      FindsAt(s, LF, |line| + 1);
    }
  }

  /** A line without terminators, followed by a line feed, is read back whole. */
  lemma LineReadsBack(line: seq<byte>, rest: seq<byte>)
    requires LF !in line && CR !in line
    ensures NextLine(line + [LF] + rest) == Some((line, rest))
  {
    Associative(line, [LF], rest);
    NextLineIff(line + [LF] + rest, line, rest);
  }

  // ---- order ------------------------------------------------------------

  /** Byte-wise order of strings. */
  predicate TextLess(a: seq<byte>, b: seq<byte>)
  {
    b != [] && (a == [] || a[0] < b[0] || (a[0] == b[0] && TextLess(a[1..], b[1..])))
  }

  /** A proper prefix, or the smaller byte at the first difference. */
  lemma {:induction false} TextLessIff(a: seq<byte>, b: seq<byte>)
    ensures TextLess(a, b) <==>
            a < b || exists i {:trigger a[i]} :: 0 <= i < |a| && i < |b| && a[..i] == b[..i] && a[i] < b[i]
  {
    if a != [] && b != [] && a[0] == b[0] {
      TextLessIff(a[1..], b[1..]);
      assert a == [a[0]] + a[1..] && b == [b[0]] + b[1..];
      forall i | 0 <= i < |a| - 1 && i < |b| - 1
        ensures a[..i + 1] == b[..i + 1] <==> a[1..][..i] == b[1..][..i]
      {
        assert a[..i + 1] == [a[0]] + a[1..][..i] && b[..i + 1] == [b[0]] + b[1..][..i];
      }
      if TextLess(a[1..], b[1..]) && !(a[1..] < b[1..]) {
        var i :| 0 <= i < |a[1..]| && i < |b[1..]| && a[1..][..i] == b[1..][..i] && a[1..][i] < b[1..][i];
        assert a[i + 1] < b[i + 1];
      }
      if i :| 0 <= i < |a| && i < |b| && a[..i] == b[..i] && a[i] < b[i] {
        assert i > 0 && a[1..][i - 1] < b[1..][i - 1];
      }
    } else if a != [] && b != [] {
      assert a[..0] == b[..0];
      forall i | 0 < i < |a| && i < |b|
        ensures a[..i] != b[..i]
      {
        assert a[..i][0] != b[..i][0];
      }
    }
  }

  lemma {:induction false} TextIrreflexive(a: seq<byte>)
    ensures !TextLess(a, a)
  {
    if a != [] {
      TextIrreflexive(a[1..]);
    }
  }

  lemma {:induction false} TextOrder(a: seq<byte>, b: seq<byte>, c: seq<byte>)
    ensures TextLess(a, b) && TextLess(b, c) ==> TextLess(a, c)
    ensures TextLess(a, b) || TextLess(b, a) || a == b
    ensures !(TextLess(a, b) && TextLess(b, a))
    decreases |a| + |b| + |c|
  {
    if a != [] && b != [] {
      TextOrder(a[1..], b[1..], if c == [] then c else c[1..]);
      assert a == [a[0]] + a[1..] && b == [b[0]] + b[1..];
    }
  }
}
