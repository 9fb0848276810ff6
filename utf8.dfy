/** The UTF-8 byte syntax of section 4 of RFC 3629, stated over octets.

    UTF8-octets = *( UTF8-char )
    UTF8-char   = UTF8-1 / UTF8-2 / UTF8-3 / UTF8-4

    This module is the reference the decomposer in module Helper is proved
    against: it knows nothing about cursors, offsets or checking order. */
module Utf8 {

  /** One octet, the value PHP's `ord` returns for a byte of a string. */
  type byte = b: int | 0 <= b < 0x100

  /** UTF8-tail = %x80-BF */
  predicate Tail(b: byte) {
    0x80 <= b <= 0xBF
  }

  /** UTF8-1 = %x00-7F */
  predicate Utf8One(g: seq<byte>) {
    |g| == 1 && g[0] <= 0x7F
  }

  /** UTF8-2 = %xC2-DF UTF8-tail */
  predicate Utf8Two(g: seq<byte>) {
    |g| == 2 && 0xC2 <= g[0] <= 0xDF && Tail(g[1])
  }

  /** UTF8-3 = %xE0 %xA0-BF UTF8-tail / %xE1-EC 2( UTF8-tail ) /
                %xED %x80-9F UTF8-tail / %xEE-EF 2( UTF8-tail ) */
  predicate Utf8Three(g: seq<byte>) {
    |g| == 3 && Tail(g[2]) &&
    (|| (g[0] == 0xE0 && 0xA0 <= g[1] <= 0xBF)
     || (0xE1 <= g[0] <= 0xEC && Tail(g[1]))
     || (g[0] == 0xED && 0x80 <= g[1] <= 0x9F)
     || (0xEE <= g[0] <= 0xEF && Tail(g[1])))
  }

  /** UTF8-4 = %xF0 %x90-BF 2( UTF8-tail ) / %xF1-F3 3( UTF8-tail ) /
                %xF4 %x80-8F 2( UTF8-tail ) */
  predicate Utf8Four(g: seq<byte>) {
    |g| == 4 && Tail(g[2]) && Tail(g[3]) &&
    (|| (g[0] == 0xF0 && 0x90 <= g[1] <= 0xBF)
     || (0xF1 <= g[0] <= 0xF3 && Tail(g[1]))
     || (g[0] == 0xF4 && 0x80 <= g[1] <= 0x8F))
  }

  /** UTF8-char: one well-formed character. */
  predicate Utf8Char(g: seq<byte>) {
    Utf8One(g) || Utf8Two(g) || Utf8Three(g) || Utf8Four(g)
  }

  /** The byte string made by writing the given byte strings one after another. */
  function Concat(cs: seq<seq<byte>>): seq<byte> {
    if cs == [] then [] else cs[0] + Concat(cs[1..])
  }

  /** UTF8-octets: the string is a concatenation of zero or more UTF8-chars. */
  ghost predicate Utf8Octets(s: seq<byte>) {
    exists cs: seq<seq<byte>> :: Concat(cs) == s && forall j | 0 <= j < |cs| :: Utf8Char(cs[j])
  }

  /** The bytes `p` begin some UTF8-char: a reader that has seen only `p`
      cannot yet tell that the character is malformed. */
  ghost predicate CharPrefix(p: seq<byte>) {
    exists g: seq<byte> :: Utf8Char(g) && p <= g
  }

  /** The number of bytes a character starting with `b0` occupies, judged
      from the lead byte alone: below 0x80 one, below 0xE0 two, below 0xF0
      three, otherwise four. */
  function LeadLength(b0: byte): (n: nat)
    ensures 1 <= n <= 4
    ensures n == 1 <==> b0 < 0x80
  {
    if b0 < 0x80 then 1 else if b0 < 0xE0 then 2 else if b0 < 0xF0 then 3 else 4
  }

  /** The range RFC 3629 allows for the second byte after lead `b0`. */
  predicate SecondOk(b0: byte, b1: byte) {
    if b0 == 0xE0 then 0xA0 <= b1 <= 0xBF
    else if b0 == 0xED then 0x80 <= b1 <= 0x9F
    else if b0 == 0xF0 then 0x90 <= b1 <= 0xBF
    else if b0 == 0xF4 then 0x80 <= b1 <= 0x8F
    else Tail(b1)
  }

  /** Byte-by-byte reading of CharPrefix: a valid lead, no more bytes than
      the lead announces, the second byte in its lead-dependent range and
      every later byte a UTF8-tail. */
  predicate PrefixOk(p: seq<byte>) {
    || |p| == 0
    || (&& (p[0] <= 0x7F || 0xC2 <= p[0] <= 0xF4)
        && |p| <= LeadLength(p[0])
        && (|p| >= 2 ==> SecondOk(p[0], p[1]))
        && (forall j | 2 <= j < |p| :: Tail(p[j])))
  }

  /** Every UTF8-char is announced correctly by its lead byte. */
  lemma CharLength(g: seq<byte>)
    requires Utf8Char(g)
    ensures |g| == LeadLength(g[0]) && PrefixOk(g)
  {
  }

  /** The bytes that complete a PrefixOk prefix to a whole character. */
  function Completion(p: seq<byte>): seq<byte>
    requires PrefixOk(p)
  {
    if |p| == 0 then [0]
    else
      var n := LeadLength(p[0]);
      if |p| == n then p
      else if |p| == 1 then
        var b1: byte := if p[0] == 0xE0 then 0xA0 else if p[0] == 0xF0 then 0x90 else 0x80;
        p + [b1] + seq(n - 2, _ => 0x80)
      else p + seq(n - |p|, _ => 0x80)
  }

  lemma CompletionIsChar(p: seq<byte>)
    requires PrefixOk(p)
    ensures Utf8Char(Completion(p)) && p <= Completion(p)
  {
    if |p| > 0 {
      var c := Completion(p);
      var n := LeadLength(p[0]);
      assert |c| == n;
      assert forall j | 0 <= j < |p| :: c[j] == p[j];
      assert forall j | 2 <= j < n :: Tail(c[j]);
    }
  }

  /** CharPrefix, which quantifies over all characters, is decided byte by
      byte by PrefixOk. */
  lemma {:induction false} CharPrefixIff(p: seq<byte>)
    ensures CharPrefix(p) <==> PrefixOk(p)
  {
    if PrefixOk(p) {
      CompletionIsChar(p);
    }
    if CharPrefix(p) {
      var g :| Utf8Char(g) && p <= g;
      CharLength(g);
      assert p == g[..|p|];
      assert forall j | 0 <= j < |p| :: p[j] == g[j];
    }
  }

  /** Splitting a concatenation in front of its first part. */
  lemma ConcatCons(c: seq<byte>, cs: seq<seq<byte>>)
    ensures Concat([c] + cs) == c + Concat(cs)
  {
    assert ([c] + cs)[1..] == cs;
  }

  /** A prefix of the beginning of a character is itself one. */
  lemma CharPrefixShorter(p: seq<byte>, q: seq<byte>)
    requires CharPrefix(p) && q <= p
    ensures CharPrefix(q)
  {
    var g :| Utf8Char(g) && p <= g;
    assert q <= g;
  }

  /** A Unicode scalar value: a code point up to U+10FFFF that is not a
      surrogate (U+D800..U+DFFF). */
  predicate IsScalar(cp: int) {
    0 <= cp <= 0x10FFFF && !(0xD800 <= cp <= 0xDFFF)
  }

  /** The encoding of a code point in as few bytes as it fits, following
      the table of section 3 of RFC 3629. */
  function Encode(cp: int): seq<byte>
    requires 0 <= cp <= 0x10FFFF
  {
    if cp <= 0x7F then [cp]
    else if cp <= 0x7FF then [0xC0 + cp / 0x40, 0x80 + cp % 0x40]
    else if cp <= 0xFFFF then [0xE0 + cp / 0x1000, 0x80 + cp / 0x40 % 0x40, 0x80 + cp % 0x40]
    else [0xF0 + cp / 0x40000, 0x80 + cp / 0x1000 % 0x40, 0x80 + cp / 0x40 % 0x40, 0x80 + cp % 0x40]
  }

  /** The code point whose bits a one- to four-byte sequence carries: the
      payload bits of the lead byte followed by six bits per later byte. */
  function Decode(g: seq<byte>): int
    requires 1 <= |g| <= 4
  {
    var b0: int := g[0];
    if |g| == 1 then b0
    else
      var b1: int := g[1];
      if |g| == 2 then (b0 - 0xC0) * 0x40 + (b1 - 0x80)
      else
        var b2: int := g[2];
        if |g| == 3 then (b0 - 0xE0) * 0x1000 + (b1 - 0x80) * 0x40 + (b2 - 0x80)
        else (b0 - 0xF0) * 0x40000 + (b1 - 0x80) * 0x1000 + (b2 - 0x80) * 0x40 + (g[3] as int - 0x80)
  }

  /** The six-bit groups of `cp` below bit 18, lowest first. */
  lemma Sextets(cp: int)
    requires 0 <= cp
    ensures cp == cp / 0x40 * 0x40 + cp % 0x40
    ensures cp / 0x40 == cp / 0x1000 * 0x40 + cp / 0x40 % 0x40
    ensures cp / 0x1000 == cp / 0x40000 * 0x40 + cp / 0x1000 % 0x40
  {
    var t := cp / 0x40;
    var u := t / 0x40;
    assert cp == t * 0x40 + cp % 0x40;
    assert t == u * 0x40 + t % 0x40;
    assert cp == u * 0x1000 + (t % 0x40) * 0x40 + cp % 0x40;
    assert u == cp / 0x1000;
    assert u == u / 0x40 * 0x40 + u % 0x40;
    assert cp == u / 0x40 * 0x40000 + (u % 0x40) * 0x1000 + (t % 0x40) * 0x40 + cp % 0x40;
    assert u / 0x40 == cp / 0x40000;
  }

  /** Every scalar value has an encoding the grammar accepts, and it decodes
      back to the same value. */
  lemma EncodeIsChar(cp: int)
    requires IsScalar(cp)
    ensures Utf8Char(Encode(cp)) && Decode(Encode(cp)) == cp
  {
    Sextets(cp);
  }

  /** Cutting six bits off: the quotient and remainder by 0x40 are the
      only ones. */
  lemma Shift6(x: int, q: int, r: int)
    requires 0 <= r < 0x40 && x == q * 0x40 + r
    ensures x / 0x40 == q && x % 0x40 == r
  {
  }

  lemma Shift12(x: int, q: int, r: int)
    requires 0 <= r < 0x1000 && x == q * 0x1000 + r
    ensures x / 0x1000 == q
  {
  }

  lemma Shift18(x: int, q: int, r: int)
    requires 0 <= r < 0x40000 && x == q * 0x40000 + r
    ensures x / 0x40000 == q
  {
  }

  /** The value carried by a UTF8-3 sequence, cut back into its bytes. */
  lemma ThreeSextets(b0: int, b1: int, b2: int)
    requires 0 <= b1 - 0x80 < 0x40 && 0 <= b2 - 0x80 < 0x40 && 0 <= b0 - 0xE0
    ensures var cp := (b0 - 0xE0) * 0x1000 + (b1 - 0x80) * 0x40 + (b2 - 0x80);
            && cp / 0x1000 == b0 - 0xE0 && cp / 0x40 % 0x40 == b1 - 0x80 && cp % 0x40 == b2 - 0x80
  {
    var cp := (b0 - 0xE0) * 0x1000 + (b1 - 0x80) * 0x40 + (b2 - 0x80);
    Shift6(cp, (b0 - 0xE0) * 0x40 + (b1 - 0x80), b2 - 0x80);
    Shift6(cp / 0x40, b0 - 0xE0, b1 - 0x80);
    Shift12(cp, b0 - 0xE0, (b1 - 0x80) * 0x40 + (b2 - 0x80));
  }

  /** The value carried by a UTF8-4 sequence, cut back into its bytes. */
  lemma FourSextets(b0: int, b1: int, b2: int, b3: int)
    requires 0 <= b1 - 0x80 < 0x40 && 0 <= b2 - 0x80 < 0x40 && 0 <= b3 - 0x80 < 0x40 && 0 <= b0 - 0xF0
    ensures var cp := (b0 - 0xF0) * 0x40000 + (b1 - 0x80) * 0x1000 + (b2 - 0x80) * 0x40 + (b3 - 0x80);
            && cp / 0x40000 == b0 - 0xF0 && cp / 0x1000 % 0x40 == b1 - 0x80
            && cp / 0x40 % 0x40 == b2 - 0x80 && cp % 0x40 == b3 - 0x80
  {
    var cp := (b0 - 0xF0) * 0x40000 + (b1 - 0x80) * 0x1000 + (b2 - 0x80) * 0x40 + (b3 - 0x80);
    var hi := (b0 - 0xF0) * 0x40 + (b1 - 0x80);
    Shift6(cp, hi * 0x40 + (b2 - 0x80), b3 - 0x80);
    Shift6(cp / 0x40, hi, b2 - 0x80);
    Shift12(cp, hi, (b2 - 0x80) * 0x40 + (b3 - 0x80));
    Shift6(cp / 0x1000, b0 - 0xF0, b1 - 0x80);
    Shift18(cp, b0 - 0xF0, (b1 - 0x80) * 0x1000 + (b2 - 0x80) * 0x40 + (b3 - 0x80));
  }

  /** Every UTF8-char is the shortest encoding of a scalar value: the ranges
      of the grammar exclude overlong forms, surrogates and code points above
      U+10FFFF. */
  lemma CharIsEncoding(g: seq<byte>)
    requires Utf8Char(g)
    ensures IsScalar(Decode(g)) && Encode(Decode(g)) == g
  {
    if |g| == 2 {
      Shift6(Decode(g), g[0] - 0xC0, g[1] - 0x80);
    } else if |g| == 3 {
      ThreeSextets(g[0], g[1], g[2]);
    } else if |g| == 4 {
      FourSextets(g[0], g[1], g[2], g[3]);
    }
  }
}
