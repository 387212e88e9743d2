/** Network addresses and the four lists a collection sorts them into. */
module Addresses {
  import opened Prelude

  // ----- bits -----

  function Pow2(n: nat): (p: nat)
    ensures p > 0
  {
    if n == 0 then 1 else 2 * Pow2(n - 1)
  }

  lemma {:induction false} Pow2Adds(a: nat, b: nat)
    ensures Pow2(a + b) == Pow2(a) * Pow2(b)
  {
    if a == 0 {
    } else {
      Pow2Adds(a - 1, b);
      calc {
        Pow2(a + b);
        2 * (Pow2(a - 1) * Pow2(b));
        2 * Pow2(a - 1) * Pow2(b);
      }
    }
  }

  lemma Pow2Bytes()
    ensures Pow2(8) == 256 && Pow2(16) == 0x1_0000 && Pow2(24) == 0x100_0000
  {
    Pow2Adds(4, 4);
    Pow2Adds(8, 8);
    Pow2Adds(8, 16);
  }

  /** The bitwise and of two numbers. */
  function And(a: nat, b: nat): nat {
    if a == 0 || b == 0 then 0
    else 2 * And(a / 2, b / 2) + if a % 2 == 1 && b % 2 == 1 then 1 else 0
  }

  lemma MulSign(k: int, m: int)
    requires m > 0
    ensures k > 0 ==> k * m >= m
    ensures k < 0 ==> k * m <= -m
  {
  }

  lemma DivIsUnique(x: int, m: int, q: int, r: int)
    requires m > 0 && x == q * m + r && 0 <= r < m
    ensures x / m == q && x % m == r
  {
    var k := x / m - q;
    assert x == x / m * m + x % m;
    assert k * m == r - x % m;
    MulSign(k, m);
  }

  lemma DivLess(x: int, m: int, n: int)
    requires m > 0 && x < m * n
    ensures x / m < n
  {
    var k := n - x / m;
    assert k * m == m * n - x / m * m;
    MulSign(k, m);
  }

  lemma FloorsAgree(x: int, y: int, m: int)
    requires m > 0
    ensures x - x % m == y - y % m <==> x / m == y / m
  {
    assert x - x % m == x / m * m && y - y % m == y / m * m;
    var k := x / m - y / m;
    assert k * m == x / m * m - y / m * m;
    MulSign(k, m);
  }

  lemma SameQuotientIsInterval(v: int, w: int, p: int)
    requires p > 0
    ensures v / p == w / p <==> v - v % p <= w < v - v % p + p
  {
    assert v - v % p == v / p * p && w - w % p == w / p * p;
    var k := w / p - v / p;
    assert k * p == w / p * p - v / p * p;
    MulSign(k, p);
  }

  lemma Regroup(q: int, c: int, r: int, b: int)
    ensures (q * c + r) * b == q * (b * c) + r * b
  {
    assert (q * c + r) * b == q * c * b + r * b;
    assert q * c * b == q * (c * b);
  }

  lemma MulBelow(r: int, c: int, b: int)
    requires 0 <= r < c && b > 0
    ensures 0 <= r * b <= b * c - b && b * c > 0
  {
    assert (c - 1 - r) * b == b * c - b - r * b;
    MulSign(r, b);
    MulSign(c - 1 - r, b);
    MulSign(c, b);
  }

  lemma DivDiv(a: int, b: int, c: int)
    requires b > 0 && c > 0
    ensures b * c > 0 && a / (b * c) == a / b / c
  {
    var q, r := a / b / c, (a / b) % c;
    Regroup(q, c, r, b);
    MulBelow(r, c, b);
    DivIsUnique(a, b * c, q, r * b + a % b);
  }

  lemma HalfMod(x: nat, m: nat)
    requires m > 0
    ensures x % (2 * m) == 2 * ((x / 2) % m) + x % 2
  {
    var q, r := x / 2 / m, (x / 2) % m;
    assert x / 2 == q * m + r;
    assert x == 2 * (q * m) + 2 * r + x % 2;
    assert 2 * (q * m) == q * (2 * m);
    DivIsUnique(x, 2 * m, q, 2 * r + x % 2);
  }

  lemma {:induction false} Pow2Grows(k: nat, w: nat)
    requires k <= w
    ensures Pow2(k) <= Pow2(w)
  {
    if k == w {
    } else {
      Pow2Grows(k, w - 1);
    }
  }

  lemma AndHalves(x: nat, b: nat, half: nat)
    requires b == 2 * half || b == 2 * half + 1
    ensures And(x, b) == 2 * And(x / 2, half) + if b == 2 * half then 0 else x % 2
  {
    assert b / 2 == half;
  }

  /** The number that the low k bits make. */
  function Low(x: nat, k: nat): nat {
    if k == 0 then 0 else 2 * Low(x / 2, k - 1) + x % 2
  }

  lemma {:induction false} LowIsMod(x: nat, k: nat)
    ensures Low(x, k) == x % Pow2(k)
  {
    if k == 0 {
    } else {
      LowIsMod(x / 2, k - 1);
      HalfMod(x, Pow2(k - 1));
    }
  }

  lemma {:induction false} LowIsAll(x: nat, k: nat)
    requires x < Pow2(k)
    ensures Low(x, k) == x
  {
    if k == 0 {
    } else {
      LowIsAll(x / 2, k - 1);
    }
  }

  /** A mask of k ones keeps them. */
  lemma {:induction false} AndLowMask(x: nat, k: nat)
    ensures And(x, Pow2(k) - 1) == Low(x, k)
  {
    if k == 0 {
    } else {
      AndLowMask(x / 2, k - 1);
      AndHalves(x, Pow2(k) - 1, Pow2(k - 1) - 1);
    }
  }

  /** A mask of ones above k zeros clears the low k bits. */
  lemma {:induction false} AndHighMask(x: nat, w: nat, k: nat)
    requires k <= w && x < Pow2(w)
    ensures Pow2(k) <= Pow2(w) && And(x, Pow2(w) - Pow2(k)) == x - Low(x, k)
  {
    Pow2Grows(k, w);
    if k == 0 {
      AndLowMask(x, w);
      LowIsAll(x, w);
    } else {
      AndHighMask(x / 2, w - 1, k - 1);
      AndHalves(x, Pow2(w) - Pow2(k), Pow2(w - 1) - Pow2(k - 1));
    }
  }

  // ----- blocks -----

  /** A mask byte with its n highest bits set. */
  function MaskByte(n: nat): (m: Byte)
    requires n <= 8
  {
    255 - 255 / Pow2(n)
  }

  lemma MaskByteValue(n: nat)
    requires n <= 8
    ensures MaskByte(n) == 256 - Pow2(8 - n)
  {
    Pow2Adds(n, 8 - n);
    Pow2Bytes();
    var p, q := Pow2(n), Pow2(8 - n);
    assert p * q == 256;
    assert 255 == (q - 1) * p + (p - 1);
    DivIsUnique(255, p, q - 1, p - 1);
  }

  /** A byte's mask clears the bits behind its ones. */
  lemma MaskTest(x: Byte, k: nat, m: nat)
    requires k <= 8 && m == Pow2(k)
    ensures m <= 256 && And(x, 256 - m) == x - x % m
  {
    Pow2Bytes();
    AndHighMask(x, 8, k);
    LowIsMod(x, k);
  }

  lemma AndMaskByte(x: Byte, n: nat)
    requires n <= 8
    ensures And(x, MaskByte(n)) == x - x % Pow2(8 - n)
  {
    MaskByteValue(n);
    MaskTest(x, 8 - n, Pow2(8 - n));
  }

  /** An IPv4 block: a network number and the length of its prefix. */
  datatype Block = Block(net: Bytes, ones: nat) {
    ghost predicate Valid() { |net| == 4 && ones <= 32 }
  }

  /** How many of the prefix's bits are in byte i. */
  function OnesIn(ones: nat, i: nat): (n: nat)
    ensures n <= 8
  {
    if ones >= 8 * (i + 1) then 8 else if ones <= 8 * i then 0 else ones - 8 * i
  }

  predicate SameMasked(block: Block, ip: Bytes, i: nat)
    requires |block.net| == |ip| && i < |ip|
  {
    var m := MaskByte(OnesIn(block.ones, i));
    And(block.net[i], m) == And(ip[i], m)
  }

  /** An IPv4 address as a number. */
  function Value(ip: Bytes): nat
    requires |ip| == 4
  {
    var a: nat, b: nat, c: nat, d: nat := ip[0], ip[1], ip[2], ip[3];
    ((a * 256 + b) * 256 + c) * 256 + d
  }

  /** The block's first address: the network number with the bits behind the prefix cleared. */
  function First(block: Block): int
    requires block.Valid()
  {
    Value(block.net) - Value(block.net) % Pow2(32 - block.ones)
  }

  /** The addresses of a block are an interval of numbers. */
  predicate InBlock(block: Block, ip: Bytes)
    requires block.Valid() && |ip| == 4
  {
    First(block) <= Value(ip) < First(block) + Pow2(32 - block.ones)
  }

  lemma SameMaskedIsSameQuotient(block: Block, ip: Bytes, i: nat)
    requires block.Valid() && |ip| == 4 && i < 4
    ensures var m := Pow2(8 - OnesIn(block.ones, i)); SameMasked(block, ip, i) <==> block.net[i] / m == ip[i] / m
  {
    var n := OnesIn(block.ones, i);
    AndMaskByte(block.net[i], n);
    AndMaskByte(ip[i], n);
    FloorsAgree(block.net[i], ip[i], Pow2(8 - n));
  }

  lemma QuotientOfBytes(high: nat, x: Byte, m: nat, n: nat)
    requires m > 0 && m * n == 256
    ensures (high * 256 + x) / m == high * n + x / m && x / m < n
  {
    assert high * 256 == high * (m * n) == high * n * m;
    assert x == x / m * m + x % m;
    DivIsUnique(high * 256 + x, m, high * n + x / m, x % m);
    DivLess(x, m, n);
  }

  lemma SameQuotient(high: nat, x: Byte, high': nat, y: Byte, n: nat)
    requires n <= 8
    ensures var m := Pow2(8 - n);
            (high * 256 + x) / m == (high' * 256 + y) / m <==> high == high' && x / m == y / m
  {
    var m, k := Pow2(8 - n), Pow2(n);
    Pow2Adds(8 - n, n);
    Pow2Bytes();
    QuotientOfBytes(high, x, m, k);
    QuotientOfBytes(high', y, m, k);
    DivIsUnique(high * k + x / m, k, high, x / m);
    DivIsUnique(high' * k + y / m, k, high', y / m);
  }

  /** The number the first i bytes spell. */
  function Leading(ip: Bytes, i: nat): nat
    requires i <= |ip|
  {
    if i == 0 then 0 else Leading(ip, i - 1) * 256 + ip[i - 1]
  }

  lemma {:induction false} SameLeading(a: Bytes, b: Bytes, i: nat)
    requires |a| == |b| && i <= |a|
    ensures Leading(a, i) == Leading(b, i) <==> a[..i] == b[..i]
  {
    if i == 0 {
    } else {
      SameLeading(a, b, i - 1);
      assert a[..i] == a[..i - 1] + [a[i - 1]] && b[..i] == b[..i - 1] + [b[i - 1]];
    }
  }

  /** Dividing by a power of 256 drops that many bytes. */
  lemma DropBytes(a: int, b: int, c: int, d: int)
    requires 0 <= b - a * 256 < 256 && 0 <= c - b * 256 < 256 && 0 <= d - c * 256 < 256
    ensures d / 0x100_0000 == a && d / 0x1_0000 == b && d / 0x100 == c
  {
  }

  lemma LeadingOfValue(ip: Bytes, i: nat)
    requires |ip| == 4 && i < 4
    ensures Leading(ip, 4) == Value(ip)
    ensures Value(ip) / Pow2(8 * (3 - i)) == Leading(ip, i + 1)
  {
    Pow2Bytes();
    var a, b, c, d := Leading(ip, 1), Leading(ip, 2), Leading(ip, 3), Leading(ip, 4);
    assert Leading(ip, 0) == 0;
    assert a == Leading(ip, 0) * 256 + ip[0];
    assert b == a * 256 + ip[1];
    assert c == b * 256 + ip[2];
    assert d == c * 256 + ip[3];
    assert d == Value(ip);
    DropBytes(a, b, c, d);
    assert Pow2(8 * (3 - i)) == [0x100_0000, 0x1_0000, 0x100, 1][i];
  }

  lemma ByteEnds(x: Byte, m: nat)
    requires m > 0
    ensures m == 1 ==> x / m == x
    ensures m == 256 ==> x / m == 0
  {
  }

  lemma ByteQuotients(block: Block, ip: Bytes, i: nat)
    requires block.Valid() && |ip| == 4 && i < 4
    ensures OnesIn(block.ones, i) == 8 ==> (SameMasked(block, ip, i) <==> block.net[i] == ip[i])
    ensures OnesIn(block.ones, i) == 0 ==> SameMasked(block, ip, i)
  {
    var n := OnesIn(block.ones, i);
    SameMaskedIsSameQuotient(block, ip, i);
    if n == 0 || n == 8 {
      ByteEnds(block.net[i], Pow2(8 - n));
      ByteEnds(ip[i], Pow2(8 - n));
    }
    Pow2Bytes();
  }

  lemma QuotientAtByte(ones: nat, ip: Bytes, j: nat)
    requires |ip| == 4 && j < 4 && 8 * j <= ones <= 8 * j + 8
    ensures Value(ip) / Pow2(32 - ones) == Leading(ip, j + 1) / Pow2(8 * j + 8 - ones)
  {
    var m := Pow2(8 * j + 8 - ones);
    Pow2Adds(8 * (3 - j), 8 * j + 8 - ones);
    DivDiv(Value(ip), Pow2(8 * (3 - j)), m);
    LeadingOfValue(ip, j);
  }

  lemma PrefixSplits(block: Block, ip: Bytes, j: nat)
    requires block.Valid() && |ip| == 4 && j < 4 && 8 * j <= block.ones <= 8 * j + 8
    ensures (forall i: nat | i < 4 :: SameMasked(block, ip, i))
        <==> block.net[..j] == ip[..j] && SameMasked(block, ip, j)
  {
    var a := block.net;
    forall i: nat | i < 4
      ensures i < j ==> (SameMasked(block, ip, i) <==> a[i] == ip[i])
      ensures i > j ==> SameMasked(block, ip, i)
    {
      ByteQuotients(block, ip, i);
    }
    if block.net[..j] == ip[..j] {
      assert forall i: nat | i < j :: a[i] == a[..j][i] == ip[..j][i] == ip[i];
    }
  }

  lemma PrefixIsQuotient(block: Block, ip: Bytes, j: nat)
    requires block.Valid() && |ip| == 4 && j < 4 && 8 * j <= block.ones <= 8 * j + 8
    ensures var p := Pow2(32 - block.ones);
            block.net[..j] == ip[..j] && SameMasked(block, ip, j) <==> Value(block.net) / p == Value(ip) / p
  {
    var n := block.ones - 8 * j;
    var a, b := block.net, ip;
    QuotientAtByte(block.ones, a, j);
    QuotientAtByte(block.ones, b, j);
    SameQuotient(Leading(a, j), a[j], Leading(b, j), b[j], n);
    assert OnesIn(block.ones, j) == n;
    SameMaskedIsSameQuotient(block, ip, j);
    SameLeading(a, b, j);
  }

  /** Masking and comparing, for every prefix length, is membership in an interval. */
  lemma MaskCompareIsInterval(block: Block, ip: Bytes)
    requires block.Valid() && |ip| == 4
    ensures (forall i: nat | i < 4 :: SameMasked(block, ip, i)) <==> InBlock(block, ip)
  {
    var j := if block.ones == 32 then 3 else block.ones / 8;
    PrefixSplits(block, ip, j);
    PrefixIsQuotient(block, ip, j);
    SameQuotientIsInterval(Value(block.net), Value(ip), Pow2(32 - block.ones));
  }

  /** Byte by byte, the masked address is the masked network number. */
  method Contains(block: Block, ip: Bytes) returns (inside: bool)
    requires block.Valid() && |ip| == 4
    ensures inside <==> InBlock(block, ip)
  {
    MaskCompareIsInterval(block, ip);
    var i := 0;
    while i < 4
      invariant 0 <= i <= 4
      invariant forall k: nat | k < i :: SameMasked(block, ip, k)
    {
      var m := MaskByte(OnesIn(block.ones, i));
      assert SameMasked(block, ip, i) <==> And(block.net[i], m) == And(ip[i], m);
      if And(block.net[i], m) != And(ip[i], m) {
        return false;
      }
      i := i + 1;
    }
    return true;
  }

  // ----- private addresses -----

  /** The four bytes of an IPv4 address, also when wrapped in sixteen. */
  function To4(ip: Bytes): (r: Option<Bytes>)
    ensures r.Some? ==> |r.value| == 4
  {
    if |ip| == 4 then Some(ip)
    else if |ip| == 16 && (forall i | 0 <= i < 10 :: ip[i] == 0) && ip[10] == 255 && ip[11] == 255 then Some(ip[12..])
    else None
  }

  predicate IsLoopback(ip: Bytes) {
    var four := To4(ip);
    if four.Some? then four.value[0] == 127
    else |ip| == 16 && (forall i | 0 <= i < 15 :: ip[i] == 0) && ip[15] == 1
  }

  /** fc00::/7. */
  predicate IsPrivate6(ip: Bytes) {
    |ip| == 16 && And(ip[0], 0xfe) == 0xfc
  }

  /** fe80::/10. */
  predicate IsLinkLocalUnicast6(ip: Bytes) {
    |ip| == 16 && ip[0] == 0xfe && And(ip[1], 0xc0) == 0x80
  }

  /** Multicast addresses of link-local scope. */
  predicate IsLinkLocalMulticast6(ip: Bytes) {
    |ip| == 16 && ip[0] == 0xff && And(ip[1], 0x0f) == 0x02
  }

  function PrivateBlocks(): (bs: seq<Block>)
    ensures forall b | b in bs :: b.Valid()
  {
    [Block([10, 0, 0, 0], 8), Block([172, 16, 0, 0], 12), Block([192, 168, 0, 0], 16),
     Block([169, 254, 0, 0], 16), Block([127, 0, 0, 0], 8)]
  }

  /** The ranges of section 3 of RFC 1918, as numbers. */
  predicate Rfc1918(v: nat) {
    || 0x0a00_0000 <= v <= 0x0aff_ffff
    || 0xac10_0000 <= v <= 0xac1f_ffff
    || 0xc0a8_0000 <= v <= 0xc0a8_ffff
  }

  predicate LinkLocal4(v: nat) {
    0xa9fe_0000 <= v <= 0xa9fe_ffff
  }

  predicate Loopback4(v: nat) {
    0x7f00_0000 <= v <= 0x7fff_ffff
  }

  /** What "private" comes to, in numbers. */
  predicate Private(ip: Bytes) {
    var four := To4(ip);
    if four.Some? then
      var v := Value(four.value);
      Rfc1918(v) || LinkLocal4(v) || Loopback4(v)
    else
      && |ip| == 16
      && (0xfc <= ip[0] <= 0xfd || (ip[0] == 0xfe && 0x80 <= ip[1] <= 0xbf) || (ip[0] == 0xff && ip[1] % 16 == 2))
  }

  ghost predicate InSome(blocks: seq<Block>, ip: Bytes)
    requires |ip| == 4 && forall b | b in blocks :: b.Valid()
  {
    exists k: nat | k < |blocks| :: InBlock(blocks[k], ip)
  }

  lemma BlockRange(block: Block, ip: Bytes, net: nat, size: nat)
    requires block.Valid() && |ip| == 4
    requires Value(block.net) == net && size == Pow2(32 - block.ones) && net % size == 0
    ensures InBlock(block, ip) <==> net <= Value(ip) < net + size
  {
  }

  lemma EachBlock(ip: Bytes)
    requires |ip| == 4
    ensures var bs, v := PrivateBlocks(), Value(ip);
            && (InBlock(bs[0], ip) <==> 0x0a00_0000 <= v <= 0x0aff_ffff)
            && (InBlock(bs[1], ip) <==> 0xac10_0000 <= v <= 0xac1f_ffff)
            && (InBlock(bs[2], ip) <==> 0xc0a8_0000 <= v <= 0xc0a8_ffff)
            && (InBlock(bs[3], ip) <==> LinkLocal4(v))
            && (InBlock(bs[4], ip) <==> Loopback4(v))
  {
    var bs := PrivateBlocks();
    Pow2Bytes();
    Pow2Adds(16, 4);
    BlockRange(bs[0], ip, 0x0a00_0000, 0x100_0000);
    BlockRange(bs[1], ip, 0xac10_0000, 0x10_0000);
    BlockRange(bs[2], ip, 0xc0a8_0000, 0x1_0000);
    BlockRange(bs[3], ip, 0xa9fe_0000, 0x1_0000);
    BlockRange(bs[4], ip, 0x7f00_0000, 0x100_0000);
  }

  lemma BlocksAreRanges(ip: Bytes)
    requires |ip| == 4
    ensures InSome(PrivateBlocks(), ip) <==> Rfc1918(Value(ip)) || LinkLocal4(Value(ip)) || Loopback4(Value(ip))
  {
    EachBlock(ip);
    var bs := PrivateBlocks();
    assert InSome(bs, ip) <==>
           || InBlock(bs[0], ip) || InBlock(bs[1], ip) || InBlock(bs[2], ip)
           || InBlock(bs[3], ip) || InBlock(bs[4], ip);
  }

  lemma SmallPowers()
    ensures Pow2(1) == 2 && Pow2(4) == 16 && Pow2(6) == 64 && Pow2(8) == 256
  {
    Pow2Bytes();
    Pow2Adds(2, 4);
  }

  lemma PrivatePrefix(x: Byte)
    ensures And(x, 0xfe) == 0xfc <==> 0xfc <= x <= 0xfd
  {
    SmallPowers();
    MaskTest(x, 1, 2);
  }

  lemma LinkLocalPrefix(x: Byte)
    ensures And(x, 0xc0) == 0x80 <==> 0x80 <= x <= 0xbf
  {
    SmallPowers();
    MaskTest(x, 6, 64);
  }

  lemma LinkLocalScope(x: Byte)
    ensures And(x, 0x0f) == 0x02 <==> x % 16 == 2
  {
    SmallPowers();
    AndLowMask(x, 4);
    LowIsMod(x, 4);
  }

  lemma SixteenByteRanges(ip: Bytes)
    requires |ip| == 16 && To4(ip).None?
    ensures IsPrivate6(ip) || IsLinkLocalUnicast6(ip) || IsLinkLocalMulticast6(ip) <==> Private(ip)
  {
    PrivatePrefix(ip[0]);
    LinkLocalPrefix(ip[1]);
    LinkLocalScope(ip[1]);
  }

  method ContainedInSome(blocks: seq<Block>, ip: Bytes) returns (r: bool)
    requires |ip| == 4 && forall b | b in blocks :: b.Valid()
    ensures r <==> InSome(blocks, ip)
  {
    for k := 0 to |blocks|
      invariant forall i: nat | i < k :: !InBlock(blocks[i], ip)
    {
      var inside := Contains(blocks[k], ip);
      if inside {
        return true;
      }
    }
    return false;
  }

  /** An IPv4 address wrapped in sixteen octets. */
  predicate IsMapped(ip: Bytes) {
    |ip| == 16 && (forall i | 0 <= i < 10 :: ip[i] == 0) && ip[10] == 255 && ip[11] == 255
  }

  /** 10/8, 172.16/12, 192.168/16, 169.254/16 and 127/8, octet by octet. */
  predicate IsPrivateQuad(a: int, b: int) {
    a == 10 || (a == 172 && 16 <= b <= 31) || (a == 192 && b == 168) || (a == 169 && b == 254) || a == 127
  }

  /** fc00::/7, fe80::/10 and multicast of link-local scope, octet by octet. */
  predicate IsPrivatePair(a: int, b: int) {
    a == 252 || a == 253 || (a == 254 && 128 <= b <= 191) || (a == 255 && b % 16 == 2)
  }

  lemma QuadOctets(q: Bytes)
    requires |q| == 4
    ensures var v := Value(q);
            Rfc1918(v) || LinkLocal4(v) || Loopback4(v) <==> IsPrivateQuad(q[0], q[1])
  {
  }

  /** What private, loopback and the four octets come to, in the octets of either form. */
  lemma PrivateOctets(ip: Bytes)
    ensures |ip| == 4 ==> To4(ip) == Some(ip)
    ensures IsMapped(ip) ==> To4(ip) == Some(ip[12..])
    ensures |ip| != 4 && !IsMapped(ip) ==> To4(ip) == None
    ensures |ip| == 4 ==> (Private(ip) <==> IsPrivateQuad(ip[0], ip[1])) && (IsLoopback(ip) <==> ip[0] == 127)
    ensures IsMapped(ip) ==>
              (Private(ip) <==> IsPrivateQuad(ip[12], ip[13])) && (IsLoopback(ip) <==> ip[12] == 127)
    ensures |ip| == 16 && !IsMapped(ip) ==>
              && (Private(ip) <==> IsPrivatePair(ip[0], ip[1]))
              && (IsLoopback(ip) <==> ip[15] == 1 && forall i | 0 <= i < 15 :: ip[i] == 0)
    ensures |ip| != 4 && |ip| != 16 ==> !Private(ip) && !IsLoopback(ip)
  {
    if To4(ip).Some? {
      QuadOctets(To4(ip).value);
    }
  }

  /** Loops over the blocks for an IPv4 address, tests bits for an IPv6 one. */
  method IsPrivateIP(ip: Bytes) returns (r: bool)
    ensures r <==> Private(ip)
    ensures |ip| == 4 ==> (r <==> IsPrivateQuad(ip[0], ip[1]))
    ensures IsMapped(ip) ==> (r <==> IsPrivateQuad(ip[12], ip[13]))
    ensures |ip| == 16 && !IsMapped(ip) ==> (r <==> IsPrivatePair(ip[0], ip[1]))
  {
    PrivateOctets(ip);
    var four := To4(ip);
    if four.None? {
      if |ip| == 16 { SixteenByteRanges(ip); }
      return IsPrivate6(ip) || IsLinkLocalUnicast6(ip) || IsLinkLocalMulticast6(ip);
    }
    BlocksAreRanges(four.value);
    r := ContainedInSome(PrivateBlocks(), four.value);
  }

  /** An IPv4 address that is not loopback is private exactly on RFC 1918 and link-local ranges. */
  lemma PrivateIPv4Exactly(ip: Bytes)
    requires To4(ip).Some? && !IsLoopback(ip)
    ensures var v := Value(To4(ip).value); Private(ip) <==> Rfc1918(v) || LinkLocal4(v)
  {
    var four := To4(ip).value;
    assert Loopback4(Value(four)) <==> four[0] == 127;
  }

  // ----- the four lists -----

  /** What an interface reports: an IP network with its printed form, or something else. */
  datatype Addr = Net(ip: Bytes, text: string) | Other

  datatype Kind = Skipped | PublicV4 | PrivateV4 | PublicV6 | PrivateV6

  function KindOf(a: Addr): Kind {
    if a.Other? || IsLoopback(a.ip) then Skipped
    else if To4(a.ip).Some? then (if Private(a.ip) then PrivateV4 else PublicV4)
    else if Private(a.ip) then PrivateV6 else PublicV6
  }

  /** The addresses of all interfaces that could be read. */
  function AllOf(interfaces: seq<Option<seq<Addr>>>): seq<Addr> {
    if interfaces == [] then []
    else
      var n := |interfaces| - 1;
      AllOf(interfaces[..n]) + if interfaces[n].Some? then interfaces[n].value else []
  }

  /** Where the addresses of one kind stand. */
  function Positions(kind: Kind, addrs: seq<Addr>): (ps: seq<nat>)
    ensures forall i | 0 <= i < |ps| :: ps[i] < |addrs|
  {
    if addrs == [] then []
    else
      var n := |addrs| - 1;
      Positions(kind, addrs[..n]) + if KindOf(addrs[n]) == kind then [n] else []
  }

  /** The printed addresses of one kind, in order. */
  function Listed(kind: Kind, addrs: seq<Addr>): seq<string> {
    if addrs == [] then []
    else
      var n := |addrs| - 1;
      Listed(kind, addrs[..n]) + if KindOf(addrs[n]) == kind && addrs[n].Net? then [addrs[n].text] else []
  }

  lemma ListedSnoc(kind: Kind, addrs: seq<Addr>, a: Addr)
    ensures Listed(kind, addrs + [a]) == Listed(kind, addrs) + if KindOf(a) == kind && a.Net? then [a.text] else []
  {
    assert (addrs + [a])[..|addrs|] == addrs;
  }

  lemma {:induction false} PositionsMeaning(kind: Kind, addrs: seq<Addr>)
    ensures var ps := Positions(kind, addrs);
            && (forall i, j | 0 <= i < j < |ps| :: ps[i] < ps[j])
            && (forall p: nat | p < |addrs| :: p in ps <==> KindOf(addrs[p]) == kind)
  {
    if addrs == [] {
    } else {
      var n := |addrs| - 1;
      PositionsMeaning(kind, addrs[..n]);
      var ps, was := Positions(kind, addrs), Positions(kind, addrs[..n]);
      forall p: nat | p < |addrs| ensures p in ps <==> KindOf(addrs[p]) == kind {
        if p < n { assert addrs[..n][p] == addrs[p]; }
      }
    }
  }

  lemma {:induction false} ListedAtPositions(kind: Kind, addrs: seq<Addr>)
    requires kind != Skipped
    ensures var ps, ls := Positions(kind, addrs), Listed(kind, addrs);
            && |ls| == |ps|
            && forall i | 0 <= i < |ps| :: addrs[ps[i]].Net? && ls[i] == addrs[ps[i]].text
  {
    PositionsMeaning(kind, addrs);
    if addrs == [] {
    } else {
      ListedAtPositions(kind, addrs[..|addrs| - 1]);
    }
  }

  /** A list holds the addresses at `ps`, in their order. */
  ghost predicate ListsAt(list: seq<string>, addrs: seq<Addr>, ps: seq<nat>) {
    && |list| == |ps|
    && (forall i, j | 0 <= i < j < |ps| :: ps[i] < ps[j])
    && forall i | 0 <= i < |ps| :: ps[i] < |addrs| && addrs[ps[i]].Net? && list[i] == addrs[ps[i]].text
  }

  lemma {:induction false} Counted(addrs: seq<Addr>)
    ensures |Listed(PublicV4, addrs)| + |Listed(PrivateV4, addrs)|
            + |Listed(PublicV6, addrs)| + |Listed(PrivateV6, addrs)|
            + |Positions(Skipped, addrs)| == |addrs|
  {
    if addrs == [] {
    } else {
      Counted(addrs[..|addrs| - 1]);
    }
  }

  /** Each address that is an IP network and not loopback is at one place of one list; nothing else is listed. */
  lemma Partition(addrs: seq<Addr>)
    ensures forall k: Kind | k != Skipped :: ListsAt(Listed(k, addrs), addrs, Positions(k, addrs))
    ensures forall p: nat, k: Kind | p < |addrs| && k != Skipped ::
              p in Positions(k, addrs) <==> addrs[p].Net? && !IsLoopback(addrs[p].ip) && KindOf(addrs[p]) == k
    ensures |Listed(PublicV4, addrs)| + |Listed(PrivateV4, addrs)|
            + |Listed(PublicV6, addrs)| + |Listed(PrivateV6, addrs)|
            + |Positions(Skipped, addrs)| == |addrs|
  {
    forall k: Kind ensures k != Skipped ==> ListsAt(Listed(k, addrs), addrs, Positions(k, addrs)) {
      PositionsMeaning(k, addrs);
      if k != Skipped { ListedAtPositions(k, addrs); }
    }
    forall p: nat, k: Kind | p < |addrs| && k != Skipped
      ensures p in Positions(k, addrs) <==> addrs[p].Net? && !IsLoopback(addrs[p].ip) && KindOf(addrs[p]) == k
    {
      PositionsMeaning(k, addrs);
    }
    Counted(addrs);
  }

  /**
   The list holds, in order, the printed form of every IP network that is not loopback and is
   private or not, and in IPv4 form or not, as given; and of nothing else.
   */
  ghost predicate Takes(list: seq<string>, addrs: seq<Addr>, ps: seq<nat>, private: bool, four: bool) {
    && ListsAt(list, addrs, ps)
    && forall p: nat | p < |addrs| ::
         p in ps <==> addrs[p].Net? && !IsLoopback(addrs[p].ip)
                      && (Private(addrs[p].ip) <==> private) && (To4(addrs[p].ip).Some? <==> four)
  }

  ghost predicate IsList(list: seq<string>, addrs: seq<Addr>, private: bool, four: bool) {
    exists ps :: Takes(list, addrs, ps, private, four)
  }

  lemma ListTakes(kind: Kind, addrs: seq<Addr>, private: bool, four: bool)
    requires kind == if four then (if private then PrivateV4 else PublicV4) else if private then PrivateV6 else PublicV6
    ensures IsList(Listed(kind, addrs), addrs, private, four)
  {
    PositionsMeaning(kind, addrs);
    ListedAtPositions(kind, addrs);
    assert Takes(Listed(kind, addrs), addrs, Positions(kind, addrs), private, four);
  }

  /** Which addresses each of the four lists takes. */
  lemma FourLists(addrs: seq<Addr>)
    ensures IsList(Listed(PublicV4, addrs), addrs, false, true) && IsList(Listed(PrivateV4, addrs), addrs, true, true)
    ensures IsList(Listed(PublicV6, addrs), addrs, false, false) && IsList(Listed(PrivateV6, addrs), addrs, true, false)
  {
    ListTakes(PublicV4, addrs, false, true);
    ListTakes(PrivateV4, addrs, true, true);
    ListTakes(PublicV6, addrs, false, false);
    ListTakes(PrivateV6, addrs, true, false);
  }

  method SortAddress(ghost before: seq<Addr>, a: Addr, p4: seq<string>, p6: seq<string>, v4: seq<string>,
      v6: seq<string>)
    returns (public4: seq<string>, public6: seq<string>, private4: seq<string>, private6: seq<string>)
    requires p4 == Listed(PublicV4, before) && p6 == Listed(PublicV6, before)
    requires v4 == Listed(PrivateV4, before) && v6 == Listed(PrivateV6, before)
    ensures var all := before + [a];
            && public4 == Listed(PublicV4, all) && public6 == Listed(PublicV6, all)
            && private4 == Listed(PrivateV4, all) && private6 == Listed(PrivateV6, all)
  {
    public4, public6, private4, private6 := p4, p6, v4, v6;
    ListedSnoc(PublicV4, before, a);
    ListedSnoc(PublicV6, before, a);
    ListedSnoc(PrivateV4, before, a);
    ListedSnoc(PrivateV6, before, a);
    if a.Other? || IsLoopback(a.ip) {
      return;
    }
    var private := IsPrivateIP(a.ip);
    if To4(a.ip).Some? {
      if private { private4 := private4 + [a.text]; } else { public4 := public4 + [a.text]; }
    } else {
      if private { private6 := private6 + [a.text]; } else { public6 := public6 + [a.text]; }
    }
  }

  method SortInterface(ghost before: seq<Addr>, addrs: seq<Addr>, p4: seq<string>, p6: seq<string>, v4: seq<string>,
      v6: seq<string>)
    returns (public4: seq<string>, public6: seq<string>, private4: seq<string>, private6: seq<string>)
    requires p4 == Listed(PublicV4, before) && p6 == Listed(PublicV6, before)
    requires v4 == Listed(PrivateV4, before) && v6 == Listed(PrivateV6, before)
    ensures var all := before + addrs;
            && public4 == Listed(PublicV4, all) && public6 == Listed(PublicV6, all)
            && private4 == Listed(PrivateV4, all) && private6 == Listed(PrivateV6, all)
  {
    public4, public6, private4, private6 := p4, p6, v4, v6;
    assert before + addrs[..0] == before;
    for j := 0 to |addrs|
      invariant var all := before + addrs[..j];
                && public4 == Listed(PublicV4, all) && public6 == Listed(PublicV6, all)
                && private4 == Listed(PrivateV4, all) && private6 == Listed(PrivateV6, all)
    {
      public4, public6, private4, private6 :=
        SortAddress(before + addrs[..j], addrs[j], public4, public6, private4, private6);
      assert before + addrs[..j + 1] == before + addrs[..j] + [addrs[j]];
    }
    assert addrs[..|addrs|] == addrs;
  }

  lemma AllOfOne(i: Option<seq<Addr>>)
    ensures AllOf([i]) == if i.Some? then i.value else []
  {
    assert [i][..0] == [];
  }

  /** The addresses of the interfaces that could be read, one interface after the other. */
  lemma {:induction false} AllOfConcat(a: seq<Option<seq<Addr>>>, b: seq<Option<seq<Addr>>>)
    ensures AllOf(a + b) == AllOf(a) + AllOf(b)
    ensures forall addrs :: AllOf([Some(addrs)]) == addrs
    ensures AllOf([None]) == []
  {
    forall addrs: seq<Addr> ensures AllOf([Some(addrs)]) == addrs { AllOfOne(Some(addrs)); }
    AllOfOne(None);
    if b == [] {
      assert a + b == a;
    } else {
      var n := |b| - 1;
      AllOfConcat(a, b[..n]);
      assert (a + b)[..|a| + n] == a + b[..n];
    }
  }

  /** The nested loop over interfaces and addresses. */
  method SortAddresses(interfaces: seq<Option<seq<Addr>>>)
    returns (public4: seq<string>, public6: seq<string>, private4: seq<string>, private6: seq<string>)
    ensures var all := AllOf(interfaces);
            && public4 == Listed(PublicV4, all) && public6 == Listed(PublicV6, all)
            && private4 == Listed(PrivateV4, all) && private6 == Listed(PrivateV6, all)
    ensures var all := AllOf(interfaces);
            && IsList(public4, all, false, true) && IsList(private4, all, true, true)
            && IsList(public6, all, false, false) && IsList(private6, all, true, false)
  {
    public4, public6, private4, private6 := [], [], [], [];
    for i := 0 to |interfaces|
      invariant var all := AllOf(interfaces[..i]);
                && public4 == Listed(PublicV4, all) && public6 == Listed(PublicV6, all)
                && private4 == Listed(PrivateV4, all) && private6 == Listed(PrivateV6, all)
    {
      assert interfaces[..i + 1][..i] == interfaces[..i];
      var addrs := if interfaces[i].Some? then interfaces[i].value else [];
      public4, public6, private4, private6 :=
        SortInterface(AllOf(interfaces[..i]), addrs, public4, public6, private4, private6);
    }
    assert interfaces[..|interfaces|] == interfaces;
    FourLists(AllOf(interfaces));
  }
}
