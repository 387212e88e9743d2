/**
 The standard padded base64 of section 4 of RFC 4648, with the decoder's
 tolerance as the Go library has it: line breaks are skipped and unused
 trailing bits are ignored.

 Text and octets meet in the middle: a text is a sequence of symbols, each a
 six-bit value or the pad.
 */
module Base64 {
  import opened Prelude

  type Symbol = x: int | 0 <= x <= 64

  const PAD: Symbol := 64

  // ----- symbols and characters -----

  function CharOf(v: Symbol): Byte {
    if v < 26 then 65 + v            // A-Z
    else if v < 52 then 97 + v - 26  // a-z
    else if v < 62 then 48 + v - 52  // 0-9
    else if v == 62 then 43          // +
    else if v == 63 then 47          // /
    else 61                          // =
  }

  function SymbolOf(c: Byte): (v: Option<Symbol>)
    ensures v.Some? ==> CharOf(v.value) == c
    ensures v.None? ==> forall w: Symbol :: CharOf(w) != c
  {
    if 65 <= c <= 90 then Some(c - 65)
    else if 97 <= c <= 122 then Some(c - 97 + 26)
    else if 48 <= c <= 57 then Some(c - 48 + 52)
    else if c == 43 then Some(62)
    else if c == 47 then Some(63)
    else if c == 61 then Some(PAD)
    else None
  }

  function CharsOf(symbols: seq<Symbol>): Bytes {
    seq(|symbols|, i requires 0 <= i < |symbols| => CharOf(symbols[i]))
  }

  function SymbolsOf(s: Bytes): Option<seq<Symbol>> {
    if forall c | c in s :: SymbolOf(c).Some? then
      Some(seq(|s|, i requires 0 <= i < |s| => SymbolOf(s[i]).value))
    else None
  }

  // ----- octets and symbols -----

  /** The four symbols of one to three octets. */
  function EncodeGroup(g: Bytes): (q: seq<Symbol>)
    requires 1 <= |g| <= 3
    ensures |q| == 4
  {
    if |g| == 1 then
      [g[0] / 4, g[0] % 4 * 16, PAD, PAD]
    else if |g| == 2 then
      [g[0] / 4, g[0] % 4 * 16 + g[1] / 16, g[1] % 16 * 4, PAD]
    else
      [g[0] / 4, g[0] % 4 * 16 + g[1] / 16, g[1] % 16 * 4 + g[2] / 64, g[2] % 64]
  }

  function EncodeSymbols(data: Bytes): seq<Symbol> {
    if |data| == 0 then []
    else if |data| <= 3 then EncodeGroup(data)
    else EncodeGroup(data[..3]) + EncodeSymbols(data[3..])
  }

  /** The octets of four symbols; fewer than three when the quantum is padded. */
  function DecodeGroup(q: seq<Symbol>): (g: Option<Bytes>)
    requires |q| == 4
    ensures g.Some? ==> 1 <= |g.value| <= 3
  {
    var v0: int, v1: int, v2: int, v3: int := q[0], q[1], q[2], q[3];
    if v0 == PAD || v1 == PAD then None
    else if v2 == PAD then
      if v3 == PAD then Some([v0 * 4 + v1 / 16]) else None
    else if v3 == PAD then
      Some([v0 * 4 + v1 / 16, v1 % 16 * 16 + v2 / 4])
    else
      Some([v0 * 4 + v1 / 16, v1 % 16 * 16 + v2 / 4, v2 % 4 * 64 + v3])
  }

  /** Padding may only close the text. */
  function DecodeSymbols(s: seq<Symbol>): Option<Bytes> {
    if s == [] then Some([])
    else if |s| < 4 then None
    else
      var g := DecodeGroup(s[..4]);
      if g.None? || |s| == 4 then g
      else if |g.value| < 3 then None
      else
        var rest := DecodeSymbols(s[4..]);
        if rest.None? then None else Some(g.value + rest.value)
  }

  // ----- the codec -----

  function Encode(data: Bytes): Bytes {
    CharsOf(EncodeSymbols(data))
  }

  predicate IsLineBreak(c: Byte) {
    c == 10 || c == 13
  }

  function StripLineBreaks(s: Bytes): Bytes {
    if s == [] then []
    else (if IsLineBreak(s[0]) then [] else [s[0]]) + StripLineBreaks(s[1..])
  }

  /** `None` is a corrupt-input error. */
  function Decode(s: Bytes): Option<Bytes> {
    var symbols := SymbolsOf(StripLineBreaks(s));
    if symbols.None? then None else DecodeSymbols(symbols.value)
  }

  /** The unused low bits of the last sextet before padding are zero. */
  predicate ZeroTrailingBits(s: seq<Symbol>) {
    |s| >= 4 && s[|s| - 1] == PAD ==> if s[|s| - 2] == PAD then s[|s| - 3] % 16 == 0 else s[|s| - 2] % 4 == 0
  }

  // ----- laws -----

  lemma CharsAndSymbols(symbols: seq<Symbol>)
    ensures SymbolsOf(CharsOf(symbols)) == Some(symbols)
    ensures forall c | c in CharsOf(symbols) :: !IsLineBreak(c)
  {
    forall i | 0 <= i < |symbols| ensures SymbolOf(CharsOf(symbols)[i]) == Some(symbols[i]) {
    }
    assert SymbolsOf(CharsOf(symbols)).value == symbols;
  }

  lemma SymbolsAndChars(s: Bytes)
    requires SymbolsOf(s).Some?
    ensures CharsOf(SymbolsOf(s).value) == s
  {
  }

  lemma EncodeGroupDecodes(g: Bytes)
    requires 1 <= |g| <= 3
    ensures ZeroTrailingBits(EncodeGroup(g))
    ensures DecodeGroup(EncodeGroup(g)) == Some(g)
  {
    var a: int := g[0];
    assert a / 4 * 4 + a % 4 * 16 / 16 == a;
    if |g| == 1 {
      assert g == [g[0]];
    } else {
      var b: int := g[1];
      assert a / 4 * 4 + (a % 4 * 16 + b / 16) / 16 == a && (a % 4 * 16 + b / 16) % 16 == b / 16;
      if |g| == 2 {
        assert g == [g[0], g[1]];
      } else {
        assert g == [g[0], g[1], g[2]];
      }
    }
  }

  lemma DecodeGroupCanonical(q: seq<Symbol>)
    requires |q| == 4 && DecodeGroup(q).Some? && ZeroTrailingBits(q)
    ensures EncodeGroup(DecodeGroup(q).value) == q
  {
    var g := DecodeGroup(q).value;
    assert g[0] / 4 == q[0];
    if |g| == 3 {
      assert g[0] % 4 * 16 + g[1] / 16 == q[1];
    }
    assert q == [q[0], q[1], q[2], q[3]];
  }

  /** Only the last quantum matters for the trailing bits. */
  lemma TrailingBitsOfTail(q: seq<Symbol>, t: seq<Symbol>)
    requires |t| >= 4
    ensures ZeroTrailingBits(q + t) <==> ZeroTrailingBits(t)
  {
    var u := q + t;
    assert u[|u| - 1] == t[|t| - 1] && u[|u| - 2] == t[|t| - 2] && u[|u| - 3] == t[|t| - 3];
  }

  lemma {:induction false} EncodedLength(data: Bytes)
    ensures |EncodeSymbols(data)| == (|data| + 2) / 3 * 4
  {
    if |data| <= 3 {
    } else {
      EncodedLength(data[3..]);
    }
  }

  lemma {:induction false} SymbolsRoundTrip(data: Bytes)
    ensures DecodeSymbols(EncodeSymbols(data)) == Some(data)
    ensures ZeroTrailingBits(EncodeSymbols(data))
  {
    if |data| > 3 {
      var q, t := EncodeGroup(data[..3]), EncodeSymbols(data[3..]);
      EncodeGroupDecodes(data[..3]);
      EncodedLength(data[3..]);
      SymbolsRoundTrip(data[3..]);
      TrailingBitsOfTail(q, t);
      assert (q + t)[..4] == q && (q + t)[4..] == t;
      assert data == data[..3] + data[3..];
    } else if |data| > 0 {
      EncodeGroupDecodes(data);
      assert EncodeGroup(data)[..4] == EncodeGroup(data);
    }
  }

  lemma {:induction false} SymbolsCanonical(s: seq<Symbol>)
    requires DecodeSymbols(s).Some? && ZeroTrailingBits(s)
    ensures EncodeSymbols(DecodeSymbols(s).value) == s
  {
    if |s| == 4 {
      assert s[..4] == s;
      DecodeGroupCanonical(s);
    } else if s != [] {
      var q, t := s[..4], s[4..];
      var g, rest := DecodeGroup(q).value, DecodeSymbols(t).value;
      assert s == q + t;
      TrailingBitsOfTail(q, t);
      SymbolsCanonical(t);
      DecodeGroupCanonical(q);
      assert rest != [];
      assert (g + rest)[..3] == g && (g + rest)[3..] == rest;
    }
  }

  lemma {:induction false} StripNothing(s: Bytes)
    ensures StripLineBreaks(s) == s <==> forall c | c in s :: !IsLineBreak(c)
    ensures |StripLineBreaks(s)| <= |s|
  {
    if s == [] {
    } else {
      StripNothing(s[1..]);
      assert s == [s[0]] + s[1..];
    }
  }

  /** Decoding inverts encoding on every octet string. */
  lemma RoundTrip(data: Bytes)
    ensures Decode(Encode(data)) == Some(data)
  {
    CharsAndSymbols(EncodeSymbols(data));
    StripNothing(Encode(data));
    SymbolsRoundTrip(data);
  }

  /** What makes a text canonical: no line breaks, it decodes, and its unused bits are zero. */
  ghost predicate Canonical(s: Bytes) {
    && (forall c | c in s :: !IsLineBreak(c))
    && Decode(s).Some?
    && SymbolsOf(s).Some? && ZeroTrailingBits(SymbolsOf(s).value)
  }

  lemma EncodingIsCanonical(data: Bytes)
    ensures Canonical(Encode(data)) && Decode(Encode(data)) == Some(data)
  {
    RoundTrip(data);
    SymbolsRoundTrip(data);
    CharsAndSymbols(EncodeSymbols(data));
  }

  lemma CanonicalIsEncoding(s: Bytes)
    requires Canonical(s)
    ensures s == Encode(Decode(s).value)
  {
    StripNothing(s);
    SymbolsCanonical(SymbolsOf(s).value);
    SymbolsAndChars(s);
  }

  /**
   Which texts are encodings: exactly those without line breaks that decode and
   leave their unused bits zero; such a text is the encoding of what it decodes to.
   */
  lemma CanonicalText(s: Bytes)
    ensures (exists data :: s == Encode(data)) <==> Canonical(s)
    ensures (exists data :: s == Encode(data)) ==> s == Encode(Decode(s).value)
  {
    if data :| s == Encode(data) {
      EncodingIsCanonical(data);
    }
    if Canonical(s) {
      CanonicalIsEncoding(s);
    }
  }

  /**
   The grouping rule of RFC 4648: every full group of three octets, read as one
   24-bit number, is the number its four symbols spell in base 64.
   */
  lemma {:induction false} GroupValue(data: Bytes, k: nat)
    requires 3 * k + 3 <= |data|
    ensures 4 * k + 4 <= |EncodeSymbols(data)|
    ensures var q := EncodeSymbols(data)[4 * k..];
            && q[0] < 64 && q[1] < 64 && q[2] < 64 && q[3] < 64
            && q[0] as int * 0x40000 + q[1] as int * 0x1000 + q[2] as int * 0x40 + q[3] as int
               == data[3 * k] as int * 0x10000 + data[3 * k + 1] as int * 0x100 + data[3 * k + 2] as int
  {
    EncodedLength(data);
    if k == 0 {
      assert EncodeSymbols(data)[..4] == EncodeGroup(data[..3]) by {
        if |data| == 3 { assert data[..3] == data; }
      }
    } else {
      GroupValue(data[3..], k - 1);
      assert EncodeSymbols(data)[4 * k..] == EncodeSymbols(data[3..])[4 * (k - 1)..];
    }
  }

  /** Encoding at least fills the octets' own length, so a non-empty text is longer than its data. */
  lemma EncodedLonger(data: Bytes)
    ensures |Encode(data)| >= |data|
    ensures data != [] ==> |Encode(data)| > |data|
  {
    EncodedLength(data);
  }

  /** What is left over is shifted to the left, and pads fill the last quantum. */
  lemma {:induction false} TailValue(data: Bytes, k: nat)
    requires 3 * k < |data| < 3 * k + 3
    ensures |EncodeSymbols(data)| == 4 * k + 4
    ensures var q := EncodeSymbols(data)[4 * k..];
            && q[0] < 64 && q[1] < 64 && q[3] == 64
            && if |data| == 3 * k + 1 then
                 q[0] as int * 0x40 + q[1] as int == data[3 * k] as int * 0x10 && q[2] == 64
               else
                 && q[2] < 64
                 && q[0] as int * 0x1000 + q[1] as int * 0x40 + q[2] as int
                    == (data[3 * k] as int * 0x100 + data[3 * k + 1] as int) * 4
  {
    EncodedLength(data);
    if k == 0 {
    } else {
      TailValue(data[3..], k - 1);
      assert EncodeSymbols(data)[4 * k..] == EncodeSymbols(data[3..])[4 * (k - 1)..];
    }
  }

  /** The alphabet of RFC 4648, table 1, character by character of the text. */
  lemma Alphabet(data: Bytes, i: nat)
    requires i < |EncodeSymbols(data)|
    ensures |Encode(data)| == |EncodeSymbols(data)|
    ensures var v, c := EncodeSymbols(data)[i] as int, Encode(data)[i] as int;
            && (v < 26 ==> c == 'A' as int + v)
            && (26 <= v < 52 ==> c == 'a' as int + (v - 26))
            && (52 <= v < 62 ==> c == '0' as int + (v - 52))
            && (v == 62 ==> c == '+' as int) && (v == 63 ==> c == '/' as int) && (v == 64 ==> c == '=' as int)
  {
  }

  lemma AddAssociates(a: Bytes, b: Bytes, c: Bytes)
    ensures (a + b) + c == a + (b + c)
  {
  }

  lemma {:induction false} StripConcat(a: Bytes, b: Bytes)
    ensures StripLineBreaks(a + b) == StripLineBreaks(a) + StripLineBreaks(b)
  {
    if a == [] {
      assert a + b == b;
      assert StripLineBreaks(a) + StripLineBreaks(b) == StripLineBreaks(b);
    } else {
      StripConcat(a[1..], b);
      assert (a + b)[0] == a[0] && (a + b)[1..] == a[1..] + b;
      AddAssociates(if IsLineBreak(a[0]) then [] else [a[0]], StripLineBreaks(a[1..]), StripLineBreaks(b));
    }
  }

  /** Line feeds and carriage returns may stand anywhere in a text. */
  lemma LineBreaksIgnored(a: Bytes, c: Byte, b: Bytes)
    requires c == '\n' as int || c == '\r' as int
    ensures Decode(a + [c] + b) == Decode(a + b)
  {
    StripConcat(a + [c], b);
    StripConcat(a, [c]);
    StripConcat(a, b);
    assert StripLineBreaks([c]) == [];
    assert StripLineBreaks(a) + [] == StripLineBreaks(a);
  }

  lemma DecodeOneGroup(q: seq<Symbol>)
    requires |q| == 4
    ensures Decode(CharsOf(q)) == DecodeGroup(q)
  {
    CharsAndSymbols(q);
    StripNothing(CharsOf(q));
    assert q[..4] == q;
  }

  lemma PaddedGroups(a: Symbol, b: Symbol, c: Symbol)
    requires a < 64 && b < 64 && c < 64
    ensures DecodeGroup([a, b, PAD, PAD]) == Some([(a as int * 64 + b as int) / 16])
    ensures var n := (a as int * 4096 + b as int * 64 + c as int) / 4;
            DecodeGroup([a, b, c, PAD]) == Some([n / 256, n % 256])
  {
  }

  /** The unused bits of a padded quantum may be anything. */
  lemma TrailingBitsIgnored(a: Symbol, b: Symbol, c: Symbol)
    requires a < 64 && b < 64 && c < 64
    ensures Decode(CharsOf([a, b, PAD, PAD])) == Some([(a as int * 64 + b as int) / 16])
    ensures var n := (a as int * 4096 + b as int * 64 + c as int) / 4;
            Decode(CharsOf([a, b, c, PAD])) == Some([n / 256, n % 256])
  {
    PaddedGroups(a, b, c);
    DecodeOneGroup([a, b, PAD, PAD]);
    DecodeOneGroup([a, b, c, PAD]);
  }
}
