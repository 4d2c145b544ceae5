/** The static class `Cryptography` (src/Utils/Cryptography.cs): random tokens
    by rejection sampling, the `'s'`-prefixed hexadecimal text encoding, the
    bijective base-K numeral encoder, and the framing around the foreign
    primitives (AES-256-CBC for the domain-keyed codec, BCrypt for hashing),
    which enter as function-typed parameters. */
module Cryptography {
  import opened Outcomes
  import Utf8
  import opened StringExtensions

  // ---------------------------------------------------------------------------
  // Random tokens
  // ---------------------------------------------------------------------------

  const Digits: string := "0123456789"
  const LowerLetters: string := "abcdefghijklmnopqrstuvwxyz"
  const UpperLetters: string := "ABCDEFGHIJKLMNOPQRSTUVWXYZ"
  /** "0123456789ABCDEFGHIJKLMNOPQRSTUVWXYZ" */
  const UppercasePool: string := Digits + UpperLetters
  /** "0123456789abcdefghijklmnopqrstuvwxyzABCDEFGHIJKLMNOPQRSTUVWXYZ" */
  const Pool: string := Digits + LowerLetters + UpperLetters

  /** What `Math.Log(range, 2)` yields for a range of 36 or 62 (a value in
      [5, 6)): `(int)(log / 8 + 1)` bytes per draw, `(int)(log + 1)` bits kept,
      and the mask `(1 << bits) - 1`. */
  const RandomBytes: nat := 1
  const RandomBits: nat := 6
  const Filter: nat := 63

  predicate IsPoolSize(max: int) {
    max == |UppercasePool| || max == |Pool|
  }

  /** The constants are the ones the logarithm gives: the pool size needs
      exactly `RandomBits` bits, one byte holds them, and the mask keeps them. */
  lemma SamplingConstants(max: int)
    requires IsPoolSize(max)
    ensures Pow2(RandomBits - 1) <= max < Pow2(RandomBits)
    ensures RandomBytes == (RandomBits - 1) / 8 + 1
    ensures Filter == Pow2(RandomBits) - 1
  {
  }

  function Pow2(n: nat): nat {
    if n == 0 then 1 else 2 * Pow2(n - 1)
  }

  function Pow256(n: nat): nat {
    if n == 0 then 1 else 256 * Pow256(n - 1)
  }

  /** `rnd |= bytes[i] << (8 * i)` over all bytes: the bytes as a little-endian
      number (the shifted bytes occupy disjoint bits, so OR is addition). */
  function LittleEndian(bs: seq<byte>): nat {
    if bs == [] then 0 else LittleEndian(bs[..|bs| - 1]) + bs[|bs| - 1] as nat * Pow256(|bs| - 1)
  }

  /** One pass of the do-while body: a draw masked with `rnd &= filter`. */
  function MaskedDraw(bs: seq<byte>): (v: nat)
    requires |bs| == RandomBytes
    ensures v <= Filter
  {
    LittleEndian(bs) % (Filter + 1)
  }

  /** The do-while loop of `CryptoRandSecure` run over the generator's output
      `entropy`: draws are masked and redrawn while `>= max`. The result is the
      accepted value and the entropy left unread, or `None` when `entropy` ends
      before a draw is accepted (a longer prefix of the output is needed). */
  function RejectionSample(max: int, entropy: seq<byte>): (r: Option<(int, seq<byte>)>)
    ensures r.Some? ==> 0 <= r.value.0 < max
    ensures r.Some? ==> |r.value.1| <= |entropy| - RandomBytes
    decreases |entropy|
  {
    if |entropy| < RandomBytes then None
    else
      var v := MaskedDraw(entropy[..RandomBytes]);
      if v < max then Some((v, entropy[RandomBytes..]))
      else RejectionSample(max, entropy[RandomBytes..])
  }

  /** No modulo bias: every masked value is produced by exactly four of the 256
      values of a random byte, so each index below the pool size is returned
      with the same probability. */
  lemma MaskIsUniform(v: nat)
    requires v <= Filter
    ensures Preimages(v) == {v, v + 64, v + 128, v + 192}
    ensures |Preimages(v)| == 4
  {
    forall b | 0 <= b < 256
      ensures DrawOfByte(b) == b % 64
    {
      LittleEndianOfOne(b as byte);
    }
    assert Preimages(v) == {v, v + 64, v + 128, v + 192};
  }

  lemma LittleEndianOfOne(x: byte)
    ensures LittleEndian([x]) == x as nat
  {
    assert [x][..0] == [];
    assert LittleEndian([x][..0]) == 0;
    assert Pow256(0) == 1;
  }

  /** The masked value of a one-byte draw of `b`. */
  function DrawOfByte(b: int): nat
    requires 0 <= b < 256
  {
    MaskedDraw([b as byte])
  }

  /** The byte values whose draw masks to `v`. */
  function Preimages(v: nat): set<int> {
    set b: int | 0 <= b < 256 && DrawOfByte(b) == v
  }

  /** `CryptoRandSecure(max)` for the two pool sizes, reading the secure
      generator's output from `entropy`. */
  method CryptoRandSecure(max: int, entropy: seq<byte>) returns (r: Option<(int, seq<byte>)>)
    requires IsPoolSize(max)
    ensures r == RejectionSample(max, entropy)
    ensures r.Some? ==> 0 <= r.value.0 < max
  {
    var range := max - 0;
    var rest := entropy;
    while true
      invariant RejectionSample(max, rest) == RejectionSample(max, entropy)
      decreases |rest|
    {
      if |rest| < RandomBytes {
        return None;
      }
      var randomBytes := rest[..RandomBytes];
      rest := rest[RandomBytes..];
      var rnd := 0;
      for i := 0 to |randomBytes|
        invariant rnd == LittleEndian(randomBytes[..i])
      {
        assert randomBytes[..i + 1][..i] == randomBytes[..i];
        rnd := rnd + randomBytes[i] as nat * Pow256(i);
      }
      assert randomBytes[..|randomBytes|] == randomBytes;
      rnd := rnd % (Filter + 1);
      if rnd < range {
        return Some((0 + rnd, rest));
      }
    }
  }

  /** Draws `length` pool indices one after another; the token and the entropy
      left, or `None` when the entropy runs out. */
  function DrawToken(length: nat, pool: string, entropy: seq<byte>): (r: Option<(string, seq<byte>)>)
    requires IsPoolSize(|pool|)
    ensures r.Some? ==> |r.value.0| == length
    decreases length
  {
    if length == 0 then Some(([], entropy))
    else
      match RejectionSample(|pool|, entropy)
      case None => None
      case Some((k, rest)) =>
        match DrawToken(length - 1, pool, rest)
        case None => None
        case Some((t, rest')) => Some(([pool[k]] + t, rest'))
  }

  /** Every character of a drawn token comes from the pool. */
  lemma {:induction false} DrawTokenInPool(length: nat, pool: string, entropy: seq<byte>)
    requires IsPoolSize(|pool|)
    ensures DrawToken(length, pool, entropy).Some? ==>
              forall i :: 0 <= i < length ==> DrawToken(length, pool, entropy).value.0[i] in pool
    decreases length
  {
    var r := DrawToken(length, pool, entropy);
    if length > 0 && r.Some? {
      var (k, rest) := RejectionSample(|pool|, entropy).value;
      DrawTokenInPool(length - 1, pool, rest);
      var t := DrawToken(length - 1, pool, rest).value.0;
      assert r.value.0 == [pool[k]] + t;
      forall i | 0 <= i < length ensures r.value.0[i] in pool {
        if i > 0 { assert r.value.0[i] == t[i - 1]; }
      }
    }
  }

  /** The entropy left after a draw is what follows the bytes it read. */
  lemma {:induction false} RejectionSampleConsumesPrefix(max: int, entropy: seq<byte>)
    ensures RejectionSample(max, entropy).Some? ==>
              var rest := RejectionSample(max, entropy).value.1;
              rest == entropy[|entropy| - |rest|..]
    decreases |entropy|
  {
    if |entropy| >= RandomBytes && MaskedDraw(entropy[..RandomBytes]) >= max {
      var tail := entropy[RandomBytes..];
      RejectionSampleConsumesPrefix(max, tail);
      if RejectionSample(max, tail).Some? {
        var rest := RejectionSample(max, tail).value.1;
        assert tail[|tail| - |rest|..] == entropy[|entropy| - |rest|..];
      }
    }
  }

  function PrependChar(c: char, r: Option<(string, seq<byte>)>): Option<(string, seq<byte>)> {
    match r
    case None => None
    case Some((t, rest)) => Some(([c] + t, rest))
  }

  function PrependString(p: string, r: Option<(string, seq<byte>)>): Option<(string, seq<byte>)> {
    match r
    case None => None
    case Some((t, rest)) => Some((p + t, rest))
  }

  /** Membership in the pools, as the tests' patterns `[A-Z0-9]` and `[a-zA-Z0-9]` say. */
  lemma PoolsAreAlphanumeric(c: char)
    ensures c in UppercasePool <==> '0' <= c <= '9' || 'A' <= c <= 'Z'
    ensures c in Pool <==> '0' <= c <= '9' || 'a' <= c <= 'z' || 'A' <= c <= 'Z'
  {
    PoolPieces();
    InCharRange(c, '0', 10);
    InCharRange(c, 'a', 26);
    InCharRange(c, 'A', 26);
  }

  lemma PoolPieces()
    ensures Digits == CharRange('0', 10)
    ensures LowerLetters == CharRange('a', 26)
    ensures UpperLetters == CharRange('A', 26)
  {
    var digits, lower, upper := CharRange('0', 10), CharRange('a', 26), CharRange('A', 26);
    forall i | 0 <= i < 10 ensures Digits[i] == digits[i] {
      assert digits[i] == ('0' as int + i) as char;
    }
    forall i | 0 <= i < 26 ensures LowerLetters[i] == lower[i] {
      assert lower[i] == ('a' as int + i) as char;
    }
    forall i | 0 <= i < 26 ensures UpperLetters[i] == upper[i] {
      assert upper[i] == ('A' as int + i) as char;
    }
  }

  /** The `n` consecutive characters from `lo`. */
  function CharRange(lo: char, n: nat): string
    requires lo as int + n <= 0xD800
  {
    seq(n, i requires 0 <= i < n => (lo as int + i) as char)
  }

  lemma InCharRange(c: char, lo: char, n: nat)
    requires lo as int + n <= 0xD800
    ensures c in CharRange(lo, n) <==> lo as int <= c as int < lo as int + n
  {
    if lo as int <= c as int < lo as int + n {
      assert CharRange(lo, n)[c as int - lo as int] == c;
    }
  }

  /** When each of the first `length` bytes is accepted at its first draw, the
      token is those bytes' masked values looked up in the pool. */
  lemma {:induction false} DrawTokenFromAcceptedBytes(length: nat, pool: string, entropy: seq<byte>)
    requires IsPoolSize(|pool|)
    requires length <= |entropy|
    requires forall i :: 0 <= i < length ==> MaskedDraw([entropy[i]]) < |pool|
    ensures DrawToken(length, pool, entropy).Some?
    ensures |DrawToken(length, pool, entropy).value.0| == length
    ensures forall i :: 0 <= i < length ==> DrawToken(length, pool, entropy).value.0[i] == pool[MaskedDraw([entropy[i]])]
    ensures DrawToken(length, pool, entropy).value.1 == entropy[length..]
  {
    if length > 0 {
      var rest := entropy[1..];
      forall i | 0 <= i < length - 1 ensures MaskedDraw([rest[i]]) < |pool| {
        assert rest[i] == entropy[i + 1];
      }
      DrawTokenFromAcceptedBytes(length - 1, pool, rest);
      assert rest[length - 1..] == entropy[length..];
      DrawTokenAcceptedFirst(length, pool, entropy);
      var t := DrawToken(length - 1, pool, rest).value.0;
      var u := DrawToken(length, pool, entropy).value.0;
      forall i | 0 <= i < length ensures u[i] == pool[MaskedDraw([entropy[i]])] {
        if i > 0 {
          assert u[i] == t[i - 1] && rest[i - 1] == entropy[i];
        }
      }
    } else {
      assert entropy[0..] == entropy;
    }
  }

  /** One step of `DrawToken`: the first index drawn, then the rest. */
  lemma DrawTokenStep(length: nat, pool: string, entropy: seq<byte>)
    requires IsPoolSize(|pool|) && length > 0
    ensures RejectionSample(|pool|, entropy).None? ==> DrawToken(length, pool, entropy) == None
    ensures RejectionSample(|pool|, entropy).Some? ==>
              DrawToken(length, pool, entropy)
              == PrependChar(pool[RejectionSample(|pool|, entropy).value.0],
                             DrawToken(length - 1, pool, RejectionSample(|pool|, entropy).value.1))
  {
  }

  lemma DrawTokenAcceptedFirst(length: nat, pool: string, entropy: seq<byte>)
    requires IsPoolSize(|pool|)
    requires length > 0 && |entropy| > 0
    requires MaskedDraw([entropy[0]]) < |pool|
    requires DrawToken(length - 1, pool, entropy[1..]).Some?
    ensures DrawToken(length, pool, entropy)
         == Some(([pool[MaskedDraw([entropy[0]])]] + DrawToken(length - 1, pool, entropy[1..]).value.0,
                  DrawToken(length - 1, pool, entropy[1..]).value.1))
  {
    assert entropy[..RandomBytes] == [entropy[0]];
    assert RejectionSample(|pool|, entropy) == Some((MaskedDraw([entropy[0]]), entropy[1..]));
  }

  /** `CreateToken(length, isUppercase)`: `length` characters drawn from the
      36-character uppercase pool or the 62-character mixed pool. A negative
      length makes `new char[length]` throw. */
  method CreateToken(length: int32, isUppercase: bool, entropy: seq<byte>)
    returns (r: Outcome<Option<(string, seq<byte>)>>)
    ensures length < 0 ==> r == Throw(OverflowException)
    ensures length >= 0 ==> r == Return(DrawToken(length as nat, if isUppercase then UppercasePool else Pool, entropy))
    ensures r.Return? && r.value.Some? ==> |r.value.value.0| == length as int
    ensures r.Return? && r.value.Some? ==>
              forall i :: 0 <= i < length as int ==> r.value.value.0[i] in (if isUppercase then UppercasePool else Pool)
  {
    var selectedPool := if isUppercase then UppercasePool else Pool;
    if length < 0 {
      return Throw(OverflowException);
    }
    var token := new char[length as int];
    var drawn := FillToken(token, selectedPool, entropy);
    DrawTokenInPool(length as nat, selectedPool, entropy);
    r := Return(drawn);
  }

  /** The loop of `CreateToken`: each slot of `token` in turn gets the pool
      character at the next index `CryptoRandSecure` draws. The result is the
      filled token's text and the entropy not yet used, or `None` when the
      entropy runs out first. */
  method FillToken(token: array<char>, pool: string, entropy: seq<byte>)
    returns (r: Option<(string, seq<byte>)>)
    requires IsPoolSize(|pool|)
    modifies token
    ensures r == DrawToken(token.Length, pool, entropy)
    ensures r.Some? ==> r.value.0 == token[..]
  {
    ghost var n := token.Length;
    ghost var draw := DrawToken(n, pool, entropy);
    var max := |pool|;
    var rest := entropy;
    ghost var drawn: string := [];
    PrependNothing(draw);
    for i := 0 to token.Length
      invariant |drawn| == i
      invariant token[..i] == drawn
      invariant draw == PrependString(drawn, DrawToken(n - i, pool, rest))
    {
      var d := CryptoRandSecure(max, rest);
      if d.None? {
        CreateTokenExhausted(draw, drawn, n - i, pool, rest);
        return None;
      }
      var c := pool[d.value.0];
      CreateTokenStep(draw, drawn, c, n - i, pool, rest, d.value.1);
      token[i] := c;
      drawn := drawn + [c];
      rest := d.value.1;
    }
    CreateTokenDone(draw, drawn, pool, rest);
    assert token[..] == token[..token.Length];
    r := Some((token[..], rest));
  }

  /** The loop of `CreateToken` keeps the drawing it has not done yet: one
      more character drawn moves from the remaining drawing to the prefix. */
  lemma CreateTokenStep(draw: Option<(string, seq<byte>)>, prefix: string, c: char, m: nat,
                        pool: string, entropy: seq<byte>, rest: seq<byte>)
    requires IsPoolSize(|pool|) && m > 0
    requires draw == PrependString(prefix, DrawToken(m, pool, entropy))
    requires RejectionSample(|pool|, entropy).Some?
    requires RejectionSample(|pool|, entropy).value.1 == rest
    requires c == pool[RejectionSample(|pool|, entropy).value.0]
    ensures draw == PrependString(prefix + [c], DrawToken(m - 1, pool, rest))
  {
    DrawTokenStep(m, pool, entropy);
    PrependAssociates(prefix, c, DrawToken(m - 1, pool, rest));
  }

  /** Entropy running out mid-token leaves no token. */
  lemma CreateTokenExhausted(draw: Option<(string, seq<byte>)>, prefix: string, m: nat,
                             pool: string, entropy: seq<byte>)
    requires IsPoolSize(|pool|) && m > 0
    requires draw == PrependString(prefix, DrawToken(m, pool, entropy))
    requires RejectionSample(|pool|, entropy).None?
    ensures draw == None
  {
    DrawTokenStep(m, pool, entropy);
  }

  /** With nothing left to draw, the prefix is the token. */
  lemma CreateTokenDone(draw: Option<(string, seq<byte>)>, token: string, pool: string, rest: seq<byte>)
    requires IsPoolSize(|pool|)
    requires draw == PrependString(token, DrawToken(0, pool, rest))
    ensures draw == Some((token, rest))
  {
    assert token + [] == token;
  }

  lemma PrependNothing(r: Option<(string, seq<byte>)>)
    ensures PrependString([], r) == r
  {
    if r.Some? {
      assert [] + r.value.0 == r.value.0;
    }
  }

  lemma PrependAssociates(p: string, c: char, r: Option<(string, seq<byte>)>)
    ensures PrependString(p, PrependChar(c, r)) == PrependString(p + [c], r)
  {
    if r.Some? {
      assert p + ([c] + r.value.0) == (p + [c]) + r.value.0;
    }
  }

  // ---------------------------------------------------------------------------
  // Hexadecimal text encoding
  // ---------------------------------------------------------------------------

  /** The lowercase hexadecimal digit for `d`. */
  function LowerDigit(d: nat): (c: char)
    requires d < 16
    ensures IsLowerHexDigit(c) && HexValue(c) == d
  {
    if d < 10 then ('0' as int + d) as char else ('a' as int + d - 10) as char
  }

  predicate IsLowerHexDigit(c: char) {
    '0' <= c <= '9' || 'a' <= c <= 'f'
  }

  predicate IsHexDigit(c: char) {
    '0' <= c <= '9' || 'a' <= c <= 'f' || 'A' <= c <= 'F'
  }

  predicate AllHex(s: string) {
    forall i :: 0 <= i < |s| ==> IsHexDigit(s[i])
  }

  function HexValue(c: char): (v: nat)
    requires IsHexDigit(c)
    ensures v < 16
  {
    if '0' <= c <= '9' then c as int - '0' as int
    else if 'a' <= c <= 'f' then c as int - 'a' as int + 10
    else c as int - 'A' as int + 10
  }

  /** `b.ToString("x2")`. */
  function LowerHexByte(b: byte): (h: string)
    ensures |h| == 2 && IsHexDigit(h[0]) && IsHexDigit(h[1])
    ensures 16 * HexValue(h[0]) + HexValue(h[1]) == b as int
  {
    [LowerDigit(b as nat / 16), LowerDigit(b as nat % 16)]
  }

  /** The bytes rendered with two lowercase digits each. */
  function LowerHex(bs: seq<byte>): (h: string)
    ensures |h| == 2 * |bs|
  {
    if bs == [] then "" else LowerHexByte(bs[0]) + LowerHex(bs[1..])
  }

  lemma {:induction false} LowerHexAppend(a: seq<byte>, b: seq<byte>)
    ensures LowerHex(a + b) == LowerHex(a) + LowerHex(b)
  {
    if a != [] {
      assert (a + b)[1..] == a[1..] + b;
      LowerHexAppend(a[1..], b);
    } else {
      assert a + b == b;
    }
  }

  lemma {:induction false} LowerHexDigits(bs: seq<byte>)
    ensures forall i :: 0 <= i < |LowerHex(bs)| ==> IsLowerHexDigit(LowerHex(bs)[i])
  {
    if bs != [] {
      LowerHexDigits(bs[1..]);
      var h := LowerHex(bs);
      forall i | 0 <= i < |h| ensures IsLowerHexDigit(h[i]) {
        if i >= 2 { assert h[i] == LowerHex(bs[1..])[i - 2]; }
      }
    }
  }

  /** `IsHexadecimalRegex().IsMatch(s)` for `\A\b[0-9a-fA-F]+\b\Z`: one or more
      hex digits, where `\Z` also matches before a single final '\n'. */
  predicate IsHexadecimal(s: string) {
    || (|s| > 0 && AllHex(s))
    || (|s| > 1 && s[|s| - 1] == '\n' && AllHex(s[..|s| - 1]))
  }

  /** `Convert.ToByte(pair, 16)`: two hex digits, or '+' and one hex digit; a
      leading '-' is refused with an ArgumentException and anything else with a
      FormatException. */
  function ParseHexPair(c0: char, c1: char): (r: Outcome<byte>)
    ensures IsHexDigit(c0) && IsHexDigit(c1) ==> r == Return((16 * HexValue(c0) + HexValue(c1)) as byte)
  {
    if IsHexDigit(c0) && IsHexDigit(c1) then Return((16 * HexValue(c0) + HexValue(c1)) as byte)
    else if c0 == '+' && IsHexDigit(c1) then Return(HexValue(c1) as byte)
    else if c0 == '-' then Throw(ArgumentException("String cannot contain a minus sign if the base is not 10."))
    else Throw(FormatException)
  }

  /** `ConvertHexadecimalStringToByteArray`, as a function: pairs left to right;
      the first pair that does not parse throws, and a last single character
      makes `Substring(i, 2)` throw. */
  function HexPairs(h: string): Outcome<seq<byte>>
    decreases |h|
  {
    if |h| == 0 then Return([])
    else if |h| == 1 then Throw(ArgumentOutOfRangeException)
    else
      match ParseHexPair(h[0], h[1])
      case Throw(e) => Throw(e)
      case Return(b) => PrependBytes([b], HexPairs(h[2..]))
  }

  function PrependBytes(p: seq<byte>, r: Outcome<seq<byte>>): Outcome<seq<byte>> {
    match r
    case Throw(e) => Throw(e)
    case Return(bs) => Return(p + bs)
  }

  /** The method the source runs: a loop that writes a byte array two input
      characters at a time. */
  method ConvertHexadecimalStringToByteArray(hexadecimal: string) returns (r: Outcome<seq<byte>>)
    ensures r == HexPairs(hexadecimal)
  {
    var length := |hexadecimal|;
    var bytes := new byte[length / 2];
    var i := 0;
    assert bytes[..0] == [];
    PrependBytesNothing(HexPairs(hexadecimal));
    while i < length
      invariant 0 <= i <= length && i % 2 == 0
      invariant HexPairs(hexadecimal) == PrependBytes(bytes[..i / 2], HexPairs(hexadecimal[i..]))
    {
      if i + 2 > length {
        return Throw(ArgumentOutOfRangeException);
      }
      var p := ParseHexPair(hexadecimal[i], hexadecimal[i + 1]);
      if p.Throw? {
        return Throw(p.error);
      }
      assert hexadecimal[i..][2..] == hexadecimal[i + 2..];
      var before := bytes[..i / 2];
      bytes[i / 2] := p.value;
      assert bytes[..i / 2 + 1] == before + [p.value];
      PrependBytesAssociates(before, [p.value], HexPairs(hexadecimal[i + 2..]));
      i := i + 2;
    }
    assert i == length && hexadecimal[i..] == [];
    assert bytes[..i / 2] == bytes[..] == bytes[..] + [];
    return Return(bytes[..]);
  }

  lemma PrependBytesNothing(r: Outcome<seq<byte>>)
    ensures PrependBytes([], r) == r
  {
    if r.Return? {
      assert [] + r.value == r.value;
    }
  }

  lemma PrependBytesAssociates(p: seq<byte>, q: seq<byte>, r: Outcome<seq<byte>>)
    ensures PrependBytes(p, PrependBytes(q, r)) == PrependBytes(p + q, r)
  {
    if r.Return? {
      assert p + (q + r.value) == (p + q) + r.value;
    }
  }

  /** Hex pairs parse back to the bytes they render. */
  lemma {:induction false} HexPairsLowerHex(bs: seq<byte>)
    ensures HexPairs(LowerHex(bs)) == Return(bs)
  {
    if bs != [] {
      var h := LowerHex(bs);
      assert h[2..] == LowerHex(bs[1..]);
      HexPairsLowerHex(bs[1..]);
      assert [bs[0]] + bs[1..] == bs;
    }
  }

  /** Any even-length run of hex digits parses, upper- and lowercase alike:
      byte `i` is the value of digits `2i` and `2i + 1`. */
  lemma {:induction false} HexPairsAllHex(h: string)
    requires AllHex(h) && |h| % 2 == 0
    ensures HexPairs(h).Return? && |HexPairs(h).value| == |h| / 2
    ensures forall i :: 0 <= i < |h| / 2 ==>
              HexPairs(h).value[i] as int == 16 * HexValue(h[2 * i]) + HexValue(h[2 * i + 1])
  {
    if h != [] {
      var t := h[2..];
      assert AllHex(t) by {
        forall i | 0 <= i < |t| ensures IsHexDigit(t[i]) { assert t[i] == h[i + 2]; }
      }
      HexPairsAllHex(t);
      var bs := HexPairs(h).value;
      forall i | 0 <= i < |h| / 2
        ensures bs[i] as int == 16 * HexValue(h[2 * i]) + HexValue(h[2 * i + 1])
      {
        if i > 0 {
          assert bs[i] == HexPairs(t).value[i - 1];
          assert t[2 * (i - 1)] == h[2 * i] && t[2 * (i - 1) + 1] == h[2 * i + 1];
        }
      }
    }
  }

  /** A run of hex digits of odd length followed by '\n' pairs its last digit
      with the newline, and `Convert.ToByte` throws. */
  lemma {:induction false} HexPairsNewline(h: string)
    requires AllHex(h) && |h| % 2 == 1
    ensures HexPairs(h + "\n") == Throw(FormatException)
  {
    if |h| > 1 {
      var t := h[2..];
      assert (h + "\n")[2..] == t + "\n";
      assert AllHex(t) by {
        forall i | 0 <= i < |t| ensures IsHexDigit(t[i]) { assert t[i] == h[i + 2]; }
      }
      HexPairsNewline(t);
    }
  }

  /** The text form of `Encode(value)`: the sentinel 's' and two lowercase hex
      digits per UTF-8 byte. */
  function Encoded(value: string): (r: string)
    ensures |r| == 1 + 2 * |Utf8.GetBytes(value)| && r[0] == 's'
  {
    "s" + LowerHex(Utf8.GetBytes(value))
  }

  /** The text form of the private `Encode(byte[])`: the bytes in lowercase hex,
      and that text encoded again. */
  function EncodedBytes(bs: seq<byte>): string {
    Encoded(LowerHex(bs))
  }

  /** `foreach (var b in bytes) hexString.Append(b.ToString("x2"))`: the
      loop both `Encode` overloads run on their StringBuilder. */
  method AppendLowerHex(hexString: string, bytes: seq<byte>) returns (r: string)
    ensures r == hexString + LowerHex(bytes)
  {
    r := hexString;
    for i := 0 to |bytes|
      invariant r == hexString + LowerHex(bytes[..i])
    {
      var pair := LowerHexByte(bytes[i]);
      LowerHexAppend(bytes[..i], [bytes[i]]);
      assert bytes[..i + 1] == bytes[..i] + [bytes[i]];
      assert LowerHex([bytes[i]]) == pair;
      assert r + pair == hexString + (LowerHex(bytes[..i]) + pair);
      r := r + pair;
    }
    assert bytes[..|bytes|] == bytes;
  }

  /** `Encode(string)`: the builder starts with "s". */
  method Encode(value: string) returns (r: string)
    ensures r == Encoded(value)
  {
    var bytes := Utf8.GetBytes(value);
    r := AppendLowerHex("s", bytes);
  }

  /** The private `Encode(byte[])`: the hex text of the bytes, then
      `Encode(string)` of that text. */
  method EncodeBytes(value: seq<byte>) returns (r: string)
    ensures r == EncodedBytes(value)
  {
    var hexString := AppendLowerHex("", value);
    assert hexString == LowerHex(value);
    r := Encode(hexString);
  }

  /** The encoding is 's' followed by lowercase hex digits only: one letter
      first, then alphanumerics, as HTML ids require. */
  lemma EncodedShape(value: string)
    ensures |Encoded(value)| == 1 + 2 * |Utf8.GetBytes(value)|
    ensures Encoded(value)[0] == 's'
    ensures forall i :: 1 <= i < |Encoded(value)| ==> IsLowerHexDigit(Encoded(value)[i])
  {
    var bs := Utf8.GetBytes(value);
    LowerHexDigits(bs);
    forall i | 1 <= i < |Encoded(value)| ensures IsLowerHexDigit(Encoded(value)[i]) {
      assert Encoded(value)[i] == LowerHex(bs)[i - 1];
    }
  }

  /** `Encode("test") == "s74657374"`. */
  lemma EncodeTest()
    ensures Encoded("test") == "s74657374"
  {
    assert Utf8.GetBytes("test") == [0x74, 0x65, 0x73, 0x74];
  }

  /** `TryDecode(value, out decodedValue)`: the boolean and the out value, or the
      exception. A rejected input is handed back unchanged. */
  function TryDecode(value: string): (r: Outcome<(bool, string)>)
    ensures r.Return? && !r.value.0 ==> r.value.1 == value
  {
    if !(|value| > 0 && value[0] == 's') then Return((false, value))
    else
      var hex := value[1..];
      if !IsHexadecimal(hex) then Return((false, value))
      else if |hex| % 2 != 0 then Return((false, value))
      else
        NewlineOrHex(hex);
        match HexPairs(hex)
        case Throw(e) => Throw(e)
        case Return(bytes) => Return((true, Utf8.GetString(bytes)))
  }

  /** What is accepted: 's' and an even number of hex digits. What throws: 's',
      an odd number of hex digits and a final '\n', which the pattern lets
      through. Everything else is rejected. */
  lemma TryDecodeCases(value: string)
    ensures TryDecode(value).Return? && TryDecode(value).value.0 <==>
              |value| >= 3 && |value| % 2 == 1 && value[0] == 's' && AllHex(value[1..])
    ensures TryDecode(value).Throw? <==>
              |value| >= 3 && |value| % 2 == 1 && value[0] == 's' && value[|value| - 1] == '\n'
              && AllHex(value[1..|value| - 1])
  {
    if |value| >= 2 && value[0] == 's' {
      var hex := value[1..];
      assert hex[..|hex| - 1] == value[1..|value| - 1];
      if IsHexadecimal(hex) && |hex| % 2 == 0 {
        NewlineOrHex(hex);
        if AllHex(hex) {
          HexPairsAllHex(hex);
        }
      }
    }
  }

  /** Why the newline case is the only one where `TryDecode` throws. */
  lemma NewlineOrHex(hex: string)
    requires IsHexadecimal(hex) && |hex| % 2 == 0
    ensures HexPairs(hex).Throw? <==> hex[|hex| - 1] == '\n' && AllHex(hex[..|hex| - 1])
  {
    if AllHex(hex) {
      HexPairsAllHex(hex);
    } else {
      var h := hex[..|hex| - 1];
      assert hex == h + "\n";
      HexPairsNewline(h);
    }
  }

  /** Round trip: every non-empty text decodes back from its encoding. */
  lemma TryDecodeEncoded(value: string)
    requires value != ""
    ensures TryDecode(Encoded(value)) == Return((true, value))
  {
    var bs := Utf8.GetBytes(value);
    var hex := LowerHex(bs);
    assert Encoded(value)[1..] == hex;
    LowerHexDigits(bs);
    assert AllHex(hex) by {
      forall i | 0 <= i < |hex| ensures IsHexDigit(hex[i]) {
        assert IsLowerHexDigit(hex[i]);
      }
    }
    assert IsHexadecimal(hex) && |hex| % 2 == 0;
    HexPairsLowerHex(bs);
    var e := Encoded(value);
    assert |e| > 0 && e[0] == 's' && e[1..] == hex;
    assert TryDecode(e) == Return((true, Utf8.GetString(bs)));
    Utf8.GetStringGetBytes(value);
  }

  /** The empty text encodes to "s", which the hex pattern (one digit or more)
      rejects: the round trip fails exactly there. */
  lemma EmptyEncodingIsRejected()
    ensures Encoded("") == "s"
    ensures TryDecode(Encoded("")) == Return((false, "s"))
  {
  }

  /** The three rejections the tests name. */
  lemma TryDecodeRejectsTestInputs()
    ensures TryDecode("fake") == Return((false, "fake"))
    ensures TryDecode("sxx") == Return((false, "sxx"))
    ensures TryDecode("sade") == Return((false, "sade"))
  {
    assert "sxx"[1..] == "xx" && !IsHexDigit("xx"[1]) && "xx"[..1] == "x";
  }

  /** Because `\Z` also matches before a final newline, "sabc\n" passes the
      pattern, has an even remainder, and then throws while parsing "c\n". */
  lemma TryDecodeThrowsOnTrailingNewline()
    ensures TryDecode("sabc\n") == Throw(FormatException)
  {
    assert "sabc\n"[1..] == "abc" + "\n";
    HexPairsNewline("abc");
  }

  /** A successful decode reads hex pairs in either case: the decoded bytes
      render back to the input's digits in lowercase. */
  lemma TryDecodeReadsEitherCase(value: string)
    requires |value| >= 3 && |value| % 2 == 1 && value[0] == 's' && AllHex(value[1..])
    ensures HexPairs(value[1..]).Return?
    ensures LowerHex(HexPairs(value[1..]).value) == ToLowerHex(value[1..])
    ensures TryDecode(value) == Return((true, Utf8.GetString(HexPairs(value[1..]).value)))
  {
    var hex := value[1..];
    HexPairsAllHex(hex);
    LowerHexOfPairs(hex);
  }

  /** Lowercase form of a run of hex digits. */
  function ToLowerHex(h: string): (r: string)
    requires AllHex(h)
    ensures |r| == |h|
  {
    if h == [] then "" else [LowerDigit(HexValue(h[0]))] + ToLowerHex(h[1..])
  }

  lemma {:induction false} LowerHexOfPairs(h: string)
    requires AllHex(h) && |h| % 2 == 0
    ensures HexPairs(h).Return? && LowerHex(HexPairs(h).value) == ToLowerHex(h)
  {
    if h != [] {
      var t := h[2..];
      ToLowerHexCons(h);
      LowerHexOfPairs(t);
      var hi, lo := HexValue(h[0]), HexValue(h[1]);
      HexPairsCons(h);
      LowerHexOfPair(hi, lo);
      LowerHexCons((16 * hi + lo) as byte, HexPairs(t).value);
    }
  }

  /** The lowercase form of a run of hex digits, two digits at a time. */
  lemma ToLowerHexCons(h: string)
    requires AllHex(h) && |h| >= 2
    ensures AllHex(h[2..])
    ensures ToLowerHex(h) == [LowerDigit(HexValue(h[0])), LowerDigit(HexValue(h[1]))] + ToLowerHex(h[2..])
  {
    var t := h[2..];
    forall i | 0 <= i < |t| ensures IsHexDigit(t[i]) { assert t[i] == h[i + 2]; }
    assert h[1..][1..] == t;
  }

  /** A byte read from two digits renders as those digits in lowercase. */
  lemma LowerHexOfPair(hi: nat, lo: nat)
    requires hi < 16 && lo < 16
    ensures LowerHexByte((16 * hi + lo) as byte) == [LowerDigit(hi), LowerDigit(lo)]
  {
    DivModUnique(hi, lo, 16);
  }

  lemma HexPairsCons(h: string)
    requires |h| >= 2 && IsHexDigit(h[0]) && IsHexDigit(h[1])
    ensures HexPairs(h) == PrependBytes([(16 * HexValue(h[0]) + HexValue(h[1])) as byte], HexPairs(h[2..]))
  {
  }

  lemma LowerHexCons(b: byte, rest: seq<byte>)
    ensures LowerHex([b] + rest) == LowerHexByte(b) + LowerHex(rest)
  {
    assert ([b] + rest)[1..] == rest;
  }

  // ---------------------------------------------------------------------------
  // Hashing and verification (BCrypt is a parameter)
  // ---------------------------------------------------------------------------

  /** BCrypt's cost factor. */
  const Cost: int := 10

  /** `BCrypt.HashPassword(value, cost)` with the salt it draws made explicit. */
  type PasswordHasher = (string, int, seq<byte>) -> string

  /** `BCrypt.Verify(value, hash)`, which may throw on a malformed hash. */
  type PasswordVerifier = (string, string) -> Outcome<bool>

  /** `Hash(value)`: the BCrypt output, encoded, so that `TryDecode` recovers it. */
  function Hash(value: string, salt: seq<byte>, hashPassword: PasswordHasher): (r: string)
    ensures |r| == 1 + 2 * |Utf8.GetBytes(hashPassword(value, Cost, salt))| && r[0] == 's'
    ensures hashPassword(value, Cost, salt) != "" ==> TryDecode(r) == Return((true, hashPassword(value, Cost, salt)))
  {
    var bcryptHash := hashPassword(value, Cost, salt);
    if bcryptHash == "" then Encoded(bcryptHash)
    else TryDecodeEncoded(bcryptHash); Encoded(bcryptHash)
  }

  /** `Verify(value, hash)`: false when the hash does not decode, otherwise
      BCrypt's verdict on the decoded text. */
  function Verify(value: string, hash: string, verifyPassword: PasswordVerifier): (r: Outcome<bool>)
    ensures TryDecode(hash).Return? && !TryDecode(hash).value.0 ==> r == Return(false)
    ensures TryDecode(hash).Throw? ==> r == Throw(TryDecode(hash).error)
    ensures TryDecode(hash).Return? && TryDecode(hash).value.0 ==>
              r == verifyPassword(value, TryDecode(hash).value.1)
  {
    match TryDecode(hash)
    case Throw(e) => Throw(e)
    case Return((ok, decoded)) => if !ok then Return(false) else verifyPassword(value, decoded)
  }

  /** `Verify(v, Hash(v))` holds whenever BCrypt accepts its own output. */
  lemma VerifyHash(value: string, salt: seq<byte>, hashPassword: PasswordHasher, verifyPassword: PasswordVerifier)
    requires hashPassword(value, Cost, salt) != ""
    requires verifyPassword(value, hashPassword(value, Cost, salt)) == Return(true)
    ensures Verify(value, Hash(value, salt, hashPassword), verifyPassword) == Return(true)
  {
  }

  // ---------------------------------------------------------------------------
  // Domain-keyed symmetric codec (AES is a parameter)
  // ---------------------------------------------------------------------------

  /** The embedded shared secret. */
  const Token: string := "asFo2iAS(m2ASN"
  const KeyLength: nat := 32
  /** `aes.BlockSize / 8`. */
  const IvLength: nat := 16

  /** `AES-256-CBC` with PKCS7 padding: (key, iv, plaintext) to ciphertext. */
  type Encryptor = (seq<byte>, seq<byte>, seq<byte>) -> seq<byte>
  /** The inverse transform; `None` is the CryptographicException of bad padding
      or a corrupted block. */
  type Decryptor = (seq<byte>, seq<byte>, seq<byte>) -> Option<seq<byte>>

  /** `(token + transcodingType).PadRight(32)[..32]`. */
  function KeyString(domain: string): (k: string)
    ensures |k| == KeyLength
  {
    PadRight(Token + domain, KeyLength)[..KeyLength]
  }

  /** `Encoding.UTF8.GetBytes` of the key string: what is assigned to `aes.Key`. */
  function KeyBytes(domain: string): seq<byte> {
    Utf8.GetBytes(KeyString(domain))
  }

  /** The key sizes `aes.Key` accepts; any other size throws. */
  predicate ValidAesKey(key: seq<byte>) {
    |key| == 16 || |key| == 24 || |key| == 32
  }

  /** The key string is the token, then the domain's first 18 characters,
      then spaces up to 32 characters. */
  lemma KeyStringShape(domain: string)
    ensures |KeyString(domain)| == 32
    ensures KeyString(domain)[..|Token|] == Token
    ensures forall i :: 0 <= i < KeyLength - |Token| ==>
              KeyString(domain)[|Token| + i] == if i < |domain| then domain[i] else ' '
  {
    var p := PadRight(Token + domain, KeyLength);
    forall i | 0 <= i < KeyLength - |Token|
      ensures KeyString(domain)[|Token| + i] == if i < |domain| then domain[i] else ' '
    {
      if i < |domain| {
        assert p[..|Token + domain|][|Token| + i] == (Token + domain)[|Token| + i];
      }
    }
    assert p[..|Token + domain|][..|Token|] == Token;
  }

  /** Only the first 18 characters of the domain matter, and a short domain is
      indistinguishable from itself padded with spaces to 18 characters. */
  lemma KeyStringDependsOnFirst18(d1: string, d2: string)
    ensures KeyString(d1) == KeyString(d2) <==>
            PadRight(d1, KeyLength - |Token|)[..KeyLength - |Token|] == PadRight(d2, KeyLength - |Token|)[..KeyLength - |Token|]
  {
    var n := KeyLength - |Token|;
    var p1, p2 := PadRight(d1, n)[..n], PadRight(d2, n)[..n];
    KeyStringShape(d1);
    KeyStringShape(d2);
    forall i | 0 <= i < n ensures p1[i] == (if i < |d1| then d1[i] else ' ') && p2[i] == (if i < |d2| then d2[i] else ' ') {
      if i < |d1| { assert PadRight(d1, n)[..|d1|][i] == d1[i]; }
      if i < |d2| { assert PadRight(d2, n)[..|d2|][i] == d2[i]; }
    }
    if KeyString(d1) == KeyString(d2) {
      forall i | 0 <= i < n ensures p1[i] == p2[i] {
        assert KeyString(d1)[|Token| + i] == KeyString(d2)[|Token| + i];
      }
    }
    if p1 == p2 {
      forall i | 0 <= i < KeyLength ensures KeyString(d1)[i] == KeyString(d2)[i] {
        if i < |Token| {
          assert KeyString(d1)[..|Token|][i] == KeyString(d2)[..|Token|][i];
        } else {
          assert p1[i - |Token|] == p2[i - |Token|];
        }
      }
    }
  }

  /** The key is 32 bytes, as `aes.Key` needs, exactly when the domain's first
      18 characters are ASCII; otherwise the 32 characters take more bytes and
      the assignment throws. */
  lemma KeyValidIffAsciiPrefix(domain: string)
    ensures ValidAesKey(KeyBytes(domain)) <==>
            forall i :: 0 <= i < |domain| && i < KeyLength - |Token| ==> Utf8.IsAscii(domain[i])
  {
    var k := KeyString(domain);
    KeyStringShape(domain);
    Utf8.GetBytesLengthAscii(k);
    if forall i :: 0 <= i < |domain| && i < KeyLength - |Token| ==> Utf8.IsAscii(domain[i]) {
      forall i | 0 <= i < |k| ensures Utf8.IsAscii(k[i]) {
        if i < |Token| { assert k[..|Token|][i] == Token[i]; }
        else { assert k[|Token| + (i - |Token|)] == k[i]; }
      }
    } else {
      var i :| 0 <= i < |domain| && i < KeyLength - |Token| && !Utf8.IsAscii(domain[i]);
      assert k[|Token| + i] == domain[i];
    }
  }

  /** The test's domain and any domain sharing its first 18 characters derive
      the same key. */
  lemma TestDomainKeyCollision()
    ensures KeyString("ACCOUNT_DYNAMIC_MODEL") == KeyString("ACCOUNT_DYNAMIC_MO")
  {
    KeyStringDependsOnFirst18("ACCOUNT_DYNAMIC_MODEL", "ACCOUNT_DYNAMIC_MO");
  }

  /** The envelope split `TrySecureDecode` performs with its two block copies. */
  function SplitEnvelope(data: seq<byte>): (r: (seq<byte>, seq<byte>))
    requires |data| >= IvLength
    ensures |r.0| == IvLength && r.0 + r.1 == data
  {
    (data[..IvLength], data[IvLength..])
  }

  /** What `SecureEncode(value, transcodingType)` returns with the IV `iv`. */
  function SecureEncoded(value: string, domain: string, iv: seq<byte>, encrypt: Encryptor): Outcome<string> {
    var key := KeyBytes(domain);
    if !ValidAesKey(key) then Throw(CryptographicException)
    else Return(EncodedBytes(iv + encrypt(key, iv, Utf8.GetBytes(value))))
  }

  /** `SecureEncode`: derive the key, encrypt, copy IV and ciphertext into one
      buffer, encode it. */
  method SecureEncode(value: string, domain: string, iv: seq<byte>, encrypt: Encryptor) returns (r: Outcome<string>)
    requires |iv| == IvLength
    ensures r == SecureEncoded(value, domain, iv, encrypt)
  {
    var keyString := Token + domain;
    var key := Utf8.GetBytes(PadRight(keyString, KeyLength)[..KeyLength]);
    if !ValidAesKey(key) {
      return Throw(CryptographicException);
    }
    var inputBytes := Utf8.GetBytes(value);
    var encryptedBytes := encrypt(key, iv, inputBytes);
    var result := new byte[|iv| + |encryptedBytes|];
    for i := 0 to |iv|
      invariant forall j :: 0 <= j < i ==> result[j] == iv[j]
    {
      result[i] := iv[i];
    }
    for i := 0 to |encryptedBytes|
      invariant forall j :: 0 <= j < |iv| ==> result[j] == iv[j]
      invariant forall j :: 0 <= j < i ==> result[|iv| + j] == encryptedBytes[j]
    {
      result[|iv| + i] := encryptedBytes[i];
    }
    assert result[..] == iv + encryptedBytes by {
      forall j | 0 <= j < result.Length
        ensures result[j] == (iv + encryptedBytes)[j]
      {
        if j >= |iv| {
          assert result[|iv| + (j - |iv|)] == encryptedBytes[j - |iv|];
        }
      }
    }
    var encoded := EncodeBytes(result[..]);
    return Return(encoded);
  }

  /** `TrySecureDecode(value, transcodingType, out decodedValue)`. The outer
      decode failing is the only way to get `false`; a malformed inner hex text,
      a bad key, a buffer shorter than one IV and a failed decryption throw. */
  function TrySecureDecode(value: string, domain: string, decrypt: Decryptor): (r: Outcome<(bool, string)>)
    ensures (r.Return? && !r.value.0) <==> TryDecode(value) == Return((false, value))
    ensures r.Return? && !r.value.0 ==> r.value.1 == value
    ensures TryDecode(value).Throw? ==> r == Throw(TryDecode(value).error)
    ensures TryDecode(value).Return? && TryDecode(value).value.0 ==>
              var inner := HexPairs(TryDecode(value).value.1);
              var key := KeyBytes(domain);
              (inner.Throw? ==> r == Throw(inner.error)) &&
              (inner.Return? && !ValidAesKey(key) ==> r == Throw(CryptographicException)) &&
              (inner.Return? && ValidAesKey(key) && |inner.value| < IvLength ==> r == Throw(OverflowException)) &&
              (inner.Return? && ValidAesKey(key) && |inner.value| >= IvLength ==>
                 var plain := decrypt(key, inner.value[..IvLength], inner.value[IvLength..]);
                 r == if plain.None? then Throw(CryptographicException) else Return((true, Utf8.GetString(plain.value))))
  {
    match TryDecode(value)
    case Throw(e) => Throw(e)
    case Return((ok, decoded)) =>
      if !ok then Return((false, decoded))
      else
        match HexPairs(decoded)
        case Throw(e) => Throw(e)
        case Return(data) =>
          var key := KeyBytes(domain);
          if !ValidAesKey(key) then Throw(CryptographicException)
          else if |data| < IvLength then Throw(OverflowException)
          else
            var (iv, ciphertext) := SplitEnvelope(data);
            match decrypt(key, iv, ciphertext)
            case None => Throw(CryptographicException)
            case Some(plain) => Return((true, Utf8.GetString(plain)))
  }

  /** Round trip of the domain-keyed codec: decoding under the same domain
      recovers the value whenever the cipher inverts itself. */
  lemma SecureRoundTrip(value: string, domain: string, iv: seq<byte>, encrypt: Encryptor, decrypt: Decryptor)
    requires |iv| == IvLength
    requires ValidAesKey(KeyBytes(domain))
    requires decrypt(KeyBytes(domain), iv, encrypt(KeyBytes(domain), iv, Utf8.GetBytes(value)))
             == Some(Utf8.GetBytes(value))
    ensures SecureEncoded(value, domain, iv, encrypt).Return?
    ensures TrySecureDecode(SecureEncoded(value, domain, iv, encrypt).value, domain, decrypt) == Return((true, value))
  {
    var key := KeyBytes(domain);
    var ct := encrypt(key, iv, Utf8.GetBytes(value));
    var data := iv + ct;
    var hex := LowerHex(data);
    TryDecodeEncoded(hex);
    HexPairsLowerHex(data);
    assert data[..IvLength] == iv && data[IvLength..] == ct;
    Utf8.GetStringGetBytes(value);
  }

  /** Domains with the same key string decode every payload alike, so the
      compartments are only as distinct as the domains' first 18 characters. */
  lemma SameKeySameDecode(value: string, d1: string, d2: string, decrypt: Decryptor)
    requires KeyString(d1) == KeyString(d2)
    ensures TrySecureDecode(value, d1, decrypt) == TrySecureDecode(value, d2, decrypt)
  {
  }

  /** The test's malformed payload: false, handed back unchanged. */
  lemma TrySecureDecodeFakeString(decrypt: Decryptor)
    ensures TrySecureDecode("fake string", "test", decrypt) == Return((false, "fake string"))
  {
  }

  /** A payload that decodes to fewer than 16 bytes throws rather than
      returning false: "s3030" decodes to "00", one byte. */
  lemma TrySecureDecodeShortBufferThrows(domain: string, decrypt: Decryptor)
    requires ValidAesKey(KeyBytes(domain))
    ensures TrySecureDecode("s3030", domain, decrypt) == Throw(OverflowException)
  {
    OuterDecodeOfShortPayload();
    InnerHexOfShortPayload();
  }

  /** The outer decode of "s3030": the bytes 0x30 0x30, read as the text "00". */
  lemma OuterDecodeOfShortPayload()
    ensures TryDecode("s3030") == Return((true, "00"))
  {
    assert "s3030"[1..] == "3030";
    HexPairsAllHex("3030");
    assert "3030"[0] == '3' && "3030"[1] == '0' && "3030"[2] == '3' && "3030"[3] == '0';
    var v := HexPairs("3030").value;
    assert v[0] as int == 16 * HexValue("3030"[0]) + HexValue("3030"[1]) == 0x30;
    assert v[1] as int == 16 * HexValue("3030"[2]) + HexValue("3030"[3]) == 0x30;
    assert v == [0x30, 0x30];
    assert Utf8.GetBytes("00") == [0x30, 0x30];
    Utf8.GetStringGetBytes("00");
  }

  /** The inner hexadecimal text "00" is the single byte 0. */
  lemma InnerHexOfShortPayload()
    ensures HexPairs("00") == Return([0])
  {
    HexPairsAllHex("00");
    assert "00"[0] == '0' && "00"[1] == '0';
    var w := HexPairs("00").value;
    assert w[0] as int == 16 * HexValue("00"[0]) + HexValue("00"[1]) == 0;
    assert w == [0];
  }

  // ---------------------------------------------------------------------------
  // Bijective base-K numerals
  // ---------------------------------------------------------------------------

  /** The digits (indices into the alphabet, most significant first) of `n` in
      bijective base `k`: no zero digit, so every positive `n` has one. */
  function BijectiveDigits(n: nat, k: nat): (ds: seq<nat>)
    requires k >= 1
    ensures n > 0 <==> |ds| > 0
    ensures forall i :: 0 <= i < |ds| ==> ds[i] < k
    decreases n
  {
    if n == 0 then [] else BijectiveDigits((n - 1) / k, k) + [(n - 1) % k]
  }

  lemma BijectiveDigitsStep(n: nat, k: nat)
    requires k >= 1 && n > 0
    ensures BijectiveDigits(n, k) == BijectiveDigits((n - 1) / k, k) + [(n - 1) % k]
  {
  }

  /** Reading digits back in bijective base `k`: digit `d` stands for `d + 1`. */
  function BijectiveValue(ds: seq<nat>, k: nat): nat {
    if ds == [] then 0 else BijectiveValue(ds[..|ds| - 1], k) * k + ds[|ds| - 1] + 1
  }

  lemma {:induction false} BijectiveValueOfDigits(n: nat, k: nat)
    requires k >= 1
    ensures BijectiveValue(BijectiveDigits(n, k), k) == n
    decreases n
  {
    if n > 0 {
      var q: nat, d: nat := (n - 1) / k, (n - 1) % k;
      BijectiveDigitsStep(n, k);
      BijectiveValueSnoc(BijectiveDigits(q, k), d, k);
      DivIsSmaller(n - 1, k);
      BijectiveValueOfDigits(q, k);
      DivModIdentity(n - 1, k);
    }
  }

  lemma {:induction false} BijectiveDigitsOfValue(ds: seq<nat>, k: nat)
    requires k >= 1
    requires forall i :: 0 <= i < |ds| ==> ds[i] < k
    ensures BijectiveDigits(BijectiveValue(ds, k), k) == ds
    decreases |ds|
  {
    if ds != [] {
      var p, d := ds[..|ds| - 1], ds[|ds| - 1];
      assert p + [d] == ds;
      BijectiveValueSnoc(p, d, k);
      var q := BijectiveValue(p, k);
      DivModUnique(q, d, k);
      BijectiveDigitsStep(q * k + d + 1, k);
      BijectiveDigitsOfValue(p, k);
    }
  }

  lemma BijectiveValueSnoc(p: seq<nat>, d: nat, k: nat)
    ensures BijectiveValue(p + [d], k) == BijectiveValue(p, k) * k + d + 1
  {
    assert (p + [d])[..|p|] == p;
  }

  lemma DivModIdentity(a: nat, k: nat)
    requires k >= 1
    ensures (a / k) * k + a % k == a && 0 <= a % k < k
  {
  }

  lemma DivIsSmaller(a: nat, k: nat)
    requires k >= 1
    ensures a / k <= a
  {
    DivModIdentity(a, k);
    assert (a / k) * k == (a / k) * (k - 1) + a / k;
  }

  lemma MulSign(x: int, k: nat)
    requires k >= 1
    ensures x >= 1 ==> x * k >= k
    ensures x <= -1 ==> x * k <= 0 - k as int
  {
    if x >= 1 { assert x * k == (x - 1) * k + k; }
    if x <= -1 { assert x * k == (x + 1) * k - k; }
  }

  /** Division by `k` undoes `q * k + d` for a digit `d < k`. */
  lemma DivModUnique(q: nat, d: nat, k: nat)
    requires d < k
    ensures (q * k + d) / k == q && (q * k + d) % k == d
  {
    var a := q * k + d;
    DivModIdentity(a, k);
    var q', d' := a / k, a % k;
    assert (q' - q) * k == d - d' by {
      assert (q' - q) * k == q' * k - q * k;
    }
    MulSign(q' - q, k);
  }

  /** The alphabet characters the digits select. */
  function Spell(ds: seq<nat>, alphabet: string): (s: string)
    requires forall i :: 0 <= i < |ds| ==> ds[i] < |alphabet|
    ensures |s| == |ds| && forall i :: 0 <= i < |s| ==> s[i] == alphabet[ds[i]]
  {
    seq(|ds|, i requires 0 <= i < |ds| => alphabet[ds[i]])
  }

  /** `IntToBaseX(number, baseXCharacters)`. */
  method IntToBaseX(number: int32, baseXCharacters: string) returns (r: Outcome<string>)
    ensures number <= 0 ==> r == Throw(ArgumentException("Number must be greater than 0"))
    ensures number > 0 && |baseXCharacters| == 0 ==> r == Throw(DivideByZeroException)
    ensures number > 0 && |baseXCharacters| > 0 ==>
              r == Return(Spell(BijectiveDigits(number as nat, |baseXCharacters|), baseXCharacters))
    ensures r.Return? ==> |r.value| > 0 && forall i :: 0 <= i < |r.value| ==> r.value[i] in baseXCharacters
  {
    if number <= 0 {
      return Throw(ArgumentException("Number must be greater than 0"));
    }
    var baseX := |baseXCharacters|;
    if baseX == 0 {
      // the first `(number - 1) % baseX` divides by zero
      return Throw(DivideByZeroException);
    }
    var result := SpellBaseX(number as nat, baseXCharacters);
    SpellInAlphabet(BijectiveDigits(number as nat, baseX), baseXCharacters);
    return Return(result);
  }

  /** The loop of `IntToBaseX`: peels off the least significant bijective
      digit `(n - 1) % baseX` and continues with `(n - 1) / baseX`. */
  method SpellBaseX(number: nat, baseXCharacters: string) returns (result: string)
    requires |baseXCharacters| >= 1
    ensures result == Spell(BijectiveDigits(number, |baseXCharacters|), baseXCharacters)
  {
    var baseX := |baseXCharacters|;
    var n: nat := number;
    result := "";
    ghost var digits: seq<nat> := [];
    while n > 0
      invariant forall i :: 0 <= i < |digits| ==> digits[i] < baseX
      invariant BaseXFrom(n, baseX, digits) == BaseXFrom(number, baseX, [])
      invariant result == Spell(digits, baseXCharacters)
    {
      var quotient, remainder := NextDigit(n, baseX, digits);
      SpellCons(remainder, digits, baseXCharacters);
      result := [baseXCharacters[remainder]] + result;
      digits := [remainder] + digits;
      n := quotient;
    }
    BaseXDone(number, baseX, digits);
  }

  /** One pass of `IntToBaseX`'s loop: the digit `(n - 1) % k` and what is
      left of the number, `(n - 1) / k`. */
  method NextDigit(n: nat, k: nat, ghost acc: seq<nat>) returns (quotient: nat, remainder: nat)
    requires k >= 1 && n > 0
    ensures quotient * k + remainder == n - 1 && remainder < k
    ensures quotient < n
    ensures BaseXFrom(n, k, acc) == BaseXFrom(quotient, k, [remainder] + acc)
  {
    remainder := (n - 1) % k;
    quotient := (n - 1) / k;
    BaseXFromStep(n, k, acc);
    DivModIdentity(n - 1, k);
  }

  /** The digits of `n` put in front of `acc`, least significant first, the
      way `IntToBaseX`'s loop produces them. */
  function BaseXFrom(n: nat, k: nat, acc: seq<nat>): seq<nat>
    requires k >= 1
    decreases n
  {
    if n == 0 then acc
    else
      DivIsSmaller(n - 1, k);
      BaseXFrom((n - 1) / k, k, [(n - 1) % k] + acc)
  }

  /** One pass of `IntToBaseX`'s loop. */
  lemma BaseXFromStep(n: nat, k: nat, acc: seq<nat>)
    requires k >= 1 && n > 0
    ensures (n - 1) / k < n && (n - 1) % k < k
    ensures BaseXFrom(n, k, acc) == BaseXFrom((n - 1) / k, k, [(n - 1) % k] + acc)
  {
    DivIsSmaller(n - 1, k);
  }

  /** When the loop of `IntToBaseX` stops, it has produced all the digits. */
  lemma BaseXDone(number: nat, k: nat, digits: seq<nat>)
    requires k >= 1
    requires BaseXFrom(0, k, digits) == BaseXFrom(number, k, [])
    ensures digits == BijectiveDigits(number, k)
  {
    BaseXFromIsDigits(number, k, []);
    var expected := BijectiveDigits(number, k);
    assert expected + [] == expected;
  }

  /** Every character of a spelling comes from the alphabet. */
  lemma SpellInAlphabet(ds: seq<nat>, alphabet: string)
    requires forall i :: 0 <= i < |ds| ==> ds[i] < |alphabet|
    ensures forall i :: 0 <= i < |Spell(ds, alphabet)| ==> Spell(ds, alphabet)[i] in alphabet
  {
    var s := Spell(ds, alphabet);
    forall i | 0 <= i < |s| ensures s[i] in alphabet {
      assert s[i] == alphabet[ds[i]];
    }
  }

  /** The loop's digits are the bijective digits. */
  lemma {:induction false} BaseXFromIsDigits(n: nat, k: nat, acc: seq<nat>)
    requires k >= 1
    ensures BaseXFrom(n, k, acc) == BijectiveDigits(n, k) + acc
    decreases n
  {
    if n > 0 {
      var q, d := (n - 1) / k, (n - 1) % k;
      DivIsSmaller(n - 1, k);
      BaseXFromIsDigits(q, k, [d] + acc);
      BijectiveDigitsStep(n, k);
      var front := BijectiveDigits(q, k);
      assert front + [d] + acc == front + ([d] + acc);
    }
  }

  lemma SpellCons(d: nat, ds: seq<nat>, alphabet: string)
    requires d < |alphabet| && forall i :: 0 <= i < |ds| ==> ds[i] < |alphabet|
    ensures Spell([d] + ds, alphabet) == [alphabet[d]] + Spell(ds, alphabet)
  {
  }

  /** Reading `IntToBaseX`'s digits back gives the number, and every digit
      sequence is the spelling of exactly one positive number. */
  lemma BaseXIsBijective(number: nat, k: nat, ds: seq<nat>)
    requires k >= 1
    requires forall i :: 0 <= i < |ds| ==> ds[i] < k
    ensures BijectiveValue(BijectiveDigits(number, k), k) == number
    ensures BijectiveDigits(number, k) == ds <==> BijectiveValue(ds, k) == number
  {
    BijectiveValueOfDigits(number, k);
    BijectiveDigitsOfValue(ds, k);
  }

  /** With an alphabet of distinct characters, the spelled string determines
      the digits, so it reads back to the number. */
  lemma SpellIsInjective(ds1: seq<nat>, ds2: seq<nat>, alphabet: string)
    requires forall i, j :: 0 <= i < j < |alphabet| ==> alphabet[i] != alphabet[j]
    requires forall i :: 0 <= i < |ds1| ==> ds1[i] < |alphabet|
    requires forall i :: 0 <= i < |ds2| ==> ds2[i] < |alphabet|
    ensures Spell(ds1, alphabet) == Spell(ds2, alphabet) <==> ds1 == ds2
  {
    if Spell(ds1, alphabet) == Spell(ds2, alphabet) {
      forall i | 0 <= i < |ds1| ensures ds1[i] == ds2[i] {
        assert alphabet[ds1[i]] == alphabet[ds2[i]];
      }
    }
  }

  /** The test: 39 in the 38-character alphabet is "aa". */
  lemma IntToBaseXTest()
    ensures Spell(BijectiveDigits(39, 38), "abcdefghijklmnopqrstuvwxyz0123456789-_") == "aa"
  {
    assert BijectiveDigits(0, 38) == [];
    assert BijectiveDigits(1, 38) == [0];
    assert BijectiveDigits(39, 38) == [0, 0];
  }
}
