/** `System.Text.Encoding.UTF8` as the cryptography code uses it: `GetBytes`
    turns text into UTF-8 bytes and `GetString` turns any bytes back into text,
    replacing each maximal ill-formed subsequence with U+FFFD instead of failing
    (the Unicode substitution practice .NET follows). Text is a Dafny `string`,
    whose characters are Unicode scalar values. */
module Utf8 {
  import opened Outcomes

  /** U+FFFD REPLACEMENT CHARACTER. */
  const Replacement: char := '\U{FFFD}'

  predicate IsAscii(c: char) {
    c as int < 0x80
  }

  predicate AllAscii(s: string) {
    forall i :: 0 <= i < |s| ==> IsAscii(s[i])
  }

  predicate IsContinuation(b: byte) {
    0x80 <= b <= 0xBF
  }

  /** The UTF-8 form of one scalar value: one byte below U+0080, two below
      U+0800, three below U+10000, four above. */
  function EncodeChar(c: char): (bs: seq<byte>)
    ensures 1 <= |bs| <= 4
    ensures |bs| == 1 <==> IsAscii(c)
    ensures IsAscii(c) ==> bs == [c as int as byte]
  {
    var cp := c as int;
    var q1 := cp / 64;
    var q2 := q1 / 64;
    var q3 := q2 / 64;
    if cp < 0x80 then [cp as byte]
    else if cp < 0x800 then [(0xC0 + q1) as byte, (0x80 + cp % 64) as byte]
    else if cp < 0x1_0000 then [(0xE0 + q2) as byte, (0x80 + q1 % 64) as byte, (0x80 + cp % 64) as byte]
    else [(0xF0 + q3) as byte, (0x80 + q2 % 64) as byte, (0x80 + q1 % 64) as byte, (0x80 + cp % 64) as byte]
  }

  /** `Encoding.UTF8.GetBytes`. */
  function GetBytes(s: string): (bs: seq<byte>)
    ensures |bs| >= |s|
  {
    if s == [] then [] else EncodeChar(s[0]) + GetBytes(s[1..])
  }

  /** The first character the decoder reads from `bs` and the number of bytes
      it consumes for it: a well-formed sequence yields its scalar value, and the
      longest prefix of a well-formed sequence that is cut short (or a byte that
      cannot start one) yields one U+FFFD. */
  function DecodeFirst(bs: seq<byte>): (r: (char, nat))
    requires |bs| > 0
    ensures 1 <= r.1 <= |bs|
  {
    var b0 := bs[0] as int;
    if b0 < 0x80 then
      (b0 as char, 1)
    else if 0xC2 <= b0 <= 0xDF then
      if |bs| >= 2 && IsContinuation(bs[1]) then
        (((b0 - 0xC0) * 64 + (bs[1] as int - 0x80)) as char, 2)
      else (Replacement, 1)
    else if 0xE0 <= b0 <= 0xEF then
      var lo := if b0 == 0xE0 then 0xA0 else 0x80;
      var hi := if b0 == 0xED then 0x9F else 0xBF;
      if |bs| >= 2 && lo <= bs[1] as int <= hi then
        if |bs| >= 3 && IsContinuation(bs[2]) then
          (((b0 - 0xE0) * 4096 + (bs[1] as int - 0x80) * 64 + (bs[2] as int - 0x80)) as char, 3)
        else (Replacement, 2)
      else (Replacement, 1)
    else if 0xF0 <= b0 <= 0xF4 then
      var lo := if b0 == 0xF0 then 0x90 else 0x80;
      var hi := if b0 == 0xF4 then 0x8F else 0xBF;
      if |bs| >= 2 && lo <= bs[1] as int <= hi then
        if |bs| >= 3 && IsContinuation(bs[2]) then
          if |bs| >= 4 && IsContinuation(bs[3]) then
            (((b0 - 0xF0) * 0x4_0000 + (bs[1] as int - 0x80) * 4096
              + (bs[2] as int - 0x80) * 64 + (bs[3] as int - 0x80)) as char, 4)
          else (Replacement, 3)
        else (Replacement, 2)
      else (Replacement, 1)
    else
      (Replacement, 1)
  }

  /** `Encoding.UTF8.GetString`: total, never throws. */
  function GetString(bs: seq<byte>): (s: string)
    ensures |s| <= |bs|
    decreases |bs|
  {
    if bs == [] then []
    else
      var (c, n) := DecodeFirst(bs);
      [c] + GetString(bs[n..])
  }

  /** Decoding the UTF-8 form of a character, whatever follows it, gives the
      character back and consumes exactly its bytes. */
  lemma DecodeFirstEncodeChar(c: char, rest: seq<byte>)
    ensures DecodeFirst(EncodeChar(c) + rest) == (c, |EncodeChar(c)|)
  {
    var cp := c as int;
    if cp < 0x80 {
    } else if cp < 0x800 {
      DecodeTwoBytes(c, rest);
    } else if cp < 0x1_0000 {
      DecodeThreeBytes(c, rest);
    } else {
      DecodeFourBytes(c, rest);
    }
  }

  lemma DecodeTwoBytes(c: char, rest: seq<byte>)
    requires 0x80 <= c as int < 0x800
    ensures DecodeFirst(EncodeChar(c) + rest) == (c, 2)
  {
    var cp := c as int;
    var q1 := cp / 64;
    assert cp == 64 * q1 + cp % 64;
  }

  lemma DecodeThreeBytes(c: char, rest: seq<byte>)
    requires 0x800 <= c as int < 0x1_0000
    ensures DecodeFirst(EncodeChar(c) + rest) == (c, 3)
  {
    var cp := c as int;
    var q1 := cp / 64;
    var q2 := q1 / 64;
    assert cp == 64 * q1 + cp % 64;
    assert q1 == 64 * q2 + q1 % 64;
  }

  lemma DecodeFourBytes(c: char, rest: seq<byte>)
    requires 0x1_0000 <= c as int
    ensures DecodeFirst(EncodeChar(c) + rest) == (c, 4)
  {
    var cp := c as int;
    var q1 := cp / 64;
    var q2 := q1 / 64;
    assert cp == 64 * q1 + cp % 64;
    assert q1 == 64 * q2 + q1 % 64;
    assert q2 == 64 * (q2 / 64) + q2 % 64;
  }

  /** The round trip `GetString(GetBytes(s)) == s`. */
  lemma {:induction false} GetStringGetBytes(s: string)
    ensures GetString(GetBytes(s)) == s
  {
    if s != [] {
      var head, rest := EncodeChar(s[0]), GetBytes(s[1..]);
      assert GetBytes(s) == head + rest;
      DecodeFirstEncodeChar(s[0], rest);
      assert (head + rest)[|head|..] == rest;
      GetStringGetBytes(s[1..]);
    }
  }

  /** Text has as many UTF-8 bytes as characters exactly when it is ASCII. */
  lemma {:induction false} GetBytesLengthAscii(s: string)
    ensures |GetBytes(s)| == |s| <==> AllAscii(s)
  {
    if s != [] {
      GetBytesLengthAscii(s[1..]);
      assert AllAscii(s) <==> IsAscii(s[0]) && AllAscii(s[1..]) by {
        if IsAscii(s[0]) && AllAscii(s[1..]) {
          forall i | 0 <= i < |s| ensures IsAscii(s[i]) {
            if i > 0 { assert s[i] == s[1..][i - 1]; }
          }
        }
      }
    }
  }

  /** The UTF-8 form of a concatenation is the concatenation of the forms. */
  lemma {:induction false} GetBytesAppend(a: string, b: string)
    ensures GetBytes(a + b) == GetBytes(a) + GetBytes(b)
  {
    if a != [] {
      assert (a + b)[1..] == a[1..] + b;
      GetBytesAppend(a[1..], b);
    } else {
      assert a + b == b;
    }
  }
}
