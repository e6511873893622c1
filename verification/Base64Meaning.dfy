/** Base64 as section 4 of RFC 4648 gives it: which characters stand for which bits. */
module Base64Meaning {
  import opened Bytes
  import opened Base64
  import Bits

  // The alphabet: A to Z, a to z, 0 to 9, plus and slash, in the order of their values.
  lemma AlphabetIs(v: nat)
    requires v < 64
    ensures Digit(0) == 'A' as int && Digit(25) == 'Z' as int && Digit(26) == 'a' as int && Digit(51) == 'z' as int
    ensures Digit(52) == '0' as int && Digit(61) == '9' as int && Digit(62) == '+' as int && Digit(63) == '/' as int
    ensures v !in {25, 51, 61, 62, 63} ==> Digit(v + 1) == Digit(v) + 1
  {
  }

  // A character of the alphabet has its place there as its bits, the padding 0, and any other one 22.
  lemma BitsOfCharacter(c: byte)
    ensures var v := FromDigit(c);
            if c == '=' as int then v == 0
            else Digit(v) == c || (v == 22 && forall w | 0 <= w < 64 :: Digit(w) != c)
  {
  }

  function ByteOr0(s: seq<byte>, i: nat): int {
    if i < |s| then s[i] else 0
  }

  // Main result: three bytes are written as four characters of six bits each, where bytes that are missing at
  // the end count as zeros and give equals signs.
  lemma {:induction false} EncodedAt(input: seq<byte>, k: nat)
    requires 3 * k < |input|
    ensures |Encoded(input)| >= 4 * k + 4
    ensures var a, b, c := ByteOr0(input, 3 * k), ByteOr0(input, 3 * k + 1), ByteOr0(input, 3 * k + 2);
            Encoded(input)[4 * k..4 * k + 4] ==
            [Digit(a / 4), Digit(a % 4 * 16 + b / 16),
             if 3 * k + 1 < |input| then Digit(b % 16 * 4 + c / 64) else '=' as int,
             if 3 * k + 2 < |input| then Digit(c % 64) else '=' as int]
    decreases k
  {
    hide Digit, Encoded, EncodeBlock, EncodeLast;
    if k > 0 {
      EncodedStep(input);
      EncodedAt(input[3..], k - 1);
      assert Encoded(input)[4..] == Encoded(input[3..]);
      assert Encoded(input)[4 * k..4 * k + 4] == Encoded(input[3..])[4 * (k - 1)..4 * (k - 1) + 4];
    } else if |input| >= 3 {
      EncodedStep(input);
      BlockIs(input[0], input[1], input[2]);
      assert Encoded(input)[0..4] == EncodeBlock(input[0], input[1], input[2]);
    } else {
      EncodedEnd(input);
      LastIs(input);
      assert Encoded(input)[0..4] == Encoded(input);
    }
  }

  lemma Split(q: int, r: int, d: int)
    requires 0 <= r < d
    ensures (d * q + r) / d == q && (d * q + r) % d == r
  {
    Bits.QuotientUnique(d * q + r, d, q);
  }

  lemma SixBits(a: byte, b: byte, c: byte)
    ensures var group := a * 0x1_0000 + b * 0x100 + c;
            && group / 0x4_0000 % 64 == a / 4 && group / 0x1000 % 64 == a % 4 * 16 + b / 16
            && group / 0x40 % 64 == b % 16 * 4 + c / 64 && group / 1 % 64 == c % 64
  {
    SixBitsOf(a / 4, a % 4, b / 16, b % 16, c / 64, c % 64);
  }

  lemma SixBitsOf(a: int, a': int, b: int, b': int, c: int, c': int)
    requires 0 <= a < 64 && 0 <= a' < 4 && 0 <= b < 16 && 0 <= b' < 16 && 0 <= c < 4 && 0 <= c' < 64
    ensures var group := (4 * a + a') * 0x1_0000 + (16 * b + b') * 0x100 + (64 * c + c');
            && group / 0x4_0000 % 64 == a && group / 0x1000 % 64 == a' * 16 + b
            && group / 0x40 % 64 == b' * 4 + c && group / 1 % 64 == c'
  {
    var second, third := a' * 16 + b, b' * 4 + c;
    Split(a, a' * 0x1_0000 + (16 * b + b') * 0x100 + (64 * c + c'), 0x4_0000);
    Split(64 * a + second, b' * 0x100 + (64 * c + c'), 0x1000);
    Split(a, second, 64);
    Split(64 * (64 * a + second) + third, c', 0x40);
    Split(64 * a + second, third, 64);
  }

  lemma BlockIs(a: byte, b: byte, c: byte)
    ensures EncodeBlock(a, b, c) ==
            [Digit(a / 4), Digit(a % 4 * 16 + b / 16), Digit(b % 16 * 4 + c / 64), Digit(c % 64)]
  {
    hide Digit;
    SixBits(a, b, c);
  }

  lemma LastIs(rest: seq<byte>)
    requires 1 <= |rest| <= 2
    ensures var a, b := rest[0], ByteOr0(rest, 1);
            EncodeLast(rest) ==
            [Digit(a / 4), Digit(a % 4 * 16 + b / 16),
             if |rest| == 2 then Digit(b % 16 * 4) else '=' as int, '=' as int]
  {
    hide Digit;
    SixBits(rest[0], if |rest| == 2 then rest[1] else 0, 0);
  }

  // Main result: the bits of four characters are put together to three bytes.
  lemma {:induction false} DecodedAt(chars: seq<byte>, k: nat)
    requires |chars| % 4 == 0 && 4 * k < |chars|
    ensures |Decoded(chars)| >= 3 * k + 3
    ensures var a, b := FromDigit(chars[4 * k]), FromDigit(chars[4 * k + 1]);
            var c, d := FromDigit(chars[4 * k + 2]), FromDigit(chars[4 * k + 3]);
            Decoded(chars)[3 * k..3 * k + 3] == [a * 4 + b / 16, b % 16 * 16 + c / 4, c % 4 * 64 + d]
    decreases k
  {
    hide FromDigit, Decoded, DecodeBlock;
    DecodedStep(chars);
    if k > 0 {
      DecodedAt(chars[4..], k - 1);
      assert Decoded(chars)[3..] == Decoded(chars[4..]);
      assert Decoded(chars)[3 * k..3 * k + 3] == Decoded(chars[4..])[3 * (k - 1)..3 * (k - 1) + 3];
    } else {
      BitsJoined(chars[0], chars[1], chars[2], chars[3]);
      assert Decoded(chars)[0..3] == DecodeBlock(chars[0], chars[1], chars[2], chars[3]);
    }
  }

  lemma BitsJoined(a: byte, b: byte, c: byte, d: byte)
    ensures DecodeBlock(a, b, c, d) ==
            [FromDigit(a) * 4 + FromDigit(b) / 16, FromDigit(b) % 16 * 16 + FromDigit(c) / 4,
             FromDigit(c) % 4 * 64 + FromDigit(d)]
  {
    hide FromDigit;
    EightBits(FromDigit(a), FromDigit(b), FromDigit(c), FromDigit(d));
  }

  lemma EightBits(w: nat, x: nat, y: nat, z: nat)
    requires w < 64 && x < 64 && y < 64 && z < 64
    ensures var group := w * 0x4_0000 + x * 0x1000 + y * 0x40 + z;
            && group / 0x1_0000 % 256 == w * 4 + x / 16 < 256
            && group / 0x100 % 256 == x % 16 * 16 + y / 4 < 256
            && group % 256 == y % 4 * 64 + z < 256
  {
    var group := w * 0x4_0000 + x * 0x1000 + y * 0x40 + z;
    TopBits(w, x, y, z);
    MiddleBits(w, x, y, z);
    assert group == 256 * (w * 1024 + x * 16 + y / 4) + (y % 4 * 64 + z);
  }

  lemma TopBits(w: nat, x: nat, y: nat, z: nat)
    requires w < 64 && x < 64 && y < 64 && z < 64
    ensures (w * 0x4_0000 + x * 0x1000 + y * 0x40 + z) / 0x1_0000 == w * 4 + x / 16
  {
    assert w * 0x4_0000 + x * 0x1000 + y * 0x40 + z == 0x1_0000 * (w * 4 + x / 16) + (x % 16 * 0x1000 + y * 0x40 + z);
  }

  lemma MiddleBits(w: nat, x: nat, y: nat, z: nat)
    requires w < 64 && x < 64 && y < 64 && z < 64
    ensures (w * 0x4_0000 + x * 0x1000 + y * 0x40 + z) / 0x100 == w * 1024 + x * 16 + y / 4
  {
    assert w * 0x4_0000 + x * 0x1000 + y * 0x40 + z == 0x100 * (w * 1024 + x * 16 + y / 4) + (y % 4 * 64 + z);
  }
}
