/** Base64 coding of byte buffers (section 4 of RFC 4648), as the histogram log uses it:
    the encoder pads with '=', the decoder returns a zero byte for every pad. */
module Base64 {
  import opened Bytes

  const EINVAL: int := 22
  const PAD: byte := 61

  // ----- One block -----

  // The character for six bits: A-Z, a-z, 0-9, +, /.
  function Digit(v: nat): byte
    requires v < 64
  {
    if v < 26 then 65 + v
    else if v < 52 then 97 + (v - 26)
    else if v < 62 then 48 + (v - 52)
    else if v == 62 then 43
    else 47
  }

  // The six bits of a character; the source's error code doubles as bits for any other one.
  function FromDigit(c: byte): (v: nat)
    ensures v < 64
  {
    if 65 <= c <= 90 then c - 65
    else if 97 <= c <= 122 then c - 97 + 26
    else if 48 <= c <= 57 then c - 48 + 52
    else if c == 43 then 62
    else if c == 47 then 63
    else if c == PAD then 0
    else EINVAL
  }

  lemma DigitReadBack(v: nat)
    requires v < 64
    ensures FromDigit(Digit(v)) == v && Digit(v) != PAD
  {
  }

  // Six bits of a 24-bit group, from a bit position up.
  function GetDigit(group: nat, scale: nat): byte
    requires scale >= 1
  {
    Digit(group / scale % 64)
  }

  function EncodeBlock(a: byte, b: byte, c: byte): (r: seq<byte>)
    ensures |r| == 4
  {
    var group := a * 0x1_0000 + b * 0x100 + c;
    [GetDigit(group, 0x4_0000), GetDigit(group, 0x1000), GetDigit(group, 0x40), GetDigit(group, 1)]
  }

  // The last one or two bytes, padded.
  function EncodeLast(rest: seq<byte>): (r: seq<byte>)
    requires |rest| <= 2
    ensures |r| == if |rest| == 0 then 0 else 4
  {
    if |rest| == 2 then
      var group := (rest[0] as int) * 0x1_0000 + (rest[1] as int) * 0x100;
      [GetDigit(group, 0x4_0000), GetDigit(group, 0x1000), GetDigit(group, 0x40), PAD]
    else if |rest| == 1 then
      var group := (rest[0] as int) * 0x1_0000;
      [GetDigit(group, 0x4_0000), GetDigit(group, 0x1000), PAD, PAD]
    else []
  }

  function DecodeBlock(a: byte, b: byte, c: byte, d: byte): (r: seq<byte>)
    ensures |r| == 3
  {
    var group := FromDigit(a) * 0x4_0000 + FromDigit(b) * 0x1000 + FromDigit(c) * 0x40 + FromDigit(d);
    [group / 0x1_0000 % 256, group / 0x100 % 256, group % 256]
  }

  // Shifting six bits at a time.
  lemma SixBitSteps(group: nat)
    ensures group / 0x1000 == group / 0x40 / 0x40 && group / 0x4_0000 == group / 0x1000 / 0x40
  {
  }

  lemma GroupOfDigits(group: nat)
    requires group < 0x100_0000
    ensures FromDigit(GetDigit(group, 0x4_0000)) * 0x4_0000 + FromDigit(GetDigit(group, 0x1000)) * 0x1000
          + FromDigit(GetDigit(group, 0x40)) * 0x40 + FromDigit(GetDigit(group, 1)) == group
  {
    SixBitSteps(group);
    DigitReadBack(group / 0x4_0000 % 64);
    DigitReadBack(group / 0x1000 % 64);
    DigitReadBack(group / 0x40 % 64);
    DigitReadBack(group / 1 % 64);
    hide Digit, FromDigit;
    assert group / 0x4_0000 % 64 == group / 0x4_0000;
  }

  lemma BytesOfGroup(a: byte, b: byte, c: byte)
    ensures var group := a * 0x1_0000 + b * 0x100 + c;
            group / 0x1_0000 % 256 == a && group / 0x100 % 256 == b && group % 256 == c
  {
    var group: int := a * 0x1_0000 + b * 0x100 + c;
    assert group / 0x1_0000 == a;
    assert group / 0x100 == a * 0x100 + b;
  }

  lemma BlockReadBack(a: byte, b: byte, c: byte)
    ensures var r := EncodeBlock(a, b, c); DecodeBlock(r[0], r[1], r[2], r[3]) == [a, b, c]
  {
    var group := a * 0x1_0000 + b * 0x100 + c;
    GroupOfDigits(group);
    BytesOfGroup(a, b, c);
    hide GetDigit, FromDigit;
  }

  lemma LastReadBack(rest: seq<byte>)
    requires 1 <= |rest| <= 2
    ensures var r := EncodeLast(rest); DecodeBlock(r[0], r[1], r[2], r[3]) == rest + Zeros(3 - |rest|)
  {
    var first: byte, second: byte := rest[0], if |rest| == 2 then rest[1] else 0;
    var group: int := first * 0x1_0000 + second * 0x100;
    GroupOfDigits(group);
    BytesOfGroup(first, second, 0);
    PaddingIsZero(first, second);
    var r := EncodeLast(rest);
    assert r[0] == GetDigit(group, 0x4_0000) && r[1] == GetDigit(group, 0x1000) && r[3] == PAD;
    assert r[2] == if |rest| == 2 then GetDigit(group, 0x40) else PAD;
    hide GetDigit, FromDigit, EncodeLast, DecodeBlock;
    DecodeGroup(r[0], r[1], r[2], r[3], group);
  }

  lemma DecodeGroup(a: byte, b: byte, c: byte, d: byte, group: nat)
    requires FromDigit(a) * 0x4_0000 + FromDigit(b) * 0x1000 + FromDigit(c) * 0x40 + FromDigit(d) == group
    ensures DecodeBlock(a, b, c, d) == [group / 0x1_0000 % 256, group / 0x100 % 256, group % 256]
  {
    hide FromDigit;
  }

  // The digits a pad replaces are zero.
  lemma PaddingIsZero(first: byte, second: byte)
    ensures var group := first * 0x1_0000 + second * 0x100;
            && FromDigit(GetDigit(group, 1)) == FromDigit(PAD) == 0
            && (second == 0 ==> FromDigit(GetDigit(group, 0x40)) == 0)
  {
    hide Digit, FromDigit;
    PadIsZero();
    LowDigitsAreZero(first, second);
    DigitReadBack(0);
  }

  lemma PadIsZero()
    ensures FromDigit(PAD) == 0
  {
  }

  lemma LowDigitsAreZero(first: byte, second: byte)
    ensures (first * 0x1_0000 + second * 0x100) % 64 == 0
    ensures (first * 0x1_0000 / 0x40) % 64 == 0
  {
  }

  // ----- Whole buffers -----

  function Zeros(n: nat): (r: seq<byte>)
    ensures |r| == n && forall i | 0 <= i < n :: r[i] == 0
  {
    seq(n, _ => 0)
  }

  function Encoded(input: seq<byte>): (r: seq<byte>)
    ensures |r| == EncodedLen(|input|)
  {
    EncodedLenStep(|input|);
    if |input| >= 3 then EncodeBlock(input[0], input[1], input[2]) + Encoded(input[3..])
    else EncodeLast(input)
  }

  function Decoded(chars: seq<byte>): (r: seq<byte>)
    requires |chars| % 4 == 0
    ensures |r| == DecodedLen(|chars|)
  {
    DecodedLenStep(|chars|);
    if |chars| == 0 then []
    else DecodeBlock(chars[0], chars[1], chars[2], chars[3]) + Decoded(chars[4..])
  }

  // ceil(n / 3) * 4
  function EncodedLen(decodedSize: nat): nat {
    (decodedSize + 2) / 3 * 4
  }

  function DecodedLen(encodedSize: nat): nat {
    encodedSize / 4 * 3
  }

  lemma LengthsAre(n: nat)
    ensures EncodedLen(n) == (n + 2) / 3 * 4 && DecodedLen(n) == n / 4 * 3
  {
  }

  lemma EncodedLenStep(n: nat)
    ensures EncodedLen(n) == if n >= 3 then 4 + EncodedLen(n - 3) else if n == 0 then 0 else 4
  {
  }

  lemma DecodedLenStep(n: nat)
    requires n % 4 == 0
    ensures DecodedLen(n) == if n == 0 then 0 else 3 + DecodedLen(n - 4)
  {
  }

  // Main result: decoding undoes encoding up to the zero bytes that stand for the padding.
  lemma {:induction false} DecodedEncoded(input: seq<byte>)
    ensures |Encoded(input)| % 4 == 0
    ensures Decoded(Encoded(input)) == input + Zeros((3 - |input| % 3) % 3)
  {
    hide EncodeBlock, EncodeLast, DecodeBlock, Decoded, Encoded, Zeros;
    if |input| >= 3 {
      var block := EncodeBlock(input[0], input[1], input[2]);
      var rest := Encoded(input[3..]);
      EncodedStep(input);
      BlockReadBack(input[0], input[1], input[2]);
      DecodedEncoded(input[3..]);
      DecodedStep(block + rest);
      assert (block + rest)[4..] == rest;
      assert input == [input[0], input[1], input[2]] + input[3..];
      assert |input[3..]| % 3 == |input| % 3;
    } else {
      EncodedEnd(input);
      DecodedNothing();
      if |input| > 0 {
        LastReadBack(input);
        DecodedStep(EncodeLast(input));
        assert EncodeLast(input)[4..] == [];
      }
    }
  }

  lemma EncodedStep(input: seq<byte>)
    requires |input| >= 3
    ensures Encoded(input) == EncodeBlock(input[0], input[1], input[2]) + Encoded(input[3..])
  {
  }

  lemma EncodedEnd(input: seq<byte>)
    requires |input| < 3
    ensures Encoded(input) == EncodeLast(input) && (input == [] ==> Encoded(input) == [])
  {
  }

  lemma NoBlockLeft(input: seq<byte>)
    requires |input| >= 3 ==> |Encoded(input)| == 0
    ensures |input| < 3
  {
  }

  method Encode(input: array<byte>, inputLen: nat, output: array<byte>, outputLen: nat) returns (error: int)
    requires inputLen <= input.Length && outputLen <= output.Length && input != output
    modifies output
    ensures error == if (inputLen + 2) / 3 * 4 == outputLen then 0 else 22
    ensures error == 0 ==> output[..] == Splice(old(output[..]), 0, Encoded(input[..inputLen]))
    ensures error != 0 ==> unchanged(output)
  {
    hide EncodeBlock, EncodeLast, EncodedLen, Encoded, Splice;
    LengthsAre(inputLen);
    if EncodedLen(inputLen) != outputLen {
      return EINVAL;
    }
    ghost var before, done := output[..], [];
    SpliceNothing(before, 0);
    var i, j := 0, 0;
    while inputLen - i >= 3 && j < outputLen
      invariant i <= inputLen && j == |done|
      invariant Encoded(input[..inputLen]) == done + Encoded(input[i..inputLen])
      invariant output[..] == Splice(before, 0, done)
    {
      ghost var block := EncodeBlock(input[i], input[i + 1], input[i + 2]);
      EncodedStep(input[i..inputLen]);
      assert input[i..inputLen][3..] == input[i + 3..inputLen];
      assert done + (block + Encoded(input[i + 3..inputLen])) == done + block + Encoded(input[i + 3..inputLen]);
      PutBlock(output, j, EncodeBlock(input[i], input[i + 1], input[i + 2]), before, done);
      done := done + block;
      i, j := i + 3, j + 4;
    }
    var remaining := inputLen - i;
    NoBlockLeft(input[i..inputLen]);
    EncodedEnd(input[i..inputLen]);
    if remaining > 0 {
      PutBlock(output, j, EncodeLast(input[i..inputLen]), before, done);
    } else {
      assert done + [] == done;
    }
    error := 0;
  }

  // Writes the four characters of a block.
  method PutBlock(output: array<byte>, j: nat, block: seq<byte>, ghost before: seq<byte>, ghost done: seq<byte>)
    requires |block| == 4 && |done| == j && j + 4 <= output.Length == |before|
    requires output[..] == Splice(before, 0, done)
    modifies output
    ensures output[..] == Splice(before, 0, done + block)
  {
    hide Splice;
    SpliceMore(before, 0, done, block);
    ghost var b: seq<byte> := output[..];
    FourSpliced(b, j, block);
    output[j] := block[0];
    output[j + 1] := block[1];
    output[j + 2] := block[2];
    output[j + 3] := block[3];
    assert output[..] == b[j := block[0]][j + 1 := block[1]][j + 2 := block[2]][j + 3 := block[3]];
  }

  lemma ThreeSpliced(b: seq<byte>, j: nat, block: seq<byte>)
    requires |block| == 3 && j + 3 <= |b|
    ensures Splice(b, j, block) == b[j := block[0]][j + 1 := block[1]][j + 2 := block[2]]
  {
  }

  lemma FourSpliced(b: seq<byte>, j: nat, block: seq<byte>)
    requires |block| == 4 && j + 4 <= |b|
    ensures Splice(b, j, block) == b[j := block[0]][j + 1 := block[1]][j + 2 := block[2]][j + 3 := block[3]]
  {
  }

  method Decode(input: array<byte>, inputLen: nat, output: array<byte>, outputLen: nat) returns (error: int)
    requires inputLen <= input.Length && outputLen <= output.Length && input != output
    modifies output
    ensures error == if inputLen >= 4 && inputLen % 4 == 0 && inputLen / 4 * 3 == outputLen then 0 else 22
    ensures error == 0 ==> output[..] == Splice(old(output[..]), 0, Decoded(input[..inputLen]))
    ensures error != 0 ==> unchanged(output)
  {
    hide DecodeBlock, Decoded, DecodedLen, Splice;
    LengthsAre(inputLen);
    if inputLen < 4 || inputLen % 4 != 0 || DecodedLen(inputLen) != outputLen {
      return EINVAL;
    }
    ghost var before, done := output[..], [];
    SpliceNothing(before, 0);
    var i, j := 0, 0;
    while i < inputLen
      invariant i <= inputLen && (inputLen - i) % 4 == 0 && j == |done|
      invariant Decoded(input[..inputLen]) == done + Decoded(input[i..inputLen])
      invariant output[..] == Splice(before, 0, done)
    {
      var block := DecodeBlock(input[i], input[i + 1], input[i + 2], input[i + 3]);
      DecodedStep(input[i..inputLen]);
      assert input[i..inputLen][4..] == input[i + 4..inputLen];
      assert done + (block + Decoded(input[i + 4..inputLen])) == done + block + Decoded(input[i + 4..inputLen]);
      PutBytes(output, j, block, before, done);
      done := done + block;
      i, j := i + 4, j + 3;
    }
    assert input[i..inputLen] == [] && done + [] == done;
    DecodedNothing();
    error := 0;
  }

  lemma DecodedNothing()
    ensures Decoded([]) == []
  {
  }

  lemma DecodedStep(chars: seq<byte>)
    requires |chars| >= 4 && |chars| % 4 == 0
    ensures Decoded(chars) == DecodeBlock(chars[0], chars[1], chars[2], chars[3]) + Decoded(chars[4..])
  {
  }

  // Writes the three bytes of a block.
  method PutBytes(output: array<byte>, j: nat, block: seq<byte>, ghost before: seq<byte>, ghost done: seq<byte>)
    requires |block| == 3 && |done| == j && j + 3 <= output.Length == |before|
    requires output[..] == Splice(before, 0, done)
    modifies output
    ensures output[..] == Splice(before, 0, done + block)
  {
    hide Splice;
    SpliceMore(before, 0, done, block);
    ghost var b: seq<byte> := output[..];
    ThreeSpliced(b, j, block);
    output[j] := block[0];
    output[j + 1] := block[1];
    output[j + 2] := block[2];
    assert output[..] == b[j := block[0]][j + 1 := block[1]][j + 2 := block[2]];
  }
}
