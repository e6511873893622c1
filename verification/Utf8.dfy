/** UTF-8: the bytes of a code point, and the check that bytes are well-formed. */
module Utf8 {
  import opened Bytes

  // A C string read past its end yields its terminator.
  function Char(s: seq<byte>, i: nat): byte {
    if i < |s| then s[i] else 0
  }

  // Code points that may be encoded: no surrogates.
  predicate IsScalar(cp: int) {
    0 <= cp <= 0x10FFFF && !(0xD800 <= cp <= 0xDFFF)
  }

  // The bytes that carry the lower six bits of a number.
  function Trail(bits: nat): byte {
    bits % 64 + 128
  }

  function Utf8Encode(cp: nat): (r: seq<byte>)
    requires cp <= 0x10FFFF
    ensures 1 <= |r| <= 4
  {
    if cp < 0x80 then [cp]
    else if cp < 0x800 then [cp / 64 + 0xC0, Trail(cp)]
    else if cp < 0x10000 then [cp / 64 / 64 + 0xE0, Trail(cp / 64), Trail(cp)]
    else [cp / 64 / 64 / 64 + 0xF0, Trail(cp / 64 / 64), Trail(cp / 64), Trail(cp)]
  }

  predicate IsCont(b: byte) {
    b / 64 == 2
  }

  function NumBytes(c: byte): nat {
    if c == 0xC0 || c == 0xC1 || c > 0xF4 || IsCont(c) then 0
    else if c < 0x80 then 1
    else if c / 32 == 6 then 2
    else if c / 16 == 14 then 3
    else if c / 8 == 30 then 4
    else 0
  }

  // The code point put together from a lead byte and its continuation bytes.
  function Assembled(s: seq<byte>, len: nat): nat {
    if len == 1 then Char(s, 0)
    else if len == 2 then Char(s, 0) % 32 * 64 + Char(s, 1) % 64
    else if len == 3 then (Char(s, 0) % 16 * 64 + Char(s, 1) % 64) * 64 + Char(s, 2) % 64
    else ((Char(s, 0) % 8 * 64 + Char(s, 1) % 64) * 64 + Char(s, 2) % 64) * 64 + Char(s, 3) % 64
  }

  // The length of the sequence the bytes start with, or 0 when they start with no proper one.
  function SequenceLength(s: seq<byte>): (len: nat)
    ensures len <= 4
  {
    var len := NumBytes(Char(s, 0));
    var cp := Assembled(s, len);
    if len == 0 then 0
    else if len >= 2 && !IsCont(Char(s, 1)) then 0
    else if len >= 3 && !IsCont(Char(s, 2)) then 0
    else if len >= 4 && !IsCont(Char(s, 3)) then 0
    else if (cp < 0x80 && len > 1) || (cp < 0x800 && len > 2) || (cp < 0x10000 && len > 3) then 0
    else if cp > 0x10FFFF then 0
    else if 0xD800 <= cp <= 0xDFFF then 0
    else len
  }

  ghost predicate Valid(s: seq<byte>) {
    |s| == 0 || (0 < SequenceLength(s) <= |s| && Valid(s[SequenceLength(s)..]))
  }

  // ----- The check accepts exactly the encodings of code points -----

  // Six bits at a time.
  lemma Join(cp: nat)
    ensures cp / 64 * 64 + cp % 64 == cp
  {
  }

  // What a lead byte says about the length, and the bits it carries.
  lemma LeadByte(b: byte)
    ensures NumBytes(b) == 1 <==> b < 0x80
    ensures NumBytes(b) == 2 <==> 0xC2 <= b < 0xE0
    ensures NumBytes(b) == 3 <==> 0xE0 <= b < 0xF0
    ensures NumBytes(b) == 4 <==> 0xF0 <= b < 0xF5
    ensures NumBytes(b) <= 4
    ensures 0xC0 <= b < 0xE0 ==> b % 32 == b - 0xC0
    ensures 0xE0 <= b < 0xF0 ==> b % 16 == b - 0xE0
    ensures 0xF0 <= b < 0xF5 ==> b % 8 == b - 0xF0
  {
  }

  lemma TrailByte(bits: nat)
    ensures IsCont(Trail(bits)) && Trail(bits) % 64 == bits % 64
  {
  }

  lemma TrailOf(high: nat, b: byte)
    requires IsCont(b)
    ensures Trail(high * 64 + b % 64) == b && (high * 64 + b % 64) / 64 == high
  {
  }

  lemma EncodingAccepted(cp: nat, rest: seq<byte>)
    requires IsScalar(cp)
    ensures SequenceLength(Utf8Encode(cp) + rest) == |Utf8Encode(cp)|
    ensures Assembled(Utf8Encode(cp) + rest, |Utf8Encode(cp)|) == cp
  {
    hide NumBytes, IsCont, Trail;
    var e := Utf8Encode(cp);
    var s := e + rest;
    assert forall i | 0 <= i < |e| :: Char(s, i) == e[i];
    LeadByte(e[0]);
    TrailByte(cp);
    TrailByte(cp / 64);
    TrailByte(cp / 64 / 64);
    Join(cp);
    Join(cp / 64);
    Join(cp / 64 / 64);
  }

  lemma AcceptedIsEncoding(s: seq<byte>)
    requires SequenceLength(s) > 0 && |s| > 0
    ensures SequenceLength(s) <= |s| && IsScalar(Assembled(s, SequenceLength(s)))
    ensures s[..SequenceLength(s)] == Utf8Encode(Assembled(s, SequenceLength(s)))
  {
    hide NumBytes, IsCont, Trail;
    var len := SequenceLength(s);
    var b0: int, b1: int, b2: int, b3: int := Char(s, 0), Char(s, 1), Char(s, 2), Char(s, 3);
    LeadByte(b0);
    TerminatorIsNoCont();
    if len == 2 {
      TrailOf(b0 % 32, b1);
      assert s[..2] == [b0, b1];
    } else if len == 3 {
      TrailOf(b0 % 16, b1);
      TrailOf(b0 % 16 * 64 + b1 % 64, b2);
      assert s[..3] == [b0, b1, b2];
    } else if len == 4 {
      TrailOf(b0 % 8, b1);
      TrailOf(b0 % 8 * 64 + b1 % 64, b2);
      TrailOf((b0 % 8 * 64 + b1 % 64) * 64 + b2 % 64, b3);
      assert s[..4] == [b0, b1, b2, b3];
    } else {
      assert s[..1] == [b0];
    }
  }

  lemma TerminatorIsNoCont()
    ensures !IsCont(0)
  {
  }

  function EncodeAll(cps: seq<nat>): seq<byte>
    requires forall i | 0 <= i < |cps| :: cps[i] <= 0x10FFFF
  {
    if |cps| == 0 then [] else Utf8Encode(cps[0]) + EncodeAll(cps[1..])
  }

  ghost predicate AllScalars(cps: seq<nat>) {
    forall i | 0 <= i < |cps| :: IsScalar(cps[i])
  }

  lemma EncodingPrepended(cp: nat, rest: seq<byte>)
    requires IsScalar(cp)
    ensures Valid(Utf8Encode(cp) + rest) <==> Valid(rest)
  {
    hide Utf8Encode, SequenceLength;
    EncodingAccepted(cp, rest);
    assert (Utf8Encode(cp) + rest)[|Utf8Encode(cp)|..] == rest;
  }

  // Main result: the valid byte strings are exactly the encodings of lists of code points.
  lemma {:induction false} EncodingsAreValid(cps: seq<nat>)
    requires AllScalars(cps)
    ensures Valid(EncodeAll(cps))
  {
    hide Utf8Encode, SequenceLength;
    if |cps| == 0 {
      assert EncodeAll(cps) == [];
    } else {
      EncodingsAreValid(cps[1..]);
      EncodingPrepended(cps[0], EncodeAll(cps[1..]));
    }
  }

  lemma {:induction false} ValidIsEncoding(s: seq<byte>) returns (cps: seq<nat>)
    requires Valid(s)
    ensures AllScalars(cps) && EncodeAll(cps) == s
  {
    hide Utf8Encode, SequenceLength, Assembled, IsScalar;
    if |s| == 0 {
      cps := [];
    } else {
      var len := SequenceLength(s);
      AcceptedIsEncoding(s);
      var rest := ValidIsEncoding(s[len..]);
      cps := [Assembled(s, len)] + rest;
      assert cps[1..] == rest;
      assert s == s[..len] + s[len..];
    }
  }

  // The loop of is_valid_utf8.
  method IsValidUtf8(s: seq<byte>) returns (valid: bool)
    ensures valid == Valid(s)
  {
    hide SequenceLength;
    var at := 0;
    while at < |s|
      invariant at <= |s| && Valid(s) == Valid(s[at..])
    {
      var len := SequenceLength(s[at..]);
      if len == 0 {
        return false;
      }
      SequenceFits(s[at..]);
      assert s[at..][len..] == s[at + len..];
      at := at + len;
    }
    valid := true;
  }

  lemma SequenceFits(s: seq<byte>)
    requires |s| > 0
    ensures SequenceLength(s) <= |s|
  {
    hide NumBytes, IsCont, Assembled;
    TerminatorIsNoCont();
    LeadByte(Char(s, 0));
  }
}
