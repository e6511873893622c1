/** The string decoder: what it does to UTF-8, and its loops over the input and output pointers. */
module JsonStringDecoder {
  import opened Bytes
  import opened Utf8
  import opened JsonStrings

  // The body of a quoted string: from i to the closing quote at end, which is not the end of the text.
  ghost predicate IsBody(text: seq<byte>, i: nat, end: nat) {
    && i <= end < |text|
    && text[end] == QUOTE && Char(text, end + 1) != 0
    && SkipBody(text, i) == end + 1
  }

  // ----- Escapes denote code points -----

  // The UTF-16 code units of a code point: itself, or a surrogate pair.
  function Utf16Units(cp: nat): seq<nat>
    requires cp <= 0x10FFFF
  {
    if cp < 0x10000 then [cp] else [0xD800 + (cp - 0x10000) / 0x400, 0xDC00 + (cp - 0x10000) % 0x400]
  }

  function HexDigit(v: nat, upper: bool): byte
    requires v < 16
  {
    if v < 10 then 48 + v else if upper then 55 + v else 87 + v
  }

  // The case of the k-th hexadecimal digit of an escape; lower where none is given.
  predicate IsUpper(upper: seq<bool>, k: nat) {
    k < |upper| && upper[k]
  }

  // A unit as a backslash, u and four hexadecimal digits, each in the case given from place k on.
  function UnitEscape(unit: nat, upper: seq<bool>, k: nat): (r: seq<byte>)
    requires unit < 0x10000
    ensures |r| == 6
  {
    [BACKSLASH, 117, HexDigit(unit / 16 / 16 / 16, IsUpper(upper, k)),
      HexDigit(unit / 16 / 16 % 16, IsUpper(upper, k + 1)),
      HexDigit(unit / 16 % 16, IsUpper(upper, k + 2)), HexDigit(unit % 16, IsUpper(upper, k + 3))]
  }

  function CodePointEscape(cp: nat, upper: seq<bool>): seq<byte>
    requires cp <= 0x10FFFF
  {
    if cp < 0x10000 then UnitEscape(cp, upper, 0)
    else UnitEscape(Utf16Units(cp)[0], upper, 0) + UnitEscape(Utf16Units(cp)[1], upper, 4)
  }

  lemma HexDigitRead(v: nat, upper: bool)
    requires v < 16
    ensures IsHex(HexDigit(v, upper)) && HexValue(HexDigit(v, upper)) == v
  {
  }

  lemma UnitDigits(unit: nat)
    requires unit < 0x10000
    ensures unit / 16 / 16 / 16 < 16
    ensures unit == unit / 16 / 16 / 16 * 0x1000 + unit / 16 / 16 % 16 * 0x100 + unit / 16 % 16 * 0x10 + unit % 16
  {
    var a := unit / 16;
    var b := a / 16;
    assert unit == 16 * a + unit % 16 && a == 16 * b + a % 16 && b == 16 * (b / 16) + b % 16;
  }

  lemma UnitRead(text: seq<byte>, i: nat, unit: nat, upper: seq<bool>, k: nat)
    requires unit < 0x10000 && FoundAt(text, i, UnitEscape(unit, upper, k))
    ensures Char(text, i) == BACKSLASH && Char(text, i + 1) == 117 && IsHex4(text, i + 2) && Hex4(text, i + 2) == unit
  {
    hide HexDigit, HexValue, IsHex, Char, FoundAt, IsUpper;
    var e := UnitEscape(unit, upper, k);
    FoundChar(text, i, e, 0);
    FoundChar(text, i, e, 1);
    FoundChar(text, i, e, 2);
    FoundChar(text, i, e, 3);
    FoundChar(text, i, e, 4);
    FoundChar(text, i, e, 5);
    HexDigitRead(unit / 16 / 16 / 16, IsUpper(upper, k));
    HexDigitRead(unit / 16 / 16 % 16, IsUpper(upper, k + 1));
    HexDigitRead(unit / 16 % 16, IsUpper(upper, k + 2));
    HexDigitRead(unit % 16, IsUpper(upper, k + 3));
    UnitDigits(unit);
  }

  // Main result: the escape of any code point, with each digit in either case, is read as that code
  // point and to its end.
  lemma CodePointReadBack(text: seq<byte>, i: nat, cp: nat, upper: seq<bool>)
    requires IsScalar(cp) && FoundAt(text, i, CodePointEscape(cp, upper))
    ensures Char(text, i) == BACKSLASH
    ensures ReadEscape(text, i + 1) == Escape(cp, i + |CodePointEscape(cp, upper)|)
  {
    hide UnitEscape, FoundAt, IsHex4, Hex4, Utf8Encode;
    if cp < 0x10000 {
      UnitRead(text, i, cp, upper, 0);
    } else {
      var lead, trail := Utf16Units(cp)[0], Utf16Units(cp)[1];
      FoundSplit(text, i, UnitEscape(lead, upper, 0), UnitEscape(trail, upper, 4));
      UnitRead(text, i, lead, upper, 0);
      UnitRead(text, i + 6, trail, upper, 4);
      PairJoined(cp - 0x10000);
    }
  }

  lemma PairJoined(bits: nat)
    ensures bits / 0x400 * 0x400 + bits % 0x400 == bits
  {
  }

  // ----- Nothing else is read as a code point -----

  lemma HexDigitWritten(c: byte)
    requires IsHex(c)
    ensures HexDigit(HexValue(c), c <= 70) == c
  {
  }

  // The digits of a number put together from four.
  lemma DigitsOfUnit(a: nat, b: nat, c: nat, d: nat)
    requires a < 16 && b < 16 && c < 16 && d < 16
    ensures var unit := a * 0x1000 + b * 0x100 + c * 0x10 + d;
            && unit < 0x10000 && unit / 16 / 16 / 16 == a
            && unit / 16 / 16 % 16 == b && unit / 16 % 16 == c && unit % 16 == d
  {
    var unit := a * 0x1000 + b * 0x100 + c * 0x10 + d;
    var high := a * 0x100 + b * 0x10 + c;
    assert unit == 16 * high + d && high == 16 * (a * 16 + b) + c;
    assert unit / 16 == high && high / 16 == a * 16 + b && (a * 16 + b) / 16 == a;
  }

  // The case of the four digits at i.
  function CaseOf(text: seq<byte>, i: nat): (upper: seq<bool>)
    ensures |upper| == 4
  {
    [Char(text, i) <= 70, Char(text, i + 1) <= 70, Char(text, i + 2) <= 70, Char(text, i + 3) <= 70]
  }

  lemma UnitWritten(text: seq<byte>, i: nat, upper: seq<bool>, k: nat)
    requires Char(text, i) == BACKSLASH && Char(text, i + 1) == 117 && IsHex4(text, i + 2)
    requires k + 4 <= |upper| && upper[k..k + 4] == CaseOf(text, i + 2)
    ensures FoundAt(text, i, UnitEscape(Hex4(text, i + 2), upper, k))
  {
    hide HexDigit, HexValue;
    var cases := CaseOf(text, i + 2);
    assert upper[k] == cases[0] && upper[k + 1] == cases[1] && upper[k + 2] == cases[2] && upper[k + 3] == cases[3];
    HexDigitWritten(Char(text, i + 2));
    HexDigitWritten(Char(text, i + 3));
    HexDigitWritten(Char(text, i + 4));
    HexDigitWritten(Char(text, i + 5));
    DigitsOfUnit(HexValue(Char(text, i + 2)), HexValue(Char(text, i + 3)), HexValue(Char(text, i + 4)),
      HexValue(Char(text, i + 5)));
    assert text[i..i + 6] == [text[i], text[i + 1], text[i + 2], text[i + 3], text[i + 4], text[i + 5]];
  }

  // Main result: what is read as the escape of a code point is such an escape.
  lemma ReadIsCodePoint(text: seq<byte>, i: nat) returns (upper: seq<bool>)
    requires Char(text, i) == BACKSLASH && Char(text, i + 1) == 117 && ReadEscape(text, i + 1).Escape?
    ensures var e := ReadEscape(text, i + 1);
            && IsScalar(e.cp) && FoundAt(text, i, CodePointEscape(e.cp, upper))
            && e.next == i + |CodePointEscape(e.cp, upper)|
  {
    hide UnitEscape, FoundAt, IsHex4, Hex4, Utf8Encode, CaseOf;
    var e := ReadUtf16(text, i + 1);
    upper := CaseOf(text, i + 2) + CaseOf(text, i + 8);
    assert upper[0..4] == CaseOf(text, i + 2) && upper[4..8] == CaseOf(text, i + 8);
    UnitWritten(text, i, upper, 0);
    if e.cp >= 0x10000 {
      UnitWritten(text, i + 6, upper, 4);
      var lead, trail := Hex4(text, i + 2), Hex4(text, i + 8);
      PairSplit(lead - 0xD800, trail - 0xDC00);
      FoundJoined(text, i, UnitEscape(lead, upper, 0), UnitEscape(trail, upper, 4));
    }
  }

  lemma PairSplit(high: nat, low: nat)
    requires low < 0x400
    ensures (high * 0x400 + low) / 0x400 == high && (high * 0x400 + low) % 0x400 == low
  {
  }

  lemma FoundJoined(text: seq<byte>, i: nat, a: seq<byte>, b: seq<byte>)
    requires FoundAt(text, i, a) && FoundAt(text, i + |a|, b)
    ensures FoundAt(text, i, a + b)
  {
    assert text[i..i + |a + b|] == text[i..i + |a|] + text[i + |a|..i + |a| + |b|];
  }

  // ----- UTF-8 in, UTF-8 out -----

  lemma HexSkipped(text: seq<byte>, i: nat)
    requires IsHex4(text, i)
    ensures i + 4 <= |text| && SkipBody(text, i) == SkipBody(text, i + 4)
    ensures forall k | i <= k < i + 4 :: text[k] < 0x80
  {
    assert SkipBody(text, i) == SkipBody(text, i + 1);
    assert SkipBody(text, i + 1) == SkipBody(text, i + 2);
    assert SkipBody(text, i + 2) == SkipBody(text, i + 3);
    assert SkipBody(text, i + 3) == SkipBody(text, i + 4);
  }

  // The scan for the closing quote and the decoder agree on where an escape ends.
  lemma EscapeSkipped(text: seq<byte>, i: nat)
    requires i < |text| && text[i] == BACKSLASH && ReadEscape(text, i + 1).Escape?
    ensures var next := ReadEscape(text, i + 1).next;
            && SkipBody(text, i) == SkipBody(text, next)
            && (forall k | i <= k < next :: text[k] < 0x80)
  {
    hide Utf8Encode, Hex4, IsHex4;
    assert SkipBody(text, i) == SkipBody(text, i + 2);
    if Char(text, i + 1) == 117 {
      HexSkipped(text, i + 2);
      if ReadUtf16(text, i + 1).next != i + 6 {
        HexSkipped(text, i + 8);
        assert SkipBody(text, i + 6) == SkipBody(text, i + 8);
      }
    }
  }

  lemma BodyAfterEscape(text: seq<byte>, i: nat, end: nat)
    requires IsBody(text, i, end) && text[i] == BACKSLASH && ReadEscape(text, i + 1).Escape?
    ensures IsBody(text, ReadEscape(text, i + 1).next, end)
    ensures forall k | i <= k < ReadEscape(text, i + 1).next :: text[k] < 0x80
  {
    hide ReadEscape;
    EscapeSkipped(text, i);
    assert SkipBody(text, end + 1) > end + 1;
  }

  lemma BodyAfterByte(text: seq<byte>, i: nat, end: nat)
    requires IsBody(text, i, end) && i < end && text[i] != BACKSLASH
    ensures IsBody(text, i + 1, end)
  {
  }

  lemma {:induction false} DropAscii(s: seq<byte>, n: nat)
    requires Valid(s) && n <= |s| && forall k | 0 <= k < n :: s[k] < 0x80
    ensures Valid(s[n..])
    decreases n
  {
    if n == 0 {
      assert s[0..] == s;
    } else {
      HeadOf(s);
      assert s[1..][n - 1..] == s[n..];
      DropAscii(s[1..], n - 1);
    }
  }

  // A sequence is one ASCII byte, or bytes that are all beyond ASCII.
  lemma HeadOf(s: seq<byte>)
    requires Valid(s) && |s| > 0
    ensures 0 < SequenceLength(s) <= |s|
    ensures s[0] < 0x80 <==> SequenceLength(s) == 1
    ensures s[0] >= 0x80 ==> forall k | 0 <= k < SequenceLength(s) :: s[k] >= 0x80
    ensures Valid(s[SequenceLength(s)..])
  {
    hide Assembled;
    LeadByte(s[0]);
  }

  lemma ByteCopied(text: seq<byte>, i: nat, end: nat)
    requires i < end <= |text| && text[i] >= 0x20 && text[i] != BACKSLASH
    ensures Unescaped(text, i, end) == Prepend([text[i]], Unescaped(text, i + 1, end))
  {
    hide ReadEscape;
  }

  lemma {:induction false} HighBytesCopied(text: seq<byte>, i: nat, k: nat, end: nat)
    requires IsBody(text, i, end) && i + k <= end
    requires forall j | i <= j < i + k :: text[j] >= 0x80
    ensures IsBody(text, i + k, end)
    ensures Unescaped(text, i, end) == Prepend(text[i..i + k], Unescaped(text, i + k, end))
    decreases k
  {
    hide ReadEscape, Unescaped, SkipBody;
    if k > 0 {
      BodyAfterByte(text, i, end);
      ByteCopied(text, i, end);
      HighBytesCopied(text, i + 1, k - 1, end);
      assert [text[i]] + text[i + 1..i + k] == text[i..i + k];
    }
  }

  // Main result: a valid UTF-8 body decodes to valid UTF-8 that is no longer, or to an error.
  lemma {:induction false} UnescapedIsUtf8(text: seq<byte>, i: nat, end: nat)
    requires IsBody(text, i, end) && Valid(text[i..end])
    ensures Unescaped(text, i, end).Text? ==>
      Valid(Unescaped(text, i, end).bytes) && |Unescaped(text, i, end).bytes| <= end - i
    decreases end - i
  {
    hide ReadEscape, SequenceLength, Utf8Encode, SkipBody, Unescaped, Valid;
    DecodingStops(text, i, end);
    if i < end {
      var s := text[i..end];
      if text[i] == BACKSLASH {
        if ReadEscape(text, i + 1).Escape? {
          var e := ReadEscape(text, i + 1);
          BodyAfterEscape(text, i, end);
          DropAscii(s, e.next - i);
          assert s[e.next - i..] == text[e.next..end];
          UnescapedIsUtf8(text, e.next, end);
          AfterEscape(text, i, end);
        }
      } else if text[i] >= 0x20 {
        HeadOf(s);
        var k := SequenceLength(s);
        assert s[k..] == text[i + k..end] && s[..k] == text[i..i + k];
        AcceptedIsEncoding(s);
        if k > 1 {
          assert forall j | i <= j < i + k :: text[j] == s[j - i];
          HighBytesCopied(text, i, k, end);
        } else {
          BodyAfterByte(text, i, end);
          ByteCopied(text, i, end);
        }
        UnescapedIsUtf8(text, i + k, end);
        AfterSequence(text, i, k, end);
      }
    }
  }

  lemma DecodingStops(text: seq<byte>, i: nat, end: nat)
    requires i <= end < |text|
    ensures i == end ==> Unescaped(text, i, end) == Text([])
    ensures Valid([])
    ensures i < end && text[i] == BACKSLASH && !ReadEscape(text, i + 1).Escape? ==> !Unescaped(text, i, end).Text?
    ensures i < end && text[i] == 0 ==> Unescaped(text, i, end) == Text([])
    ensures i < end && 0 < text[i] < 0x20 ==> !Unescaped(text, i, end).Text?
  {
    hide ReadEscape, Utf8Encode;
  }

  lemma AfterEscape(text: seq<byte>, i: nat, end: nat)
    requires IsBody(text, i, end) && i < end && text[i] == BACKSLASH && ReadEscape(text, i + 1).Escape?
    requires var rest := Unescaped(text, ReadEscape(text, i + 1).next, end);
             rest.Text? ==> Valid(rest.bytes) && |rest.bytes| <= end - ReadEscape(text, i + 1).next
    ensures Unescaped(text, i, end).Text? ==>
      Valid(Unescaped(text, i, end).bytes) && |Unescaped(text, i, end).bytes| <= end - i
  {
    hide ReadEscape, Utf8Encode, SequenceLength;
    var e := ReadEscape(text, i + 1);
    var rest := Unescaped(text, e.next, end);
    if rest.Text? {
      EncodingPrepended(e.cp, rest.bytes);
    }
  }

  lemma AfterSequence(text: seq<byte>, i: nat, k: nat, end: nat)
    requires i + k <= end < |text|
    requires Unescaped(text, i, end) == Prepend(text[i..i + k], Unescaped(text, i + k, end))
    requires exists cp: nat :: IsScalar(cp) && text[i..i + k] == Utf8Encode(cp)
    requires var rest := Unescaped(text, i + k, end); rest.Text? ==> Valid(rest.bytes) && |rest.bytes| <= end - (i + k)
    ensures Unescaped(text, i, end).Text? ==>
      Valid(Unescaped(text, i, end).bytes) && |Unescaped(text, i, end).bytes| <= end - i
  {
    hide ReadEscape, Utf8Encode, SequenceLength, Unescaped;
    var cp: nat :| IsScalar(cp) && text[i..i + k] == Utf8Encode(cp);
    var rest := Unescaped(text, i + k, end);
    if rest.Text? {
      EncodingPrepended(cp, rest.bytes);
    }
  }

  lemma {:induction false} UpToNulIsUtf8(t: seq<byte>)
    requires Valid(t)
    ensures Valid(UpToNul(t))
    decreases |t|
  {
    hide Utf8Encode, SequenceLength;
    if |t| > 0 && t[0] != 0 {
      HeadOf(t);
      var k := SequenceLength(t);
      AcceptedIsEncoding(t);
      KeepsHead(t, k);
      UpToNulIsUtf8(t[k..]);
      EncodingPrepended(Assembled(t, k), UpToNul(t[k..]));
    }
  }

  lemma {:induction false} KeepsHead(t: seq<byte>, k: nat)
    requires k <= |t| && forall j | 0 <= j < k :: t[j] != 0
    ensures UpToNul(t) == t[..k] + UpToNul(t[k..])
    decreases k
  {
    if k == 0 {
      assert t[0..] == t;
    } else {
      KeepsHead(t[1..], k - 1);
      assert t[1..][k - 1..] == t[k..];
      assert [t[0]] + t[1..][..k - 1] == t[..k];
    }
  }

  lemma DecodedIsUtf8(text: seq<byte>, i: nat, end: nat)
    requires IsBody(text, i, end) && Valid(text[i..end])
    ensures DecodedText(text, i, end).Text? ==>
      Valid(DecodedText(text, i, end).bytes) && |DecodedText(text, i, end).bytes| <= end - i
  {
    hide Unescaped, Valid, IsBody;
    UnescapedIsUtf8(text, i, end);
    var t := Unescaped(text, i, end);
    if t.Text? {
      UpToNulIsUtf8(t.bytes);
    }
  }

  // ----- The loops -----

  method SkipQuotes(text: seq<byte>, start: nat) returns (next: nat)
    requires start < |text|
    ensures next == SkipBody(text, start + 1)
  {
    next := start + 1;
    while Char(text, next) != QUOTE
      invariant next <= |text| && SkipBody(text, next) == SkipBody(text, start + 1)
      decreases |text| - next
    {
      if Char(text, next) == 0 {
        return;
      }
      if Char(text, next) == BACKSLASH {
        next := next + 1;
        if Char(text, next) == 0 {
          return;
        }
      }
      next := next + 1;
    }
    next := next + 1;
  }

  // Writes the UTF-8 form of a code point and returns the index of its last byte.
  method PutUtf8(output: array<byte>, processed: nat, cp: nat) returns (last: nat)
    requires cp <= 0x10FFFF && processed + |Utf8Encode(cp)| <= output.Length
    modifies output
    ensures last + 1 == processed + |Utf8Encode(cp)|
    ensures output[..] == Splice(old(output[..]), processed, Utf8Encode(cp))
  {
    hide Trail;
    last := processed;
    if cp < 0x80 {
      output[last] := cp;
    } else if cp < 0x800 {
      output[last] := cp / 64 + 0xC0;
      last := last + 1;
      output[last] := Trail(cp);
    } else if cp < 0x10000 {
      output[last], output[last + 1], output[last + 2] := cp / 64 / 64 + 0xE0, Trail(cp / 64), Trail(cp);
      last := last + 2;
    } else {
      output[last], output[last + 1] := cp / 64 / 64 / 64 + 0xF0, Trail(cp / 64 / 64);
      output[last + 2], output[last + 3] := Trail(cp / 64), Trail(cp);
      last := last + 3;
    }
  }

  // Both pointers are left on the last byte read and written.
  method ParseUtf16(text: seq<byte>, unprocessed: nat, output: array<byte>, processed: nat)
    returns (ok: bool, lastRead: nat, lastWritten: nat)
    requires ReadUtf16(text, unprocessed).Escape? ==>
      processed + |Utf8Encode(ReadUtf16(text, unprocessed).cp)| <= output.Length
    modifies output
    ensures ok <==> ReadUtf16(text, unprocessed).Escape?
    ensures ok ==> lastRead + 1 == ReadUtf16(text, unprocessed).next
    ensures ok ==> lastWritten + 1 == processed + |Utf8Encode(ReadUtf16(text, unprocessed).cp)|
    ensures ok ==> output[..] == Splice(old(output[..]), processed, Utf8Encode(ReadUtf16(text, unprocessed).cp))
  {
    hide Utf8Encode, IsHex4, Hex4, Splice;
    var ptr := unprocessed + 1;
    if !IsHex4(text, ptr) {
      return false, unprocessed, processed;
    }
    var cp := Hex4(text, ptr);
    if 0xD800 <= cp <= 0xDBFF {
      var lead := cp;
      ptr := ptr + 4;
      if Char(text, ptr) != BACKSLASH || Char(text, ptr + 1) != 117 {
        return false, unprocessed, processed;
      }
      ptr := ptr + 2;
      if !IsHex4(text, ptr) {
        return false, unprocessed, processed;
      }
      var trail := Hex4(text, ptr);
      if trail < 0xDC00 || trail > 0xDFFF {
        return false, unprocessed, processed;
      }
      cp := (lead - 0xD800) * 0x400 + (trail - 0xDC00) + 0x10000;
    } else if 0xDC00 <= cp <= 0xDFFF {
      return false, unprocessed, processed;
    }
    lastWritten := PutUtf8(output, processed, cp);
    ok, lastRead := true, ptr + 3;
  }

  // What the decoder's loop does in one turn: the bytes it writes and where it reads on.
  datatype Unit = BadUnit | Unit(bytes: seq<byte>, next: nat)

  function UnitAt(text: seq<byte>, i: nat): Unit {
    if Char(text, i) == BACKSLASH then
      var e := ReadEscape(text, i + 1);
      if e.BadEscape? then BadUnit else Unit(Utf8Encode(e.cp), e.next)
    else if Char(text, i) < 0x20 then BadUnit
    else Unit([Char(text, i)], i + 1)
  }

  lemma UnitDecoded(text: seq<byte>, i: nat, end: nat)
    requires IsBody(text, i, end) && i < end
    ensures text[i] != 0
    ensures var u := UnitAt(text, i);
            && (u.BadUnit? ==> Unescaped(text, i, end) == Malformed)
            && (u.Unit? ==> Unescaped(text, i, end) == Prepend(u.bytes, Unescaped(text, u.next, end)))
            && (u.Unit? ==> IsBody(text, u.next, end) && i + |u.bytes| <= u.next)
  {
    hide ReadEscape, IsBody, Utf8Encode;
    BodyIsNotOver(text, i, end);
    if text[i] == BACKSLASH {
      if ReadEscape(text, i + 1).Escape? {
        BodyAfterEscape(text, i, end);
      }
    } else {
      BodyAfterByte(text, i, end);
    }
  }

  lemma BodyIsNotOver(text: seq<byte>, i: nat, end: nat)
    requires IsBody(text, i, end) && i < end
    ensures i < |text| && text[i] != 0
  {
  }

  method ProcessUnit(text: seq<byte>, i: nat, output: array<byte>, at: nat) returns (ok: bool, i': nat, at': nat)
    requires UnitAt(text, i).Unit? ==> at + |UnitAt(text, i).bytes| <= output.Length
    modifies output
    ensures ok <==> UnitAt(text, i).Unit?
    ensures ok ==> i' == UnitAt(text, i).next && at' == at + |UnitAt(text, i).bytes|
    ensures ok ==> output[..] == Splice(old(output[..]), at, UnitAt(text, i).bytes)
  {
    hide ReadUtf16;
    i', at' := i, at;
    var c := Char(text, i);
    if c == BACKSLASH {
      i' := i + 1;
      c := Char(text, i');
      if c == 117 {
        ok, i', at' := ParseUtf16(text, i', output, at);
        if !ok {
          return;
        }
        i', at' := i' + 1, at' + 1;
        return;
      }
      c := if c == 34 || c == 92 || c == 47 then c
           else if c == 98 then 8
           else if c == 102 then 12
           else if c == 110 then 10
           else if c == 114 then 13
           else if c == 116 then 9
           else 0;
      if c == 0 {
        return false, i, at;
      }
    } else if c < 0x20 {
      return false, i, at;
    }
    output[at] := c;
    ok, i', at' := true, i' + 1, at + 1;
  }

  // Decodes the body of a string into a buffer of its length plus one, which always has room.
  method ProcessString(text: seq<byte>, start: nat, len: nat) returns (r: Text)
    requires IsBody(text, start, start + len)
    ensures r == DecodedText(text, start, start + len)
  {
    hide Unescaped, IsBody, UnitAt, Splice;
    var output := new byte[len + 1](_ => 0);
    var inputPtr: nat, outputPtr: nat := start, 0;
    StartsEmpty(text, start, start + len, output[..]);
    while Char(text, inputPtr) != 0 && inputPtr - start < len
      invariant outputPtr <= inputPtr - start <= len
      invariant Progress(text, start, inputPtr, start + len, output[..], outputPtr)
      decreases start + len - inputPtr
    {
      UnitFits(text, start, inputPtr, start + len, output[..], outputPtr);
      var ok, i', at' := ProcessUnit(text, inputPtr, output, outputPtr);
      if !ok {
        return Malformed;
      }
      inputPtr, outputPtr := i', at';
    }
    Terminated(text, start, inputPtr, start + len, output[..], outputPtr);
    output[outputPtr] := 0;
    r := Text(UpToNul(output[..]));
  }

  ghost predicate Progress(text: seq<byte>, start: nat, i: nat, end: nat, output: seq<byte>, at: nat) {
    && IsBody(text, i, end) && start <= i && at <= i - start && |output| == end - start + 1
    && Unescaped(text, start, end) == Prepend(output[..at], Unescaped(text, i, end))
  }

  lemma StartsEmpty(text: seq<byte>, start: nat, end: nat, output: seq<byte>)
    requires IsBody(text, start, end) && |output| == end - start + 1
    ensures Progress(text, start, start, end, output, 0)
  {
    hide Unescaped, IsBody;
    var t := Unescaped(text, start, end);
    assert t.Text? ==> [] + t.bytes == t.bytes;
  }

  lemma UnitFits(text: seq<byte>, start: nat, i: nat, end: nat, output: seq<byte>, at: nat)
    requires Progress(text, start, i, end, output, at) && i < end
    ensures var u := UnitAt(text, i);
            && (u.BadUnit? ==> DecodedText(text, start, end) == Malformed)
            && (u.Unit? ==> at + |u.bytes| <= |output| && at + |u.bytes| <= u.next - start && i < u.next <= end)
            && (u.Unit? ==> Progress(text, start, u.next, end, Splice(output, at, u.bytes), at + |u.bytes|))
  {
    hide Unescaped, IsBody, UnitAt;
    UnitDecoded(text, i, end);
    var u := UnitAt(text, i);
    if u.Unit? {
      BodyBounds(text, u.next, end);
      UnitNotEmpty(text, i);
      assert Splice(output, at, u.bytes)[..at + |u.bytes|] == output[..at] + u.bytes;
      var rest := Unescaped(text, u.next, end);
      assert rest.Text? ==> output[..at] + (u.bytes + rest.bytes) == output[..at] + u.bytes + rest.bytes;
    }
  }

  lemma UnitNotEmpty(text: seq<byte>, i: nat)
    ensures UnitAt(text, i).Unit? ==> i < UnitAt(text, i).next && |UnitAt(text, i).bytes| > 0
  {
    hide Utf8Encode, ReadEscape;
  }

  lemma BodyBounds(text: seq<byte>, i: nat, end: nat)
    requires IsBody(text, i, end)
    ensures i <= end < |text|
  {
  }

  lemma Terminated(text: seq<byte>, start: nat, i: nat, end: nat, output: seq<byte>, at: nat)
    requires Progress(text, start, i, end, output, at) && (i == end || Char(text, i) == 0)
    ensures at < |output| && DecodedText(text, start, end) == Text(UpToNul(output[at := 0]))
  {
    hide IsBody;
    BodyBounds(text, i, end);
    assert output[..at] + [] == output[..at];
    CutAtTerminator(output, at);
  }

  lemma {:induction false} CutAtTerminator(output: seq<byte>, at: nat)
    requires at < |output|
    ensures UpToNul(output[at := 0]) == UpToNul(output[..at])
    decreases at
  {
    if at > 0 {
      CutAtTerminator(output[1..], at - 1);
      assert output[at := 0][1..] == output[1..][at - 1 := 0];
      assert output[..at][1..] == output[1..][..at - 1];
    }
  }

  // The contents of a quoted string, with the pointer moved behind it.
  method GetQuotedString(text: seq<byte>, start: nat) returns (r: Text, next: nat)
    requires start < |text|
    ensures QuotedText(r, next) == GetQuoted(text, start)
  {
    hide DecodedText, SkipBody;
    next := SkipQuotes(text, start);
    if Char(text, next) == 0 {
      return Malformed, next;
    }
    FoundBody(text, start + 1);
    r := ProcessString(text, start + 1, next - start - 2);
  }

  lemma {:induction false} FoundBody(text: seq<byte>, i: nat)
    requires i <= |text| && Char(text, SkipBody(text, i)) != 0
    ensures IsBody(text, i, SkipBody(text, i) - 1)
    decreases |text| - i
  {
    if Char(text, i) == BACKSLASH {
      FoundBody(text, i + 2);
    } else if Char(text, i) != QUOTE {
      FoundBody(text, i + 1);
    }
  }
}
