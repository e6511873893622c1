/** JSON strings: how the serializer escapes one, how the parser finds its end and decodes it. */
module JsonStrings {
  import opened Bytes
  import opened Utf8

  const QUOTE: byte := 34
  const BACKSLASH: byte := 92

  // ----- Writing -----

  function EscapedByte(c: byte): (r: seq<byte>)
    ensures 1 <= |r| <= 2
  {
    if c == 34 || c == 92 || c == 47 then [BACKSLASH, c]
    else if c == 8 then [BACKSLASH, 98]
    else if c == 12 then [BACKSLASH, 102]
    else if c == 10 then [BACKSLASH, 110]
    else if c == 13 then [BACKSLASH, 114]
    else if c == 9 then [BACKSLASH, 116]
    else [c]
  }

  function EscapedText(t: seq<byte>): seq<byte> {
    if |t| == 0 then [] else EscapedByte(t[0]) + EscapedText(t[1..])
  }

  function Quoted(t: seq<byte>): (r: seq<byte>)
    ensures |r| >= 2
  {
    [QUOTE] + EscapedText(t) + [QUOTE]
  }

  // What a C string can hold.
  predicate NoNul(t: seq<byte>) {
    forall i | 0 <= i < |t| :: t[i] != 0
  }

  // Control characters the serializer writes as they are, although the parser refuses them.
  predicate IsRawControl(c: byte) {
    c < 0x20 && !(8 <= c <= 10 || 12 <= c <= 13)
  }

  predicate NoRawControl(t: seq<byte>) {
    forall i | 0 <= i < |t| :: !IsRawControl(t[i])
  }

  // ----- Finding the end -----

  // Where the scan for the closing quote stops: behind it, or on the terminator.
  function SkipBody(text: seq<byte>, i: nat): (next: nat)
    requires i <= |text|
    ensures i <= next <= |text| && (Char(text, i) != 0 ==> i < next)
    decreases |text| - i
  {
    if Char(text, i) == QUOTE then i + 1
    else if Char(text, i) == 0 then i
    else if Char(text, i) == BACKSLASH then
      if Char(text, i + 1) == 0 then i + 1 else SkipBody(text, i + 2)
    else SkipBody(text, i + 1)
  }

  // ----- Reading -----

  datatype Text = Malformed | Text(bytes: seq<byte>)

  datatype Escape = BadEscape | Escape(cp: nat, next: nat)

  predicate IsHex(c: byte) {
    48 <= c <= 57 || 65 <= c <= 70 || 97 <= c <= 102
  }

  function HexValue(c: byte): (v: nat)
    requires IsHex(c)
    ensures v < 16
  {
    if c <= 57 then c - 48 else if c <= 70 then c - 55 else c - 87
  }

  predicate IsHex4(text: seq<byte>, i: nat) {
    IsHex(Char(text, i)) && IsHex(Char(text, i + 1)) && IsHex(Char(text, i + 2)) && IsHex(Char(text, i + 3))
  }

  function Hex4(text: seq<byte>, i: nat): (v: nat)
    requires IsHex4(text, i)
    ensures v < 0x10000
  {
    HexValue(Char(text, i)) * 0x1000 + HexValue(Char(text, i + 1)) * 0x100
      + HexValue(Char(text, i + 2)) * 0x10 + HexValue(Char(text, i + 3))
  }

  // The escape whose letter u stands at i.
  function ReadUtf16(text: seq<byte>, i: nat): (e: Escape)
    ensures e.Escape? ==> IsScalar(e.cp) && i + |Utf8Encode(e.cp)| < e.next <= |text|
  {
    if !IsHex4(text, i + 1) then BadEscape
    else
      var cp := Hex4(text, i + 1);
      if cp < 0xD800 || cp > 0xDFFF then Escape(cp, i + 5)
      else if cp > 0xDBFF then BadEscape
      else if Char(text, i + 5) != BACKSLASH || Char(text, i + 6) != 117 || !IsHex4(text, i + 7) then BadEscape
      else
        var trail := Hex4(text, i + 7);
        if trail < 0xDC00 || trail > 0xDFFF then BadEscape
        else Escape((cp - 0xD800) * 0x400 + (trail - 0xDC00) + 0x10000, i + 11)
  }

  // The escape whose letter stands at i: the code point it denotes, and where it ends.
  function ReadEscape(text: seq<byte>, i: nat): (e: Escape)
    ensures e.Escape? ==> IsScalar(e.cp) && i + |Utf8Encode(e.cp)| <= e.next <= |text|
  {
    var c := Char(text, i);
    if c == 34 || c == 92 || c == 47 then Escape(c, i + 1)
    else if c == 98 then Escape(8, i + 1)
    else if c == 102 then Escape(12, i + 1)
    else if c == 110 then Escape(10, i + 1)
    else if c == 114 then Escape(13, i + 1)
    else if c == 116 then Escape(9, i + 1)
    else if c == 117 then ReadUtf16(text, i)
    else BadEscape
  }

  function Prepend(bytes: seq<byte>, t: Text): Text {
    if t.Malformed? then Malformed else Text(bytes + t.bytes)
  }

  // The bytes from i up to end, decoded.
  function Unescaped(text: seq<byte>, i: nat, end: nat): Text
    decreases |text| - i
  {
    if i >= end || Char(text, i) == 0 then Text([])
    else if Char(text, i) == BACKSLASH then
      var e := ReadEscape(text, i + 1);
      if e.BadEscape? then Malformed else Prepend(Utf8Encode(e.cp), Unescaped(text, e.next, end))
    else if Char(text, i) < 0x20 then Malformed
    else Prepend([Char(text, i)], Unescaped(text, i + 1, end))
  }

  // A C string ends at its first zero byte, which an escape can put anywhere.
  function UpToNul(t: seq<byte>): (r: seq<byte>)
    ensures NoNul(r) && |r| <= |t|
  {
    if |t| == 0 || t[0] == 0 then [] else [t[0]] + UpToNul(t[1..])
  }

  // It is all that stands before the first zero.
  lemma {:induction false} UpToNulIs(t: seq<byte>)
    ensures var n := |UpToNul(t)|;
            && UpToNul(t) == t[..n]
            && (forall k | 0 <= k < n :: t[k] != 0)
            && (n < |t| ==> t[n] == 0)
  {
    if |t| > 0 && t[0] != 0 {
      var n := |UpToNul(t[1..])|;
      UpToNulIs(t[1..]);
      assert t[..n + 1] == [t[0]] + t[1..][..n];
      forall k | 0 <= k < n + 1
        ensures t[k] != 0
      {
        assert k > 0 ==> t[k] == t[1..][k - 1];
      }
    }
  }

  function DecodedText(text: seq<byte>, i: nat, end: nat): (t: Text)
    ensures t.Text? ==> NoNul(t.bytes)
  {
    var t := Unescaped(text, i, end);
    if t.Malformed? then Malformed else Text(UpToNul(t.bytes))
  }

  datatype QuotedText = QuotedText(text: Text, next: nat)

  // What stands between the quote at i, whose presence is not checked, and the matching one.
  // A closing quote at the very end of the text counts as missing.
  function GetQuoted(text: seq<byte>, i: nat): (q: QuotedText)
    requires i < |text|
    ensures i < q.next <= |text| && (q.text.Text? ==> NoNul(q.text.bytes))
  {
    var next := SkipBody(text, i + 1);
    if Char(text, next) == 0 then QuotedText(Malformed, next)
    else QuotedText(DecodedText(text, i + 1, next - 1), next)
  }

  // ----- Reading back what was written -----

  lemma FoundChar(text: seq<byte>, i: nat, bytes: seq<byte>, k: nat)
    requires FoundAt(text, i, bytes) && k < |bytes|
    ensures Char(text, i + k) == bytes[k]
  {
    assert text[i..i + |bytes|][k] == text[i + k];
  }

  lemma EscapedByteSkipped(text: seq<byte>, i: nat, c: byte)
    requires c != 0 && FoundAt(text, i, EscapedByte(c))
    ensures SkipBody(text, i) == SkipBody(text, i + |EscapedByte(c)|)
  {
    hide Utf8Encode;
    FoundChar(text, i, EscapedByte(c), 0);
    FoundChar(text, i, EscapedByte(c), |EscapedByte(c)| - 1);
  }

  lemma EscapedByteDecoded(text: seq<byte>, i: nat, c: byte, end: nat)
    requires c != 0 && FoundAt(text, i, EscapedByte(c)) && i + |EscapedByte(c)| <= end
    ensures IsRawControl(c) ==> Unescaped(text, i, end) == Malformed
    ensures !IsRawControl(c) ==> Unescaped(text, i, end) == Prepend([c], Unescaped(text, i + |EscapedByte(c)|, end))
  {
    hide SkipBody, ReadUtf16;
    FoundChar(text, i, EscapedByte(c), 0);
    FoundChar(text, i, EscapedByte(c), |EscapedByte(c)| - 1);
  }

  lemma EscapedSplit(t: seq<byte>)
    requires |t| > 0
    ensures EscapedText(t) == EscapedByte(t[0]) + EscapedText(t[1..])
  {
  }

  lemma {:induction false} EscapedSkipped(text: seq<byte>, i: nat, t: seq<byte>)
    requires NoNul(t) && FoundAt(text, i, EscapedText(t) + [QUOTE])
    ensures SkipBody(text, i) == i + |EscapedText(t)| + 1
    decreases |t|
  {
    hide EscapedByte, FoundAt;
    if |t| == 0 {
      QuoteSkipped(text, i, t);
    } else {
      EscapedSplit(t);
      assert EscapedText(t) + [QUOTE] == EscapedByte(t[0]) + (EscapedText(t[1..]) + [QUOTE]);
      FoundSplit(text, i, EscapedByte(t[0]), EscapedText(t[1..]) + [QUOTE]);
      EscapedByteSkipped(text, i, t[0]);
      EscapedSkipped(text, i + |EscapedByte(t[0])|, t[1..]);
    }
  }

  lemma QuoteSkipped(text: seq<byte>, i: nat, t: seq<byte>)
    requires |t| == 0 && FoundAt(text, i, EscapedText(t) + [QUOTE])
    ensures EscapedText(t) == [] && SkipBody(text, i) == i + 1
  {
    assert text[i..i + 1][0] == QUOTE;
  }

  lemma {:induction false} EscapedDecoded(text: seq<byte>, i: nat, t: seq<byte>, end: nat)
    requires NoNul(t) && FoundAt(text, i, EscapedText(t)) && end == i + |EscapedText(t)|
    ensures Unescaped(text, i, end) == if NoRawControl(t) then Text(t) else Malformed
    decreases |t|
  {
    hide EscapedByte, FoundAt, IsRawControl, ReadEscape, Char;
    if |t| > 0 {
      EscapedSplit(t);
      FoundSplit(text, i, EscapedByte(t[0]), EscapedText(t[1..]));
      EscapedByteDecoded(text, i, t[0], end);
      EscapedDecoded(text, i + |EscapedByte(t[0])|, t[1..], end);
      assert [t[0]] + t[1..] == t;
      assert NoRawControl(t) <==> !IsRawControl(t[0]) && NoRawControl(t[1..]);
    }
  }

  lemma {:induction false} NoNulKept(t: seq<byte>)
    requires NoNul(t)
    ensures UpToNul(t) == t
  {
    if |t| > 0 {
      NoNulKept(t[1..]);
    }
  }

  // Main result: a quoted string reads back as itself, unless it holds a control character
  // that has no short escape.
  lemma QuotedReadBack(text: seq<byte>, i: nat, t: seq<byte>)
    requires NoNul(t) && FoundAt(text, i, Quoted(t)) && Char(text, i + |Quoted(t)|) != 0
    ensures GetQuoted(text, i) == QuotedText(if NoRawControl(t) then Text(t) else Malformed, i + |Quoted(t)|)
  {
    hide EscapedText, SkipBody, Unescaped;
    assert Quoted(t) == [QUOTE] + (EscapedText(t) + [QUOTE]);
    FoundSplit(text, i, [QUOTE], EscapedText(t) + [QUOTE]);
    EscapedSkipped(text, i + 1, t);
    FoundSplit(text, i + 1, EscapedText(t), [QUOTE]);
    EscapedDecoded(text, i + 1, t, i + 1 + |EscapedText(t)|);
    NoNulKept(t);
  }
}
