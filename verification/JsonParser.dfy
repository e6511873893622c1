/** The recursive-descent parser, as functions of the text and a position and as methods that
    move a pointer. */
module JsonParser {
  import opened Bytes
  import opened Utf8
  import opened JsonStrings
  import opened JsonValues

  const MAX_NESTING: nat := 19

  // Foreign stands for a number that strtod reads as something else than a 32-bit integer.
  datatype Result = Failed | Foreign | Parsed(value: Json, next: nat)

  predicate IsSpace(c: byte) {
    c == 32 || 9 <= c <= 13
  }

  function SkipSpaces(text: seq<byte>, i: nat): (next: nat)
    requires i <= |text|
    ensures i <= next <= |text| && !IsSpace(Char(text, next))
    ensures forall k | i <= k < next :: IsSpace(text[k])
    decreases |text| - i
  {
    if IsSpace(Char(text, i)) then SkipSpaces(text, i + 1) else i
  }

  // ----- Numbers -----

  predicate IsDigit(c: byte) {
    48 <= c <= 57
  }

  function DigitsEnd(text: seq<byte>, i: nat): (end: nat)
    requires i <= |text|
    ensures i <= end <= |text| && !IsDigit(Char(text, end))
    ensures forall k | i <= k < end :: IsDigit(text[k])
    decreases |text| - i
  {
    if IsDigit(Char(text, i)) then DigitsEnd(text, i + 1) else i
  }

  function DigitValue(c: byte): (d: nat)
    requires IsDigit(c)
    ensures d < 10
  {
    c - 48
  }

  // The number that decimal digits denote.
  function DigitsValue(digits: seq<byte>): nat
    requires forall k | 0 <= k < |digits| :: IsDigit(digits[k])
  {
    if |digits| == 0 then 0 else DigitsValue(digits[..|digits| - 1]) * 10 + DigitValue(digits[|digits| - 1])
  }

  // Characters that make strtod go on behind decimal digits: . E e X x
  predicate ContinuesNumber(c: byte) {
    c == 46 || c == 69 || c == 101 || c == 88 || c == 120
  }

  // Letters that may follow a minus sign in strtod: I N i n
  predicate StartsWord(c: byte) {
    c == 73 || c == 78 || c == 105 || c == 110
  }

  // A number starts at i with a minus sign or a digit. A minus sign alone reads as 0, with nothing consumed.
  function ParseNumber(text: seq<byte>, i: nat): (r: Result)
    requires i < |text|
    ensures r.Parsed? ==> i <= r.next <= |text|
  {
    var start := if text[i] == 45 then i + 1 else i;
    var end := DigitsEnd(text, start);
    var c := Char(text, end);
    if ContinuesNumber(c) || (end == start && StartsWord(c)) then Foreign
    else if end == start then Parsed(Number(0), i)
    else if text[start] == 48 && end - start > 1 then Failed
    else
      var n: int := DigitsValue(text[start..end]);
      var value := if text[i] == 45 then -n else n;
      if -0x8000_0000 <= value < 0x8000_0000 then Parsed(Number(value), end) else Foreign
  }

  // ----- Values -----

  predicate StartsWith(text: seq<byte>, i: nat, token: seq<byte>) {
    i + |token| <= |text| && text[i..i + |token|] == token
  }

  // true and false
  function ParseBoolean(text: seq<byte>, i: nat): (r: Result)
    ensures r.Parsed? ==> i <= r.next <= |text|
  {
    if StartsWith(text, i, [116, 114, 117, 101]) then Parsed(Boolean(true), i + 4)
    else if StartsWith(text, i, [102, 97, 108, 115, 101]) then Parsed(Boolean(false), i + 5)
    else Failed
  }

  function ParseNull(text: seq<byte>, i: nat): (r: Result)
    ensures r.Parsed? ==> i <= r.next <= |text|
  {
    if StartsWith(text, i, [110, 117, 108, 108]) then Parsed(Null, i + 4) else Failed
  }

  function ParseString(text: seq<byte>, i: nat): (r: Result)
    requires i < |text|
    ensures r.Parsed? ==> i <= r.next <= |text|
  {
    var q := GetQuoted(text, i);
    if q.text.Malformed? then Failed else Parsed(String(q.text.bytes), q.next)
  }

  function ParseValue(text: seq<byte>, i: nat, nesting: nat): (r: Result)
    requires i <= |text|
    ensures r.Parsed? ==> i <= r.next <= |text|
    decreases |text| - i, 1
  {
    var p := SkipSpaces(text, i);
    var c := Char(text, p);
    if nesting > MAX_NESTING then Failed
    else if c == 123 then ParseObject(text, p, nesting + 1)
    else if c == 91 then ParseArray(text, p, nesting + 1)
    else if c == QUOTE then ParseString(text, p)
    else if c == 102 || c == 116 then ParseBoolean(text, p)
    else if c == 45 || IsDigit(c) then ParseNumber(text, p)
    else if c == 110 then ParseNull(text, p)
    else Failed
  }

  function ParseArray(text: seq<byte>, i: nat, nesting: nat): (r: Result)
    requires i < |text|
    ensures r.Parsed? ==> i <= r.next <= |text|
    decreases |text| - i, 0
  {
    var q := SkipSpaces(text, i + 1);
    if Char(text, q) == 93 then Parsed(Array([]), q + 1) else ParseItems(text, q, nesting, [])
  }

  // Items from position i on, after those already taken.
  function ParseItems(text: seq<byte>, i: nat, nesting: nat, taken: seq<Json>): (r: Result)
    requires i <= |text|
    ensures r.Parsed? ==> i <= r.next <= |text|
    decreases |text| - i, 2
  {
    if Char(text, i) == 0 then Failed
    else
      var r := ParseValue(text, i, nesting);
      if !r.Parsed? then r
      else if |taken| >= ARRAY_MAX_CAPACITY then Failed
      else
        var t := SkipSpaces(text, r.next);
        if Char(text, t) == 44 then ParseItems(text, SkipSpaces(text, t + 1), nesting, taken + [r.value])
        else if Char(text, t) == 93 then Parsed(Array(taken + [r.value]), t + 1)
        else Failed
  }

  function ParseObject(text: seq<byte>, i: nat, nesting: nat): (r: Result)
    requires i < |text|
    ensures r.Parsed? ==> i <= r.next <= |text|
    decreases |text| - i, 0
  {
    var q := SkipSpaces(text, i + 1);
    if Char(text, q) == 125 then Parsed(Object([]), q + 1) else ParseMembers(text, q, nesting, [])
  }

  // Members from position i on, after those already taken.
  function ParseMembers(text: seq<byte>, i: nat, nesting: nat, taken: seq<Member>): (r: Result)
    requires i <= |text|
    ensures r.Parsed? ==> i <= r.next <= |text|
    decreases |text| - i, 2
  {
    if Char(text, i) == 0 then Failed
    else
      var key := GetQuoted(text, i);
      var s := SkipSpaces(text, key.next);
      if key.text.Malformed? || Char(text, s) != 58 then Failed
      else
        var r := ParseValue(text, s + 1, nesting);
        if !r.Parsed? then r
        else if |taken| >= OBJECT_MAX_CAPACITY || Has(taken, key.text.bytes) then Failed
        else
          var taken' := taken + [Member(key.text.bytes, r.value)];
          var t := SkipSpaces(text, r.next);
          if Char(text, t) == 44 then ParseMembers(text, SkipSpaces(text, t + 1), nesting, taken')
          else if Char(text, t) == 125 then Parsed(Object(taken'), t + 1)
          else Failed
  }

  // A document: an array or an object, and whatever follows it.
  function ParseDocument(text: seq<byte>): (r: Result) {
    var p := SkipSpaces(text, 0);
    if Char(text, p) != 123 && Char(text, p) != 91 then Failed else ParseValue(text, p, 0)
  }
}
