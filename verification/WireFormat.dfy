/** The payload of an encoded histogram: its counts with runs of zeros collapsed, each
    number in zig-zag LEB128. Encoding, decoding, and what survives the round trip. */
module WireFormat {
  import opened Buckets
  import opened Bytes
  import opened Samples
  import opened Varint

  const HDR_TRAILING_ZEROS_INVALID: int := -29992
  const HDR_VALUE_TRUNCATED: int := -29991
  const HDR_ENCODED_INPUT_TOO_LONG: int := -29990
  const INT32_MIN: int := -0x8000_0000

  // ----- Encoding -----

  // Counts as the array of a histogram can hold them, and those that a histogram describes.
  predicate AreInt64(counts: seq<int>) {
    |counts| < 0x8000_0000 && forall i | 0 <= i < |counts| :: IsInt64(counts[i])
  }

  predicate IsCounts(counts: seq<int>): (r: bool)
    ensures r ==> AreInt64(counts)
  {
    AreInt64(counts) && forall i | 0 <= i < |counts| :: counts[i] >= 0
  }

  function LeadingZeros(counts: seq<int>): (n: nat)
    ensures n <= |counts|
    ensures forall i | 0 <= i < n :: counts[i] == 0
    ensures n < |counts| ==> counts[n] != 0
  {
    if |counts| == 0 || counts[0] != 0 then 0 else 1 + LeadingZeros(counts[1..])
  }

  // The next number to be written: a count, or minus the length of the run of zeros that starts here.
  function Token(counts: seq<int>): (token: int)
    requires AreInt64(counts) && |counts| > 0
    ensures IsInt64(token) && (counts[0] >= 0 ==> INT32_MIN < token)
  {
    if counts[0] == 0 then -(LeadingZeros(counts) as int) else counts[0]
  }

  // How many counts that number stands for.
  function Run(counts: seq<int>): (n: nat)
    requires |counts| > 0
    ensures 1 <= n <= |counts|
  {
    if counts[0] == 0 then LeadingZeros(counts) else 1
  }

  function Encoded(counts: seq<int>): (r: seq<byte>)
    requires AreInt64(counts)
    decreases |counts|
  {
    if |counts| == 0 then [] else Encoding(Token(counts)) + Encoded(counts[Run(counts)..])
  }

  // Nine bytes a slot are enough.
  lemma {:induction false} EncodedFits(counts: seq<int>)
    requires AreInt64(counts)
    ensures |Encoded(counts)| <= 9 * |counts|
    decreases |counts|
  {
    if |counts| > 0 {
      EncodedFits(counts[Run(counts)..]);
    }
  }

  function Zeros(n: nat): (r: seq<int>)
    ensures |r| == n && forall i | 0 <= i < n :: r[i] == 0
  {
    seq(n, _ => 0)
  }

  // ----- Decoding -----

  // An error code, 0 for none, and the counts.
  datatype Outcome = Outcome(error: int, counts: seq<int>)

  // Applying the payload from a position on to the counts from an index on.
  function Applied(data: seq<byte>, limit: nat, at: nat, counts: seq<int>, index: nat): (r: Outcome)
    requires index <= |counts|
    ensures |r.counts| == |counts|
    decreases limit - at
  {
    if at < limit && index < |counts| then
      var Reading(value, bytesRead) := Decoding(data, at);
      if value < 0 then
        var zeros := -value;
        if value <= INT32_MIN || index + zeros > |counts| then Outcome(HDR_TRAILING_ZEROS_INVALID, counts)
        else Applied(data, limit, at + bytesRead, counts, index + zeros)
      else
        Applied(data, limit, at + bytesRead, counts[index := value], index + 1)
    else if at > limit then Outcome(HDR_VALUE_TRUNCATED, counts)
    else if at < limit then Outcome(HDR_ENCODED_INPUT_TOO_LONG, counts)
    else Outcome(0, counts)
  }

  // Counts of which only the first ones have been filled in.
  ghost function Padded(filled: seq<int>, len: nat): (r: seq<int>)
    requires |filled| <= len
    ensures |r| == len
  {
    filled + Zeros(len - |filled|)
  }

  // Applying the payload from a position on, with some counts filled in so far.
  ghost function Resumed(data: seq<byte>, limit: nat, at: nat, filled: seq<int>, len: nat): Outcome
    requires |filled| <= len
  {
    Applied(data, limit, at, Padded(filled, len), |filled|)
  }

  lemma AppliedStep(data: seq<byte>, limit: nat, at: nat, counts: seq<int>, index: nat)
    requires at < limit && index < |counts|
    ensures var Reading(value, bytesRead) := Decoding(data, at);
            && (INT32_MIN < value < 0 && index - value <= |counts| ==>
                  Applied(data, limit, at, counts, index)
                  == Applied(data, limit, at + bytesRead, counts, index - value))
            && (value >= 0 ==>
                  Applied(data, limit, at, counts, index)
                  == Applied(data, limit, at + bytesRead, counts[index := value], index + 1))
  {
    hide Decoding;
  }

  // What the next number does to the counts filled in so far.
  lemma TokenFills(counts: seq<int>, filled: seq<int>, len: nat)
    requires IsCounts(counts) && |counts| > 0 && |filled| + Run(counts) <= len
    ensures var filled' := filled + counts[..Run(counts)];
            && (Token(counts) < 0 ==> Run(counts) == -Token(counts) && Padded(filled', len) == Padded(filled, len))
            && (Token(counts) >= 0 ==>
                  Run(counts) == 1 && Padded(filled', len) == Padded(filled, len)[|filled| := Token(counts)])
  {
  }

  lemma TokenApplied(counts: seq<int>, data: seq<byte>, limit: nat, at: nat, filled: seq<int>, len: nat)
    requires IsCounts(counts) && |counts| > 0 && |filled| + Run(counts) <= len
    requires at + |Encoding(Token(counts))| <= limit
    requires FoundAt(data, at, Encoding(Token(counts)))
    ensures Resumed(data, limit, at, filled, len)
         == Resumed(data, limit, at + |Encoding(Token(counts))|, filled + counts[..Run(counts)], len)
  {
    hide Encoding, Decoding, Padded, Applied, Token, Run, LeadingZeros, Zeros, IsCounts, ReadGroups, Groups, Room;
    TokenFills(counts, filled, len);
    EncodingReadBack(Token(counts), data, at);
    AppliedStep(data, limit, at, Padded(filled, len), |filled|);
  }

  // Encoded counts met in the payload are taken over one by one, and reading goes on right behind them.
  lemma {:induction false} EncodedApplied(counts: seq<int>, data: seq<byte>, limit: nat, at: nat, filled: seq<int>,
        len: nat)
    requires IsCounts(counts) && |filled| + |counts| <= len
    requires at + |Encoded(counts)| <= limit
    requires FoundAt(data, at, Encoded(counts))
    ensures Resumed(data, limit, at, filled, len)
         == Resumed(data, limit, at + |Encoded(counts)|, filled + counts, len)
    decreases |counts|
  {
    hide Encoding, FoundAt, Resumed, Encoded, Token, Run, IsCounts;
    if |counts| == 0 {
      NothingEncoded(counts);
      assert filled + counts == filled;
    } else {
      var n := Run(counts);
      EncodedSplit(counts, data, at);
      TokenApplied(counts, data, limit, at, filled, len);
      EncodedApplied(counts[n..], data, limit, at + |Encoding(Token(counts))|, filled + counts[..n], len);
      assert filled + counts[..n] + counts[n..] == filled + counts;
    }
  }

  lemma NothingEncoded(counts: seq<int>)
    requires AreInt64(counts) && |counts| == 0
    ensures Encoded(counts) == []
  {
  }

  lemma EncodedSplit(counts: seq<int>, data: seq<byte>, at: nat)
    requires IsCounts(counts) && |counts| > 0
    requires FoundAt(data, at, Encoded(counts))
    ensures var first, rest := Encoding(Token(counts)), counts[Run(counts)..];
            && FoundAt(data, at, first) && FoundAt(data, at + |first|, Encoded(rest))
            && |Encoded(counts)| == |first| + |Encoded(rest)| && IsCounts(rest)
  {
    hide Encoding, FoundAt, Token, Run;
    FoundSplit(data, at, Encoding(Token(counts)), Encoded(counts[Run(counts)..]));
  }

  lemma {:induction false} AppliedNonNegative(data: seq<byte>, limit: nat, at: nat, counts: seq<int>, index: nat)
    requires index <= |counts| && AllNonNegative(counts)
    ensures AllNonNegative(Applied(data, limit, at, counts, index).counts)
    decreases limit - at
  {
    hide Decoding;
    if at < limit && index < |counts| {
      var Reading(value, bytesRead) := Decoding(data, at);
      if value >= 0 {
        AppliedNonNegative(data, limit, at + bytesRead, counts[index := value], index + 1);
      } else if value > INT32_MIN && index - value <= |counts| {
        AppliedNonNegative(data, limit, at + bytesRead, counts, index - value);
      }
    }
  }

  // Main result on the counts: decoding encoded counts into a fresh array gives them back, followed by
  // zeros, exactly unless some are negative, which are taken for runs of zeros.
  lemma CountsReadBack(counts: seq<int>, len: nat, data: seq<byte>, limit: nat)
    requires AreInt64(counts) && |counts| <= len
    requires limit == |Encoded(counts)| <= |data| && data[..limit] == Encoded(counts)
    ensures Applied(data, limit, 0, Zeros(len), 0) == Outcome(0, counts + Zeros(len - |counts|)) <==> IsCounts(counts)
  {
    hide Encoded, Applied;
    if IsCounts(counts) {
      NonNegativeReadBack(counts, len, data, limit);
    } else {
      AppliedNonNegative(data, limit, 0, Zeros(len), 0);
      var i :| 0 <= i < |counts| && counts[i] < 0;
      assert (counts + Zeros(len - |counts|))[i] < 0;
    }
  }

  lemma NonNegativeReadBack(counts: seq<int>, len: nat, data: seq<byte>, limit: nat)
    requires IsCounts(counts) && |counts| <= len
    requires limit == |Encoded(counts)| <= |data| && data[..limit] == Encoded(counts)
    ensures Applied(data, limit, 0, Zeros(len), 0) == Outcome(0, counts + Zeros(len - |counts|))
  {
    hide Encoded, Zeros, Applied, IsCounts;
    assert Padded([], len) == Zeros(len);
    assert data[0..limit] == data[..limit] && [] + counts == counts;
    EncodedApplied(counts, data, limit, 0, [], len);
    PayloadConsumed(data, limit, Padded(counts, len), |counts|);
  }

  lemma PayloadConsumed(data: seq<byte>, limit: nat, counts: seq<int>, index: nat)
    requires index <= |counts|
    ensures Applied(data, limit, limit, counts, index) == Outcome(0, counts)
  {
  }

  // ----- The loops -----

  // Applies the payload to the counts of a histogram being decoded.
  method ApplyToCounts(counts: array<int>, data: array<byte>, dataLimit: nat) returns (error: int)
    requires dataLimit + 9 <= data.Length
    modifies counts
    ensures Outcome(error, counts[..]) == Applied(data[..], dataLimit, 0, old(counts[..]), 0)
  {
    hide Decoding;
    var dataIndex, countsIndex := 0, 0;
    while dataIndex < dataLimit && countsIndex < counts.Length
      invariant countsIndex <= counts.Length
      invariant Applied(data[..], dataLimit, dataIndex, counts[..], countsIndex)
             == Applied(data[..], dataLimit, 0, old(counts[..]), 0)
      decreases dataLimit - dataIndex
    {
      var value, bytesRead := ZigZagDecode(data, dataIndex);
      dataIndex := dataIndex + bytesRead;
      if value < 0 {
        var zeros := -value;
        if value <= INT32_MIN || countsIndex + zeros > counts.Length {
          return HDR_TRAILING_ZEROS_INVALID;
        }
        countsIndex := countsIndex + zeros;
      } else {
        ghost var before := counts[..];
        counts[countsIndex] := value;
        assert counts[..] == before[countsIndex := value];
        countsIndex := countsIndex + 1;
      }
    }
    if dataIndex > dataLimit {
      return HDR_VALUE_TRUNCATED;
    } else if dataIndex < dataLimit {
      return HDR_ENCODED_INPUT_TOO_LONG;
    }
    error := 0;
  }

  // The next number to be written and the index behind the counts it stands for.
  method CollapseZeros(counts: array<int>, limit: nat, start: nat) returns (token: int, next: nat)
    requires start < limit <= counts.Length && AreInt64(counts[..limit])
    ensures token == Token(counts[..limit][start..]) && next == start + Run(counts[..limit][start..]) <= limit
  {
    ghost var rest := counts[..limit][start..];
    assert rest[0] == counts[start];
    var value := counts[start];
    next := start + 1;
    token := value;
    if value == 0 {
      var zeros := 1;
      while next < limit && counts[next] == 0
        invariant start < next <= limit && zeros == next - start
        invariant forall k | 0 <= k < zeros :: rest[k] == 0
      {
        zeros := zeros + 1;
        next := next + 1;
      }
      assert next < limit ==> rest[zeros] == counts[next];
      token := -zeros;
    }
  }

  // What has been written so far and the encoding of the counts still to come make up all of it.
  ghost predicate Underway(cs: seq<int>, i: nat, written: seq<byte>, before: seq<byte>, buffer: seq<byte>) {
    && AreInt64(cs) && i <= |cs| && |Encoded(cs)| <= |before|
    && Encoded(cs) == written + Encoded(cs[i..])
    && buffer == Splice(before, 0, written)
  }

  lemma Starting(cs: seq<int>, before: seq<byte>)
    requires AreInt64(cs) && |Encoded(cs)| <= |before|
    ensures Underway(cs, 0, [], before, before)
  {
    SpliceNothing(before, 0);
    assert cs[0..] == cs && [] + Encoded(cs) == Encoded(cs);
  }

  lemma NextToken(cs: seq<int>, i: nat, written: seq<byte>, before: seq<byte>, buffer: seq<byte>)
    requires Underway(cs, i, written, before, buffer) && i < |cs|
    ensures var token, n := Token(cs[i..]), Run(cs[i..]);
            && |buffer| == |before| && |written| + |Encoding(token)| <= |before|
            && Underway(cs, i + n, written + Encoding(token), before, Splice(buffer, |written|, Encoding(token)))
  {
    var rest := cs[i..];
    var token, n := Token(rest), Run(rest);
    assert rest[n..] == cs[i + n..];
    assert Encoded(rest) == Encoding(token) + Encoded(rest[n..]);
    hide Encoded, Encoding, Token, Run;
    assert written + (Encoding(token) + Encoded(rest[n..])) == written + Encoding(token) + Encoded(rest[n..]);
    SpliceMore(before, 0, written, Encoding(token));
    hide Splice;
  }

  lemma Finishing(cs: seq<int>, written: seq<byte>, before: seq<byte>, buffer: seq<byte>)
    requires Underway(cs, |cs|, written, before, buffer)
    ensures written == Encoded(cs) && |written| <= |buffer| && buffer[..|written|] == Encoded(cs)
  {
    assert cs[|cs|..] == [] && written + [] == written;
    SpliceRead(before, 0, written);
    assert buffer[0..|written|] == buffer[..|written|];
  }

  // Writes the first limit counts.
  method EncodeCounts(counts: array<int>, limit: nat, buffer: array<byte>) returns (payloadLen: nat)
    requires limit <= counts.Length && AreInt64(counts[..limit])
    requires 9 * limit <= buffer.Length
    modifies buffer
    ensures payloadLen == |Encoded(counts[..limit])| <= buffer.Length
    ensures buffer[..payloadLen] == Encoded(counts[..limit])
  {
    hide Encoded, Splice, Encoding, Token, Run, Underway;
    ghost var cs, before := counts[..limit], buffer[..];
    EncodedFits(cs);
    Starting(cs, before);
    var dataIndex, i := 0, 0;
    ghost var written: seq<byte> := [];
    while i < limit
      invariant i <= limit && dataIndex == |written|
      invariant Underway(cs, i, written, before, buffer[..])
      decreases limit - i
    {
      var token, next := CollapseZeros(counts, limit, i);
      NextToken(cs, i, written, before, buffer[..]);
      var bytesWritten := ZigZagEncode(buffer, dataIndex, token);
      dataIndex := dataIndex + bytesWritten;
      written := written + Encoding(token);
      i := next;
    }
    payloadLen := dataIndex;
    Finishing(cs, written, before, buffer[..]);
  }
}
