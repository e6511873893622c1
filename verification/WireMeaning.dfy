/** What the bytes of an encoded histogram mean, in plain numbers: how they are read does not enter. */
module WireMeaning {
  import opened Buckets
  import opened Bytes
  import opened Samples
  import opened Varint
  import opened WireFormat

  // ----- One number: groups of seven bits, lowest first, the ninth with eight -----

  ghost function SumOfGroups(bytes: seq<byte>, k: nat): nat {
    if |bytes| == 0 then 0
    else (if k < 8 then bytes[0] % 128 else bytes[0]) + 128 * SumOfGroups(bytes[1..], k + 1)
  }

  // Bytes from 128 on announce a further one, up to nine; k are missing at the front.
  ghost predicate AreGroups(bytes: seq<byte>, k: nat) {
    && 1 <= |bytes| <= 9 - k
    && (forall j | 0 <= j < |bytes| - 1 :: bytes[j] >= 128)
    && (|bytes| < 9 - k ==> bytes[|bytes| - 1] < 128)
  }

  lemma GroupAlone(b: byte, k: nat)
    requires k <= 8 && (k == 8 || b < 128)
    ensures AreGroups([b], k) && SumOfGroups([b], k) == b
  {
    GroupBefore(b, [], k);
    assert [b] + [] == [b];
  }

  lemma GroupBefore(b: byte, rest: seq<byte>, k: nat)
    ensures SumOfGroups([b] + rest, k) == (if k < 8 then b % 128 else b) + 128 * SumOfGroups(rest, k + 1)
    ensures SumOfGroups([], k + 1) == 0
    ensures k < 8 && b >= 128 && AreGroups(rest, k + 1) ==> AreGroups([b] + rest, k)
  {
    assert ([b] + rest)[1..] == rest;
  }

  lemma {:induction false} GroupsMean(u: nat, k: nat)
    requires k <= 8 && u < Room(k)
    ensures var r := Groups(u, k);
            AreGroups(r, k) && SumOfGroups(r, k) == u && (|r| > 1 ==> r[|r| - 1] > 0)
    ensures u > 0 ==> Groups(u, k)[|Groups(u, k)| - 1] > 0
    decreases 8 - k
  {
    hide Room, SumOfGroups, AreGroups;
    RoomStep(k);
    if k < 8 && u >= 128 {
      GroupsMean(u / 128, k + 1);
      GroupBefore(u % 128 + 128, Groups(u / 128, k + 1), k);
    } else {
      GroupAlone(u, k);
    }
  }

  lemma RoomStep(k: nat)
    requires k <= 8
    ensures if k < 8 then Room(k) == 128 * Room(k + 1) else Room(k) == 256
  {
  }

  // Main result: a number is written in the fewest groups that hold it, twice it if it is not negative, and
  // else one less than twice its absolute value.
  lemma EncodingMeans(v: int)
    requires IsInt64(v)
    ensures var r := Encoding(v);
            && AreGroups(r, 0) && (|r| > 1 ==> r[|r| - 1] > 0)
            && SumOfGroups(r, 0) == if v >= 0 then 2 * v else -2 * v - 1
  {
    hide Room, Groups, AreGroups, SumOfGroups;
    RoomOf64();
    GroupsMean(ZigZag(v), 0);
  }

  lemma {:induction false} GroupsRead(data: seq<byte>, at: nat, k: nat)
    requires k <= 8 && at + ReadGroups(data, at, k).bytesRead <= |data|
    ensures var r := ReadGroups(data, at, k);
            var bytes := data[at..at + r.bytesRead];
            AreGroups(bytes, k) && SumOfGroups(bytes, k) == r.value
    decreases 8 - k
  {
    hide Room, ReadGroups, SumOfGroups, AreGroups;
    var r := ReadGroups(data, at, k);
    GroupRead(data, at, k);
    if k < 8 && data[at] >= 128 {
      GroupsRead(data, at + 1, k + 1);
      GroupBefore(data[at], data[at + 1..at + r.bytesRead], k);
      assert data[at..at + r.bytesRead] == [data[at]] + data[at + 1..at + r.bytesRead];
    } else {
      GroupAlone(data[at], k);
      assert data[at..at + 1] == [data[at]];
    }
  }

  lemma GroupRead(data: seq<byte>, at: nat, k: nat)
    requires k <= 8 && at + ReadGroups(data, at, k).bytesRead <= |data|
    ensures at < |data|
    ensures var r := ReadGroups(data, at, k);
            if k < 8 && data[at] >= 128 then
              var rest := ReadGroups(data, at + 1, k + 1);
              r.value == data[at] % 128 + 128 * rest.value && r.bytesRead == 1 + rest.bytesRead
            else r == Reading(data[at], 1)
  {
    hide Room;
    SevenBits(data[at]);
  }

  // Main result: as many groups as belong together are read, and half their sum is the number, or minus
  // half of one more for an odd sum.
  lemma DecodingMeans(data: seq<byte>, at: nat)
    requires at + Decoding(data, at).bytesRead <= |data|
    ensures var r := Decoding(data, at);
            var bytes := data[at..at + r.bytesRead];
            var u := SumOfGroups(bytes, 0);
            AreGroups(bytes, 0) && r.value == if u % 2 == 0 then u / 2 else -((u + 1) / 2)
  {
    hide Room, ReadGroups, AreGroups, SumOfGroups;
    RoomOf64();
    GroupsRead(data, at, 0);
  }

  // ----- Numbers for counts: a run of zeros as minus its length -----

  ghost function Expanded(tokens: seq<int>): (counts: seq<int>) {
    if |tokens| == 0 then []
    else (if tokens[0] < 0 then WireFormat.Zeros(-tokens[0]) else [tokens[0]]) + Expanded(tokens[1..])
  }

  // Main result: the encoding of counts is that of their list in which every run of zeros is one number.
  lemma {:induction false} EncodedIsRunLength(counts: seq<int>) returns (tokens: seq<int>)
    requires IsCounts(counts)
    ensures AllInt64(tokens) && Encoded(counts) == StreamOf(tokens) && Expanded(tokens) == counts
    ensures forall k | 0 <= k < |tokens| :: tokens[k] != 0
    ensures forall k | 0 < k < |tokens| :: tokens[k - 1] < 0 ==> tokens[k] > 0
    ensures if |counts| > 0 then |tokens| > 0 && (tokens[0] < 0 <==> counts[0] == 0) else |tokens| == 0
    decreases |counts|
  {
    hide Encoding, Encoded, Token, Run, IsCounts, StreamOf, Expanded;
    if |counts| == 0 {
      tokens := [];
      NothingWritten();
    } else {
      var n := Run(counts);
      FirstRun(counts);
      var rest := EncodedIsRunLength(counts[n..]);
      tokens := [Token(counts)] + rest;
      assert counts[..n] + counts[n..] == counts;
      OneTokenMore(Token(counts), rest);
      forall k | 0 < k < |tokens|
        ensures tokens[k - 1] < 0 ==> tokens[k] > 0
      {
        assert tokens[k] == rest[k - 1] && (k > 1 ==> tokens[k - 1] == rest[k - 2]);
      }
      assert |rest| > 0 && tokens[0] < 0 ==> counts[n..][0] != 0;
    }
  }

  lemma NothingWritten()
    ensures IsCounts([]) && Encoded([]) == [] == StreamOf([]) && Expanded([]) == []
  {
  }

  lemma OneTokenMore(token: int, rest: seq<int>)
    requires IsInt64(token) && AllInt64(rest)
    ensures AllInt64([token] + rest) && StreamOf([token] + rest) == Encoding(token) + StreamOf(rest)
    ensures Expanded([token] + rest) == (if token < 0 then WireFormat.Zeros(-token) else [token]) + Expanded(rest)
  {
    hide Encoding;
    assert ([token] + rest)[1..] == rest;
  }

  // The first number of an encoding and the counts it stands for.
  lemma FirstRun(counts: seq<int>)
    requires IsCounts(counts) && |counts| > 0
    ensures var n, token := Run(counts), Token(counts);
            && token != 0 && (token < 0 <==> counts[0] == 0)
            && counts[..n] == (if token < 0 then WireFormat.Zeros(-token) else [token])
            && (token < 0 && n < |counts| ==> counts[n] != 0)
            && IsCounts(counts[n..]) && Encoded(counts) == Encoding(token) + Encoded(counts[n..])
            && (n < |counts| <==> |counts[n..]| > 0)
  {
    hide Encoding, Encoded, LeadingZeros;
    FrontWritten(counts);
  }

  lemma FrontWritten(counts: seq<int>)
    requires IsCounts(counts) && |counts| > 0
    ensures var n := Run(counts);
            IsCounts(counts[n..]) && Encoded(counts) == Encoding(Token(counts)) + Encoded(counts[n..])
  {
    hide Encoding, Token, Run;
  }

  lemma {:induction false} ExpandedOneMore(tokens: seq<int>, v: int)
    ensures Expanded(tokens + [v]) == Expanded(tokens) + (if v < 0 then WireFormat.Zeros(-v) else [v])
    decreases |tokens|
  {
    if |tokens| == 0 {
      assert tokens + [v] == [v] && [v][1..] == [];
    } else {
      assert (tokens + [v])[1..] == tokens[1..] + [v];
      ExpandedOneMore(tokens[1..], v);
    }
  }

  lemma {:induction false} StreamOneMore(data: seq<byte>, at: nat, n: nat)
    ensures var r := ReadStream(data, at, n);
            var v := Decoding(data, r.next);
            ReadStream(data, at, n + 1) == StreamReading(r.values + [v.value], r.next + v.bytesRead)
    decreases n
  {
    hide Decoding;
    if n > 0 {
      StreamOneMore(data, at + Decoding(data, at).bytesRead, n - 1);
    }
  }

  // The numbers read by the decoder up to some point: each was met before the end of the payload and with
  // a slot to fill, and all fit.
  ghost predicate AreTaken(data: seq<byte>, limit: nat, len: nat, values: seq<int>, at: nat) {
    && ReadStream(data, 0, |values|) == StreamReading(values, at)
    && |Expanded(values)| <= len
    && forall j | 0 <= j < |values| ::
         values[j] > -0x8000_0000 && ReadStream(data, 0, j).next < limit && |Expanded(values[..j])| < len
  }

  // The number at a position cannot be taken.
  ghost predicate IsBadRun(data: seq<byte>, at: nat, filled: nat, len: nat) {
    var v := Decoding(data, at).value;
    v < 0 && (v <= -0x8000_0000 || filled - v > len)
  }

  lemma {:induction false} TakenOneMore(data: seq<byte>, limit: nat, len: nat, values: seq<int>, at: nat)
    requires AreTaken(data, limit, len, values, at)
    requires at < limit && |Expanded(values)| < len && !IsBadRun(data, at, |Expanded(values)|, len)
    ensures var r := Decoding(data, at);
            AreTaken(data, limit, len, values + [r.value], at + r.bytesRead)
  {
    hide Decoding, Expanded, ReadStream;
    var v := Decoding(data, at).value;
    var values' := values + [v];
    StreamOneMore(data, 0, |values|);
    ExpandedOneMore(values, v);
    forall j | 0 <= j < |values'|
      ensures values'[j] > -0x8000_0000 && ReadStream(data, 0, j).next < limit && |Expanded(values'[..j])| < len
    {
      assert values'[..j] == values[..j];
      assert values[..|values|] == values;
    }
  }

  // What applying the payload yields from there on.
  ghost predicate IsOutcome(data: seq<byte>, limit: nat, len: nat, values: seq<int>, at: nat, r: Outcome) {
    && |Expanded(values)| <= len
    && r.counts == Expanded(values) + WireFormat.Zeros(len - |Expanded(values)|)
    && if at < limit && |Expanded(values)| < len then IsBadRun(data, at, |Expanded(values)|, len) && r.error == -29992
       else r.error == if at > limit then -29991 else if at < limit then -29990 else 0
  }

  // Main result on decoding: numbers are taken while there is payload and a slot to fill. A run that does not
  // fit, a number that crosses the end, and payload left over when all slots are filled are errors.
  lemma AppliedMeans(data: seq<byte>, limit: nat, len: nat) returns (values: seq<int>, at: nat)
    ensures AreTaken(data, limit, len, values, at)
    ensures IsOutcome(data, limit, len, values, at, Applied(data, limit, 0, WireFormat.Zeros(len), 0))
  {
    hide Decoding, Applied;
    NothingTaken(data, limit, len);
    values, at := TakenFrom(data, limit, len, [], 0);
  }

  lemma NothingTaken(data: seq<byte>, limit: nat, len: nat)
    ensures AreTaken(data, limit, len, [], 0)
    ensures Expanded([]) == [] && [] + WireFormat.Zeros(len) == WireFormat.Zeros(len)
  {
  }

  lemma {:induction false} TakenFrom(data: seq<byte>, limit: nat, len: nat, before: seq<int>, start: nat)
    returns (values: seq<int>, at: nat)
    requires AreTaken(data, limit, len, before, start)
    ensures AreTaken(data, limit, len, values, at)
    ensures var filled := Expanded(before);
            IsOutcome(data, limit, len, values, at,
                      Applied(data, limit, start, filled + WireFormat.Zeros(len - |filled|), |filled|))
    decreases limit - start
  {
    hide Decoding, Expanded, ReadStream;
    var filled := Expanded(before);
    var counts := filled + WireFormat.Zeros(len - |filled|);
    if start < limit && |filled| < len && !IsBadRun(data, start, |filled|, len) {
      var r := Decoding(data, start);
      TakenOneMore(data, limit, len, before, start);
      values, at := TakenFrom(data, limit, len, before + [r.value], start + r.bytesRead);
      ExpandedOneMore(before, r.value);
      var more := filled + (if r.value < 0 then WireFormat.Zeros(-r.value) else [r.value]);
      assert more + WireFormat.Zeros(len - |more|) == if r.value < 0 then counts else counts[|filled| := r.value];
    } else {
      values, at := before, start;
    }
  }
}
