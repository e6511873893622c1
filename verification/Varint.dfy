/** Zig-zag LEB128 coding of signed 64-bit values in at most nine bytes. The shifts and masks
    of the source are written as divisions and remainders on the 64-bit pattern read as an
    unsigned number. */
module Varint {
  import opened Bytes

  const TWO_TO_64: int := 0x1_0000_0000_0000_0000

  predicate IsInt64(v: int) {
    -0x8000_0000_0000_0000 <= v < 0x8000_0000_0000_0000
  }

  // (v << 1) ^ (v >> 63)
  function ZigZag(v: int): (u: nat)
    requires IsInt64(v)
    ensures u < TWO_TO_64
  {
    if v >= 0 then 2 * v else -2 * v - 1
  }

  // (u >> 1) ^ -(u & 1)
  function UnZigZag(u: nat): (v: int)
    requires u < TWO_TO_64
    ensures IsInt64(v)
  {
    if u % 2 == 0 then u / 2 else -(u / 2) - 1
  }

  lemma ZigZagInverts(v: int, u: nat)
    requires IsInt64(v) && u < TWO_TO_64
    ensures UnZigZag(ZigZag(v)) == v && ZigZag(UnZigZag(u)) == u
  {
  }

  // ----- The groups of seven bits, as a specification -----

  // What is still to be written after k groups is below this.
  function Room(k: nat): (r: nat)
    requires k <= 8
    ensures r >= 256
    decreases 8 - k
  {
    if k == 8 then 256 else 128 * Room(k + 1)
  }

  // The groups of u from group k on, lowest first; all but the last carry the top bit.
  function Groups(u: nat, k: nat): (r: seq<byte>)
    requires k <= 8 && u < Room(k)
    ensures 1 <= |r| <= 9 - k
    decreases 8 - k
  {
    if k == 8 then [u]
    else if u < 128 then [u]
    else [u % 128 + 128] + Groups(u / 128, k + 1)
  }

  function Encoding(v: int): (r: seq<byte>)
    requires IsInt64(v)
    ensures 1 <= |r| <= 9
  {
    RoomOf64();
    Groups(ZigZag(v), 0)
  }

  lemma RoomOf64()
    ensures Room(0) == TWO_TO_64
  {
    assert Room(7) == 128 * 256;
    assert Room(5) == 128 * 128 * Room(7);
    assert Room(3) == 128 * 128 * Room(5);
    assert Room(1) == 128 * 128 * Room(3);
  }

  // What was read, and how many bytes that took.
  datatype Reading = Reading(value: int, bytesRead: nat)

  // The byte at a position. Reading is only ever asked to stop inside the data, so what it would
  // find behind the data does not matter.
  function ByteAt(data: seq<byte>, at: nat): byte {
    if at < |data| then data[at] else 0
  }

  // Reading groups back from a position.
  function ReadGroups(data: seq<byte>, at: nat, k: nat): (r: Reading)
    requires k <= 8
    ensures 0 <= r.value < Room(k) && 1 <= r.bytesRead <= 9 - k
    decreases 8 - k
  {
    var b := ByteAt(data, at);
    if k == 8 then Reading(b, 1)
    else if b < 128 then Reading(b, 1)
    else
      var rest := ReadGroups(data, at + 1, k + 1);
      Reading(b - 128 + 128 * rest.value, 1 + rest.bytesRead)
  }

  function Decoding(data: seq<byte>, at: nat): (r: Reading)
    ensures IsInt64(r.value) && 1 <= r.bytesRead <= 9
  {
    RoomOf64();
    var r := ReadGroups(data, at, 0);
    Reading(UnZigZag(r.value), r.bytesRead)
  }

  lemma {:induction false} GroupsReadBack(u: nat, k: nat, data: seq<byte>, at: nat)
    requires k <= 8 && u < Room(k) && FoundAt(data, at, Groups(u, k))
    ensures ReadGroups(data, at, k) == Reading(u, |Groups(u, k)|)
    decreases 8 - k
  {
    var g := Groups(u, k);
    assert data[at] == g[0];
    if k < 8 && u >= 128 {
      var rest := Groups(u / 128, k + 1);
      assert g[1..] == rest;
      assert data[at + 1..at + 1 + |rest|] == data[at..at + |g|][1..];
      GroupsReadBack(u / 128, k + 1, data, at + 1);
    }
  }

  // Decoding finds a value wherever its encoding was put, and reads just those bytes.
  lemma EncodingReadBack(v: int, data: seq<byte>, at: nat)
    requires IsInt64(v) && FoundAt(data, at, Encoding(v))
    ensures Decoding(data, at) == Reading(v, |Encoding(v)|)
  {
    RoomOf64();
    GroupsReadBack(ZigZag(v), 0, data, at);
    ZigZagInverts(v, ZigZag(v));
  }

  // ----- Streams of values -----

  predicate AllInt64(values: seq<int>) {
    forall i | 0 <= i < |values| :: IsInt64(values[i])
  }

  function StreamOf(values: seq<int>): seq<byte>
    requires AllInt64(values)
  {
    if |values| == 0 then [] else Encoding(values[0]) + StreamOf(values[1..])
  }

  datatype StreamReading = StreamReading(values: seq<int>, next: nat)

  // So many values read one behind the other.
  function ReadStream(data: seq<byte>, at: nat, n: nat): StreamReading
    decreases n
  {
    if n == 0 then StreamReading([], at)
    else
      var first := Decoding(data, at);
      var rest := ReadStream(data, at + first.bytesRead, n - 1);
      StreamReading([first.value] + rest.values, rest.next)
  }

  // Main result: a stream reads back as the same values, and reading stops right behind it.
  lemma {:induction false} StreamReadBack(values: seq<int>, data: seq<byte>, at: nat)
    requires AllInt64(values) && FoundAt(data, at, StreamOf(values))
    ensures ReadStream(data, at, |values|) == StreamReading(values, at + |StreamOf(values)|)
    decreases |values|
  {
    hide Encoding, Decoding, FoundAt;
    if |values| > 0 {
      FoundSplit(data, at, Encoding(values[0]), StreamOf(values[1..]));
      EncodingReadBack(values[0], data, at);
      StreamReadBack(values[1..], data, at + |Encoding(values[0])|);
      assert [values[0]] + values[1..] == values;
    }
  }

  // ----- The encoder -----

  // The first k groups, when more follow.
  ghost function Leading(u: nat, k: nat): (r: seq<byte>)
    ensures |r| == k
    decreases k
  {
    if k == 0 then [] else [u % 128 + 128] + Leading(u / 128, k - 1)
  }

  // u without its k lowest groups.
  function Dropped(u: nat, k: nat): nat
    decreases k
  {
    if k == 0 then u else Dropped(u / 128, k - 1)
  }

  lemma {:induction false} LeadingOneMore(u: nat, k: nat)
    ensures Leading(u, k + 1) == Leading(u, k) + [Dropped(u, k) % 128 + 128]
    ensures Dropped(u, k + 1) == Dropped(u, k) / 128
    decreases k
  {
    if k != 0 {
      LeadingOneMore(u / 128, k - 1);
    }
  }

  lemma {:induction false} GroupsSplit(u: nat, k: nat, j: nat)
    requires j + k <= 8 && u < Room(j)
    requires k > 0 ==> Dropped(u, k - 1) >= 128
    ensures Dropped(u, k) < Room(j + k)
    ensures Groups(u, j) == Leading(u, k) + Groups(Dropped(u, k), j + k)
    decreases k
  {
    hide Groups, Leading, Dropped, Room;
    if k == 0 {
      NothingDropped(u);
    } else {
      DroppedShrinks(u, k - 1);
      GroupsStep(u, j);
      LeadingStep(u, k);
      GroupsSplit(u / 128, k - 1, j + 1);
    }
  }

  lemma NothingDropped(u: nat)
    ensures Leading(u, 0) == [] && Dropped(u, 0) == u
  {
  }

  lemma GroupsStep(u: nat, j: nat)
    requires j < 8 && 128 <= u < Room(j)
    ensures u / 128 < Room(j + 1)
    ensures Groups(u, j) == [u % 128 + 128] + Groups(u / 128, j + 1)
  {
  }

  lemma LeadingStep(u: nat, k: nat)
    requires k > 0
    ensures Leading(u, k) == [u % 128 + 128] + Leading(u / 128, k - 1)
    ensures k > 1 ==> Dropped(u, k - 1) == Dropped(u / 128, k - 2)
    ensures Dropped(u, k) == Dropped(u / 128, k - 1)
  {
  }

  lemma RoomStep(k: nat)
    requires k < 8
    ensures Room(k) == 128 * Room(k + 1)
  {
  }

  lemma {:induction false} DroppedShrinks(u: nat, k: nat)
    ensures Dropped(u, k) <= u
    decreases k
  {
    if k != 0 {
      DroppedShrinks(u / 128, k - 1);
    }
  }

  lemma AtGroup(u: nat, k: nat)
    requires k <= 7 && u < Room(0) && (k > 0 ==> Dropped(u, k - 1) >= 128)
    ensures Leading(u, k + 1) == Leading(u, k) + [Dropped(u, k) % 128 + 128]
    ensures Dropped(u, k) < 128 ==> Groups(u, 0) == Leading(u, k) + [Dropped(u, k)]
    ensures Dropped(u, k) >= 128 ==> |Groups(u, 0)| >= k + 2
  {
    hide Room;
    LeadingOneMore(u, k);
    GroupsSplit(u, k, 0);
    if Dropped(u, k) >= 128 {
      RoomStep(k);
      assert |Groups(Dropped(u, k), k)| >= 2;
    }
  }

  // Writes group k of u as a last group, if it is one, or as one that more groups follow.
  method PutGroup(buffer: array<byte>, at: nat, ghost before: seq<byte>, ghost u: nat, k: nat,
        value: nat) returns (last: bool)
    requires k <= 7 && u < TWO_TO_64 && value == Dropped(u, k) && (k > 0 ==> Dropped(u, k - 1) >= 128)
    requires Room(0) == TWO_TO_64 && at + |Groups(u, 0)| <= buffer.Length == |before|
    requires at + k < buffer.Length && buffer[..] == Splice(before, at, Leading(u, k))
    modifies buffer
    ensures last <==> value / 128 == 0
    ensures last ==> |Groups(u, 0)| == k + 1 && buffer[..] == Splice(before, at, Groups(u, 0))
    ensures !last ==> at + k + 1 < buffer.Length && Dropped(u, k) >= 128
    ensures !last ==> buffer[..] == Splice(before, at, Leading(u, k + 1))
  {
    hide Groups, Leading, Dropped, Room, Splice;
    AtGroup(u, k);
    if value / 128 == 0 {
      SpliceOneMore(before, at, Leading(u, k), value);
      buffer[at + k] := value;
      last := true;
    } else {
      SpliceOneMore(before, at, Leading(u, k), value % 128 + 128);
      buffer[at + k] := value % 128 + 128;
      last := false;
    }
  }

  method ZigZagEncode(buffer: array<byte>, at: nat, signedValue: int) returns (bytesWritten: nat)
    requires IsInt64(signedValue) && at + |Encoding(signedValue)| <= buffer.Length
    modifies buffer
    ensures bytesWritten == |Encoding(signedValue)|
    ensures buffer[..] == Splice(old(buffer[..]), at, Encoding(signedValue))
  {
    hide Groups, Leading, Dropped, Room, Splice, ZigZag;
    var value := ZigZag(signedValue);
    ghost var before := buffer[..];
    RoomOf64();
    SpliceNothing(before, at);
    ShiftsAreDrops(value);
    var last := PutGroup(buffer, at, before, value, 0, value);
    if last { return 1; }
    last := PutGroup(buffer, at, before, value, 1, value / 0x80);
    if last { return 2; }
    last := PutGroup(buffer, at, before, value, 2, value / 0x4000);
    if last { return 3; }
    last := PutGroup(buffer, at, before, value, 3, value / 0x20_0000);
    if last { return 4; }
    bytesWritten := EncodeUpperGroups(buffer, at, before, value);
  }

  // The second half of the ladder, for values that need more than four groups.
  method EncodeUpperGroups(buffer: array<byte>, at: nat, ghost before: seq<byte>,
        value: nat) returns (bytesWritten: nat)
    requires value < TWO_TO_64 == Room(0) && Dropped(value, 3) >= 128
    requires at + |Groups(value, 0)| <= buffer.Length == |before| && at + 4 < buffer.Length
    requires buffer[..] == Splice(before, at, Leading(value, 4))
    modifies buffer
    ensures bytesWritten == |Groups(value, 0)|
    ensures buffer[..] == Splice(before, at, Groups(value, 0))
  {
    hide Groups, Leading, Dropped, Room, Splice;
    ShiftsAreDrops(value);
    var last := PutGroup(buffer, at, before, value, 4, value / 0x1000_0000);
    if last { return 5; }
    last := PutGroup(buffer, at, before, value, 5, value / 0x8_0000_0000);
    if last { return 6; }
    last := PutGroup(buffer, at, before, value, 6, value / 0x400_0000_0000);
    if last { return 7; }
    last := PutGroup(buffer, at, before, value, 7, value / 0x2_0000_0000_0000);
    if last { return 8; }
    LastGroup(value);
    SpliceOneMore(before, at, Leading(value, 8), value / 0x100_0000_0000_0000);
    buffer[at + 8] := value / 0x100_0000_0000_0000;
    bytesWritten := 9;
  }

  lemma ShiftsAreDrops(u: nat)
    ensures Leading(u, 0) == [] && Dropped(u, 0) == u && Dropped(u, 1) == u / 0x80
    ensures Dropped(u, 2) == u / 0x4000 && Dropped(u, 3) == u / 0x20_0000
    ensures Dropped(u, 4) == u / 0x1000_0000 && Dropped(u, 5) == u / 0x8_0000_0000
    ensures Dropped(u, 6) == u / 0x400_0000_0000 && Dropped(u, 7) == u / 0x2_0000_0000_0000
    ensures Dropped(u, 8) == u / 0x100_0000_0000_0000
  {
    LeadingOneMore(u, 1);
    LeadingOneMore(u, 2);
    LeadingOneMore(u, 3);
    LeadingOneMore(u, 4);
    LeadingOneMore(u, 5);
    LeadingOneMore(u, 6);
    LeadingOneMore(u, 7);
  }

  lemma LastGroup(u: nat)
    requires u < TWO_TO_64 == Room(0) && Dropped(u, 7) >= 128
    ensures Dropped(u, 8) < 256
    ensures Groups(u, 0) == Leading(u, 8) + [Dropped(u, 8)]
  {
    GroupsSplit(u, 8, 0);
  }

  // ----- The decoder -----

  // A value whose lower groups are known, put together with the groups from that scale on.
  function Joined(value: int, scale: int, rest: int): int {
    value + scale * rest
  }

  // Reading the first k groups gave value, at the scale of group k, and more follow inside the data.
  ghost predicate Midway(data: seq<byte>, at: nat, k: nat, value: int, scale: int) {
    && k <= 8 && at + ReadGroups(data, at, 0).bytesRead <= |data|
    && ReadGroups(data, at, 0).value == Joined(value, scale, ReadGroups(data, at + k, k).value)
    && ReadGroups(data, at, 0).bytesRead == k + ReadGroups(data, at + k, k).bytesRead
  }

  // Reading is over after k groups.
  ghost predicate Finished(data: seq<byte>, at: nat, k: nat, value: int) {
    ReadGroups(data, at, 0).value == value && ReadGroups(data, at, 0).bytesRead == k
  }

  lemma ReadStep(data: seq<byte>, at: nat, k: nat)
    requires k <= 8 && at < |data|
    ensures k == 8 || data[at] < 128 ==> ReadGroups(data, at, k) == Reading(data[at], 1)
    ensures k < 8 && data[at] >= 128 ==>
      && ReadGroups(data, at, k).value == data[at] - 128 + 128 * ReadGroups(data, at + 1, k + 1).value
      && ReadGroups(data, at, k).bytesRead == 1 + ReadGroups(data, at + 1, k + 1).bytesRead
  {
  }

  lemma JoinOneMore(value: int, scale: int, d: int, rest: int)
    ensures Joined(value, scale, d + 128 * rest) == Joined(Joined(value, scale, d), scale * 128, rest)
  {
    assert scale * (d + 128 * rest) == scale * d + scale * 128 * rest;
  }

  lemma NothingJoined(rest: int)
    ensures Joined(0, 1, rest) == rest
  {
  }

  lemma StartMidway(data: seq<byte>, at: nat)
    requires at + Decoding(data, at).bytesRead <= |data|
    ensures Midway(data, at, 0, 0, 1)
  {
    hide Joined;
    NothingJoined(ReadGroups(data, at, 0).value);
  }

  // Reads group k: its seven bits, or for the ninth byte all eight.
  method TakeGroup(buffer: array<byte>, at: nat, k: nat, value: int, scale: int) returns (value': int, more: bool)
    requires Midway(buffer[..], at, k, value, scale)
    ensures more ==> k < 8 && Midway(buffer[..], at, k + 1, value', scale * 128)
    ensures !more ==> Finished(buffer[..], at, k + 1, value')
  {
    hide ReadGroups, Joined;
    ReadStep(buffer[..], at + k, k);
    var v: int := buffer[at + k];
    var bits := if k < 8 then v % 128 else v;
    SevenBits(v);
    JoinOneMore(value, scale, bits, ReadGroups(buffer[..], at + k + 1, if k < 8 then k + 1 else 8).value);
    value' := Joined(value, scale, bits);
    more := k < 8 && v >= 128;
  }

  lemma SevenBits(v: int)
    requires 0 <= v < 256
    ensures v % 128 == if v >= 128 then v - 128 else v
  {
  }

  method ZigZagDecode(buffer: array<byte>, at: nat) returns (retVal: int, bytesRead: nat)
    requires at + Decoding(buffer[..], at).bytesRead <= buffer.Length
    ensures Reading(retVal, bytesRead) == Decoding(buffer[..], at)
  {
    hide ReadGroups, Midway, Room, UnZigZag;
    RoomOf64();
    StartMidway(buffer[..], at);
    var value, more := TakeGroup(buffer, at, 0, 0, 1);
    bytesRead := 1;
    if more {
      value, more := TakeGroup(buffer, at, 1, value, 0x80);
      bytesRead := 2;
      if more {
        value, more := TakeGroup(buffer, at, 2, value, 0x4000);
        bytesRead := 3;
        if more {
          value, more := TakeGroup(buffer, at, 3, value, 0x20_0000);
          bytesRead := 4;
          if more {
            value, more := TakeGroup(buffer, at, 4, value, 0x1000_0000);
            bytesRead := 5;
            if more {
              value, more := TakeGroup(buffer, at, 5, value, 0x8_0000_0000);
              bytesRead := 6;
              if more {
                value, more := TakeGroup(buffer, at, 6, value, 0x400_0000_0000);
                bytesRead := 7;
                if more {
                  value, more := TakeGroup(buffer, at, 7, value, 0x2_0000_0000_0000);
                  bytesRead := 8;
                  if more {
                    value, more := TakeGroup(buffer, at, 8, value, 0x100_0000_0000_0000);
                    bytesRead := 9;
                  }
                }
              }
            }
          }
        }
      }
    }
    retVal := UnZigZag(value);
  }
}
