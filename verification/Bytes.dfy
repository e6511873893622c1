/** Bytes, and writing a run of bytes into a buffer. */
module Bytes {
  type byte = x: int | 0 <= x < 256

  // The buffer with the bytes written at position at.
  ghost function Splice(buffer: seq<byte>, at: nat, bytes: seq<byte>): (r: seq<byte>)
    requires at + |bytes| <= |buffer|
    ensures |r| == |buffer|
  {
    buffer[..at] + bytes + buffer[at + |bytes|..]
  }

  lemma SpliceNothing(buffer: seq<byte>, at: nat)
    requires at <= |buffer|
    ensures Splice(buffer, at, []) == buffer
  {
  }

  lemma SpliceOneMore(buffer: seq<byte>, at: nat, bytes: seq<byte>, b: byte)
    requires at + |bytes| < |buffer|
    ensures Splice(buffer, at, bytes)[at + |bytes| := b] == Splice(buffer, at, bytes + [b])
  {
  }

  lemma SpliceMore(buffer: seq<byte>, at: nat, bytes: seq<byte>, more: seq<byte>)
    requires at + |bytes| + |more| <= |buffer|
    ensures Splice(Splice(buffer, at, bytes), at + |bytes|, more) == Splice(buffer, at, bytes + more)
  {
  }

  lemma SpliceRead(buffer: seq<byte>, at: nat, bytes: seq<byte>)
    requires at + |bytes| <= |buffer|
    ensures Splice(buffer, at, bytes)[at..at + |bytes|] == bytes
  {
  }

  // The bytes stand in data from position at on.
  ghost predicate FoundAt(data: seq<byte>, at: nat, bytes: seq<byte>) {
    at + |bytes| <= |data| && data[at..at + |bytes|] == bytes
  }

  lemma FoundSplit(data: seq<byte>, at: nat, first: seq<byte>, rest: seq<byte>)
    requires FoundAt(data, at, first + rest)
    ensures FoundAt(data, at, first) && FoundAt(data, at + |first|, rest)
  {
    assert data[at..at + |first + rest|][..|first|] == first;
    assert data[at..at + |first + rest|][|first|..] == rest;
  }
}
