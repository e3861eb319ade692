/** Byte strings, and lists of segments as the system's CBufferList holds them. */
module Bytes {
  type Byte = bv8

  datatype Option<+T> = None | Some(value: T)

  function Flatten(segments: seq<seq<Byte>>): (bytes: seq<Byte>) {
    if segments == [] then [] else segments[0] + Flatten(segments[1..])
  }

  lemma {:induction false} FlattenAppend(a: seq<seq<Byte>>, b: seq<seq<Byte>>)
    ensures Flatten(a + b) == Flatten(a) + Flatten(b)
  {
    if a == [] {
      assert a + b == b;
    } else {
      assert (a + b)[1..] == a[1..] + b;
      FlattenAppend(a[1..], b);
    }
  }

  /** A CBufferList: segments and a position in the bytes they hold together. */
  datatype BufferList = BufferList(segments: seq<seq<Byte>>, position: nat)
  {
    predicate Valid() {
      position <= |Flatten(segments)|
    }

    predicate AtEOF() {
      position >= |Flatten(segments)|
    }

    /** The bytes after the position. */
    function Rest(): seq<Byte> {
      if position <= |Flatten(segments)| then Flatten(segments)[position..] else []
    }

    /** Reading up to `n` bytes, as Getn does. */
    function Getn(n: nat): (BufferList, seq<Byte>) {
      var k := if n <= |Rest()| then n else |Rest()|;
      (BufferList(segments, position + k), Rest()[..k])
    }

    function InsertLast(segment: seq<Byte>): BufferList {
      BufferList(segments + [segment], position)
    }
  }

  const EMPTY_LIST := BufferList([], 0)
}
