/** The byte streams the codec reads from and writes to.

    The codec writes to a Go io.Writer and reads from a Go io.Reader. Here the
    writer is a sink with a bounded amount of room, so that a write can fail
    part-way; the reader is an in-memory reader with the behaviour of Go's
    bytes.Reader, the reader the repository's tests use. */
module Streams {
  import opened Wire

  /** An output stream that has taken `data` so far and can take `room` more
      bytes. A write takes as much of its argument as fits and fails when it
      could not take all of it; once the room is used up every later write
      fails. */
  class Sink {
    var data: seq<Byte>
    var room: nat

    constructor (room: nat)
      ensures data == [] && this.room == room
    {
      data := [];
      this.room := room;
    }

    /** io.Writer.Write: the count of bytes taken, and an error if that is
        fewer than |p|. */
    method Write(p: seq<Byte>) returns (n: nat, err: Outcome)
      modifies this
      ensures n == Min(|p|, old(room))
      ensures err == if |p| <= old(room) then Pass else Fail(SinkError)
      ensures data == old(data) + p[..n] && room == old(room) - n
    {
      n := Min(|p|, room);
      err := if |p| <= room then Pass else Fail(SinkError);
      data := data + p[..n];
      room := room - n;
    }
  }

  /** An input stream over `input` whose read position `pos` only advances. */
  class Source {
    const input: seq<Byte>
    var pos: nat

    ghost predicate Valid()
      reads this
    {
      pos <= |input|
    }

    /** The bytes not read yet. */
    function Remaining(): seq<Byte>
      reads this
      requires Valid()
    {
      input[pos..]
    }

    constructor (input: seq<Byte>)
      ensures Valid() && this.input == input && pos == 0
    {
      this.input := input;
      pos := 0;
    }

    /** bytes.Reader.Read into a k-byte buffer: at the end of input it reports
        end of input and delivers nothing, whatever k is; otherwise it
        delivers as many of the next k bytes as there are. */
    method Read(k: nat) returns (bs: seq<Byte>, eof: bool)
      requires Valid()
      modifies this
      ensures Valid()
      ensures eof == (old(pos) == |input|)
      ensures bs == old(Remaining())[..Min(k, |old(Remaining())|)]
      ensures pos == old(pos) + |bs|
    {
      eof := pos == |input|;
      bs := input[pos..][..Min(k, |input| - pos)];
      pos := pos + |bs|;
    }

    /** io.ReadFull, which binary.Read uses: reads k bytes, or fails after
        taking what was left. */
    method ReadFull(k: nat) returns (bs: seq<Byte>, ok: bool)
      requires Valid()
      modifies this
      ensures Valid()
      ensures ok == (k <= |old(Remaining())|)
      ensures bs == old(Remaining())[..Min(k, |old(Remaining())|)]
      ensures pos == old(pos) + |bs|
    {
      ok := k <= |input| - pos;
      bs := input[pos..][..Min(k, |input| - pos)];
      pos := pos + |bs|;
    }
  }
}
