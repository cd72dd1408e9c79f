/**
 * The slice of `java.nio` the writer relies on: a heap `ByteBuffer` with its
 * position/limit/capacity discipline, and a channel that appends whatever a
 * `write` call hands it.
 */
module Nio {
  import opened JavaBytes

  /** A heap byte buffer: the backing array `hb` is its capacity. */
  class ByteBuffer {
    const hb: array<byte>
    var position: nat
    var limit: nat

    ghost predicate Valid()
      reads this
    {
      position <= limit <= hb.Length
    }

    /** What the puts have stored so far (before `Flip`). */
    ghost function Written(): seq<byte>
      reads this, hb
      requires Valid()
    {
      hb[..position]
    }

    /** What a channel write may still take (after `Flip`). */
    ghost function Remaining(): seq<byte>
      reads this, hb
      requires Valid()
    {
      hb[position..limit]
    }

    /** `ByteBuffer.allocate(capacity)`: zero-filled, position 0, limit at capacity. */
    constructor Allocate(capacity: nat)
      ensures Valid() && fresh(hb) && hb.Length == capacity
      ensures position == 0 && limit == capacity
      ensures forall i :: 0 <= i < capacity ==> hb[i] == 0
    {
      hb := new byte[capacity](_ => 0);
      position, limit := 0, capacity;
    }

    /** `clear()`: nothing is stored any more and the whole capacity is open to puts. */
    method Clear()
      modifies this
      ensures Valid() && position == 0 && limit == hb.Length
      ensures Written() == []
    {
      position, limit := 0, hb.Length;
    }

    /** The stored bytes become the remaining ones. */
    method Flip()
      requires Valid()
      modifies this
      ensures Valid() && limit == old(position) && position == 0
      ensures Remaining() == old(Written())
    {
      limit, position := position, 0;
    }

    /** `hasRemaining()`: whether a channel write still has bytes to take. */
    function HasRemaining(): (r: bool)
      reads this, hb
      ensures Valid() ==> (r <==> Remaining() != [])
    {
      position < limit
    }

    /**
     * The relative put shared by `putInt`, `putChar` and `putDouble`: with fewer
     * than `|bs|` bytes before the limit it throws `BufferOverflowException`
     * (here `ok` is false) and the buffer is left as it was.
     */
    method Put(bs: seq<byte>) returns (ok: bool)
      requires Valid()
      modifies this, hb
      ensures Valid() && limit == old(limit)
      ensures ok <==> |bs| <= old(limit) - old(position)
      ensures ok ==> position == old(position) + |bs| && Written() == old(Written()) + bs
      ensures !ok ==> unchanged(this, hb)
    {
      if limit - position < |bs| {
        return false;
      }
      forall k | 0 <= k < |bs| {
        hb[position + k] := bs[k];
      }
      assert hb[..position + |bs|] == old(hb[..position]) + bs;
      position := position + |bs|;
      ok := true;
    }

    method PutInt(v: int) returns (ok: bool)
      requires Valid() && IsInt(v)
      modifies this, hb
      ensures Valid() && limit == old(limit)
      ensures ok <==> 4 <= old(limit) - old(position)
      ensures ok ==> position == old(position) + 4 && Written() == old(Written()) + IntBytes(v)
      ensures !ok ==> unchanged(this, hb)
    {
      ok := Put(IntBytes(v));
    }

    method PutChar(c: CodeUnit) returns (ok: bool)
      requires Valid()
      modifies this, hb
      ensures Valid() && limit == old(limit)
      ensures ok <==> 2 <= old(limit) - old(position)
      ensures ok ==> position == old(position) + 2 && Written() == old(Written()) + CharBytes(c)
      ensures !ok ==> unchanged(this, hb)
    {
      ok := Put(CharBytes(c));
    }

    method PutDouble(d: DoubleBits) returns (ok: bool)
      requires Valid()
      modifies this, hb
      ensures Valid() && limit == old(limit)
      ensures ok <==> 8 <= old(limit) - old(position)
      ensures ok ==> position == old(position) + 8 && Written() == old(Written()) + DoubleBytes(d)
      ensures !ok ==> unchanged(this, hb)
    {
      ok := Put(DoubleBytes(d));
    }
  }

  /** A blocking channel, seen only through the bytes it has been sent. */
  class Channel {
    var sent: seq<byte>

    constructor Open()
      ensures sent == []
    {
      sent := [];
    }

    /**
     * `chan.write(buf)`: takes some of the remaining bytes (at least one when any
     * remain; how many is the channel's choice) and advances the position past them.
     */
    method Write(buf: ByteBuffer) returns (n: nat)
      requires buf.Valid()
      modifies this, buf`position
      ensures buf.Valid() && buf.position == old(buf.position) + n
      ensures old(buf.HasRemaining()) ==> n > 0
      ensures sent == old(sent) + buf.hb[old(buf.position)..buf.position]
    {
      var room := buf.limit - buf.position;
      if room == 0 {
        n := 0;
      } else {
        assert room > 0;  // so `room` itself is a choice
        n :| 0 < n <= room;
      }
      sent := sent + buf.hb[buf.position..buf.position + n];
      buf.position := buf.position + n;
    }
  }

  /**
   * `while (buf.hasRemaining()) chan.write(buf);`: however the channel splits the
   * writes, it receives exactly the flipped contents and the buffer ends drained.
   */
  method Drain(buf: ByteBuffer, chan: Channel)
    requires buf.Valid()
    modifies buf`position, chan
    ensures buf.Valid() && buf.position == buf.limit
    ensures chan.sent == old(chan.sent) + old(buf.Remaining())
  {
    ghost var start := buf.position;
    while buf.HasRemaining()
      invariant buf.Valid() && start <= buf.position
      invariant chan.sent == old(chan.sent) + buf.hb[start..buf.position]
      decreases buf.limit - buf.position
    {
      ghost var before := buf.position;
      var _ := chan.Write(buf);
      assert buf.hb[start..buf.position] == buf.hb[start..before] + buf.hb[before..buf.position];
    }
  }

  /** `buf.flip()` then the drain loop: the channel receives exactly what was put. */
  method FlipAndDrain(buf: ByteBuffer, chan: Channel)
    requires buf.Valid()
    modifies buf, chan
    ensures buf.Valid() && buf.position == buf.limit == old(buf.position)
    ensures chan.sent == old(chan.sent) + old(buf.Written())
  {
    buf.Flip();
    Drain(buf, chan);
  }
}
