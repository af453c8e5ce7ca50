/**
 * The ring buffer of a terminal (src/kernel/dev/tty/tty.c:22-61).
 */
module Fifo {
  type Char = c: int | 0 <= c < 256

  /** The n elements of buf from position `from` on, going round. */
  function Ring(buf: seq<Char>, from: nat, n: nat): (r: seq<Char>)
    requires from < |buf| && n <= |buf|
    ensures |r| == n
    ensures forall i :: 0 <= i < n ==> r[i] == buf[if from + i < |buf| then from + i else from + i - |buf|]
  {
    seq(n, i requires 0 <= i < n => buf[if from + i < |buf| then from + i else from + i - |buf|])
  }

  class TtyFifo {
    const buf: array<Char>
    var read: nat
    var write: nat
    var count: nat

    /** Reader and writer are `count` positions apart on the ring. */
    ghost predicate Valid()
      reads this
    {
      && 0 < buf.Length && read < buf.Length && write < buf.Length && count <= buf.Length
      && write == if read + count < buf.Length then read + count else read + count - buf.Length
    }

    /** The characters in the buffer, oldest first. */
    ghost function Contents(): (s: seq<Char>)
      requires Valid()
      reads this, buf
      ensures |s| == count
    {
      Ring(buf[..], read, count)
    }

    /** tty_fifo_init. */
    constructor (size: nat)
      requires size > 0
      ensures Valid() && fresh(buf) && buf.Length == size && Contents() == []
    {
      buf := new Char[size](_ => 0);
      read, write, count := 0, 0, 0;
    }

    /** tty_fifo_get: fails exactly on an empty buffer, and otherwise takes the oldest character. */
    method Get() returns (err: int, c: Char)
      requires Valid()
      modifies this
      ensures Valid()
      ensures if old(Contents()) == [] then err == -1 && Contents() == []
              else err == 0 && c == old(Contents())[0] && Contents() == old(Contents())[1..]
    {
      c := 0;
      if count <= 0 {
        return -1, c;
      }
      c := buf[read];
      read := read + 1;
      if read >= buf.Length {
        read := 0;
      }
      count := count - 1;
      return 0, c;
    }

    /** tty_fifo_put: fails exactly on a full buffer, and otherwise appends. */
    method Put(c: Char) returns (err: int)
      requires Valid()
      modifies this, buf
      ensures Valid()
      ensures if |old(Contents())| == buf.Length then err == -1 && Contents() == old(Contents())
              else err == 0 && Contents() == old(Contents()) + [c]
    {
      if count >= buf.Length {
        return -1;
      }
      buf[write] := c;
      write := write + 1;
      if write >= buf.Length {
        write := 0;
      }
      count := count + 1;
      return 0;
    }
  }
}
