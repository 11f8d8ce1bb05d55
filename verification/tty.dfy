/** The ring buffer behind a terminal (src/kernel/dev/tty.c). */
module Tty {

  class Queue {
    const buf: array<char>
    const size: int
    var read: int
    var write: int
    var count: int

    ghost predicate Valid()
      reads this
    {
      && size == buf.Length && 0 <= read < size && 0 <= count <= size
      && write == if read + count < size then read + count else read + count - size
    }

    /** The queued characters, oldest first. */
    ghost function Contents(): (s: seq<char>)
      requires Valid()
      reads this, buf
    {
      if read + count <= size then buf[read..read + count] else buf[read..] + buf[..read + count - size]
    }

    /** tty_queue_init */
    constructor (buf: array<char>, size: int)
      requires size == buf.Length > 0
      ensures Valid() && Contents() == [] && this.buf == buf && this.size == size
    {
      this.buf, this.size := buf, size;
      count, read, write := 0, 0, 0;
    }

    method Enqueue(data: char) returns (rc: int)
      requires Valid()
      modifies this, buf
      ensures Valid()
      ensures rc == if |old(Contents())| < size then 0 else -1
      ensures Contents() == if rc == 0 then old(Contents()) + [data] else old(Contents())
    {
      if count >= size {
        return -1;
      }
      buf[write] := data;
      write := write + 1;
      if write >= size {
        write := 0;
      }
      count := count + 1;
      return 0;
    }

    method Dequeue() returns (rc: int, data: char)
      requires Valid()
      modifies this
      ensures Valid() && buf[..] == old(buf[..])
      ensures rc == if old(Contents()) == [] then -1 else 0
      ensures rc == 0 ==> data == old(Contents())[0] && Contents() == old(Contents())[1..]
      ensures rc == -1 ==> Contents() == []
    {
      data := '\0';
      if count <= 0 {
        return -1, data;
      }
      data := buf[read];
      read := read + 1;
      if read >= size {
        read := 0;
      }
      count := count - 1;
      rc := 0;
    }
  }
}
