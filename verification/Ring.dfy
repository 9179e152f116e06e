/** The blocking ring of `device/ioqueue.c` and the pipe transfers of `userprog/pipe.c`. */
module Ring {

  const BUF_SIZE: nat := 2048

  function NextPos(pos: nat): nat {
    (pos + 1) % BUF_SIZE
  }

  predicate InRange(buf: seq<bv8>, head: nat, tail: nat) {
    |buf| == BUF_SIZE && head < BUF_SIZE && tail < BUF_SIZE
  }

  /** `ioq_length`. */
  function Length(head: nat, tail: nat): nat
    requires head < BUF_SIZE && tail < BUF_SIZE
  {
    if head >= tail then head - tail else BUF_SIZE - (tail - head)
  }

  /** The bytes from `tail` up to `head`, around the end of the buffer. */
  function Window(buf: seq<bv8>, head: nat, tail: nat): seq<bv8>
    requires InRange(buf, head, tail)
  {
    if head >= tail then buf[tail..head] else buf[tail..] + buf[..head]
  }

  /** The two readings of the indices agree, and one cell always stays unused. */
  lemma WindowLength(buf: seq<bv8>, head: nat, tail: nat)
    requires InRange(buf, head, tail)
    ensures |Window(buf, head, tail)| == Length(head, tail) <= BUF_SIZE - 1
    ensures NextPos(head) == tail <==> Length(head, tail) == BUF_SIZE - 1
    ensures head == tail <==> Length(head, tail) == 0
  {
    assert head + 1 < BUF_SIZE ==> NextPos(head) == head + 1;
    assert head + 1 == BUF_SIZE ==> NextPos(head) == 0;
  }

  lemma PutWindow(buf: seq<bv8>, head: nat, tail: nat, b: bv8)
    requires InRange(buf, head, tail) && NextPos(head) != tail
    ensures Window(buf[head := b], NextPos(head), tail) == Window(buf, head, tail) + [b]
  {
    var buf' := buf[head := b];
    if head + 1 < BUF_SIZE {
      assert NextPos(head) == head + 1;
      if head >= tail {
        assert buf'[tail..head + 1] == buf[tail..head] + [b];
      } else {
        assert buf'[tail..] == buf[tail..];
        assert buf'[..head + 1] == buf[..head] + [b];
      }
    } else {
      assert NextPos(head) == 0;
      assert buf'[tail..] + buf'[..0] == buf[tail..head] + [b];
    }
  }

  lemma GetWindow(buf: seq<bv8>, head: nat, tail: nat)
    requires InRange(buf, head, tail) && head != tail
    ensures Window(buf, head, tail) == [buf[tail]] + Window(buf, head, NextPos(tail))
  {
    if tail + 1 < BUF_SIZE {
      assert NextPos(tail) == tail + 1;
    } else {
      assert NextPos(tail) == 0;
      assert buf[tail..] == [buf[tail]];
      assert buf[0..head] == buf[..head];
    }
  }

  // Where the one task that reads (or the one that writes) is: outside the loop of its call,
  // asleep on the consumer (producer) pointer, or woken and about to re-test.
  datatype Side = Outside | Asleep | Woken

  datatype Got = Byte(b: bv8) | Sleeps

  class IoQueue {
    const buf: array<bv8>
    var head: nat
    var tail: nat
    // The value of iosema, and whether the producer and consumer pointers are set.
    var sema: nat
    var consumer: bool
    var producer: bool

    ghost var reader: Side
    ghost var writer: Side
    ghost var produced: seq<bv8>
    ghost var consumed: seq<bv8>

    constructor ()
      ensures Valid() && Contents() == [] && produced == [] && consumed == [] && reader == Outside && writer == Outside
      ensures fresh(buf)
    {
      buf := new bv8[BUF_SIZE];
      head, tail, sema, consumer, producer := 0, 0, 1, false, false;
      reader, writer, produced, consumed := Outside, Outside, [], [];
    }

    /** FIFO: what came out, followed by what is inside, is what went in.
        A sleeping reader means an empty ring, a sleeping writer a full one, and whoever
        was woken will find the ring changed. */
    ghost predicate Valid()
      reads this, buf
    {
      && InRange(buf[..], head, tail)
      && produced == consumed + Contents()
      && (consumer <==> reader == Asleep) && (producer <==> writer == Asleep)
      && (consumer ==> Contents() == []) && (reader == Woken ==> Contents() != [])
      && (producer ==> |Contents()| == BUF_SIZE - 1) && (writer == Woken ==> |Contents()| < BUF_SIZE - 1)
      && (sema == 0 <==> reader != Outside || writer != Outside) && sema <= 1
      && (reader == Outside || writer == Outside)
    }

    ghost function Contents(): seq<bv8>
      requires InRange(buf[..], head, tail)
      reads this, buf
    {
      Window(buf[..], head, tail)
    }

    method Full() returns (r: bool)
      requires Valid()
      ensures r <==> |Contents()| == BUF_SIZE - 1
    {
      WindowLength(buf[..], head, tail);
      r := NextPos(head) == tail;
    }

    method Empty() returns (r: bool)
      requires Valid()
      ensures r <==> Contents() == []
    {
      WindowLength(buf[..], head, tail);
      r := head == tail;
    }

    method IoqLength() returns (n: nat)
      requires Valid()
      ensures n == |Contents()| <= BUF_SIZE - 1
    {
      WindowLength(buf[..], head, tail);
      n := if head >= tail then head - tail else BUF_SIZE - (tail - head);
    }

    /** The body of `ioq_putchar` once the ring has room: store, and wake a sleeping reader. */
    method Store(b: bv8) returns (woke: bool)
      requires Valid() && |Contents()| < BUF_SIZE - 1 && writer == Outside
      modifies this, buf
      ensures Valid() && Contents() == old(Contents()) + [b]
      ensures produced == old(produced) + [b] && consumed == old(consumed) && writer == Outside
      ensures woke <==> old(reader) == Asleep
      ensures reader == if old(reader) == Asleep then Woken else old(reader)
    {
      WindowLength(buf[..], head, tail);
      PutWindow(buf[..], head, tail, b);
      ghost var was := buf[..];
      buf[head] := b;
      assert buf[..] == was[head := b];
      head := NextPos(head);
      produced := produced + [b];
      woke := consumer;
      if consumer {
        consumer := false;
        reader := Woken;
      }
    }

    /** The body of `ioq_getchar` once the ring has a byte: take it, and wake a sleeping writer. */
    method Take() returns (b: bv8)
      requires Valid() && Contents() != [] && reader == Outside
      modifies this
      ensures Valid() && [b] + Contents() == old(Contents()) && b == old(Contents())[0]
      ensures produced == old(produced) && consumed == old(consumed) + [b] && reader == Outside
      ensures writer == if old(writer) == Asleep then Woken else old(writer)
    {
      WindowLength(buf[..], head, tail);
      GetWindow(buf[..], head, tail);
      b := buf[tail];
      tail := NextPos(tail);
      consumed := consumed + [b];
      if producer {
        producer := false;
        writer := Woken;
      }
    }

    /** Keyboard interrupt: put only when there is room. */
    method GuardedPut(b: bv8) returns (stored: bool, woke: bool)
      requires Valid() && writer == Outside
      modifies this, buf
      ensures Valid() && writer == Outside && (stored <==> |old(Contents())| < BUF_SIZE - 1)
      ensures Contents() == if stored then old(Contents()) + [b] else old(Contents())
      ensures produced == (if stored then old(produced) + [b] else old(produced)) && consumed == old(consumed)
      ensures old(reader) == Asleep ==> stored && woke && reader == Woken
      ensures old(reader) != Asleep ==> !woke && reader == old(reader)
    {
      WindowLength(buf[..], head, tail);
      var full := Full();
      stored, woke := !full, false;
      if stored {
        woke := Store(b);
      }
    }

    /** `ioq_getchar` up to its first block or its return.  Not for a reader of an empty ring whose writer was woken and
        still has iosema: that one sleeps on the semaphore. */
    method GetChar() returns (r: Got)
      requires Valid() && reader == Outside && (writer == Woken ==> Contents() != [])
      modifies this
      ensures Valid() && produced == old(produced)
      ensures writer == if old(writer) == Asleep then Woken else old(writer)
      ensures r.Sleeps? <==> old(Contents()) == []
      ensures r.Sleeps? ==> reader == Asleep && consumed == old(consumed) && Contents() == []
      ensures r.Byte? ==> reader == Outside && [r.b] + Contents() == old(Contents()) && consumed == old(consumed) + [r.b]
    {
      var empty := Empty();
      if empty {
        sema := sema - 1;
        consumer, reader := true, Asleep;
        return Sleeps;
      }
      var b := Take();
      return Byte(b);
    }

    /** The woken reader goes round its loop: it gives iosema back, and its byte is there. */
    method ResumeGet() returns (b: bv8)
      requires Valid() && reader == Woken
      modifies this
      ensures Valid() && reader == Outside && writer == Outside && produced == old(produced)
      ensures [b] + Contents() == old(Contents()) && consumed == old(consumed) + [b]
    {
      sema, reader := sema + 1, Outside;
      b := Take();
    }

    /** `ioq_putchar` up to its first block or its return; likewise not for a full ring whose reader still has iosema. */
    method PutChar(b: bv8) returns (blocked: bool)
      requires Valid() && writer == Outside && (reader == Woken ==> |Contents()| < BUF_SIZE - 1)
      modifies this, buf
      ensures Valid() && consumed == old(consumed)
      ensures reader == if old(reader) == Asleep then Woken else old(reader)
      ensures blocked <==> |old(Contents())| == BUF_SIZE - 1
      ensures writer == if blocked then Asleep else Outside
      ensures Contents() == if blocked then old(Contents()) else old(Contents()) + [b]
      ensures produced == if blocked then old(produced) else old(produced) + [b]
    {
      blocked := Full();
      if blocked {
        sema := sema - 1;
        producer, writer := true, Asleep;
      } else {
        var woke := Store(b);
      }
    }

    /** The woken writer goes round its loop: it gives iosema back, and there is room. */
    method ResumePut(b: bv8)
      requires Valid() && writer == Woken
      modifies this, buf
      ensures Valid() && writer == Outside && reader == Outside && consumed == old(consumed)
      ensures Contents() == old(Contents()) + [b] && produced == old(produced) + [b]
    {
      sema, writer := sema + 1, Outside;
      var woke := Store(b);
    }

    /** `pipe_read`: exactly what is there, up to `count`, and never a block. */
    method PipeRead(count: nat) returns (out: seq<bv8>)
      requires Valid() && reader == Outside
      modifies this
      ensures Valid() && reader == Outside && produced == old(produced) && consumed == old(consumed) + out
      ensures out + Contents() == old(Contents())
      ensures |out| == if count <= |old(Contents())| then count else |old(Contents())|
      ensures writer == if old(writer) == Asleep && out != [] then Woken else old(writer)
    {
      var len := IoqLength();
      var size := if len > count then count else len;
      out := [];
      while |out| < size
        invariant |out| <= size <= |old(Contents())|
        invariant Valid() && reader == Outside && produced == old(produced) && consumed == old(consumed) + out
        invariant out + Contents() == old(Contents())
        invariant writer == if old(writer) == Asleep && out != [] then Woken else old(writer)
        decreases size - |out|
      {
        ghost var was, rest := out, Contents();
        var b := Take();
        assert was + rest == (was + [b]) + Contents();
        out := out + [b];
      }
    }

    /** `pipe_write`.  It sizes the transfer by all 2048 cells, although one always stays unused:
        it blocks exactly when more bytes are offered than fit. */
    method PipeWrite(bytes: seq<bv8>) returns (written: nat, blocked: bool)
      requires Valid() && reader == Outside && writer == Outside
      modifies this, buf
      ensures Valid() && reader == Outside && consumed == old(consumed)
      ensures blocked <==> |bytes| > BUF_SIZE - 1 - |old(Contents())|
      ensures written <= |bytes| && Contents() == old(Contents()) + bytes[..written]
      ensures produced == old(produced) + bytes[..written]
      ensures written == if blocked then BUF_SIZE - 1 - |old(Contents())| else |bytes|
      ensures writer == if blocked then Asleep else Outside
    {
      hide Window;
      var len := IoqLength();
      var left := BUF_SIZE - len;
      var size := if left > |bytes| then |bytes| else left;
      written, blocked := 0, false;
      while written < size
        invariant written <= size && Valid() && reader == Outside && writer == Outside && consumed == old(consumed)
        invariant Contents() == old(Contents()) + bytes[..written]
        invariant produced == old(produced) + bytes[..written]
        invariant written + len <= BUF_SIZE - 1
        decreases size - written
      {
        assert bytes[..written + 1] == bytes[..written] + [bytes[written]];
        WindowLength(buf[..], head, tail);
        blocked := PutChar(bytes[written]);
        if blocked {
          return;
        }
        WindowLength(buf[..], head, tail);
        written := written + 1;
      }
    }
  }

  /** A pipe written full, and one byte more: the code finds one cell left, and sleeps. */
  method FullPipeBlocks() returns (q: IoQueue, written: nat, blocked: bool)
    ensures fresh(q) && q.Valid() && |q.Contents()| == BUF_SIZE - 1 && blocked && written == 0
  {
    q := new IoQueue();
    written, blocked := q.PipeWrite(seq(BUF_SIZE - 1, i => 0 as bv8));
    written, blocked := q.PipeWrite([1]);
  }
}
