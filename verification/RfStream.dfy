// The read-forward stream of io.c: a file descriptor that feeds a buffer, and is
// closed for good once the end of the file has been seen.
module RfStreams {
  import opened Bytes
  import opened Kernel
  import opened IoBuffers

  datatype Stream = Stream(buf: Buf, open: bool, maxRead: nat, source: Source) {
    predicate Ok() {
      buf.Ok() && buf.cap > 0 && maxRead > 0
    }

    // The bytes no caller has been given yet.
    function Rest(): seq<byte> {
      buf.unread + source.file
    }

    // The part of Rest that can still be reached.
    function Reachable(): seq<byte> {
      if open then Rest() else buf.unread
    }

    predicate IsEmpty() {
      !open && buf.unread == []
    }

    predicate IsFull() {
      buf.Available() == 0
    }
  }

  // -- the calls, on abstract values ----------------------------------------------

  predicate SameShape(s: Stream, t: Stream) {
    && t.Ok() && t.maxRead == s.maxRead && t.buf.cap == s.buf.cap
    && (t.open ==> s.open)
  }

  function RefillOnce(s: Stream): (r: (Stream, int))
    requires s.Ok() && s.buf.Available() > 0
    ensures SameShape(s, r.0)
    ensures r.1 == 0 ==> |r.0.source.readScript| < |s.source.readScript|
  {
    var f := Refill(s.buf, s.maxRead, s.source);
    (s.(buf := f.buf, source := f.source, open := s.open && !(f.error == 0 && f.eof)), f.error)
  }

  // The refill loop of io_rf_stream_read.
  function FillTo(s: Stream, size: nat): (r: (Stream, int))
    requires s.Ok() && size <= s.buf.cap
    ensures SameShape(s, r.0)
    decreases |s.source.readScript|
  {
    if !s.open || |s.buf.unread| >= size then (s, 0)
    else
      var (t, error) := RefillOnce(s);
      if error != 0 then (t, error) else FillTo(t, size)
  }

  datatype BlockRead = BlockRead(stream: Stream, error: int, block: seq<byte>)

  function ReadBlock(s: Stream, size: nat): (r: BlockRead)
    requires s.Ok() && 0 < size <= s.buf.cap
    ensures SameShape(s, r.stream)
  {
    var (t, error) := FillTo(s, size);
    if error != 0 then BlockRead(t, error, [])
    else if |t.buf.unread| < size then BlockRead(t, EIO, [])
    else BlockRead(t.(buf := Drop(t.buf, size)), 0, t.buf.unread[..size])
  }

  // io_rf_stream_read_with_poll; its caller has checked the end of file and the room.
  function PollAndRefill(s: Stream): (r: (Stream, int))
    requires s.Ok() && s.open && s.buf.Available() > 0
    ensures SameShape(s, r.0)
  {
    var (answer, rest) := s.source.NextPoll();
    var t := s.(source := rest);
    match answer
    case PollFailed(errno) => (t, IoError(errno))
    case TimedOut => (t, EAGAIN)
    case Events(readable, hungUp) =>
      if readable then RefillOnce(t)
      else if hungUp then (t.(open := false), 0)
      else (t, EIO)
  }

  // -- the structure in memory -----------------------------------------------------

  class RfStream {
    const buffer: IoBuffer
    const descriptor: Descriptor
    const maxSingleRead: nat
    var fd: int

    ghost predicate Valid()
      reads this, buffer
    {
      buffer.Valid() && buffer.data.Length > 0 && maxSingleRead > 0
    }

    ghost function Value(): (s: Stream)
      requires Valid()
      reads this, buffer, buffer.data, descriptor
      ensures s.Ok()
    {
      Stream(buffer.Value(), fd != -1, maxSingleRead, descriptor.state)
    }

    constructor (fd: int, descriptor: Descriptor, bufferSize: nat, maxSingleRead: nat)
      requires fd != -1 && 0 < bufferSize < SIZE_LIMIT && maxSingleRead > 0
      ensures Valid() && fresh(buffer) && fresh(buffer.data) && this.descriptor == descriptor
      ensures Value() == Stream(Buf(bufferSize, 0, []), true, maxSingleRead, descriptor.state)
    {
      this.fd := fd;
      this.descriptor := descriptor;
      this.maxSingleRead := maxSingleRead;
      buffer := new IoBuffer(bufferSize);
    }

    predicate IsEof()
      reads this
    {
      fd == -1
    }

    predicate IsEmpty()
      requires Valid()
      reads this, buffer, buffer.data
    {
      IsEof() && buffer.IsEmpty()
    }

    method ReadOnce() returns (error: int)
      requires Valid() && !IsEof() && !buffer.IsFull()
      modifies this, buffer, buffer.data, descriptor
      ensures Valid()
      ensures (Value(), error) == RefillOnce(old(Value()))
    {
      var eof;
      error, eof := buffer.WriteFromRead(maxSingleRead, descriptor);
      if error == 0 && eof {
        fd := -1;
      }
    }

    // On success the block lies at buffer.data[at..at + itemSize].
    method Read(itemSize: nat) returns (error: int, at: nat)
      requires Valid() && 0 < itemSize <= buffer.data.Length
      modifies this, buffer, buffer.data, descriptor
      ensures Valid()
      ensures at + itemSize <= buffer.data.Length
      ensures var r := ReadBlock(old(Value()), itemSize);
        && Value() == r.stream && error == r.error
        && (error == 0 ==> buffer.data[at..at + itemSize] == r.block)
    {
      error := 0;
      while error == 0 && !IsEof() && buffer.UnreadSize() < itemSize
        invariant Valid()
        invariant FillTo(old(Value()), itemSize) == if error == 0 then FillTo(Value(), itemSize) else (Value(), error)
        decreases error == 0, |descriptor.state.readScript|
      {
        error := ReadOnce();
      }
      at := 0;
      if error == 0 {
        var done;
        done, at := buffer.TryRead(itemSize);
        if !done {
          at := 0;
          error := EIO;
        }
      }
    }

    method ReadWithPoll() returns (error: int)
      requires Valid() && !IsEof() && !buffer.IsFull()
      modifies this, buffer, buffer.data, descriptor
      ensures Valid()
      ensures (Value(), error) == PollAndRefill(old(Value()))
    {
      var answer := descriptor.Poll();
      match answer {
        case PollFailed(errno) =>
          return IoError(errno);
        case TimedOut =>
          error := EAGAIN;
        case Events(readable, hungUp) =>
          if readable {
            error := ReadOnce();
          } else if hungUp {
            fd := -1;
            error := 0;
          } else {
            error := EIO;
          }
      }
    }

    // The items taken lie at buffer.data[at..at + count * itemSize].
    method ReadArray(itemSize: nat, maxCount: nat) returns (count: nat, at: nat)
      requires Valid() && itemSize > 0 && maxCount > 0
      modifies buffer`startOffset
      ensures Valid()
      ensures count == ArrayCount(old(Value()).buf, itemSize, maxCount)
      ensures Value() == old(Value()).(buf := TakeArray(old(Value()).buf, itemSize, maxCount))
      ensures at + count * itemSize <= buffer.data.Length
      ensures buffer.data[at..at + count * itemSize] == old(Value()).buf.unread[..count * itemSize]
    {
      count, at := buffer.ReadArray(itemSize, maxCount);
    }
  }
}
