// The linear byte buffer of io.c: unread bytes sit between start_offset and
// size_used, and are moved to the front only when a write does not fit behind them.
module IoBuffers {
  import opened Bytes
  import opened Kernel

  // The abstract value of a buffer: its allocation, the dead bytes in front of the
  // unread ones (start_offset), and the unread bytes themselves.
  datatype Buf = Buf(cap: nat, pad: nat, unread: seq<byte>) {
    predicate Ok() {
      Used() <= cap < SIZE_LIMIT
    }

    function Used(): nat {
      pad + |unread|
    }

    function Available(): int {
      cap - |unread|
    }
  }

  // -- the calls, on abstract values ----------------------------------------------

  function Compact(b: Buf): Buf {
    b.(pad := 0)
  }

  function Put(b: Buf, item: seq<byte>): (r: (Buf, bool))
    requires b.Ok()
    ensures r.0.Ok() && r.0.cap == b.cap
  {
    if b.Available() < |item| then (b, false)
    else
      var c := if b.cap - b.Used() < |item| then Compact(b) else b;
      (c.(unread := c.unread + item), true)
  }

  // A write leaves the unread bytes where they are as long as it fits behind them.
  lemma PutMovesLazily(b: Buf, item: seq<byte>)
    requires b.Ok() && |b.unread| + |item| <= b.cap
    ensures Put(b, item) ==
      (Buf(b.cap, if b.pad + |b.unread| + |item| <= b.cap then b.pad else 0, b.unread + item), true)
  {
  }

  // Moves start_offset over the first n unread bytes.
  function Drop(b: Buf, n: nat): (r: Buf)
    requires b.Ok() && n <= |b.unread|
    ensures r.Ok() && r.Used() == b.Used()
  {
    b.(pad := b.pad + n, unread := b.unread[n..])
  }

  function Take(b: Buf, itemSize: nat): (Buf, bool)
    requires b.Ok()
  {
    if |b.unread| >= itemSize then (Drop(b, itemSize), true) else (b, false)
  }

  // Number of whole items io_buffer_read_array takes.
  function ArrayCount(b: Buf, itemSize: nat, maxCount: nat): (n: nat)
    requires itemSize > 0
    ensures n * itemSize <= |b.unread| && n <= maxCount
    ensures n == maxCount || |b.unread| < (n + 1) * itemSize
  {
    WholeItemsFit(|b.unread|, itemSize, Min(maxCount, |b.unread| / itemSize));
    Min(maxCount, |b.unread| / itemSize)
  }

  function TakeArray(b: Buf, itemSize: nat, maxCount: nat): Buf
    requires b.Ok() && itemSize > 0
  {
    Drop(b, ArrayCount(b, itemSize, maxCount) * itemSize)
  }

  // The byte count of io_buffer_array_seek: a size_t product, which wraps.
  function SeekSize(itemSize: nat, count: nat): nat {
    (count * itemSize) % SIZE_LIMIT
  }

  lemma SeekSizeExact(itemSize: nat, count: nat)
    requires count * itemSize < SIZE_LIMIT
    ensures SeekSize(itemSize, count) == count * itemSize
  {
  }

  lemma WholeItemsFit(size: nat, itemSize: nat, n: nat)
    requires itemSize > 0 && n <= size / itemSize
    ensures 0 <= n * itemSize <= size
    ensures n == size / itemSize ==> size < (n + 1) * itemSize
  {
    var q := size / itemSize;
    assert size == itemSize * q + size % itemSize;
    MultipleAtLeast(itemSize, q - n);
    assert itemSize * (q - n) == itemSize * q - n * itemSize;
    assert (q + 1) * itemSize == itemSize * q + itemSize;
  }

  lemma ItemsThatFit(room: nat, size: nat, n: nat)
    requires size > 0
    ensures n * size <= room <==> n <= room / size
  {
    if n <= room / size {
      WholeItemsFit(room, size, n);
    } else {
      WholeItemsFit(room, size, room / size);
      FewerItems(room / size + 1, n, size);
    }
  }

  lemma SingleBytes(b: Buf, maxCount: nat)
    requires b.Ok()
    ensures ArrayCount(b, 1, maxCount) == Min(maxCount, |b.unread|)
  {
    assert |b.unread| / 1 == |b.unread|;
  }

  // -- the buffer against a plain byte queue of the same capacity -------------------

  datatype Op =
    | TryWriteOp(item: seq<byte>)
    | TryReadOp(itemSize: nat)
    | ReadArrayOp(itemSize: nat, maxCount: nat)
    | ArrayItemsOp(itemSize: nat)
    | ArraySeekOp(itemSize: nat, count: nat)

  // What a caller sees of a call; Halted stands for a failed assertion or a
  // division by a zero item size.
  datatype Reply = Wrote(done: bool) | Missing | Got(count: nat, bytes: seq<byte>) | Sought | Halted

  function BufStep(b: Buf, op: Op): (r: (Buf, Reply))
    requires b.Ok()
    ensures r.0.Ok() && r.0.cap == b.cap
  {
    match op
    case TryWriteOp(item) =>
      if item == [] then (b, Halted) else var (c, done) := Put(b, item); (c, Wrote(done))
    case TryReadOp(size) =>
      if size == 0 then (b, Halted)
      else var (c, done) := Take(b, size); (c, if done then Got(1, b.unread[..size]) else Missing)
    case ReadArrayOp(size, max) =>
      if size == 0 || max == 0 then (b, Halted)
      else
        var n := ArrayCount(b, size, max);
        (TakeArray(b, size, max), Got(n, b.unread[..n * size]))
    case ArrayItemsOp(size) =>
      if size == 0 then (b, Halted)
      else
        WholeItemsFit(|b.unread|, size, |b.unread| / size);
        (b, Got(|b.unread| / size, b.unread[..|b.unread| / size * size]))
    case ArraySeekOp(size, count) =>
      var n := SeekSize(size, count);
      if n > |b.unread| then (b, Halted) else (Drop(b, n), Sought)
  }

  // The reference: a first-in first-out queue that holds at most cap bytes.
  ghost predicate QueueStep(cap: nat, q: seq<byte>, op: Op, q': seq<byte>, reply: Reply) {
    match op
    case TryWriteOp(item) =>
      if item == [] then q' == q && reply == Halted
      else if |q + item| <= cap then q' == q + item && reply == Wrote(true)
      else q' == q && reply == Wrote(false)
    case TryReadOp(size) =>
      if size == 0 then q' == q && reply == Halted
      else if |q| < size then q' == q && reply == Missing
      else reply.Got? && |reply.bytes| == size && reply.count == 1 && q == reply.bytes + q'
    case ReadArrayOp(size, max) =>
      if size == 0 || max == 0 then q' == q && reply == Halted
      else
        && reply.Got? && q == reply.bytes + q'
        && |reply.bytes| == reply.count * size
        && reply.count <= max && (reply.count == max || |q'| < size)
    case ArrayItemsOp(size) =>
      if size == 0 then q' == q && reply == Halted
      else
        && q' == q && reply.Got? && reply.bytes <= q
        && |reply.bytes| == reply.count * size && |q| - |reply.bytes| < size
    case ArraySeekOp(size, count) =>
      var n := (count * size) % SIZE_LIMIT;
      if n > |q| then q' == q && reply == Halted
      else reply == Sought && q' == q[n..]
  }

  function BufRun(b: Buf, ops: seq<Op>): (r: (Buf, seq<Reply>))
    requires b.Ok()
    ensures r.0.Ok() && |r.1| == |ops|
    decreases |ops|
  {
    if ops == [] then (b, [])
    else
      var (c, reply) := BufStep(b, ops[0]);
      var (d, replies) := BufRun(c, ops[1..]);
      (d, [reply] + replies)
  }

  ghost predicate QueueRun(cap: nat, q: seq<byte>, ops: seq<Op>, q': seq<byte>, replies: seq<Reply>)
    decreases |ops|
  {
    && |replies| == |ops|
    && if ops == [] then q' == q
       else exists m :: QueueStep(cap, q, ops[0], m, replies[0]) && QueueRun(cap, m, ops[1..], q', replies[1..])
  }

  // One call behaves as it would on a queue, wherever compaction has put the bytes.
  lemma StepRefinesQueue(b: Buf, op: Op)
    requires b.Ok()
    ensures QueueStep(b.cap, b.unread, op, BufStep(b, op).0.unread, BufStep(b, op).1)
  {
    match op
    case TryWriteOp(_) =>
    case TryReadOp(size) =>
      if size <= |b.unread| {
        assert b.unread == b.unread[..size] + b.unread[size..];
      }
    case ReadArrayOp(size, max) => TakeArrayRefinesQueue(b, size, max);
    case ArrayItemsOp(size) => ItemsRefineQueue(b, size);
    case ArraySeekOp(_, _) =>
  }

  lemma TakeArrayRefinesQueue(b: Buf, size: nat, max: nat)
    requires b.Ok()
    ensures var op := ReadArrayOp(size, max);
      QueueStep(b.cap, b.unread, op, BufStep(b, op).0.unread, BufStep(b, op).1)
  {
    if size > 0 && max > 0 {
      var n := ArrayCount(b, size, max);
      var taken := n * size;
      assert (n + 1) * size == taken + size;
      assert b.unread == b.unread[..taken] + b.unread[taken..];
    }
  }

  lemma ItemsRefineQueue(b: Buf, size: nat)
    requires b.Ok()
    ensures var op := ArrayItemsOp(size);
      QueueStep(b.cap, b.unread, op, BufStep(b, op).0.unread, BufStep(b, op).1)
  {
    if size > 0 {
      var n := |b.unread| / size;
      WholeItemsFit(|b.unread|, size, n);
      assert (n + 1) * size == n * size + size;
    }
  }

  // The queue answers a call in one way only.
  lemma QueueDeterministic(cap: nat, q: seq<byte>, op: Op, q1: seq<byte>, r1: Reply, q2: seq<byte>, r2: Reply)
    requires QueueStep(cap, q, op, q1, r1) && QueueStep(cap, q, op, q2, r2)
    ensures q1 == q2 && r1 == r2
  {
    match op
    case TryWriteOp(_) =>
    case TryReadOp(size) =>
      if 0 < size <= |q| {
        SameSplit(q, r1.bytes, q1, r2.bytes, q2);
      }
    case ReadArrayOp(size, max) =>
      if size > 0 && max > 0 {
        SameCount(|q|, size, max, r1.count, |q1|, r2.count, |q2|);
        SameSplit(q, r1.bytes, q1, r2.bytes, q2);
      }
    case ArrayItemsOp(size) => SameItems(cap, q, size, r1, r2);
    case ArraySeekOp(_, _) =>
  }

  lemma SameItems(cap: nat, q: seq<byte>, size: nat, r1: Reply, r2: Reply)
    requires QueueStep(cap, q, ArrayItemsOp(size), q, r1) && QueueStep(cap, q, ArrayItemsOp(size), q, r2)
    ensures r1 == r2
  {
    if size > 0 {
      var max := r1.count + r2.count;
      SameCount(|q|, size, max, r1.count, |q| - |r1.bytes|, r2.count, |q| - |r2.bytes|);
      assert r1.bytes == q[..|r1.bytes|] && r2.bytes == q[..|r2.bytes|];
    }
  }

  lemma SameSplit(q: seq<byte>, a: seq<byte>, b: seq<byte>, c: seq<byte>, d: seq<byte>)
    requires q == a + b == c + d && |a| == |c|
    ensures a == c && b == d
  {
    assert a == q[..|a|] && c == q[..|c|];
    assert b == q[|a|..] && d == q[|c|..];
  }

  lemma SameCount(size: nat, item: nat, max: nat, n: nat, rest: nat, m: nat, rest': nat)
    requires size == n * item + rest == m * item + rest' && item > 0
    requires n <= max && (n == max || rest < item)
    requires m <= max && (m == max || rest' < item)
    ensures n == m && rest == rest'
  {
    MultipleAtLeast(item, n - m);
    MultipleAtLeast(item, m - n);
    assert item * (n - m) == n * item - m * item;
    assert item * (m - n) == m * item - n * item;
  }

  // Every trace of calls gets the replies of a bounded queue.
  lemma {:induction false} TraceRefinesQueue(b: Buf, ops: seq<Op>)
    requires b.Ok()
    ensures QueueRun(b.cap, b.unread, ops, BufRun(b, ops).0.unread, BufRun(b, ops).1)
    decreases |ops|
  {
    if ops != [] {
      StepRefinesQueue(b, ops[0]);
      var (c, reply) := BufStep(b, ops[0]);
      TraceRefinesQueue(c, ops[1..]);
      assert BufRun(b, ops).1[1..] == BufRun(c, ops[1..]).1;
    }
  }

  // Buffers with the same unread bytes and capacity cannot be told apart by these
  // calls, whatever was written to and read from them before.
  lemma {:induction false} Indistinguishable(a: Buf, b: Buf, ops: seq<Op>)
    requires a.Ok() && b.Ok() && a.cap == b.cap && a.unread == b.unread
    ensures BufRun(a, ops).1 == BufRun(b, ops).1
    ensures BufRun(a, ops).0.unread == BufRun(b, ops).0.unread
    decreases |ops|
  {
    if ops != [] {
      StepRefinesQueue(a, ops[0]);
      StepRefinesQueue(b, ops[0]);
      var (a1, r1) := BufStep(a, ops[0]);
      var (b1, r2) := BufStep(b, ops[0]);
      QueueDeterministic(a.cap, a.unread, ops[0], a1.unread, r1, b1.unread, r2);
      Indistinguishable(a1, b1, ops[1..]);
    }
  }

  // -- filling from a descriptor ---------------------------------------------------

  // The outcome of io_buffer_write_from_read.
  datatype Fill = Fill(buf: Buf, source: Source, error: int, eof: bool)

  function MakeRoom(b: Buf): (c: Buf)
    requires b.Ok() && b.Available() > 0
    ensures c.Ok() && c.cap > c.Used() && c.cap == b.cap && c.unread == b.unread
  {
    if b.cap == b.Used() then Compact(b) else b
  }

  function Refill(b: Buf, max: nat, source: Source): (f: Fill)
    requires b.Ok() && b.Available() > 0 && max > 0
    ensures f.buf.Ok() && f.buf.cap == b.cap
    ensures f.error == 0 ==> |f.source.readScript| < |source.readScript|
    decreases |source.readScript|
  {
    var c := MakeRoom(b);
    var want := Min(max, c.cap - c.Used());
    var (answer, rest) := source.NextRead();
    match answer
    case Failed(errno) =>
      if errno == EINTR then Refill(c, max, rest)
      else Fill(c, rest, IoError(errno), false)
    case Transferred(n) =>
      var count := rest.Transfer(n, want);
      Fill(c.(unread := c.unread + source.file[..count]), rest.Advance(count), 0, count == 0)
  }

  lemma Cut(memory: seq<byte>, from: nat, to: nat, n: nat)
    requires from + n <= to <= |memory|
    ensures memory[from..to][..n] == memory[from..from + n]
    ensures memory[from..to][n..] == memory[from + n..to]
  {
  }

  // -- the structure in memory -----------------------------------------------------

  class IoBuffer {
    const data: array<byte>
    var sizeUsed: nat
    var startOffset: nat

    ghost predicate Valid()
      reads this
    {
      startOffset <= sizeUsed <= data.Length < SIZE_LIMIT
    }

    ghost function Value(): (b: Buf)
      requires Valid()
      reads this, data
      ensures b.Ok()
    {
      Buf(data.Length, startOffset, data[startOffset..sizeUsed])
    }

    constructor (size: nat)
      requires 0 < size < SIZE_LIMIT
      ensures Valid() && fresh(data) && Value() == Buf(size, 0, [])
    {
      data := new byte[size];
      sizeUsed := 0;
      startOffset := 0;
    }

    function UnreadSize(): (n: nat)
      requires Valid()
      reads this, data
      ensures n == |Value().unread|
    {
      sizeUsed - startOffset
    }

    function AvailableSize(): (n: nat)
      requires Valid()
      reads this, data
      ensures n == Value().Available()
    {
      data.Length - UnreadSize()
    }

    predicate IsEmpty()
      requires Valid()
      reads this, data
    {
      UnreadSize() == 0
    }

    predicate IsFull()
      requires Valid()
      reads this, data
    {
      AvailableSize() == 0
    }

    // memmove within the allocation: the ranges may overlap, and the destination
    // lies in front of the source.
    method MoveToFront(from: nat, count: nat)
      requires from + count <= data.Length
      modifies data
      ensures data[..count] == old(data[from..from + count])
    {
      var i := 0;
      while i < count
        invariant 0 <= i <= count
        invariant forall k :: 0 <= k < i ==> data[k] == old(data[from + k])
        invariant forall k :: i <= k < data.Length ==> data[k] == old(data[k])
      {
        data[i] := data[from + i];
        i := i + 1;
      }
    }

    method NoPadding()
      requires Valid()
      modifies this, data
      ensures Valid() && Value() == Compact(old(Value()))
    {
      if startOffset > 0 {
        var unreadSize := UnreadSize();
        MoveToFront(startOffset, unreadSize);
        startOffset := 0;
        sizeUsed := unreadSize;
      }
    }

    // memcpy from another object's memory.
    method CopyIn(src: array<byte>, at: nat, count: nat)
      requires Valid() && src != data
      requires at + count <= src.Length && sizeUsed + count <= data.Length
      modifies data
      ensures data[..sizeUsed] == old(data[..sizeUsed])
      ensures data[sizeUsed..sizeUsed + count] == src[at..at + count]
    {
      var i := 0;
      while i < count
        invariant 0 <= i <= count
        invariant data[..sizeUsed] == old(data[..sizeUsed])
        invariant data[sizeUsed..sizeUsed + i] == src[at..at + i]
      {
        data[sizeUsed + i] := src[at + i];
        i := i + 1;
      }
    }

    // Appends what fits behind the unread bytes.
    method Append(src: array<byte>, at: nat, count: nat)
      requires Valid() && src != data
      requires at + count <= src.Length && sizeUsed + count <= data.Length
      modifies this`sizeUsed, data
      ensures Valid()
      ensures Value() == old(Value()).(unread := old(Value()).unread + src[at..at + count])
    {
      ghost var before, front := Value(), data[..sizeUsed];
      CopyIn(src, at, count);
      assert before.unread == front[startOffset..] == data[startOffset..sizeUsed];
      ghost var copied := data[sizeUsed..sizeUsed + count];
      sizeUsed := sizeUsed + count;
      assert Value().unread == before.unread + copied;
    }

    method TryWrite(itemSize: nat, src: array<byte>, at: nat) returns (done: bool)
      requires Valid() && itemSize > 0
      requires src != data && at + itemSize <= src.Length
      modifies this, data
      ensures Valid()
      ensures (Value(), done) == Put(old(Value()), src[at..at + itemSize])
    {
      var remaining := data.Length - UnreadSize();
      if remaining < itemSize {
        done := false;
      } else {
        if data.Length - sizeUsed < itemSize {
          NoPadding();
        }
        Append(src, at, itemSize);
        done := true;
      }
    }

    // On success the item lies at data[at..at + itemSize]; no byte of memory moves.
    method TryRead(itemSize: nat) returns (done: bool, at: nat)
      requires Valid() && itemSize > 0
      modifies this`startOffset
      ensures Valid()
      ensures (Value(), done) == Take(old(Value()), itemSize)
      ensures done ==> at + itemSize <= data.Length && data[at..at + itemSize] == old(Value()).unread[..itemSize]
    {
      var available := UnreadSize();
      at := startOffset;
      if available >= itemSize {
        Cut(data[..], at, sizeUsed, itemSize);
        startOffset := startOffset + itemSize;
        done := true;
      } else {
        done := false;
      }
    }

    // The items taken lie at data[at..at + count * itemSize].
    method ReadArray(itemSize: nat, maxCount: nat) returns (count: nat, at: nat)
      requires Valid() && itemSize > 0 && maxCount > 0
      modifies this`startOffset
      ensures Valid()
      ensures count == ArrayCount(old(Value()), itemSize, maxCount)
      ensures Value() == TakeArray(old(Value()), itemSize, maxCount)
      ensures at + count * itemSize <= data.Length
      ensures data[at..at + count * itemSize] == old(Value()).unread[..count * itemSize]
    {
      var available := UnreadSize();
      count := Min(maxCount, available / itemSize);
      at := startOffset;
      WholeItemsFit(available, itemSize, count);
      ghost var size := count * itemSize;
      Cut(data[..], at, sizeUsed, size);
      if count > 0 {
        startOffset := startOffset + count * itemSize;
      }
    }

    // The unread bytes, and so the items visible in them, lie at data[at..]; nothing is
    // consumed.
    method ArrayItems(itemSize: nat) returns (at: nat, count: nat)
      requires Valid() && itemSize > 0
      ensures count == UnreadSize() / itemSize
      ensures count * itemSize <= UnreadSize() < (count + 1) * itemSize
      ensures at + UnreadSize() <= data.Length && data[at..at + UnreadSize()] == Value().unread
    {
      at := startOffset;
      count := UnreadSize() / itemSize;
      WholeItemsFit(UnreadSize(), itemSize, count);
    }

    method ArraySeek(itemSize: nat, count: nat)
      requires Valid() && SeekSize(itemSize, count) <= UnreadSize()
      modifies this`startOffset
      ensures Valid()
      ensures Value() == Drop(old(Value()), SeekSize(itemSize, count))
    {
      var seekSize := SeekSize(itemSize, count);
      Cut(data[..], startOffset, sizeUsed, seekSize);
      startOffset := startOffset + seekSize;
    }

    // One read(2) into the room behind the unread bytes.
    method ReadBehind(max: nat, fd: Descriptor) returns (answer: ReadAnswer)
      requires Valid() && sizeUsed < data.Length && max > 0
      modifies this, data, fd
      ensures Valid()
      ensures var b := old(Value());
        var (a, rest) := old(fd.state).NextRead();
        match a
        case Failed(_) => answer == a && Value() == b && fd.state == rest
        case Transferred(n) =>
          var count := rest.Transfer(n, Min(max, b.cap - b.Used()));
          && answer == Transferred(count) && fd.state == rest.Advance(count)
          && Value() == b.(unread := b.unread + old(fd.state).file[..count])
    {
      ghost var before, front := Value(), data[..sizeUsed];
      answer := fd.Read(data, sizeUsed, Min(max, data.Length - sizeUsed));
      assert before.unread == front[startOffset..] == data[startOffset..sizeUsed];
      if answer.Transferred? {
        ghost var got := data[sizeUsed..sizeUsed + answer.n];
        sizeUsed := sizeUsed + answer.n;
        assert Value().unread == before.unread + got;
      }
    }

    method WriteFromRead(max: nat, fd: Descriptor) returns (error: int, eof: bool)
      requires Valid() && UnreadSize() < data.Length && max > 0
      modifies this, data, fd
      ensures Valid()
      ensures Fill(Value(), fd.state, error, eof) == Refill(old(Value()), max, old(fd.state))
      decreases |fd.state.readScript|
    {
      if data.Length == sizeUsed {
        NoPadding();
      }
      assert data.Length > sizeUsed;
      assert Value() == MakeRoom(old(Value()));
      var answer := ReadBehind(max, fd);
      match answer {
        case Failed(errno) =>
          if errno == EINTR {
            error, eof := WriteFromRead(max, fd);
          } else {
            error, eof := IoError(errno), false;
          }
        case Transferred(count) =>
          error, eof := 0, count == 0;
      }
    }
  }
}
