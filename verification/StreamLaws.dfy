// What the read-forward stream promises: bytes come out in file order, each once,
// and an exact read fails for want of bytes only when there are too few.
module StreamLaws {
  import opened Bytes
  import opened Kernel
  import opened IoBuffers
  import opened RfStreams

  // -- refills move bytes from the file to the buffer, in order ---------------------

  lemma {:induction false} RefillKeepsBytes(b: Buf, max: nat, source: Source)
    requires b.Ok() && b.Available() > 0 && max > 0
    ensures var f := Refill(b, max, source);
      && f.buf.unread + f.source.file == b.unread + source.file
      && b.unread <= f.buf.unread
      && f.source.pollScript == source.pollScript
      && (f.error != 0 ==> f.buf.unread == b.unread && !f.eof)
      && (f.error == 0 ==> (f.eof <==> source.file == []) && (f.eof <==> f.buf.unread == b.unread))
    decreases |source.readScript|
  {
    var c := MakeRoom(b);
    var want := Min(max, c.cap - c.Used());
    var (answer, rest) := source.NextRead();
    match answer
    case Failed(errno) =>
      if errno == EINTR {
        RefillKeepsBytes(c, max, rest);
      }
    case Transferred(n) =>
      var count := rest.Transfer(n, want);
      assert source.file == source.file[..count] + source.file[count..];
      assert b.unread + source.file == (b.unread + source.file[..count]) + source.file[count..];
  }

  // However much room there is, and however often it is interrupted, a refill adds no more
  // than the largest single read.
  lemma {:induction false} RefillBounded(b: Buf, max: nat, source: Source)
    requires b.Ok() && b.Available() > 0 && max > 0
    ensures |b.unread| <= |Refill(b, max, source).buf.unread| <= |b.unread| + max
    decreases |source.readScript|
  {
    var script := source.readScript;
    if script != [] && script[0] == Failed(EINTR) {
      RefillBounded(MakeRoom(b), max, source.(readScript := script[1..]));
    }
  }

  // The room at the end of the buffer, once the unread bytes are moved to the front if they
  // stand at the end
  function RoomBehind(b: Buf): nat
    requires b.Ok() && b.Available() > 0
  {
    if b.pad + |b.unread| == b.cap then b.pad else b.cap - b.pad - |b.unread|
  }

  // After any number of interruptions, a read that transfers up to n bytes brings exactly the
  // smallest of: n, the largest single read, the room, and what is left of the file.
  lemma {:induction false} RefillExact(
    b: Buf, max: nat, source: Source, interruptions: nat, n: nat, later: seq<ReadAnswer>)
    requires b.Ok() && b.Available() > 0 && max > 0 && n > 0
    requires source.readScript == seq(interruptions, _ => Failed(EINTR)) + [Transferred(n)] + later
    ensures var f := Refill(b, max, source);
      var count := Min(Min(max, RoomBehind(b)), Min(n, |source.file|));
      && f.error == 0 && (f.eof <==> source.file == [])
      && f.buf.unread == b.unread + source.file[..count] && f.source.file == source.file[count..]
      && f.source.readScript == later && f.source.pollScript == source.pollScript
    decreases interruptions
  {
    var script := source.readScript;
    if interruptions == 0 {
      assert script[0] == Transferred(n) && script[1..] == later;
    } else {
      assert script[0] == Failed(EINTR);
      assert script[1..] == seq(interruptions - 1, _ => Failed(EINTR)) + [Transferred(n)] + later;
      RefillExact(MakeRoom(b), max, source.(readScript := script[1..]), interruptions - 1, n, later);
    }
  }

  lemma RefillOnceKeepsBytes(s: Stream)
    requires s.Ok() && s.buf.Available() > 0
    ensures var (t, error) := RefillOnce(s);
      && t.Rest() == s.Rest() && s.buf.unread <= t.buf.unread
      && t.source.pollScript == s.source.pollScript
      && (error != 0 ==> t.buf.unread == s.buf.unread && t.open == s.open)
      && (error == 0 && s.open ==> (t.open <==> s.source.file != []) && (t.open <==> t.buf.unread != s.buf.unread))
  {
    RefillKeepsBytes(s.buf, s.maxRead, s.source);
  }

  // The end of the file is latched only once every byte of it has been taken.
  ghost predicate ClosedWhenDone(s: Stream) {
    !s.open ==> s.source.file == []
  }

  lemma {:induction false} FillToKeepsBytes(s: Stream, size: nat)
    requires s.Ok() && size <= s.buf.cap
    ensures var (t, error) := FillTo(s, size);
      && t.Rest() == s.Rest() && s.buf.unread <= t.buf.unread
      && t.source.pollScript == s.source.pollScript
      && (ClosedWhenDone(s) ==> ClosedWhenDone(t))
      && (s.open && !t.open ==> t.source.file == [])
      && (error == 0 ==> |t.buf.unread| >= size || !t.open)
    decreases |s.source.readScript|
  {
    if s.open && |s.buf.unread| < size {
      RefillOnceKeepsBytes(s);
      var (t, error) := RefillOnce(s);
      if error == 0 {
        FillToKeepsBytes(t, size);
      }
    }
  }

  // A block read returns the next bytes of the file, or nothing at all.
  lemma ReadBlockIsNextSlice(s: Stream, size: nat)
    requires s.Ok() && 0 < size <= s.buf.cap
    ensures var r := ReadBlock(s, size);
      && r.block + r.stream.Rest() == s.Rest()
      && |r.block| == (if r.error == 0 then size else 0)
      && r.stream.source.pollScript == s.source.pollScript
      && (ClosedWhenDone(s) ==> ClosedWhenDone(r.stream))
      && (r.error == 0 ==> size <= |s.Reachable()|)
  {
    FillToKeepsBytes(s, size);
    var (t, error) := FillTo(s, size);
    if error == 0 && |t.buf.unread| >= size {
      SplitAt(t.buf.unread, t.source.file, size);
    }
  }

  lemma SplitAt(a: seq<byte>, b: seq<byte>, n: nat)
    requires n <= |a|
    ensures a[..n] + (a[n..] + b) == a + b
  {
  }

  // -- exact success ----------------------------------------------------------------

  // No read fails other than by being interrupted.
  predicate NeverFails(script: seq<ReadAnswer>) {
    forall a :: a in script && a.Failed? ==> a.errno == EINTR
  }

  // The number of reads the script completes.
  function Transfers(script: seq<ReadAnswer>): nat {
    if script == [] then 0 else (if script[0].Transferred? then 1 else 0) + Transfers(script[1..])
  }

  lemma {:induction false} RefillSucceeds(b: Buf, max: nat, source: Source)
    requires b.Ok() && b.Available() > 0 && max > 0
    requires NeverFails(source.readScript) && Transfers(source.readScript) > 0
    ensures var f := Refill(b, max, source);
      && f.error == 0 && NeverFails(f.source.readScript)
      && Transfers(f.source.readScript) == Transfers(source.readScript) - 1
    decreases |source.readScript|
  {
    var script := source.readScript;
    assert script[0] in script;
    assert forall a :: a in script[1..] ==> a in script;
    if script[0].Failed? {
      RefillSucceeds(MakeRoom(b), max, source.(readScript := script[1..]));
    }
  }

  // A completed read for every byte left, and one for the end of the file.
  predicate Supplied(s: Stream) {
    s.open ==> NeverFails(s.source.readScript) && Transfers(s.source.readScript) > |s.source.file|
  }

  // A completed read for every byte the buffer lacks, or a fully supplied stream.
  predicate SuppliedFor(s: Stream, size: nat) {
    s.open ==>
      && NeverFails(s.source.readScript)
      && (|s.buf.unread| + Transfers(s.source.readScript) >= size || Supplied(s))
  }

  lemma RefillOnceSucceeds(s: Stream)
    requires s.Ok() && s.open && s.buf.Available() > 0
    requires NeverFails(s.source.readScript) && Transfers(s.source.readScript) > 0
    ensures var (t, error) := RefillOnce(s);
      && error == 0 && NeverFails(t.source.readScript)
      && Transfers(t.source.readScript) == Transfers(s.source.readScript) - 1
      && (Supplied(s) ==> Supplied(t))
      && (t.open ==> |t.source.file| < |s.source.file| && |t.buf.unread| > |s.buf.unread|)
  {
    RefillSucceeds(s.buf, s.maxRead, s.source);
    RefillOnceKeepsBytes(s);
    var t := RefillOnce(s).0;
    assert |t.buf.unread| + |t.source.file| == |s.buf.unread| + |s.source.file|;
  }

  lemma {:induction false} FillToSucceeds(s: Stream, size: nat)
    requires s.Ok() && size <= s.buf.cap && SuppliedFor(s, size)
    ensures FillTo(s, size).1 == 0 && (Supplied(s) ==> Supplied(FillTo(s, size).0))
    decreases |s.source.readScript|
  {
    if s.open && |s.buf.unread| < size {
      RefillOnceSucceeds(s);
      FillToSucceeds(RefillOnce(s).0, size);
    }
  }

  // With no I/O failures and a completed read for every byte that is missing, a block
  // read ends, and succeeds exactly if enough bytes are left.
  lemma ReadBlockExact(s: Stream, size: nat)
    requires s.Ok() && 0 < size <= s.buf.cap && SuppliedFor(s, size)
    ensures var r := ReadBlock(s, size);
      && (r.error == 0 <==> size <= |s.Reachable()|)
      && (r.error != 0 ==> r.error == EIO && r.stream.Rest() == s.Rest())
      && (Supplied(s) ==> Supplied(r.stream))
  {
    ReadBlockIsNextSlice(s, size);
    FillToSucceeds(s, size);
    FillToKeepsBytes(s, size);
  }

  lemma ReadBlockAdvances(s: Stream, size: nat)
    requires s.Ok() && 0 < size <= s.buf.cap && ReadBlock(s, size).error == 0
    ensures var r := ReadBlock(s, size);
      && size <= |s.Reachable()| && r.block == s.Reachable()[..size]
      && r.stream.Reachable() == s.Reachable()[size..]
      && r.stream.Rest() == s.Rest()[size..]
  {
    ReadBlockIsNextSlice(s, size);
    FillToKeepsBytes(s, size);
    var r := ReadBlock(s, size);
    assert s.Rest()[..size] == r.block && s.Rest()[size..] == r.stream.Rest();
    if !s.open {
      assert s.Reachable() == s.buf.unread == r.block + r.stream.buf.unread;
    } else if !r.stream.open {
      assert r.stream.source.file == [];
    }
  }

  // A descriptor that is supplied with reads, and readable whenever it is polled, once for
  // every byte left and for the end of the file.
  ghost predicate Generous(s: Stream) {
    && Supplied(s)
    && (s.open ==>
          && (forall a :: a in s.source.pollScript ==> a.Events? && a.readable)
          && |s.source.pollScript| > |s.source.file|)
  }

  lemma ReadBlockStaysGenerous(s: Stream, size: nat)
    requires s.Ok() && 0 < size <= s.buf.cap && Generous(s)
    ensures Generous(ReadBlock(s, size).stream)
  {
    ReadBlockExact(s, size);
    FillToKeepsBytes(s, size);
    var t := FillTo(s, size).0;
    assert |t.buf.unread| + |t.source.file| == |s.buf.unread| + |s.source.file|;
  }

  // -- any mix of calls -------------------------------------------------------------

  datatype Call = ReadCall(size: nat) | ArrayCall(itemSize: nat, maxCount: nat) | PollCall

  // Whether the call meets the assertions at its head.
  predicate Allowed(s: Stream, call: Call) {
    match call
    case ReadCall(size) => 0 < size <= s.buf.cap
    case ArrayCall(itemSize, maxCount) => itemSize > 0 && maxCount > 0
    case PollCall => s.open && s.buf.Available() > 0
  }

  // The stream after the call, and the bytes the caller was given.
  function CallStep(s: Stream, call: Call): (r: (Stream, seq<byte>))
    requires s.Ok() && Allowed(s, call)
    ensures r.0.Ok()
  {
    match call
    case ReadCall(size) => var r := ReadBlock(s, size); (r.stream, r.block)
    case ArrayCall(itemSize, maxCount) =>
      var n := ArrayCount(s.buf, itemSize, maxCount) * itemSize;
      (s.(buf := TakeArray(s.buf, itemSize, maxCount)), s.buf.unread[..n])
    case PollCall => (PollAndRefill(s).0, [])
  }

  // All bytes handed out by a sequence of calls; a call whose assertion fails ends it.
  function CallRun(s: Stream, calls: seq<Call>): (r: (Stream, seq<byte>))
    requires s.Ok()
    ensures r.0.Ok()
    decreases |calls|
  {
    if calls == [] || !Allowed(s, calls[0]) then (s, [])
    else
      var (t, given) := CallStep(s, calls[0]);
      var (u, later) := CallRun(t, calls[1..]);
      (u, given + later)
  }

  // A poll made now does not report a hang-up alone while bytes are left.
  predicate HonestPoll(s: Stream)
    requires s.Ok()
  {
    s.open && s.buf.Available() > 0 && s.source.NextPoll().0 == Events(false, true) ==> s.source.file == []
  }

  lemma PollAndRefillKeepsBytes(s: Stream)
    requires s.Ok() && s.open && s.buf.Available() > 0
    ensures var (t, error) := PollAndRefill(s);
      && t.Rest() == s.Rest() && s.buf.unread <= t.buf.unread
      && (error != 0 ==> t.open && t.buf.unread == s.buf.unread)
      && (error == 0 ==> (t.open <==> t.buf.unread != s.buf.unread))
      && (HonestPoll(s) <==> ClosedWhenDone(t))
  {
    var (answer, rest) := s.source.NextPoll();
    RefillOnceKeepsBytes(s.(source := rest));
  }

  lemma PollConsumed(s: Stream)
    requires s.Ok() && s.open && s.buf.Available() > 0
    ensures var (t, error) := PollAndRefill(s);
      if s.source.pollScript == [] then error == EIO
      else t.source.pollScript == s.source.pollScript[1..]
  {
    if s.source.pollScript != [] {
      RefillOnceKeepsBytes(s.(source := s.source.(pollScript := s.source.pollScript[1..])));
    }
  }

  // No poll of the script reports a hang-up alone.
  predicate NoLoneHangUp(source: Source) {
    Events(false, true) !in source.pollScript
  }

  // The stream ends where the file does, now and later.
  ghost predicate Complete(s: Stream) {
    ClosedWhenDone(s) && NoLoneHangUp(s.source)
  }

  lemma PollAndRefillComplete(s: Stream)
    requires s.Ok() && s.open && s.buf.Available() > 0
    ensures NoLoneHangUp(s.source) ==> Complete(PollAndRefill(s).0)
  {
    PollConsumed(s);
    PollAndRefillKeepsBytes(s);
    var script := s.source.pollScript;
    if script == [] {
      assert PollAndRefill(s).0 == s;
    } else {
      assert script[0] in script;
      assert forall a :: a in script[1..] ==> a in script;
    }
  }

  lemma CallStepIsNextSlice(s: Stream, call: Call)
    requires s.Ok() && Allowed(s, call)
    ensures CallStep(s, call).1 + CallStep(s, call).0.Rest() == s.Rest()
  {
    match call
    case ReadCall(size) => ReadBlockIsNextSlice(s, size);
    case ArrayCall(itemSize, maxCount) =>
      var n := ArrayCount(s.buf, itemSize, maxCount) * itemSize;
      SplitAt(s.buf.unread, s.source.file, n);
    case PollCall => PollAndRefillKeepsBytes(s);
  }

  // Whatever calls are made and however the system answers, the bytes given out are
  // the file read forward, and what is left is still to come.
  lemma {:induction false} ReadForward(s: Stream, calls: seq<Call>)
    requires s.Ok()
    ensures CallRun(s, calls).1 + CallRun(s, calls).0.Rest() == s.Rest()
    decreases |calls|
  {
    if calls != [] && Allowed(s, calls[0]) {
      CallStepIsNextSlice(s, calls[0]);
      var (t, given) := CallStep(s, calls[0]);
      ReadForward(t, calls[1..]);
    }
  }

  // How much one refill may take does depend on the dead bytes in front: two streams
  // with equal unread bytes and capacity can be filled differently by the same answer.
  lemma RefillSeesPadding()
    ensures var source := Source([7, 8], [Transferred(2)], []);
      && Refill(Buf(3, 0, [1]), 2, source).buf.unread == [1, 7, 8]
      && Refill(Buf(3, 1, [1]), 2, source).buf.unread == [1, 7]
  {
    var source := Source([7, 8], [Transferred(2)], []);
    assert source.file[..2] == [7, 8] && source.file[..1] == [7];
  }
}
