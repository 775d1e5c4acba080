// The codes with which reads, polls, steps and the play loop fail: read off the scripts of
// the environment, and neither dropped nor replaced on the way up.
module ErrorLaws {
  import opened Kernel
  import opened IoBuffers
  import opened RfStreams
  import opened StreamLaws
  import opened WriteLaws
  import opened Pipeline
  import opened PipelineLaws

  // -- reads and polls ------------------------------------------------------------------------

  // The code of the next read that is not interrupted, or 0 if it transfers something
  function ReadCode(script: seq<ReadAnswer>): int
    decreases |script|
  {
    if script == [] then EIO
    else
      match script[0]
      case Transferred(_) => 0
      case Failed(errno) => if errno == EINTR then ReadCode(script[1..]) else if errno == 0 then EIO else errno
  }

  lemma {:induction false} RefillCode(b: Buf, max: nat, source: Source)
    requires b.Ok() && b.Available() > 0 && max > 0
    ensures Refill(b, max, source).error == ReadCode(source.readScript)
    decreases |source.readScript|
  {
    var script := source.readScript;
    if script != [] && script[0] == Failed(EINTR) {
      RefillCode(MakeRoom(b), max, source.(readScript := script[1..]));
    }
  }

  // The code of the next poll, or of the read that it leads to
  function PollCode(source: Source): int {
    if source.pollScript == [] then EIO
    else
      match source.pollScript[0]
      case PollFailed(errno) => if errno == 0 then EIO else errno
      case TimedOut => EAGAIN
      case Events(readable, hungUp) => if readable then ReadCode(source.readScript) else if hungUp then 0 else EIO
  }

  // The source is asked for more if it is open and has room.
  function SourceCode(s: Stream): int {
    if s.open && !s.IsFull() then PollCode(s.source) else 0
  }

  // A polled read fails with exactly this code. It brings no more than the largest single
  // read, and nothing if it fails.
  lemma ReadSourceExactly(s: Stream)
    requires s.Ok()
    ensures var (t, error) := ReadSource(s);
      && error == SourceCode(s)
      && |s.buf.unread| <= |t.buf.unread| <= |s.buf.unread| + s.maxRead
      && (error != 0 ==> t.buf.unread == s.buf.unread && t.source.file == s.source.file && t.open == s.open)
  {
    if s.open && !s.IsFull() {
      var polled := s.source.NextPoll().1;
      RefillCode(s.buf, s.maxRead, polled);
      RefillBounded(s.buf, s.maxRead, polled);
      PollAndRefillKeepsBytes(s);
      if ReadSource(s).1 != 0 {
        SameFile(s, ReadSource(s).0);
      }
    }
  }

  lemma SameFile(s: Stream, t: Stream)
    requires s.Rest() == t.Rest() && s.buf.unread == t.buf.unread
    ensures s.source.file == t.source.file
  {
    assert s.Rest()[|s.buf.unread|..] == t.Rest()[|t.buf.unread|..];
  }

  // -- block reads ------------------------------------------------------------------------------

  // The code of the first read that fails before `size` bytes are buffered, or 0
  function FillCode(s: Stream, size: nat): int
    requires s.Ok() && size <= s.buf.cap
    decreases |s.source.readScript|
  {
    if !s.open || |s.buf.unread| >= size then 0
    else
      RefillCode(s.buf, s.maxRead, s.source);
      if ReadCode(s.source.readScript) != 0 then ReadCode(s.source.readScript) else FillCode(RefillOnce(s).0, size)
  }

  // A block read fails with that code, or with EIO for want of bytes; either way it
  // consumes none.
  lemma {:induction false} FillFails(s: Stream, size: nat)
    requires s.Ok() && size <= s.buf.cap
    ensures FillTo(s, size).1 == FillCode(s, size)
    decreases |s.source.readScript|
  {
    if s.open && |s.buf.unread| < size {
      RefillCode(s.buf, s.maxRead, s.source);
      if RefillOnce(s).1 == 0 {
        FillFails(RefillOnce(s).0, size);
      }
    }
  }

  lemma ReadBlockCode(s: Stream, size: nat)
    requires s.Ok() && 0 < size <= s.buf.cap
    ensures var r := ReadBlock(s, size);
      && r.error == (if FillCode(s, size) != 0 then FillCode(s, size) else if size <= |s.Reachable()| then 0 else EIO)
      && (r.error != 0 ==> r.stream.Rest() == s.Rest())
  {
    FillFails(s, size);
    FillToKeepsBytes(s, size);
    ReadBlockIsNextSlice(s, size);
  }

  // -- the first period ---------------------------------------------------------------------------

  // The code of the first polled read of the loop that fails, or 0
  function LoopCode(s: State, period: nat): int
    requires s.Ok()
    decreases s.sink.out.Available()
  {
    if s.src.buf.unread == [] || |s.sink.out.unread| / s.sink.frame >= period || s.sink.out.Available() == 0 then 0
    else
      var t := DecodeOnce(s);
      if t.src.IsEmpty() then LoopCode(t, period)
      else if SourceCode(t.src) != 0 then SourceCode(t.src)
      else LoopCode(t.(src := ReadSource(t.src).0), period)
  }

  function PreloadCode(s: State, period: nat): int
    requires s.Ok()
  {
    if SourceCode(s.src) != 0 then SourceCode(s.src) else LoopCode(s.(src := ReadSource(s.src).0), period)
  }

  lemma {:induction false} LoopFails(s: State, period: nat)
    requires s.Ok()
    ensures var ending := PreloadLoop(s, period).1;
      if LoopCode(s, period) != 0 then ending == Returned(LoopCode(s, period))
      else ending == Returned(0) || ending == Aborted
    decreases s.sink.out.Available()
  {
    if s.src.buf.unread != [] && |s.sink.out.unread| / s.sink.frame < period && s.sink.out.Available() > 0 {
      var t := DecodeOnce(s);
      ReadSourceExactly(t.src);
      if t.src.IsEmpty() {
        LoopFails(t, period);
      } else if SourceCode(t.src) == 0 {
        LoopFails(t.(src := ReadSource(t.src).0), period);
      }
    }
  }

  // Preloading the first period fails with exactly the code of its first failing read.
  lemma PreloadFails(s: State, period: nat)
    requires s.Ok()
    ensures var ending := PreloadFirstPeriod(s, period).1;
      if PreloadCode(s, period) != 0 then ending == Returned(PreloadCode(s, period))
      else ending == Returned(0) || ending == Aborted
  {
    ReadSourceExactly(s.src);
    LoopFails(s.(src := ReadSource(s.src).0), period);
  }

  // -- steps --------------------------------------------------------------------------------------

  // A step fails with the code of its source, or, if there is none, with that of the write
  // that follows when a frame is buffered.
  function StepCode(s: State): int
    requires s.Ok()
  {
    if SourceCode(s.src) != 0 then SourceCode(s.src)
    else if Preload(s).0.sink.IsEmpty() then 0
    else WriteCode(s.sink.device)
  }

  lemma StepFails(s: State)
    requires s.Ok()
    ensures ProcessOnce(s).1 == StepCode(s)
    ensures SourceCode(s.src) != 0 ==> NothingMoved(s, ProcessOnce(s).0)
  {
    ReadSourceExactly(s.src);
    PreloadKeeps(s);
    var (t, error) := Preload(s);
    if error == 0 && !t.sink.IsEmpty() {
      WriteAlsaExactly(t.sink);
    }
  }

  // No byte between the buffers, from the file, or to the device
  predicate NothingMoved(s: State, t: State) {
    && t.sink == s.sink && t.src.open == s.src.open
    && t.src.buf.unread == s.src.buf.unread && t.src.source.file == s.src.source.file
  }

  // A step without an error writes what the device takes of what the preload has left.
  lemma StepWrites(s: State)
    requires s.Ok() && SourceCode(s.src) == 0
    ensures var u, t := Preload(s).0, ProcessOnce(s).0;
      var k := if u.sink.IsEmpty() then 0 else FramesWritten(s.sink.device, |u.sink.out.unread| / u.sink.frame);
      && t.src == u.src && 0 <= k * u.sink.frame <= |u.sink.out.unread|
      && t.sink.device.delivered == s.sink.device.delivered + u.sink.out.unread[..k * u.sink.frame]
      && t.sink.out.unread == u.sink.out.unread[k * u.sink.frame..]
  {
    ReadSourceExactly(s.src);
    PreloadKeeps(s);
    var u := Preload(s).0;
    if !u.sink.IsEmpty() {
      WriteAlsaExactly(u.sink);
    }
  }

  // -- the play loop -----------------------------------------------------------------------------

  // A turn fails with the code of its step, or of the status query after it.
  function TurnCode(s: State, check: Check): int
    requires s.Ok()
  {
    if StepCode(s) != 0 then StepCode(s) else if check.status < 0 then check.status else 0
  }

  // The first n turns pass: none of them ends playback or fails.
  predicate Passes(s: State, checks: seq<Check>, n: nat)
    requires s.Ok()
    decreases n
  {
    n > 0 ==>
      && checks != [] && !HasEnded(s, checks[0]) && TurnCode(s, checks[0]) == 0
      && Passes(ProcessOnce(s).0, checks[1..], n - 1)
  }

  // After n turns that pass, the loop has stopped: there are no more turns, or playback has
  // ended, or the next turn fails.
  predicate StopsAt(s: State, checks: seq<Check>, n: nat, r: PlayResult)
    requires s.Ok()
  {
    && n <= |checks| && Passes(s, checks, n)
    && if n == |checks| then r == PlayResult(Run(s, n), 0, false)
       else if HasEnded(Run(s, n), checks[n]) then r == PlayResult(Run(s, n), 0, true)
       else r == PlayResult(ProcessOnce(Run(s, n)).0, TurnCode(Run(s, n), checks[n]), false) && r.error != 0
  }

  // The play loop stops where its turns do, or at the first that does not pass: because
  // playback has ended there, or with the code of that turn.
  lemma {:induction false} PlayStops(s: State, checks: seq<Check>) returns (n: nat)
    requires s.Ok()
    ensures StopsAt(s, checks, n, Play(s, checks))
    decreases |checks|
  {
    if checks == [] || HasEnded(s, checks[0]) || TurnCode(s, checks[0]) != 0 {
      StopsNow(s, checks);
      n := 0;
    } else {
      var m := PlayStops(ProcessOnce(s).0, checks[1..]);
      StopsLater(s, checks, m, Play(ProcessOnce(s).0, checks[1..]));
      TurnPasses(s, checks);
      n := m + 1;
    }
  }

  lemma StopsNow(s: State, checks: seq<Check>)
    requires s.Ok() && (checks == [] || HasEnded(s, checks[0]) || TurnCode(s, checks[0]) != 0)
    ensures StopsAt(s, checks, 0, Play(s, checks))
  {
    StepFails(s);
  }

  lemma TurnPasses(s: State, checks: seq<Check>)
    requires s.Ok() && checks != [] && !HasEnded(s, checks[0]) && TurnCode(s, checks[0]) == 0
    ensures Play(s, checks) == Play(ProcessOnce(s).0, checks[1..])
  {
    StepFails(s);
  }

  lemma StopsLater(s: State, checks: seq<Check>, m: nat, r: PlayResult)
    requires s.Ok() && checks != [] && !HasEnded(s, checks[0]) && TurnCode(s, checks[0]) == 0
    requires StopsAt(ProcessOnce(s).0, checks[1..], m, r)
    ensures StopsAt(s, checks, m + 1, r)
  {
    assert Run(s, m + 1) == Run(ProcessOnce(s).0, m);
    assert m < |checks| - 1 ==> checks[m + 1] == checks[1..][m];
  }
}
