// Files, environments and sizes at which the program falls short of playing a correct WAV
// file: it stops before playback, gets stuck in it, or ends it early.
module Failures {
  import opened Bytes
  import opened Kernel
  import opened Alsa
  import opened RfStreams
  import opened StreamLaws
  import opened Pcm
  import opened WavHeaders
  import opened WavRoundTrip
  import opened Pipeline
  import opened PlayerSetup
  import opened PipelineLaws
  import opened PreloadLaws
  import opened Progress
  import opened StuckPlayback
  import opened Bridge

  // -- opening a file that is read byte by byte ---------------------------------------------

  predicate ByteWise(source: Source) {
    (forall a :: a in source.readScript ==> a == Transferred(1)) && |source.readScript| > |source.file|
  }

  lemma RefillOneByte(s: Stream)
    requires s.Ok() && s.open && s.buf.Available() > 0 && ByteWise(s.source) && s.source.file != []
    ensures var (t, error) := RefillOnce(s);
      && error == 0 && t.open && ByteWise(t.source) && t.source.pollScript == s.source.pollScript
      && |t.buf.unread| == |s.buf.unread| + 1 && |t.source.file| == |s.source.file| - 1
  {
    var source := s.source;
    assert source.readScript[0] in source.readScript;
    assert forall a :: a in source.readScript[1..] ==> a in source.readScript;
  }

  lemma {:induction false} FillByteWise(s: Stream, size: nat)
    requires s.Ok() && s.open && size <= s.buf.cap && ByteWise(s.source)
    requires |s.buf.unread| <= size <= |s.Rest()|
    ensures var (t, error) := FillTo(s, size);
      && error == 0 && t.open && ByteWise(t.source) && t.source.pollScript == s.source.pollScript
      && |t.buf.unread| == size
    decreases size - |s.buf.unread|
  {
    if |s.buf.unread| < size {
      RefillOneByte(s);
      RefillOnceKeepsBytes(s);
      FillByteWise(RefillOnce(s).0, size);
    }
  }

  // An open stream with nothing buffered, and bytes to come one at a time
  predicate Waiting(s: Stream) {
    s.Ok() && s.open && s.buf.unread == [] && ByteWise(s.source)
  }

  lemma ReadBlockByteWise(s: Stream, size: nat)
    requires Waiting(s) && 0 < size <= s.buf.cap && ReadBlock(s, size).error == 0
    ensures var t := ReadBlock(s, size).stream;
      Waiting(t) && t.source.pollScript == s.source.pollScript
  {
    ReadBlockIsNextSlice(s, size);
    FillByteWise(s, size);
  }

  // The header of such a file is read without a byte to spare.
  lemma OpensByteWise(c: Content, body: seq<byte>, s: Stream, bufferSize: nat, device: Device)
    requires Fresh(s, bufferSize, device) && Readable(c, s.buf.cap)
    requires s.source.file == PrintWav(c) + body && ByteWise(s.source)
    ensures ReadWav(s).1 == Good(c.Spec())
    ensures var p := Opened(s, bufferSize, device);
      && Sound(p) && Waiting(p.src) && p.src.source.file == body && p.sink.frame == c.format.FrameSize()
      && p.src.source.pollScript == s.source.pollScript
  {
    AllTransfers(s.source.readScript);
    PrintedOpens(c, body, s, bufferSize, device);
    ReadBlockByteWise(s, HEADER_SIZE);
    var (s1, head) := ReadHeader(s);
    ReadBlockByteWise(s1, head.value.fmtLength);
    var (s2, format) := ReadFmt(s1, head.value.fmtLength);
    ReadBlockByteWise(s2, DATA_SIZE);
    var p := Opened(s, bufferSize, device);
    assert Ledger(p) == p.src.source.file;
  }

  function ByteAtATime(file: seq<byte>, polls: seq<PollAnswer>): (source: Source)
    ensures ByteWise(source)
  {
    Source(file, seq(|file| + 1, _ => Transferred(1)), polls)
  }

  // -- refused before playback ----------------------------------------------------------------

  // Three frames of a channel of 40-bit samples
  function FortyBits(cap: nat): (c: Content)
    requires cap >= HEADER_SIZE
    ensures Readable(c, cap) && c.format.bitsPerSample == 40
  {
    Content(false, Format(1, 8000, 40), 3, 0, [])
  }

  // Such a file: its header is accepted, and then no player is opened for it.
  lemma FortyBitsRefused(
    body: seq<byte>, s: Stream, bufferSize: nat, device: Device, answers: Answers, checks: seq<Check>)
    requires Fresh(s, bufferSize, device) && Supplied(s) && s.buf.cap >= HEADER_SIZE
    requires s.source.file == PrintWav(FortyBits(s.buf.cap)) + body && answers.device == 0
    ensures ReadWav(s).1 == Good(FortyBits(s.buf.cap).Spec())
    ensures Started(Opened(s, bufferSize, device), ReadWav(s).1.value, answers, checks)
      == (NotStarted(EINVAL), Opened(s, bufferSize, device))
  {
    var c := FortyBits(s.buf.cap);
    PrintedOpens(c, body, s, bufferSize, device);
    Refused(Opened(s, bufferSize, device), c.Spec(), answers, checks);
  }

  lemma Refused(p: State, spec: PcmSpec, answers: Answers, checks: seq<Check>)
    requires p.Ok() && spec.format.bitsPerSample == 40 && answers.device == 0
    ensures Started(p, spec, answers, checks) == (NotStarted(EINVAL), p)
  {
  }

  // Three frames of 16-bit stereo at a rate of zero
  function RateZero(cap: nat): (c: Content)
    requires cap >= HEADER_SIZE
    ensures Readable(c, cap) && c.format.samplesPerSec == 0
  {
    Content(false, Format(2, 0, 16), 3, 0, [])
  }

  // Such a file: its header is accepted, and whatever ALSA answers, the program ends in an
  // error, or by dividing by the rate, before anything is played.
  lemma RateZeroRefused(
    body: seq<byte>, s: Stream, bufferSize: nat, device: Device, answers: Answers, checks: seq<Check>)
    requires Fresh(s, bufferSize, device) && Supplied(s) && s.buf.cap >= HEADER_SIZE
    requires s.source.file == PrintWav(RateZero(s.buf.cap)) + body
    ensures ReadWav(s).1 == Good(RateZero(s.buf.cap).Spec())
    ensures var (outcome, t) := Started(Opened(s, bufferSize, device), ReadWav(s).1.value, answers, checks);
      && (outcome.NotStarted? || outcome.Halted?) && t == Opened(s, bufferSize, device)
      && (answers.device == 0 && answers.stream == 0 ==>
            outcome == if answers.rate == 0 then Outcome.Halted else NotStarted(EINVAL))
  {
    PrintedOpens(RateZero(s.buf.cap), body, s, bufferSize, device);
  }

  // -- stopped, stuck, and cut short ----------------------------------------------------------

  // ALSA grants all it is asked for, with this period.
  function Granted(c: Content, period: nat): (answers: Answers)
    requires period > 0
    ensures answers.Grant(c.format.samplesPerSec) && answers.framesPerPeriod == period
  {
    Answers(0, 0, c.format.samplesPerSec, 0, period, 0, 0)
  }

  // A period larger than the output, and a body that is too: playback never starts.
  lemma LargePeriodHalts(
    c: Content, body: seq<byte>, ioSize: nat, maxRead: nat, bufferSize: nat, answers: Answers, checks: seq<Check>)
    returns (source: Source, device: Device)
    requires Playable(c, ioSize) && ioSize < SIZE_LIMIT && maxRead > 0 && 0 < bufferSize < SIZE_LIMIT
    requires answers.Grant(c.format.samplesPerSec)
    requires bufferSize < answers.framesPerPeriod * c.format.FrameSize() && bufferSize < |body|
    ensures source.file == PrintWav(c) + body && Fresh(OpenedFile(ioSize, maxRead, source), bufferSize, device)
    ensures ReadWav(OpenedFile(ioSize, maxRead, source)).1 == Good(c.Spec())
    ensures var p := Opened(OpenedFile(ioSize, maxRead, source), bufferSize, device);
      Started(p, c.Spec(), answers, checks).0 == Outcome.Halted
  {
    source, device := EnvironmentExists(PrintWav(c) + body, 0);
    var s := OpenedFile(ioSize, maxRead, source);
    assert Generous(s);
    PrintedOpens(c, body, s, bufferSize, device);
    ReadWavStaysGenerous(s);
    ConfiguredExactly(c.Spec(), answers);
    var p := WithPeriod(Opened(s, bufferSize, device), answers.framesPerPeriod);
    assert Ledger(p) == body;
    PreloadAbortsExactly(p, answers.framesPerPeriod);
  }

  // An output that holds a frame, but fewer than two frames but one byte: the header is
  // accepted, the preload succeeds, the device takes every frame, every step succeeds, and
  // after a number of turns of the play loop nothing moves any more. It never ends by itself.
  lemma NarrowProgramSticks(c: Content, body: seq<byte>, ioSize: nat, maxRead: nat, bufferSize: nat)
    returns (source: Source, device: Device, turns: nat)
    requires Playable(c, ioSize) && ioSize < SIZE_LIMIT && maxRead > 0 && bufferSize < SIZE_LIMIT
    requires c.format.FrameSize() <= bufferSize <= 2 * c.format.FrameSize() - 2
    requires |body| > 2 * c.format.FrameSize() + 4
    ensures source.file == PrintWav(c) + body && Fresh(OpenedFile(ioSize, maxRead, source), bufferSize, device)
    ensures ReadWav(OpenedFile(ioSize, maxRead, source)).1 == Good(c.Spec())
    ensures var p := Opened(OpenedFile(ioSize, maxRead, source), bufferSize, device);
      forall checks: seq<Check> ::
        var (outcome, t) := Started(p, c.Spec(), Granted(c, 1), checks);
        && outcome.Played? && !outcome.ended
        && (|checks| == turns && NoneFails(checks) ==> outcome == Played(0, false) && Stuck(t))
  {
    var file := PrintWav(c) + body;
    source := ByteAtATime(file, seq(|file|, _ => Events(true, false)));
    device := Device([], 0, 0, seq(3, _ => 1), seq(3, _ => Accepted(1)), []);
    var s := OpenedFile(ioSize, maxRead, source);
    OpensByteWise(c, body, s, bufferSize, device);
    ConfiguredExactly(c.Spec(), Granted(c, 1));
    var p := WithPeriod(Opened(s, bufferSize, device), 1);
    NarrowPlaybackSticks(p, |body|, 3);
    var q := PreloadFirstPeriod(p, 1).0;
    turns :| RunsClean(q, turns) && Stuck(Run(q, turns));
    forall checks: seq<Check>
      ensures var (outcome, t) := Started(Opened(s, bufferSize, device), c.Spec(), Granted(c, 1), checks);
        && outcome.Played? && !outcome.ended
        && (|checks| == turns && NoneFails(checks) ==> outcome == Played(0, false) && Stuck(t))
    {
      StuckNeverEnds(q, turns, checks);
      if |checks| == turns && NoneFails(checks) {
        PlayGetsStuck(q, turns, checks);
      }
    }
  }

  // A hang-up reported alone when the header has been read: no byte of the body is played,
  // and the program waits for ever for a device that has never been started.
  lemma LoneHangUpPlaysNothing(c: Content, body: seq<byte>, ioSize: nat, maxRead: nat, bufferSize: nat, period: nat)
    returns (source: Source, device: Device)
    requires Playable(c, ioSize) && ioSize < SIZE_LIMIT && maxRead > 0 && 0 < bufferSize < SIZE_LIMIT
    requires period > 0
    ensures source.file == PrintWav(c) + body && Fresh(OpenedFile(ioSize, maxRead, source), bufferSize, device)
    ensures ReadWav(OpenedFile(ioSize, maxRead, source)).1 == Good(c.Spec())
    ensures var p := Opened(OpenedFile(ioSize, maxRead, source), bufferSize, device);
      forall checks: seq<Check> | NoneFails(checks) ::
        var (outcome, t) := Started(p, c.Spec(), Granted(c, period), checks);
        outcome == Played(0, false) && t.sink.device.delivered == []
  {
    source := ByteAtATime(PrintWav(c) + body, [Events(false, true)]);
    device := Device([], 0, 0, [], [], []);
    var s := OpenedFile(ioSize, maxRead, source);
    OpensByteWise(c, body, s, bufferSize, device);
    ConfiguredExactly(c.Spec(), Granted(c, period));
    var p := WithPeriod(Opened(s, bufferSize, device), period);
    var q := p.(src := ReadSource(p.src).0);
    assert q.src.IsEmpty() && PreloadFirstPeriod(p, period) == (q, Returned(0));
    forall checks: seq<Check> | NoneFails(checks)
      ensures Play(q, checks) == PlayResult(q, 0, false)
    {
      WaitsForever(q, checks);
    }
  }

  // With nothing left but a device that has not been started, the play loop does nothing,
  // and does not end.
  lemma {:induction false} WaitsForever(s: State, checks: seq<Check>)
    requires s.Ok() && Drained(s) && !s.sink.device.Running() && NoneFails(checks)
    ensures Play(s, checks) == PlayResult(s, 0, false)
    decreases |checks|
  {
    if checks != [] {
      assert checks[0] in checks;
      assert forall c :: c in checks[1..] ==> c in checks;
      WaitsForever(s, checks[1..]);
    }
  }

  // -- cut short ------------------------------------------------------------------------------

  // A byte is buffered, o of a frame are behind the decoder, and the polls that bring the
  // others to come are followed by a hang-up alone.
  predicate HangsUpAfter(s: State, o: nat) {
    && s.Ok() && s.src.open && |s.src.buf.unread| == 1 && |s.sink.out.unread| == o < s.sink.frame <= s.sink.out.cap
    && ByteWise(s.src.source) && |s.src.source.file| >= s.sink.frame - o
    && s.src.source.pollScript == seq(s.sink.frame - o - 1, _ => Events(true, false)) + [Events(false, true)]
  }

  // The preload then ends with one frame, and a source that counts as empty.
  lemma {:induction false} LoopHangsUp(s: State, o: nat)
    requires HangsUpAfter(s, o)
    ensures var (t, ending) := PreloadLoop(s, 1);
      && ending == Returned(0) && t.src.IsEmpty() && |t.sink.out.unread| == t.sink.frame
      && t.sink.device == s.sink.device && Ledger(t) == Ledger(s) && t.src.source.file != []
    decreases s.sink.frame - o
  {
    ModulusUnique(o, s.sink.frame, 0, o);
    DecodeOnceKeeps(s);
    var t := DecodeOnce(s);
    var u := t.(src := ReadSource(t.src).0);
    ReadSourceKeeps(t.src);
    var script := s.src.source.pollScript;
    if o + 1 < s.sink.frame {
      assert script[0] == Events(true, false);
      assert script[1..] == seq(s.sink.frame - o - 2, _ => Events(true, false)) + [Events(false, true)];
      RefillOneByte(t.src.(source := t.src.source.(pollScript := script[1..])));
      LoopHangsUp(u, o + 1);
    } else {
      assert script[0] == Events(false, true);
      assert u.src.IsEmpty() && PreloadLoop(u, 1) == (u, Returned(0));
    }
  }

  // A hang-up reported alone in the middle of the file: the program ends without an error,
  // having played one frame of it.
  lemma LoneHangUpCutsShort(c: Content, body: seq<byte>, ioSize: nat, maxRead: nat, bufferSize: nat)
    returns (source: Source, device: Device)
    requires Playable(c, ioSize) && ioSize < SIZE_LIMIT && maxRead > 0
    requires c.format.FrameSize() <= bufferSize < SIZE_LIMIT && |body| > c.format.FrameSize()
    ensures source.file == PrintWav(c) + body && Fresh(OpenedFile(ioSize, maxRead, source), bufferSize, device)
    ensures ReadWav(OpenedFile(ioSize, maxRead, source)).1 == Good(c.Spec())
    ensures var p := Opened(OpenedFile(ioSize, maxRead, source), bufferSize, device);
      var (outcome, t) := Started(p, c.Spec(), Granted(c, 1), [Check(false, 0), Check(true, 0)]);
      outcome == Played(0, true) && t.sink.device.delivered == body[..c.format.FrameSize()]
  {
    var frame := c.format.FrameSize();
    source := ByteAtATime(PrintWav(c) + body, seq(frame, _ => Events(true, false)) + [Events(false, true)]);
    device := Device([], 0, 0, [1], [Accepted(1)], []);
    var s := OpenedFile(ioSize, maxRead, source);
    OpensByteWise(c, body, s, bufferSize, device);
    ConfiguredExactly(c.Spec(), Granted(c, 1));
    var p := WithPeriod(Opened(s, bufferSize, device), 1);
    assert Ledger(p) == body;
    PreloadHangsUp(p);
    PlaysLastFrame(PreloadFirstPeriod(p, 1).0);
  }

  lemma PreloadHangsUp(p: State)
    requires p.Ok() && Waiting(p.src) && p.sink.out.unread == [] && p.sink.frame <= p.sink.out.cap
    requires p.src.source.pollScript == seq(p.sink.frame, _ => Events(true, false)) + [Events(false, true)]
    requires |p.src.source.file| > p.sink.frame
    ensures var (t, ending) := PreloadFirstPeriod(p, 1);
      && ending == Returned(0) && t.src.IsEmpty() && |t.sink.out.unread| == t.sink.frame
      && t.sink.device == p.sink.device && Ledger(t) == Ledger(p) && t.src.source.file != []
  {
    var script := p.src.source.pollScript;
    assert script[0] == Events(true, false);
    assert script[1..] == seq(p.sink.frame - 1, _ => Events(true, false)) + [Events(false, true)];
    RefillOneByte(p.src.(source := p.src.source.(pollScript := script[1..])));
    ReadSourceKeeps(p.src);
    LoopHangsUp(p.(src := ReadSource(p.src).0), 0);
  }

  lemma PlaysLastFrame(s: State)
    requires s.Ok() && s.src.IsEmpty() && |s.sink.out.unread| == s.sink.frame
    requires s.sink.device == Device([], 0, 1, [1], [Accepted(1)], [])
    ensures var r := Play(s, [Check(false, 0), Check(true, 0)]);
      && r.error == 0 && r.ended && r.state.sink.device.delivered == Ledger(s)[..s.sink.frame]
  {
    ModulusUnique(|s.sink.out.unread|, s.sink.frame, 1, 0);
    var t := ProcessOnce(s).0;
    assert s.sink.out.unread[..s.sink.frame] == s.sink.out.unread;
    assert t.sink.device.delivered == s.sink.out.unread && t.sink.IsEmpty() && t.src == s.src;
    assert Ledger(s)[..s.sink.frame] == s.sink.out.unread;
    var checks := [Check(false, 0), Check(true, 0)];
    assert checks[1..] == [Check(true, 0)];
    assert Play(t, checks[1..]) == PlayResult(t, 0, true);
  }
}
