// The program of main.c: from a file and its configuration to the device.
module Bridge {
  import opened Bytes
  import opened Kernel
  import opened Alsa
  import opened IoBuffers
  import opened RfStreams
  import opened StreamLaws
  import opened Pcm
  import opened WavHeaders
  import opened WavRoundTrip
  import opened WavLaws
  import opened ErrorLaws
  import opened Flac
  import opened Time
  import opened Pipeline
  import opened PipelineLaws
  import opened PreloadLaws
  import opened Progress
  import opened PlayerSetup
  import opened Players

  // -- configuration ------------------------------------------------------------------------

  // Sizes given in mB and kB, 0 for the default, as bytes in a size_t
  function IoBufferSize(megabytes: nat): nat {
    (if megabytes == 0 then 16 else megabytes) * 0x10_0000 % SIZE_LIMIT
  }

  function AlsaPeriodSize(kilobytes: nat): nat {
    (if kilobytes == 0 then 128 else kilobytes) * 1024 % SIZE_LIMIT
  }

  // The output buffer play_file gives the decoder
  function PcmBufferSize(alsaPeriodSize: nat): nat {
    2 * alsaPeriodSize % SIZE_LIMIT
  }

  class BridgeConfig {
    var ioBufferSize: nat
    var alsaPeriodSize: nat
    var alsaPeriodsPerBuffer: nat

    constructor (ioBufferSize: nat, alsaPeriodSize: nat, alsaPeriodsPerBuffer: nat)
      ensures this.ioBufferSize == ioBufferSize && this.alsaPeriodSize == alsaPeriodSize
      ensures this.alsaPeriodsPerBuffer == alsaPeriodsPerBuffer
    {
      this.ioBufferSize := ioBufferSize;
      this.alsaPeriodSize := alsaPeriodSize;
      this.alsaPeriodsPerBuffer := alsaPeriodsPerBuffer;
    }

    method Defaults()
      modifies this
      ensures ioBufferSize == IoBufferSize(old(ioBufferSize))
      ensures alsaPeriodSize == AlsaPeriodSize(old(alsaPeriodSize))
      ensures alsaPeriodsPerBuffer == if old(alsaPeriodsPerBuffer) == 0 then 64 else old(alsaPeriodsPerBuffer)
    {
      if ioBufferSize == 0 {
        ioBufferSize := 16;
      }
      ioBufferSize := ioBufferSize * 0x10_0000 % SIZE_LIMIT;
      if alsaPeriodSize == 0 {
        alsaPeriodSize := 128;
      }
      alsaPeriodSize := alsaPeriodSize * 1024 % SIZE_LIMIT;
      if alsaPeriodsPerBuffer == 0 {
        alsaPeriodsPerBuffer := 64;
      }
    }
  }

  // The sizes in bytes: 16 MB, 128 kB and twice that by default, and otherwise as many
  // megabytes and kilobytes as are asked for, exactly if that does not wrap.
  lemma ConfiguredSizes(size: nat)
    ensures IoBufferSize(0) == 16_777_216 && AlsaPeriodSize(0) == 131_072 && PcmBufferSize(131_072) == 262_144
    ensures size > 0 ==> (IoBufferSize(size) == 1_048_576 * size <==> size < 0x1000_0000_0000)
    ensures size > 0 ==> (AlsaPeriodSize(size) == 1024 * size <==> size < 0x40_0000_0000_0000)
    ensures PcmBufferSize(size) == 2 * size <==> size < 0x8000_0000_0000_0000
  {
  }

  // The kilobytes the period comes to, in the 2^53 that a size_t can tell apart once doubled.
  function EffectivePeriod(kilobytes: nat): nat {
    (if kilobytes == 0 then 128 else kilobytes) % 0x20_0000_0000_0000
  }

  // An 8-bit WAV file of as many channels as the header can name
  function WidestFrame(): (c: Content)
    ensures c.Printable() && c.BitRate() < UINT32_LIMIT && c.format.FrameSize() == UINT16_LIMIT - 1
  {
    Content(false, Format(UINT16_LIMIT - 1, 1, 8), 0, 0, [])
  }

  // The output buffer is wide enough for every WAV file that can be opened exactly if
  // the period is left at its default or set to 64 kB at least (and does not wrap).
  lemma PeriodThreshold(kilobytes: nat)
    ensures (forall c: Content | c.Printable() && c.BitRate() < UINT32_LIMIT ::
               PcmBufferSize(AlsaPeriodSize(kilobytes)) >= 2 * c.format.FrameSize() - 1)
      <==> EffectivePeriod(kilobytes) >= 64
  {
    PeriodWraps(if kilobytes == 0 then 128 else kilobytes);
    var widest := WidestFrame();
    assert PcmBufferSize(AlsaPeriodSize(kilobytes)) == 2048 * EffectivePeriod(kilobytes);
  }

  lemma PeriodWraps(k: nat)
    ensures 2 * (k * 1024 % SIZE_LIMIT) % SIZE_LIMIT == 2048 * (k % 0x20_0000_0000_0000)
  {
  }

  // -- from the file to the device --------------------------------------------------------------

  // A file just opened, with nothing buffered, and a device that has been given nothing
  predicate Fresh(s: Stream, bufferSize: nat, device: Device) {
    && s.Ok() && s.open && s.buf.unread == [] && 0 < bufferSize < SIZE_LIMIT
    && device.delivered == [] && device.queued == 0
  }

  // The decoder and its sink over a stream whose header has been accepted.
  function Opened(s: Stream, bufferSize: nat, device: Device): (p: State)
    requires Fresh(s, bufferSize, device) && ReadWav(s).1.Good?
    ensures p.Ok() && p.sink.frame > 0
  {
    AcceptedFrame(s);
    var (t, parsed) := ReadWav(s);
    State(t, Sink(Buf(bufferSize, 0, []), parsed.value.format.FrameSize(), 0, device))
  }

  // The length of the header of an accepted file, and the bytes behind it
  predicate HasBody(file: seq<byte>) {
    |file| >= HEADER_SIZE && HeaderLength(file) <= |file|
  }

  function Body(file: seq<byte>): seq<byte>
    requires HasBody(file)
  {
    file[HeaderLength(file)..]
  }

  lemma OpenedSound(s: Stream, bufferSize: nat, device: Device)
    requires Fresh(s, bufferSize, device) && ReadWav(s).1.Good?
    ensures var p := Opened(s, bufferSize, device);
      && HasBody(s.source.file) && Sound(p) && Ledger(p) == Body(s.source.file) && ClosedWhenDone(p.src)
  {
    ReadWavSound(s);
    ReadWavStaysComplete(s);
    var p := Opened(s, bufferSize, device);
    assert s.Reachable() == s.Rest() == s.source.file;
    ModulusUnique(0, p.sink.frame, 0, 0);
    assert Ledger(p) == p.src.Rest();
  }

  // Configuring and preloading keep every byte and deliver none.
  lemma PlayerOpenKeeps(p: State, spec: PcmSpec, answers: Answers)
    requires Sound(p)
    ensures var (q, ending) := PlayerOpen(p, spec, answers);
      && Sound(q) && Ledger(q) == Ledger(p) && q.sink.device.delivered == p.sink.device.delivered
      && (HonestOpen(p, spec, answers) && ClosedWhenDone(p.src) <==> ClosedWhenDone(q.src))
      && (ending == Returned(0) ==>
            && Configured(spec, answers) == Good(q.sink.device.threshold)
            && (|q.sink.out.unread| / q.sink.frame >= q.sink.device.threshold || q.src.IsEmpty()))
  {
    var parsed := Configured(spec, answers);
    if parsed.Good? {
      var configured := WithPeriod(p, parsed.value);
      assert Received(configured.sink) == Received(p.sink);
      PreloadFirstPeriodKeeps(configured, parsed.value);
    }
  }

  // No poll on the way reports a hang-up alone while bytes are left.
  ghost predicate HonestOpen(p: State, spec: PcmSpec, answers: Answers)
    requires p.Ok()
  {
    var period := Configured(spec, answers);
    period.Good? ==> HonestPreload(WithPeriod(p, period.value), period.value)
  }

  // After opening, preloading and any number of steps, whatever the environment answers:
  // delivered, buffered and unread bytes are the body of the file, in order.
  lemma Conservation(s: Stream, bufferSize: nat, device: Device, answers: Answers, n: nat)
    requires Fresh(s, bufferSize, device) && ReadWav(s).1.Good?
    ensures var p := Opened(s, bufferSize, device);
      var t := Run(PlayerOpen(p, ReadWav(s).1.value, answers).0, n);
      && HasBody(s.source.file) && Sound(t) && t.sink.frame == p.sink.frame
      && t.sink.device.delivered + t.sink.out.unread + t.src.buf.unread + t.src.source.file == Body(s.source.file)
  {
    OpenedSound(s, bufferSize, device);
    var p, spec := Opened(s, bufferSize, device), ReadWav(s).1.value;
    PlayerOpenKeeps(p, spec, answers);
    RunKeeps(PlayerOpen(p, spec, answers).0, n);
    var t := Run(PlayerOpen(p, spec, answers).0, n);
    assert Ledger(t) == t.sink.device.delivered + t.sink.out.unread + t.src.buf.unread + t.src.source.file;
  }

  // At no time does a single read bring more than the configured period.
  lemma ReadsBounded(
    ioBufferSize: nat, alsaPeriodSize: nat, source: Source, bufferSize: nat, device: Device, answers: Answers, n: nat)
    requires Fresh(OpenedFile(ioBufferSize, alsaPeriodSize, source), bufferSize, device)
    requires ReadWav(OpenedFile(ioBufferSize, alsaPeriodSize, source)).1.Good?
    ensures var s := OpenedFile(ioBufferSize, alsaPeriodSize, source);
      var t := Run(PlayerOpen(Opened(s, bufferSize, device), ReadWav(s).1.value, answers).0, n).src;
      && t.buf.cap == ioBufferSize
      && |t.buf.unread| <= |ReadSource(t).0.buf.unread| <= |t.buf.unread| + alsaPeriodSize
  {
    var s := OpenedFile(ioBufferSize, alsaPeriodSize, source);
    var t := Run(PlayerOpen(Opened(s, bufferSize, device), ReadWav(s).1.value, answers).0, n).src;
    ReadSourceExactly(t);
  }

  // The time that playback reports in all is that of the data chunk, as its header gives it.
  lemma TotalTimeReported(s: Stream)
    requires s.Ok() && ReadWav(s).1.Good? && ReadWav(s).1.value.format.samplesPerSec > 0
    ensures var bytes := s.Reachable();
      && |bytes| >= 36 && FmtEnd(bytes) + 8 <= |bytes| && SaysSpec(bytes, ReadWav(s).1.value)
      && SaysTotal(bytes, ReadWav(s).1.value)
  {
    ReadWavSound(s);
    ReadHeaderSound(s);
    ParseVerdict(s.Reachable(), s.buf.cap);
    TotalTimeSaid(s.Reachable(), ReadWav(s).1.value);
  }

  // And of a FLAC file, that of the samples its stream information announces.
  lemma FlacTotalTime(info: StreamInfo)
    requires 0 < info.format.samplesPerSec < UINT32_LIMIT && info.totalSamples < SIZE_LIMIT / 2
    ensures var t := TotalTime(info.Spec());
      t.Normalized() && t.Ns() == info.totalSamples * 1_000_000_000 / info.format.samplesPerSec
  {
    ShrinkingQuotient(info.totalSamples, info.format.samplesPerSec);
    SamplesTimeExact(info.format.samplesPerSec, info.totalSamples);
  }

  predicate SaysTotal(bytes: seq<byte>, spec: PcmSpec)
    requires |bytes| >= 36 && FmtEnd(bytes) + 8 <= |bytes| && spec.format.samplesPerSec > 0
  {
    var frame := spec.format.channels * spec.format.bitsPerSample / 8;
    && frame > 0 && spec.samplesCount < SIZE_LIMIT && TotalTime(spec).Normalized()
    && TotalTime(spec).Ns()
       == Field(bytes, FmtEnd(bytes) + 4, 4) / frame * 1_000_000_000 / spec.format.samplesPerSec
  }

  lemma TotalTimeSaid(bytes: seq<byte>, spec: PcmSpec)
    requires |bytes| >= 36 && FmtEnd(bytes) + 8 <= |bytes| && SaysSpec(bytes, spec) && spec.format.samplesPerSec > 0
    ensures SaysTotal(bytes, spec)
  {
    var size := Field(bytes, FmtEnd(bytes) + 4, 4);
    FieldPrints(bytes, FmtEnd(bytes) + 4, 4);
    FieldPrints(bytes, 24, 4);
    ShrinkingQuotient(size, spec.format.channels * spec.format.bitsPerSample / 8);
    SmallTotal(spec.format.samplesPerSec, spec.samplesCount);
  }

  lemma SmallTotal(rate: nat, count: nat)
    requires 0 < rate < UINT32_LIMIT && count < UINT32_LIMIT
    ensures var t := SamplesTime(rate, count); t.Normalized() && t.Ns() == count * 1_000_000_000 / rate
  {
    ShrinkingQuotient(count, rate);
    SamplesTimeExact(rate, count);
  }

  // `delivered` is whole frames from the front of a body whose last unread bytes are
  // given, and all of those that were read if playback has ended by itself.
  ghost predicate DeliveredFrames(body: seq<byte>, delivered: seq<byte>, unreadFile: seq<byte>, frame: nat, ended: bool)
    requires frame > 0
  {
    && delivered <= body && |delivered| % frame == 0 && |unreadFile| <= |body|
    && (ended ==> delivered == WholeFrames(body[..|body| - |unreadFile|], frame))
  }

  // -- which files come to playback ---------------------------------------------------------------

  // A content whose printed header, read through a buffer of cap bytes, is accepted
  predicate Readable(c: Content, cap: nat) {
    c.Printable() && c.BitRate() < UINT32_LIMIT && HEADER_SIZE <= cap && c.FmtLength() <= cap
  }

  // And one that is then also played
  predicate Playable(c: Content, cap: nat) {
    Readable(c, cap) && PlayableFormat(c.format)
  }

  lemma PrintedOpens(c: Content, body: seq<byte>, s: Stream, bufferSize: nat, device: Device)
    requires Fresh(s, bufferSize, device) && s.source.file == PrintWav(c) + body && Supplied(s)
    requires Readable(c, s.buf.cap)
    ensures ReadWav(s).1 == Good(c.Spec())
    ensures var p := Opened(s, bufferSize, device);
      Sound(p) && Ledger(p) == body && p.sink.frame == c.format.FrameSize() && ClosedWhenDone(p.src)
  {
    assert s.Reachable() == s.source.file;
    RoundTripThroughStream(c, body, s);
    OpenedSound(s, bufferSize, device);
    PrintedLength(c, body);
    assert Body(s.source.file) == body;
  }

  // The header is accepted, and ALSA can be configured for what it says.
  predicate ReachesPreload(s: Stream, answers: Answers)
    requires s.Ok()
  {
    var parsed := ReadWav(s).1;
    parsed.Good? && Configured(parsed.value, answers).Good?
  }

  // Of the headers that are accepted, whatever bytes they are, those come to the preload
  // that say 8, 16, 24 or 32 bits and a nonzero rate, if ALSA grants it, and no others.
  lemma AcceptedReachesPreload(s: Stream, answers: Answers)
    requires s.Ok() && ReadWav(s).1.Good?
    ensures var format := ReadWav(s).1.value.format;
      ReachesPreload(s, answers) <==> PlayableFormat(format) && answers.Grant(format.samplesPerSec)
  {
    AcceptedFrame(s);
    ConfiguredExactly(ReadWav(s).1.value, answers);
  }

  // Of all printed headers, whatever their fields say, those do that have a width, a rate
  // and a bit rate that the program can play, a channel, and a fmt chunk within the buffer.
  lemma PrintedReachesPreload(c: Content, body: seq<byte>, s: Stream, answers: Answers)
    requires c.Storable() && s.Ok() && s.Reachable() == PrintWav(c) + body && Supplied(s)
    ensures ReachesPreload(s, answers) <==>
      && c.format.channels > 0 && c.format.bitsPerSample in {8, 16, 24, 32} && c.format.samplesPerSec > 0
      && c.BitRate() < UINT32_LIMIT && HEADER_SIZE <= s.buf.cap && c.FmtLength() <= s.buf.cap
      && answers.Grant(c.format.samplesPerSec)
  {
    ReadWavExact(s);
    if s.buf.cap >= HEADER_SIZE {
      RoundTrip(c, body, s.buf.cap);
    }
    PrintedConfigured(c, answers);
  }

  lemma PrintedConfigured(c: Content, answers: Answers)
    ensures c.WholeFrames() && Configured(c.Spec(), answers).Good? <==>
      && c.format.channels > 0 && c.format.bitsPerSample in {8, 16, 24, 32} && c.format.samplesPerSec > 0
      && answers.Grant(c.format.samplesPerSec)
  {
    if c.format.bitsPerSample in {8, 16, 24, 32} {
      ChannelsMakeFrames(c.format);
    }
    if c.WholeFrames() {
      ConfiguredExactly(c.Spec(), answers);
    }
  }

  lemma ChannelsMakeFrames(f: Format)
    requires f.bitsPerSample in {8, 16, 24, 32}
    ensures f.FrameSize() > 0 <==> f.channels > 0
  {
  }

  // -- playing them to the end ----------------------------------------------------------------------

  // A printed WAV file is played: over a willing environment, with an output wide enough
  // and a period that fits it, the header is accepted, the preload succeeds, and the play
  // loop delivers all whole frames of the body without an error. It ends by itself exactly
  // if the device is running then, so, if there has been no underrun on the way, exactly if
  // the body has a period of frames.
  lemma PlaysPrintedWav(
    c: Content, body: seq<byte>, s: Stream, bufferSize: nat, device: Device, answers: Answers, checks: seq<Check>)
    requires Fresh(s, bufferSize, device) && s.source.file == PrintWav(c) + body
    requires Playable(c, s.buf.cap) && answers.Grant(c.format.samplesPerSec)
    requires bufferSize >= 2 * c.format.FrameSize() - 1
    requires answers.framesPerPeriod * c.format.FrameSize() <= bufferSize
    requires Generous(s) && WillingDevice(device, |body|)
    requires |checks| > 3 * |body| + 1 + Stalls(device) && Patient(checks)
    ensures ReadWav(s).1 == Good(c.Spec())
    ensures var p := Opened(s, bufferSize, device);
      var (outcome, t) := Started(p, c.Spec(), answers, checks);
      && outcome == Played(0, t.sink.device.Running())
      && t.sink.device.delivered == WholeFrames(body, p.sink.frame)
      && (Xruns(device.writeScript) == 0 ==> (outcome.ended <==> answers.framesPerPeriod <= |body| / p.sink.frame))
  {
    PrintedOpens(c, body, s, bufferSize, device);
    ReadWavStaysGenerous(s);
    var period := answers.framesPerPeriod;
    ConfiguredExactly(c.Spec(), answers);
    var p := WithPeriod(Opened(s, bufferSize, device), period);
    assert Ledger(p) == body;
    PreloadAbortsExactly(p, period);
    PreloadFirstPeriodKeeps(p, period);
    var q := PreloadFirstPeriod(p, period).0;
    BodyLeft(q, body);
    PlaysToTheEnd(q, checks);
    if Xruns(device.writeScript) == 0 {
      ModulusUnique(0, q.sink.frame, 0, 0);
      EndsExactly(q, checks);
    }
  }

  lemma BodyLeft(s: State, body: seq<byte>)
    requires s.Ok() && s.sink.device.delivered == [] && Ledger(s) == body
    ensures Left(s) == |body| && Measure(s) <= 3 * |body| + 1
  {
    assert |Ledger(s)| == |s.sink.out.unread| + |s.src.buf.unread| + |s.src.source.file|;
  }

  // -- the program --------------------------------------------------------------------------------

  datatype Outcome = NotOpened(error: int) | Halted | NotStarted(error: int) | Played(error: int, ended: bool)

  // The rest of play_file, once the decoder is open: opening the player, and the play loop
  function Started(p: State, spec: PcmSpec, answers: Answers, checks: seq<Check>): (r: (Outcome, State))
    requires p.Ok()
    ensures r.1.Ok() && r.1.sink.frame == p.sink.frame && !r.0.NotOpened?
  {
    var (q, ending) := PlayerOpen(p, spec, answers);
    match ending
    case Aborted => (Outcome.Halted, q)
    case Returned(error) =>
      if error != 0 then (NotStarted(error), q)
      else var r := Play(q, checks); (Played(r.error, r.ended), r.state)
  }

  ghost predicate HonestStart(p: State, spec: PcmSpec, answers: Answers, checks: seq<Check>)
    requires p.Ok()
  {
    var (q, ending) := PlayerOpen(p, spec, answers);
    HonestOpen(p, spec, answers) && (ending == Returned(0) ==> HonestPlay(q, checks))
  }

  lemma StartedKeeps(p: State, spec: PcmSpec, answers: Answers, checks: seq<Check>)
    requires Sound(p)
    ensures var (outcome, t) := Started(p, spec, answers, checks);
      && Sound(t) && Ledger(t) == Ledger(p)
      && (HonestStart(p, spec, answers, checks) && ClosedWhenDone(p.src) <==> ClosedWhenDone(t.src))
      && (outcome.Played? ==> Configured(spec, answers) == Good(t.sink.device.threshold))
      && (outcome.Played? && outcome.ended ==> outcome.error == 0 && IsEof(t, t.sink.device.Running()))
  {
    PlayerOpenKeeps(p, spec, answers);
    var (q, ending) := PlayerOpen(p, spec, answers);
    if ending == Returned(0) {
      PlayKeeps(q, checks);
    }
  }

  // Where the program stops, and with which code: that of configuring ALSA, of the first
  // read of the preload that fails, or of the turn of the play loop that does not pass.
  lemma StartedStops(p: State, spec: PcmSpec, answers: Answers, checks: seq<Check>) returns (n: nat)
    requires p.Ok()
    ensures var (outcome, t) := Started(p, spec, answers, checks);
      match Configured(spec, answers)
      case Bad(error) => outcome == NotStarted(error) && t == p
      case Trapped => outcome == Outcome.Halted && t == p
      case Good(period) =>
        var code, q := PreloadCode(WithPeriod(p, period), period), PlayerOpen(p, spec, answers).0;
        && (outcome.NotStarted? <==> code != 0) && (code != 0 ==> outcome == NotStarted(code))
        && (outcome.Played? ==> StopsAt(q, checks, n, PlayResult(t, outcome.error, outcome.ended)))
  {
    var period := Configured(spec, answers);
    if period.Good? {
      PreloadFails(WithPeriod(p, period.value), period.value);
    }
    n := PlayStops(PlayerOpen(p, spec, answers).0, checks);
  }

  // A script without a hang-up reported alone makes every program run honest.
  lemma CompleteStartsHonestly(p: State, spec: PcmSpec, answers: Answers, checks: seq<Check>)
    requires p.Ok() && Complete(p.src)
    ensures HonestStart(p, spec, answers, checks)
  {
    var period := Configured(spec, answers);
    if period.Good? {
      PreloadStaysComplete(WithPeriod(p, period.value), period.value);
      CompletePlaysHonestly(PlayerOpen(p, spec, answers).0, checks);
    }
  }

  // What a program that has ended by itself has delivered of the body: all its whole frames,
  // exactly if no poll reported a hang-up alone with bytes left, or less than a frame was left.
  ghost predicate DeliveredAll(body: seq<byte>, delivered: seq<byte>, frame: nat, honest: bool)
    requires frame > 0
  {
    delivered == WholeFrames(body, frame) <==> honest || |body| - |delivered| < frame
  }

  lemma LedgerDelivers(p: State, spec: PcmSpec, answers: Answers, checks: seq<Check>)
    requires Sound(p) && ClosedWhenDone(p.src)
    ensures var (outcome, t) := Started(p, spec, answers, checks);
      var body, d, ended := Ledger(p), t.sink.device.delivered, outcome.Played? && outcome.ended;
      && DeliveredFrames(body, d, t.src.source.file, p.sink.frame, ended)
      && (ended ==> DeliveredAll(body, d, p.sink.frame, HonestStart(p, spec, answers, checks)))
      && (ended ==> t.sink.device.Running() && t.sink.device.queued <= |d| / p.sink.frame)
  {
    var (outcome, t) := Started(p, spec, answers, checks);
    StartedKeeps(p, spec, answers, checks);
    var d, o, u := t.sink.device.delivered, t.sink.out.unread, t.src.Rest();
    assert Ledger(t) == d + (o + u);
    if outcome.Played? && outcome.ended {
      EofDelivers(t, 0, true);
    }
  }

  // However playback stops, the device has whole frames from the front of the body. When
  // it has come to its end by itself, these are a period at least, and all that was read.
  ghost predicate Delivered(body: seq<byte>, outcome: Outcome, t: State, period: nat, honest: bool)
    requires t.Ok()
  {
    var d, ended := t.sink.device.delivered, outcome.Played? && outcome.ended;
    && DeliveredFrames(body, d, t.src.source.file, t.sink.frame, ended)
    && (ended ==> period <= |d| / t.sink.frame && DeliveredAll(body, d, t.sink.frame, honest))
  }

  lemma StartedDelivers(s: Stream, bufferSize: nat, device: Device, answers: Answers, checks: seq<Check>)
    requires Fresh(s, bufferSize, device) && ReadWav(s).1.Good?
    ensures var p := Opened(s, bufferSize, device);
      var spec := ReadWav(s).1.value;
      var (outcome, t) := Started(p, spec, answers, checks);
      var honest := HonestStart(p, spec, answers, checks);
      && HasBody(s.source.file) && Delivered(Body(s.source.file), outcome, t, answers.framesPerPeriod, honest)
      && (outcome.Played? ==> PlayableFormat(spec.format) && answers.Grant(spec.format.samplesPerSec))
      && (NoLoneHangUp(s.source) ==> honest)
  {
    OpenedSound(s, bufferSize, device);
    var p, spec := Opened(s, bufferSize, device), ReadWav(s).1.value;
    LedgerDelivers(p, spec, answers, checks);
    StartedKeeps(p, spec, answers, checks);
    ConfiguredExactly(spec, answers);
    ReadWavStaysComplete(s);
    if NoLoneHangUp(s.source) {
      CompleteStartsHonestly(p, spec, answers, checks);
    }
  }

  // Two programs that play the same file to its end deliver the same bytes, whatever their
  // buffers and periods, and however their descriptors and devices cut the transfers.
  lemma ProgramsAgree(
    s: Stream, bufferSize: nat, device: Device, answers: Answers, checks: seq<Check>,
    s': Stream, bufferSize': nat, device': Device, answers': Answers, checks': seq<Check>)
    requires Fresh(s, bufferSize, device) && ReadWav(s).1.Good?
    requires Fresh(s', bufferSize', device') && ReadWav(s').1.Good?
    requires s.source.file == s'.source.file
    requires Started(Opened(s, bufferSize, device), ReadWav(s).1.value, answers, checks).0 == Played(0, true)
    requires Started(Opened(s', bufferSize', device'), ReadWav(s').1.value, answers', checks').0 == Played(0, true)
    requires HonestStart(Opened(s, bufferSize, device), ReadWav(s).1.value, answers, checks)
    requires HonestStart(Opened(s', bufferSize', device'), ReadWav(s').1.value, answers', checks')
    ensures Started(Opened(s, bufferSize, device), ReadWav(s).1.value, answers, checks).1.sink.device.delivered
      == Started(Opened(s', bufferSize', device'), ReadWav(s').1.value, answers', checks').1.sink.device.delivered
  {
    StartedDelivers(s, bufferSize, device, answers, checks);
    StartedDelivers(s', bufferSize', device', answers', checks');
    ReadWavSound(s);
    ReadWavSound(s');
    assert s.Reachable() == s.source.file == s'.Reachable();
    SameSpec(s.source.file, s.buf.cap, s'.buf.cap);
  }

  // The stream of a file that play_file has just opened
  function OpenedFile(ioBufferSize: nat, alsaPeriodSize: nat, source: Source): Stream {
    Stream(Buf(ioBufferSize, 0, []), true, alsaPeriodSize, source)
  }

  // The first part of play_file, for WAV
  method OpenDecoder(config: BridgeConfig, file: Descriptor) returns (result: Checked<WavDecoder>)
    requires 0 < config.ioBufferSize < SIZE_LIMIT && config.alsaPeriodSize > 0
    requires PcmBufferSize(config.alsaPeriodSize) > 0
    modifies file
    ensures var s := OpenedFile(config.ioBufferSize, config.alsaPeriodSize, old(file.state));
      && s.Ok() && (result.Good? <==> ReadWav(s).1.Good?)
      && (result.Bad? <==> ReadWav(s).1.Bad?) && (result.Bad? ==> result.error == ReadWav(s).1.error)
      && (result.Good? ==>
            && result.value.Valid() && result.value.spec == ReadWav(s).1.value
            && result.value.frameSize == result.value.spec.format.FrameSize()
            && result.value.src.Value() == ReadWav(s).0
            && result.value.dest.Value() == Buf(PcmBufferSize(config.alsaPeriodSize), 0, []))
    ensures result.Good? ==>
      && result.value.src.descriptor == file && fresh(result.value) && fresh(result.value.Repr - {file})
  {
    var stream := new RfStream(3, file, config.ioBufferSize, config.alsaPeriodSize);
    result := OpenWav(stream, PcmBufferSize(config.alsaPeriodSize));
  }

  // player_open: the player, if there is one, and how opening it ended
  method OpenPlayer(decoder: WavDecoder, device: AlsaDevice, answers: Answers)
    returns (player: Player?, ending: Ending)
    requires decoder.Valid()
    modifies decoder.Repr, device
    ensures decoder.Valid()
    ensures var p := State(
        old(decoder.src.Value()), Sink(old(decoder.dest.Value()), decoder.frameSize, 0, old(device.state)));
      var (q, e) := PlayerOpen(p, decoder.spec, answers);
      && ending == e && device.state == q.sink.device
      && decoder.src.Value() == q.src && decoder.dest.Value() == q.sink.out
      && (player != null ==> fresh(player) && player.decoder == decoder && player.handle == device)
      && (player != null ==> player.Valid() && player.Value() == q)
      && (player == null ==> ending != Returned(0) && !Configured(decoder.spec, answers).Good?)
  {
    var period := SetParams(decoder.spec, answers);
    match period {
      case Bad(error) =>
        return null, Returned(error);
      case Trapped =>
        return null, Aborted;
      case Good(framesPerPeriod) =>
        device.SetStartThreshold(framesPerPeriod);
        player := new Player(decoder, device, framesPerPeriod);
        ending := player.PreloadFirstPeriod();
    }
  }

  // The rest of play_file, once the decoder is open
  method StartPlayer(decoder: WavDecoder, device: AlsaDevice, answers: Answers, checks: seq<Check>)
    returns (outcome: Outcome)
    requires decoder.Valid()
    modifies decoder.Repr, device
    ensures decoder.Valid()
    ensures var p := State(
        old(decoder.src.Value()), Sink(old(decoder.dest.Value()), decoder.frameSize, 0, old(device.state)));
      var (o, t) := Started(p, decoder.spec, answers, checks);
      && outcome == o && device.state == t.sink.device
      && decoder.src.Value() == t.src && decoder.dest.Value() == t.sink.out
  {
    var player, ending := OpenPlayer(decoder, device, answers);
    if ending.Aborted? {
      return Outcome.Halted;
    }
    if ending.error != 0 {
      return NotStarted(ending.error);
    }
    var error, ended := player.PlayLoop(checks);
    outcome := Played(error, ended);
  }

  method PlayFile(config: BridgeConfig, file: Descriptor, device: AlsaDevice, answers: Answers, checks: seq<Check>)
    returns (outcome: Outcome)
    requires 0 < config.ioBufferSize < SIZE_LIMIT && config.alsaPeriodSize > 0
    requires PcmBufferSize(config.alsaPeriodSize) > 0
    requires device.state.delivered == [] && device.state.queued == 0
    modifies file, device
    ensures var s := OpenedFile(config.ioBufferSize, config.alsaPeriodSize, old(file.state));
      && s.Ok()
      && match ReadWav(s).1
         case Bad(error) => outcome == NotOpened(error) && device.state == old(device.state)
         case Trapped => outcome == Outcome.Halted && device.state == old(device.state)
         case Good(spec) =>
           var p := Opened(s, PcmBufferSize(config.alsaPeriodSize), old(device.state));
           var (o, t) := Started(p, spec, answers, checks);
           var honest := HonestStart(p, spec, answers, checks);
           && outcome == o && device.state == t.sink.device && file.state == t.src.source
           && HasBody(old(file.state).file)
           && Delivered(Body(old(file.state).file), outcome, t, answers.framesPerPeriod, honest)
           && (NoLoneHangUp(old(file.state)) ==> honest)
           && (GetPcmFormat(spec).Unsupported? && answers.device == 0 ==>
                 outcome == NotStarted(EINVAL) && device.state == old(device.state))
  {
    ghost var s := OpenedFile(config.ioBufferSize, config.alsaPeriodSize, file.state);
    ghost var bufferSize, d := PcmBufferSize(config.alsaPeriodSize), device.state;
    var opening := OpenDecoder(config, file);
    match opening {
      case Bad(error) =>
        outcome := NotOpened(error);
      case Trapped =>
        outcome := Outcome.Halted;
      case Good(decoder) =>
        assert State(decoder.src.Value(), Sink(decoder.dest.Value(), decoder.frameSize, 0, device.state))
            == Opened(s, bufferSize, d);
        outcome := StartPlayer(decoder, device, answers, checks);
        StartedDelivers(s, bufferSize, d, answers, checks);
    }
  }
}
