// player_open: configuring ALSA for a stream, and preloading it. ALSA's answers are inputs.
module PlayerSetup {
  import opened Kernel
  import opened RfStreams
  import opened Pcm
  import opened WavHeaders
  import opened Pipeline
  import opened Flac

  // What an ALSA call returns: 0, or an error below zero
  type Code = x: int | x <= 0

  // What ALSA answers, in the order in which it is asked: for opening the device, for the
  // parameters of the stream, for its period, for the buffer, and for putting all this into
  // force. With the codes go the rate it settles on and the frames in a period.
  datatype Answers = Answers(
    device: Code, stream: Code, rate: nat, period: Code, framesPerPeriod: nat, buffer: Code, final: Code)
  {
    // No error, the rate that was asked for, and a period
    predicate Grant(samplesPerSec: nat) {
      && device == 0 && stream == 0 && period == 0 && buffer == 0 && final == 0
      && rate == samplesPerSec && framesPerPeriod > 0
    }
  }

  // -- player_set_params, without verbose logging ------------------------------------------

  // player_set_params_stream: 0, or the error
  function StreamParams(spec: PcmSpec, answers: Answers): int {
    if GetPcmFormat(spec).Unsupported? then EINVAL
    else if answers.stream < 0 then answers.stream
    else if answers.rate != spec.format.samplesPerSec then EINVAL
    else 0
  }

  // player_set_params_period: the frames in a period. The time of the period is asked for in
  // microseconds, which divides by the frame size and by the rate.
  function PeriodParams(spec: PcmSpec, answers: Answers): Checked<nat> {
    if spec.format.FrameSize() == 0 || spec.format.samplesPerSec == 0 then Trapped
    else if answers.period < 0 then Bad(answers.period)
    else Good(answers.framesPerPeriod)
  }

  // player_set_params_buffer: the period, if it can be used. The arguments of its last logging
  // call are evaluated in any case, and divide by the frames in a period.
  function BufferParams(answers: Answers, framesPerPeriod: nat): Checked<nat> {
    if answers.buffer < 0 then Bad(answers.buffer)
    else if framesPerPeriod == 0 then Trapped
    else Good(framesPerPeriod)
  }

  // The period of a player that has been configured
  function Configured(spec: PcmSpec, answers: Answers): (r: Checked<nat>)
    ensures r.Bad? ==> r.error != 0
  {
    if answers.device < 0 then Bad(answers.device)
    else
      var error := StreamParams(spec, answers);
      if error != 0 then Bad(error)
      else
        match PeriodParams(spec, answers)
        case Bad(error) => Bad(error)
        case Trapped => Trapped
        case Good(framesPerPeriod) =>
          match BufferParams(answers, framesPerPeriod)
          case Bad(error) => Bad(error)
          case Trapped => Trapped
          case Good(period) => if answers.final < 0 then Bad(answers.final) else Good(period)
  }

  method SetParams(spec: PcmSpec, answers: Answers) returns (result: Checked<nat>)
    ensures result == Configured(spec, answers)
  {
    if answers.device < 0 {
      return Bad(answers.device);
    }
    var error := 0;
    var format := GetPcmFormat(spec);
    if format.Unsupported? {
      error := EINVAL;
    } else if answers.stream < 0 {
      error := answers.stream;
    } else if answers.rate != spec.format.samplesPerSec {
      error := EINVAL;
    }
    if error != 0 {
      return Bad(error);
    }
    if spec.format.FrameSize() == 0 || spec.format.samplesPerSec == 0 {
      return Trapped;
    }
    error := answers.period;
    if error == 0 {
      error := answers.buffer;
    }
    if error == 0 {
      if answers.framesPerPeriod == 0 {
        return Trapped;
      }
      error := answers.final;
    }
    result := if error != 0 then Bad(error) else Good(answers.framesPerPeriod);
  }

  predicate PlayableFormat(format: Format) {
    format.bitsPerSample in {8, 16, 24, 32} && format.samplesPerSec > 0
  }

  // A stream with frames comes through exactly if its samples have one of four widths, its
  // rate is not zero, and ALSA grants all it is asked for.
  lemma ConfiguredExactly(spec: PcmSpec, answers: Answers)
    requires spec.format.FrameSize() > 0
    ensures Configured(spec, answers).Good? <==>
      PlayableFormat(spec.format) && answers.Grant(spec.format.samplesPerSec)
    ensures Configured(spec, answers).Good? ==> Configured(spec, answers).value == answers.framesPerPeriod
    ensures Configured(spec, answers).Trapped? ==> spec.format.samplesPerSec == 0 || answers.framesPerPeriod == 0
  {
  }

  // The five codes in the order in which ALSA is asked, and whether the i-th is asked for:
  // no earlier one is an error, and what is checked in between passes.
  function Codes(answers: Answers): (codes: seq<Code>)
    ensures |codes| == 5
  {
    [answers.device, answers.stream, answers.period, answers.buffer, answers.final]
  }

  predicate Asked(spec: PcmSpec, answers: Answers, i: nat)
    requires i < 5
  {
    && (forall j :: 0 <= j < i ==> Codes(answers)[j] == 0)
    && (i >= 1 ==> spec.format.bitsPerSample in {8, 16, 24, 32})
    && (i >= 2 ==> answers.rate == spec.format.samplesPerSec > 0)
    && (i >= 4 ==> answers.framesPerPeriod > 0)
  }

  // An error of ALSA is returned as it is; EINVAL is returned exactly for the other widths and
  // for a rate that is not granted; and the program stops exactly where it would divide by a
  // rate or a period of zero.
  lemma RefusedExactly(spec: PcmSpec, answers: Answers)
    requires spec.format.FrameSize() > 0
    ensures var r, f := Configured(spec, answers), spec.format;
      && (forall i :: 0 <= i < 5 && Asked(spec, answers, i) && Codes(answers)[i] < 0 ==> r == Bad(Codes(answers)[i]))
      && (r == Bad(EINVAL) <==>
            && answers.device == 0
            && (f.bitsPerSample !in {8, 16, 24, 32} || (answers.stream == 0 && answers.rate != f.samplesPerSec)))
      && (r.Trapped? <==>
            && answers.device == 0 && answers.stream == 0 && f.bitsPerSample in {8, 16, 24, 32}
            && answers.rate == f.samplesPerSec
            && (f.samplesPerSec == 0
                || (answers.period == 0 && answers.buffer == 0 && answers.framesPerPeriod == 0)))
  {
    forall i | 0 <= i < 5 && Asked(spec, answers, i) && Codes(answers)[i] < 0
      ensures Configured(spec, answers) == Bad(Codes(answers)[i])
    {
      assert forall j :: 0 <= j < i ==> Codes(answers)[j] == 0;
      assert i > 0 ==> Codes(answers)[0] == 0;
      assert i > 1 ==> Codes(answers)[1] == 0;
      assert i > 2 ==> Codes(answers)[2] == 0;
      assert i > 3 ==> Codes(answers)[3] == 0;
    }
  }

  // The same for the streams that libFLAC decodes: opening stops the program on samples that
  // are not whole bytes, and of the others all have a width that is played.
  lemma FlacConfigured(info: StreamInfo, answers: Answers)
    requires info.Decodable()
    ensures info.Supported() && Configured(info.Spec(), answers).Good? <==>
      PlayableFormat(info.format) && answers.Grant(info.format.samplesPerSec)
    ensures info.Supported() ==> !GetPcmFormat(info.Spec()).Unsupported?
  {
    if info.Supported() {
      FramePositive(info);
      ConfiguredExactly(info.Spec(), answers);
    }
  }

  // -- player_open ---------------------------------------------------------------------------

  // The player whose device starts by itself once a period is queued
  function WithPeriod(p: State, period: nat): (q: State)
    requires p.Ok()
    ensures q.Ok() && q.sink.frame == p.sink.frame
  {
    p.(sink := p.sink.(device := p.sink.device.(threshold := period)))
  }

  function PlayerOpen(p: State, spec: PcmSpec, answers: Answers): (r: (State, Ending))
    requires p.Ok()
    ensures r.0.Ok() && r.0.sink.frame == p.sink.frame && SameShape(p.src, r.0.src)
  {
    match Configured(spec, answers)
    case Bad(error) => (p, Returned(error))
    case Trapped => (p, Aborted)
    case Good(period) => PreloadFirstPeriod(WithPeriod(p, period), period)
  }
}
