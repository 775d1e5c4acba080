// The playback pipeline as a state machine: the WAV decoder between its two buffers, the
// preload loops, and the writes to the device.
module Pipeline {
  import opened Bytes
  import opened Kernel
  import opened Alsa
  import opened IoBuffers
  import opened RfStreams

  // -- writing to the device, on abstract values ----------------------------------------

  // The output side: the decoder's output buffer, the size of a frame, the frame
  // counter, and the device.
  datatype Sink = Sink(out: Buf, frame: nat, written: nat, device: Device) {
    predicate Ok() {
      out.Ok() && frame > 0 && written < SIZE_LIMIT
    }

    // pcm_decoder_is_output_buffer_empty
    predicate IsEmpty() {
      |out.unread| < frame
    }

    // pcm_decoder_is_output_buffer_full, for a decoder with the given block size
    predicate IsFull(blockSize: nat) {
      out.Available() < blockSize
    }

    function Accept(k: nat, rest: Device): Sink
      requires Ok() && k * frame <= |out.unread|
    {
      Sink(Drop(out, k * frame), frame, (written + k) % SIZE_LIMIT, rest.Deliver(out.unread[..k * frame], k))
    }
  }

  predicate SameSink(s: Sink, t: Sink) {
    t.Ok() && t.frame == s.frame && t.out.cap == s.out.cap && t.device.threshold == s.device.threshold
  }

  lemma OfferFits(size: nat, frame: nat, avail: nat, n: nat)
    requires frame > 0
    ensures Taken(n, Min(avail, size / frame)) * frame <= size
  {
    WholeItemsFit(size, frame, Taken(n, Min(avail, size / frame)));
  }

  function WriteAlsa(s: Sink): (r: (Sink, int))
    requires s.Ok() && !s.IsEmpty()
    ensures SameSink(s, r.0)
    decreases |s.device.writeScript|
  {
    var (avail, d) := s.device.NextAvail();
    if avail == 0 then (s.(device := d), 0)
    else
      var (answer, rest) := d.NextWrite();
      match answer
      case Accepted(n) =>
        OfferFits(|s.out.unread|, s.frame, AsSize(avail), n);
        (s.Accept(Taken(n, Min(AsSize(avail), |s.out.unread| / s.frame)), rest), 0)
      case Refused(errno) =>
        if IoError(errno) == EAGAIN then WriteAlsa(s.(device := rest))
        else
          var (recovered, result) := XrunRecovery(rest, -IoError(errno));
          (s.(device := recovered), if result < 0 then -IoError(errno) else 0)
  }

  // -- decoding WAV, on abstract values ---------------------------------------------------

  datatype State = State(src: Stream, sink: Sink) {
    predicate Ok() {
      src.Ok() && sink.Ok()
    }
  }

  predicate SameState(s: State, t: State) {
    SameShape(s.src, t.src) && SameSink(s.sink, t.sink)
  }

  // pcm_decoder_read_source
  function ReadSource(s: Stream): (r: (Stream, int))
    requires s.Ok()
    ensures SameShape(s, r.0)
  {
    if s.open && !s.IsFull() then PollAndRefill(s) else (s, 0)
  }

  // pcm_decoder_wav_decode_once moves as much as the output has room for.
  function MoveBytes(src: Buf, out: Buf): (r: (Buf, Buf))
    requires src.Ok() && out.Ok() && src.unread != [] && out.Available() > 0
    ensures r.0.Ok() && r.1.Ok() && r.0.cap == src.cap && r.1.cap == out.cap
    ensures |r.0.unread| < |src.unread| && |r.0.unread| + |r.1.unread| == |src.unread| + |out.unread|
  {
    var n := Min(out.Available(), |src.unread|);
    (Drop(src, n), Put(out, src.unread[..n]).0)
  }

  function DecodeOnce(s: State): (t: State)
    requires s.Ok() && s.src.buf.unread != [] && s.sink.out.Available() > 0
    ensures SameState(s, t) && |t.src.buf.unread| < |s.src.buf.unread|
    ensures t.sink.out.Available() < s.sink.out.Available()
  {
    var (src, out) := MoveBytes(s.src.buf, s.sink.out);
    State(s.src.(buf := src), s.sink.(out := out))
  }

  // The decoding loop of player_preload. The block size of WAV is one frame.
  function DecodeAll(s: State): (t: State)
    requires s.Ok()
    ensures SameState(s, t)
    decreases |s.src.buf.unread|
  {
    if s.src.buf.unread != [] && !s.sink.IsFull(s.sink.frame) then DecodeAll(DecodeOnce(s)) else s
  }

  // player_preload
  function Preload(s: State): (r: (State, int))
    requires s.Ok()
    ensures SameState(s, r.0)
  {
    if s.src.IsEmpty() then (s, 0)
    else
      var (src, error) := if s.src.IsFull() then (s.src, 0) else ReadSource(s.src);
      var t := s.(src := src);
      (if error == 0 then DecodeAll(t) else t, error)
  }

  // player_process_once
  function ProcessOnce(s: State): (r: (State, int))
    requires s.Ok()
    ensures SameState(s, r.0)
  {
    var (t, error) := Preload(s);
    if error == 0 && !t.sink.IsEmpty() then
      var (sink, written) := WriteAlsa(t.sink);
      (t.(sink := sink), written)
    else (t, error)
  }

  // How preload_first_period ends: with an error code, or in a failed assertion of the
  // decoder.
  datatype Ending = Returned(error: int) | Aborted

  function PreloadLoop(s: State, period: nat): (r: (State, Ending))
    requires s.Ok()
    ensures SameState(s, r.0)
    decreases s.sink.out.Available()
  {
    if s.src.buf.unread == [] || |s.sink.out.unread| / s.sink.frame >= period then (s, Returned(0))
    else if s.sink.out.Available() == 0 then (s, Aborted)
    else
      var t := DecodeOnce(s);
      var (src, error) := if t.src.IsEmpty() then (t.src, 0) else ReadSource(t.src);
      var u := t.(src := src);
      if error != 0 then (u, Returned(error)) else PreloadLoop(u, period)
  }

  function PreloadFirstPeriod(s: State, period: nat): (r: (State, Ending))
    requires s.Ok()
    ensures SameState(s, r.0)
  {
    var (src, error) := ReadSource(s.src);
    var t := s.(src := src);
    if error != 0 then (t, Returned(error)) else PreloadLoop(t, period)
  }

  // player_is_eof, given whether the device reports that it has run dry
  predicate IsEof(s: State, xrun: bool) {
    s.src.IsEmpty() && s.sink.IsEmpty() && xrun
  }

  // What the play loop learns about the device around one step: whether it runs dry, if it
  // has been started, and the result of the status query after the step.
  datatype Check = Check(dry: bool, status: int)

  predicate HasEnded(s: State, check: Check) {
    IsEof(s, check.dry && s.sink.device.Running())
  }

  datatype PlayResult = PlayResult(state: State, error: int, ended: bool)

  // The loop of main.c, for as many turns as there are checks.
  function Play(s: State, checks: seq<Check>): (r: PlayResult)
    requires s.Ok()
    ensures SameState(s, r.state)
    decreases |checks|
  {
    if checks == [] then PlayResult(s, 0, false)
    else if HasEnded(s, checks[0]) then PlayResult(s, 0, true)
    else
      var (t, error) := ProcessOnce(s);
      if error != 0 then PlayResult(t, error, false)
      else if checks[0].status < 0 then PlayResult(t, checks[0].status, false)
      else Play(t, checks[1..])
  }
}
