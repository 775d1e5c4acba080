// The playback device: ALSA's answers, and the frames it has accepted.
module Alsa {
  import opened Bytes
  import opened Kernel

  // snd_pcm_sframes_t
  type SignedFrames = x: int | -0x8000_0000_0000_0000 <= x < 0x8000_0000_0000_0000

  const INT_MAX: nat := 0x7FFF_FFFF

  // snd_pcm_writei: at most n frames are accepted, or the call fails with an errno.
  datatype WriteAnswer = Accepted(n: nat) | Refused(errno: nat)

  // Delivered bytes are those accepted by writei. Queued frames are those accepted since the
  // device was last prepared: it starts by itself once they reach the start threshold, and
  // can run dry only then. The scripts answer snd_pcm_avail, snd_pcm_writei, and the calls
  // that bring a stopped device back (prepare, resume).
  datatype Device = Device(
    delivered: seq<byte>, queued: nat, threshold: nat,
    availScript: seq<SignedFrames>, writeScript: seq<WriteAnswer>, recoveryScript: seq<int>)
  {
    function NextAvail(): (SignedFrames, Device) {
      if availScript == [] then (-EIO, this) else (availScript[0], this.(availScript := availScript[1..]))
    }

    function NextWrite(): (WriteAnswer, Device) {
      if writeScript == [] then (Refused(EIO), this) else (writeScript[0], this.(writeScript := writeScript[1..]))
    }

    function NextRecovery(): (int, Device) {
      if recoveryScript == [] then (-EIO, this) else (recoveryScript[0], this.(recoveryScript := recoveryScript[1..]))
    }

    function Deliver(bytes: seq<byte>, frames: nat): Device {
      this.(delivered := delivered + bytes, queued := queued + frames)
    }

    // Whether the device has been started since it was last prepared
    predicate Running() {
      queued >= threshold
    }
  }

  // Conversion of a signed count to size_t, as in the call of min_size_t.
  function AsSize(frames: SignedFrames): (n: nat)
    ensures frames != 0 ==> n > 0
  {
    if frames < 0 then frames + SIZE_LIMIT else frames
  }

  // The frames writei takes out of `requested` ones; its result is stored in an int.
  function Taken(n: nat, requested: nat): (k: nat)
    ensures k <= requested
  {
    Min(n, Min(requested, INT_MAX))
  }

  // snd_pcm_resume until it no longer asks for another try
  function Resume(d: Device): (r: (Device, int))
    ensures r.0 == d.(recoveryScript := r.0.recoveryScript)
    decreases |d.recoveryScript|
  {
    var (code, rest) := d.NextRecovery();
    if code == -EAGAIN then Resume(rest) else (rest, code)
  }

  // snd_pcm_prepare: 0 or more once the device has dropped what it had queued
  function PrepareCall(d: Device): (Device, int) {
    var (result, rest) := d.NextRecovery();
    (if result < 0 then rest else rest.(queued := 0), result)
  }

  // xrun_recovery: 0, or the negative code that could not be recovered from
  function XrunRecovery(d: Device, code: int): (r: (Device, int))
    ensures r.0 == d.(recoveryScript := r.0.recoveryScript, queued := r.0.queued)
    ensures r.0.queued == d.queued || r.0.queued == 0
  {
    if code == -EPIPE then Prepare(d)
    else if code == -ESTRPIPE then
      var (resumed, result) := Resume(d);
      if result < 0 then Prepare(resumed) else (resumed, 0)
    else (d, code)
  }

  function Prepare(d: Device): (Device, int) {
    var (prepared, result) := PrepareCall(d);
    (prepared, if result < 0 then result else 0)
  }

  class AlsaDevice {
    var state: Device

    constructor (state: Device)
      ensures this.state == state
    {
      this.state := state;
    }

    method Avail() returns (avail: SignedFrames)
      modifies this
      ensures (avail, state) == old(state).NextAvail()
    {
      var (a, rest) := state.NextAvail();
      avail := a;
      state := rest;
    }

    method Resume() returns (code: int)
      modifies this
      ensures (code, state) == old(state).NextRecovery()
    {
      var (c, rest) := state.NextRecovery();
      code := c;
      state := rest;
    }

    method Prepare() returns (code: int)
      modifies this
      ensures (state, code) == PrepareCall(old(state))
    {
      var (c, rest) := state.NextRecovery();
      code := c;
      state := if c < 0 then rest else rest.(queued := 0);
    }

    method SetStartThreshold(frames: nat)
      modifies this
      ensures state == old(state).(threshold := frames)
    {
      state := state.(threshold := frames);
    }

    // Offers `requested` frames that start at pcm[at]; the device copies what it takes.
    method Writei(pcm: array<byte>, at: nat, frameSize: nat, requested: nat) returns (result: int)
      requires at + requested * frameSize <= pcm.Length
      modifies this
      ensures var (answer, rest) := old(state).NextWrite();
        match answer
        case Refused(errno) => result == -IoError(errno) && state == rest
        case Accepted(n) =>
          && result == Taken(n, requested) && 0 <= result * frameSize <= requested * frameSize
          && state == rest.Deliver(pcm[at..at + requested * frameSize][..result * frameSize], result)
    {
      var (answer, rest) := state.NextWrite();
      match answer {
        case Refused(errno) =>
          result := -IoError(errno);
          state := rest;
        case Accepted(n) =>
          result := Taken(n, requested);
          FewerItems(result, requested, frameSize);
          state := rest.Deliver(pcm[at..at + requested * frameSize][..result * frameSize], result);
      }
    }
  }
}
