// What one write to the device does, through all its retries, and with which code it fails:
// read off the scripts of the device.
module WriteLaws {
  import opened Bytes
  import opened Kernel
  import opened Alsa
  import opened Pipeline
  import opened PipelineLaws

  // -- recovery ---------------------------------------------------------------------------------

  predicate Prepares(script: seq<int>) {
    script != [] && script[0] >= 0
  }

  // The first answer to resume that is not a request for another try, or the prepare that
  // follows it, is a success.
  predicate Resumes(script: seq<int>)
    decreases |script|
  {
    script != [] && if script[0] == -EAGAIN then Resumes(script[1..]) else script[0] >= 0 || Prepares(script[1..])
  }

  // And it is the prepare.
  predicate ResumesAfresh(script: seq<int>)
    decreases |script|
  {
    script != [] && if script[0] == -EAGAIN then ResumesAfresh(script[1..]) else script[0] < 0 && Prepares(script[1..])
  }

  lemma {:induction false} ResumeExactly(d: Device)
    ensures var (e, result) := XrunRecovery(d, -ESTRPIPE);
      && (result == 0 <==> Resumes(d.recoveryScript)) && result <= 0
      && e.queued == if ResumesAfresh(d.recoveryScript) then 0 else d.queued
    decreases |d.recoveryScript|
  {
    if d.recoveryScript != [] && d.recoveryScript[0] == -EAGAIN {
      ResumeExactly(d.(recoveryScript := d.recoveryScript[1..]));
    }
  }

  // Recovery succeeds exactly if the device has run dry and can be prepared, or has been
  // suspended and can be resumed or prepared; no other code is recovered from.
  lemma RecoversExactly(d: Device, errno: nat)
    ensures var (e, result) := XrunRecovery(d, -(errno as int));
      && (result >= 0 <==>
          || errno == 0
          || (errno == EPIPE && Prepares(d.recoveryScript)) || (errno == ESTRPIPE && Resumes(d.recoveryScript)))
      && e.delivered == d.delivered
      && (errno != EPIPE && errno != ESTRPIPE ==> e == d && result == -(errno as int))
      && (errno == EPIPE && result < 0 ==> result == if d.recoveryScript == [] then -EIO else d.recoveryScript[0])
      && (errno == EPIPE ==> e.queued == if Prepares(d.recoveryScript) then 0 else d.queued)
  {
    if errno == ESTRPIPE {
      ResumeExactly(d);
    }
  }

  // -- one write ----------------------------------------------------------------------------------

  // How the device ends a write, after all retries
  datatype WriteEnd = Full | Takes(n: nat, avail: SignedFrames) | Fails(errno: nat, recoveryScript: seq<int>)

  function Ends(d: Device): WriteEnd
    decreases |d.writeScript|
  {
    var avail := if d.availScript == [] then -EIO else d.availScript[0];
    if avail == 0 then Full
    else if d.writeScript == [] then Fails(EIO, d.recoveryScript)
    else
      match d.writeScript[0]
      case Accepted(n) => Takes(n, avail)
      case Refused(errno) =>
        if errno == EAGAIN then
          Ends(d.(availScript := if d.availScript == [] then [] else d.availScript[1..],
                  writeScript := d.writeScript[1..]))
        else Fails(if errno == 0 then EIO else errno, d.recoveryScript)
  }

  // The frames it takes of those buffered
  function FramesWritten(d: Device, buffered: nat): nat {
    var end := Ends(d);
    if end.Takes? then FramesTaken(end.n, end.avail, buffered) else 0
  }

  // The code a refused write fails with, and whether it drops what the device has queued
  function RefusalCode(errno: nat, script: seq<int>): int {
    if errno == EPIPE && Prepares(script) then 0
    else if errno == ESTRPIPE && Resumes(script) then 0
    else -(errno as int)
  }

  predicate DropsQueue(errno: nat, script: seq<int>) {
    (errno == EPIPE && Prepares(script)) || (errno == ESTRPIPE && ResumesAfresh(script))
  }

  // The code the write fails with, or 0
  function WriteCode(d: Device): int {
    var end := Ends(d);
    if end.Fails? then RefusalCode(end.errno, end.recoveryScript) else 0
  }

  predicate Restarts(d: Device) {
    var end := Ends(d);
    end.Fails? && DropsQueue(end.errno, end.recoveryScript)
  }

  // k frames have moved from the front of the output to the device, and have been counted;
  // what the device has queued grows by them, or is dropped.
  predicate Moves(s: Sink, t: Sink, k: nat, restarts: bool) {
    && 0 <= k * s.frame <= |s.out.unread|
    && t.out.unread == s.out.unread[k * s.frame..]
    && t.device.delivered == s.device.delivered + s.out.unread[..k * s.frame]
    && t.written == (s.written + k) % SIZE_LIMIT
    && t.device.queued == if restarts then 0 else s.device.queued + k
  }

  // A write moves exactly the frames that the device takes of those buffered, and fails with
  // exactly the code that the device ends it with.
  lemma {:induction false} WriteAlsaExactly(s: Sink)
    requires s.Ok() && !s.IsEmpty()
    ensures var (t, error) := WriteAlsa(s);
      && Moves(s, t, FramesWritten(s.device, |s.out.unread| / s.frame), Restarts(s.device))
      && error == WriteCode(s.device)
    decreases |s.device.writeScript|
  {
    var (avail, d) := s.device.NextAvail();
    if avail == 0 || d.writeScript == [] {
      RefusedExactly(s, d, EIO);
    } else {
      var (answer, rest) := d.NextWrite();
      match answer
      case Accepted(n) =>
        OfferFits(|s.out.unread|, s.frame, AsSize(avail), n);
        CountTaken(n, avail, |s.out.unread| / s.frame);
        AcceptMoves(s, Taken(n, Min(AsSize(avail), |s.out.unread| / s.frame)), rest);
      case Refused(errno) =>
        if errno == EAGAIN {
          WriteAlsaExactly(s.(device := rest));
        } else {
          RefusedExactly(s, rest, IoError(errno));
        }
    }
  }

  lemma AcceptMoves(s: Sink, k: nat, d: Device)
    requires s.Ok() && k * s.frame <= |s.out.unread|
    requires d.delivered == s.device.delivered && d.queued == s.device.queued
    ensures Moves(s, s.Accept(k, d), k, false)
  {
  }

  lemma RefusedExactly(s: Sink, d: Device, errno: nat)
    requires s.Ok() && errno > 0 && d.delivered == s.device.delivered && d.queued == s.device.queued
    ensures var (recovered, result) := XrunRecovery(d, -(errno as int));
      && Moves(s, s.(device := recovered), 0, DropsQueue(errno, d.recoveryScript))
      && (if result < 0 then -(errno as int) else 0) == RefusalCode(errno, d.recoveryScript)
  {
    RecoversExactly(d, errno);
    if errno == ESTRPIPE {
      ResumeExactly(d);
    }
  }
}
