// Whole runs of the player: no byte is lost, duplicated or reordered, the device gets
// whole frames only, and a finished run has delivered all of them.
module PipelineLaws {
  import opened Bytes
  import opened Kernel
  import opened Alsa
  import opened IoBuffers
  import opened RfStreams
  import opened StreamLaws
  import opened Pipeline

  // -- the output side --------------------------------------------------------------------

  // Bytes the output side has been given.
  function Received(s: Sink): seq<byte> {
    s.device.delivered + s.out.unread
  }

  // The device has whole frames, as many as the (64-bit) counter says, and has not queued
  // more than those.
  ghost predicate Aligned(s: Sink)
    requires s.Ok()
  {
    && |s.device.delivered| % s.frame == 0 && s.written == |s.device.delivered| / s.frame % SIZE_LIMIT
    && s.device.queued <= |s.device.delivered| / s.frame
  }

  lemma AcceptKeeps(s: Sink, k: nat, rest: Device)
    requires s.Ok() && k * s.frame <= |s.out.unread| && Aligned(s)
    requires rest.delivered == s.device.delivered && rest.queued == s.device.queued
    ensures Aligned(s.Accept(k, rest)) && Received(s.Accept(k, rest)) == Received(s)
  {
    var n := k * s.frame;
    assert s.out.unread == s.out.unread[..n] + s.out.unread[n..];
    MoreFrames(|s.device.delivered|, s.frame, k);
  }

  lemma MoreFrames(size: nat, frame: nat, k: nat)
    requires frame > 0 && size % frame == 0
    ensures (size + k * frame) % frame == 0
    ensures (size + k * frame) / frame == size / frame + k
    ensures (size / frame % SIZE_LIMIT + k) % SIZE_LIMIT == (size / frame + k) % SIZE_LIMIT
  {
    var q := size / frame;
    assert size == frame * q;
    assert frame * (q + k) == frame * q + k * frame;
    ModulusUnique(size + k * frame, frame, q + k, 0);
  }

  // Through any number of tries, however the device answers, a write takes whole frames
  // off the front of the output; if it fails, the buffer and the counter are unchanged.
  lemma {:induction false} WriteAlsaKeeps(s: Sink)
    requires s.Ok() && !s.IsEmpty() && Aligned(s)
    ensures var (t, error) := WriteAlsa(s);
      && Received(t) == Received(s) && Aligned(t) && s.device.delivered <= t.device.delivered
      && (error != 0 ==> t.out == s.out && t.written == s.written && t.device.delivered == s.device.delivered)
    decreases |s.device.writeScript|
  {
    var (avail, d) := s.device.NextAvail();
    if avail != 0 {
      var (answer, rest) := d.NextWrite();
      match answer
      case Accepted(n) =>
        var k := Taken(n, Min(AsSize(avail), |s.out.unread| / s.frame));
        OfferFits(|s.out.unread|, s.frame, AsSize(avail), n);
        AcceptKeeps(s, k, rest);
      case Refused(errno) =>
        if IoError(errno) == EAGAIN {
          WriteAlsaKeeps(s.(device := rest));
        }
    }
  }

  // The smallest of what the device takes, what it has room for, what is buffered, and
  // what an int can count. Negative room is no limit.
  function FramesTaken(n: nat, avail: SignedFrames, buffered: nat): (k: nat)
    ensures k <= n && k <= buffered && k <= 0x7FFF_FFFF && (avail >= 0 ==> k <= avail)
    ensures k == n || k == buffered || k == 0x7FFF_FFFF || k == avail
  {
    Min(Min(n, 0x7FFF_FFFF), if avail < 0 then buffered else Min(avail, buffered))
  }

  lemma CountTaken(n: nat, avail: SignedFrames, buffered: nat)
    requires avail != 0
    ensures Taken(n, Min(AsSize(avail), buffered)) == FramesTaken(n, avail, buffered)
  {
  }

  // k frames have moved from the front of the output to the device, and have been counted.
  predicate Takes(s: Sink, t: Sink, k: nat) {
    && 0 <= k * s.frame <= |s.out.unread|
    && t.device.delivered == s.device.delivered + s.out.unread[..k * s.frame]
    && t.out.unread == s.out.unread[k * s.frame..] && t.written == (s.written + k) % SIZE_LIMIT
  }

  lemma AcceptTakes(s: Sink, k: nat, rest: Device)
    requires s.Ok() && k * s.frame <= |s.out.unread| && rest.delivered == s.device.delivered
    ensures Takes(s, s.Accept(k, rest), k)
  {
  }

  // A device that asks for another try any number of times, and then takes something:
  // the retries leave no trace, and exactly the frames taken move to the device.
  lemma {:induction false} RetriesThenAccept(
    s: Sink, retries: nat, avails: seq<SignedFrames>, n: nat, later: seq<WriteAnswer>)
    requires s.Ok() && !s.IsEmpty()
    requires retries < |avails| && avails == s.device.availScript
    requires forall i :: 0 <= i <= retries ==> avails[i] != 0
    requires s.device.writeScript == seq(retries, _ => Refused(EAGAIN)) + [Accepted(n)] + later
    ensures var (t, error) := WriteAlsa(s);
      && error == 0 && t.device.writeScript == later
      && Takes(s, t, FramesTaken(n, avails[retries], |s.out.unread| / s.frame))
    decreases retries
  {
    var d := s.device;
    if retries == 0 {
      assert d.writeScript[0] == Accepted(n) && d.writeScript[1..] == later;
      OfferFits(|s.out.unread|, s.frame, AsSize(avails[0]), n);
      CountTaken(n, avails[0], |s.out.unread| / s.frame);
      AcceptTakes(s, Taken(n, Min(AsSize(avails[0]), |s.out.unread| / s.frame)), d.NextAvail().1.NextWrite().1);
    } else {
      assert d.writeScript[0] == Refused(EAGAIN);
      assert d.writeScript[1..] == seq(retries - 1, _ => Refused(EAGAIN)) + [Accepted(n)] + later;
      RetriesThenAccept(
        s.(device := d.(availScript := avails[1..], writeScript := d.writeScript[1..])),
        retries - 1, avails[1..], n, later);
    }
  }

  // A suspended device is asked to resume until it stops saying that it needs more time;
  // if it cannot resume it is prepared afresh, and only if that fails too, or is not
  // answered, the recovery has failed.
  lemma {:induction false} SuspendRecovery(d: Device, retries: nat, resumed: int, later: seq<int>)
    requires resumed != -EAGAIN
    requires d.recoveryScript == seq(retries, _ => -EAGAIN) + [resumed] + later
    ensures var (e, result) := XrunRecovery(d, -ESTRPIPE);
      && (result == 0 <==> resumed >= 0 || (later != [] && later[0] >= 0))
      && e.delivered == d.delivered && e.recoveryScript == (if resumed >= 0 || later == [] then later else later[1..])
      && e.queued == if resumed < 0 && result == 0 then 0 else d.queued
    decreases retries
  {
    if retries == 0 {
      assert d.recoveryScript[0] == resumed && d.recoveryScript[1..] == later;
    } else {
      assert d.recoveryScript[0] == -EAGAIN;
      assert d.recoveryScript[1..] == seq(retries - 1, _ => -EAGAIN) + [resumed] + later;
      SuspendRecovery(d.(recoveryScript := d.recoveryScript[1..]), retries - 1, resumed, later);
    }
  }

  // An error of a write is the code the device last refused one with, and never a request
  // for another try.
  lemma {:induction false} WriteAlsaErrors(s: Sink)
    requires s.Ok() && !s.IsEmpty()
    ensures var error := WriteAlsa(s).1;
      && error <= 0 && error != -EAGAIN
      && (error == 0 || error == -EIO
          || exists a :: a in s.device.writeScript && a.Refused? && error == -IoError(a.errno))
    decreases |s.device.writeScript|
  {
    var (avail, d) := s.device.NextAvail();
    if avail != 0 && d.writeScript != [] {
      var (answer, rest) := d.NextWrite();
      assert answer in s.device.writeScript;
      if answer.Refused? && IoError(answer.errno) == EAGAIN {
        WriteAlsaErrors(s.(device := rest));
      }
    }
  }

  // -- the pipeline -----------------------------------------------------------------------

  // Every byte from the device back to the file, in playing order.
  function Ledger(s: State): seq<byte> {
    Received(s.sink) + s.src.Rest()
  }

  ghost predicate Sound(s: State) {
    s.Ok() && Aligned(s.sink)
  }

  lemma DecodeOnceKeeps(s: State)
    requires s.Ok() && s.src.buf.unread != [] && s.sink.out.Available() > 0
    ensures var t := DecodeOnce(s);
      var n := Min(s.sink.out.Available(), |s.src.buf.unread|);
      && Put(s.sink.out, s.src.buf.unread[..n]).1
      && t.sink.out.unread == s.sink.out.unread + s.src.buf.unread[..n]
      && t.src.buf.unread == s.src.buf.unread[n..]
      && t.sink.device == s.sink.device && t.sink.written == s.sink.written
      && t.src.source == s.src.source && t.src.open == s.src.open
      && Ledger(t) == Ledger(s)
  {
    var n := Min(s.sink.out.Available(), |s.src.buf.unread|);
    var t := DecodeOnce(s);
    SplitAt(s.src.buf.unread, s.src.source.file, n);
    assert Ledger(t) == Received(s.sink) + s.src.buf.unread[..n] + t.src.Rest();
  }

  // The decoding loop ends with nothing left to decode, or with room for less than a
  // frame; its writes to the output never fail.
  lemma {:induction false} DecodeAllKeeps(s: State)
    requires s.Ok()
    ensures var t := DecodeAll(s);
      && Ledger(t) == Ledger(s)
      && t.sink.device == s.sink.device && t.sink.written == s.sink.written
      && t.src.source == s.src.source && t.src.open == s.src.open
      && |t.sink.out.unread| + |t.src.buf.unread| == |s.sink.out.unread| + |s.src.buf.unread|
      && |t.src.buf.unread| <= |s.src.buf.unread|
      && (t.src.buf.unread == [] || t.sink.IsFull(t.sink.frame))
    decreases |s.src.buf.unread|
  {
    if s.src.buf.unread != [] && !s.sink.IsFull(s.sink.frame) {
      DecodeOnceKeeps(s);
      DecodeAllKeeps(DecodeOnce(s));
    }
  }

  lemma ReadSourceKeeps(s: Stream)
    requires s.Ok()
    ensures var (t, error) := ReadSource(s);
      && t.Rest() == s.Rest() && s.buf.unread <= t.buf.unread
      && (HonestPoll(s) && ClosedWhenDone(s) <==> ClosedWhenDone(t))
      && (error == 0 ==> t.buf.unread != [] || !t.open)
      && (error == 0 && s.open && !s.IsFull() ==> |t.source.file| < |s.source.file| || !t.open)
      && (error != 0 ==> t.open && t.buf.unread == s.buf.unread)
  {
    if s.open && !s.IsFull() {
      PollAndRefillKeepsBytes(s);
      assert |s.Rest()| == |s.buf.unread| + |s.source.file|;
      assert |ReadSource(s).0.Rest()| == |ReadSource(s).0.buf.unread| + |ReadSource(s).0.source.file|;
    }
  }

  // Preloading reads if there is room, and then decodes as far as the output allows.
  lemma PreloadKeeps(s: State)
    requires s.Ok()
    ensures var (t, error) := Preload(s);
      && Ledger(t) == Ledger(s)
      && t.sink.device == s.sink.device && t.sink.written == s.sink.written
      && (error == 0 ==> t.src.buf.unread == [] || t.sink.IsFull(t.sink.frame))
      && (error == 0 && s.src.open && !s.src.IsFull() ==>
            |t.src.source.file| < |s.src.source.file| || !t.src.open)
      && (HonestPoll(s.src) && ClosedWhenDone(s.src) <==> ClosedWhenDone(t.src))
  {
    if !s.src.IsEmpty() {
      ReadSourceKeeps(s.src);
      var (src, error) := if s.src.IsFull() then (s.src, 0) else ReadSource(s.src);
      DecodeAllKeeps(s.(src := src));
    }
  }

  lemma ReadSourceStaysComplete(s: Stream)
    requires s.Ok() && Complete(s)
    ensures Complete(ReadSource(s).0) && HonestPoll(s)
  {
    if s.open && !s.IsFull() {
      PollAndRefillComplete(s);
      if s.source.pollScript != [] {
        assert s.source.pollScript[0] in s.source.pollScript;
      }
    }
  }

  lemma ProcessOnceStaysComplete(s: State)
    requires s.Ok() && Complete(s.src)
    ensures Complete(ProcessOnce(s).0.src)
  {
    ReadSourceStaysComplete(s.src);
    var src := if s.src.IsFull() then s.src else ReadSource(s.src).0;
    DecodeAllKeeps(s.(src := src));
  }

  lemma ProcessOnceKeeps(s: State)
    requires Sound(s)
    ensures var (t, error) := ProcessOnce(s);
      && Sound(t) && Ledger(t) == Ledger(s)
      && s.sink.device.delivered <= t.sink.device.delivered
      && (HonestPoll(s.src) && ClosedWhenDone(s.src) <==> ClosedWhenDone(t.src))
  {
    PreloadKeeps(s);
    var (t, error) := Preload(s);
    if error == 0 && !t.sink.IsEmpty() {
      WriteAlsaKeeps(t.sink);
    }
  }

  // -- whole runs -------------------------------------------------------------------------

  // The state after n steps, whether or not they report errors.
  function Run(s: State, n: nat): (t: State)
    requires s.Ok()
    ensures SameState(s, t)
    decreases n
  {
    if n == 0 then s else Run(ProcessOnce(s).0, n - 1)
  }

  // No poll of the first n steps reports a hang-up alone while bytes are left.
  ghost predicate HonestRun(s: State, n: nat)
    requires s.Ok()
    decreases n
  {
    n > 0 ==> HonestPoll(s.src) && HonestRun(ProcessOnce(s).0, n - 1)
  }

  // A script without such a hang-up makes every run honest.
  lemma {:induction false} CompleteRunsHonestly(s: State, n: nat)
    requires s.Ok() && Complete(s.src)
    ensures HonestRun(s, n)
    decreases n
  {
    if n > 0 {
      ReadSourceStaysComplete(s.src);
      ProcessOnceStaysComplete(s);
      CompleteRunsHonestly(ProcessOnce(s).0, n - 1);
    }
  }

  // The stream is closed before its end after n steps exactly if it was before them, or if
  // one of their polls has reported a hang-up alone.
  lemma {:induction false} RunKeeps(s: State, n: nat)
    requires Sound(s)
    ensures Sound(Run(s, n)) && Ledger(Run(s, n)) == Ledger(s)
    ensures HonestRun(s, n) && ClosedWhenDone(s.src) <==> ClosedWhenDone(Run(s, n).src)
    decreases n
  {
    if n > 0 {
      ProcessOnceKeeps(s);
      RunKeeps(ProcessOnce(s).0, n - 1);
    }
  }

  // Over a body shorter than 2^64 bytes the frame counter never wraps: it is the number of
  // frames delivered, after any number of steps.
  lemma RunCountsFrames(s: State, n: nat)
    requires Sound(s) && |Ledger(s)| < SIZE_LIMIT
    ensures var t := Run(s, n).sink; |t.device.delivered| == t.written * t.frame
  {
    RunKeeps(s, n);
    var t := Run(s, n).sink;
    assert |Ledger(Run(s, n))| >= |t.device.delivered|;
    CounterExact(|t.device.delivered|, t.frame, t.written);
  }

  lemma CounterExact(size: nat, frame: nat, written: nat)
    requires frame > 0 && size % frame == 0 && size < SIZE_LIMIT && written == size / frame % SIZE_LIMIT
    ensures size == written * frame
  {
    ShrinkingQuotient(size, frame);
    assert size == frame * (size / frame);
  }

  // The longest prefix of whole frames.
  function WholeFrames(bytes: seq<byte>, frame: nat): (r: seq<byte>)
    requires frame > 0
    ensures r <= bytes && |r| % frame == 0 && |bytes| - |r| < frame
  {
    ModulusUnique(|bytes| - |bytes| % frame, frame, |bytes| / frame, 0);
    bytes[..|bytes| - |bytes| % frame]
  }

  lemma WholeFramesUnique(bytes: seq<byte>, frame: nat, prefix: seq<byte>)
    requires frame > 0 && prefix <= bytes && |prefix| % frame == 0 && |bytes| - |prefix| < frame
    ensures prefix == WholeFrames(bytes, frame)
  {
    var q := |prefix| / frame;
    assert |bytes| == frame * q + (|bytes| - |prefix|);
    ModulusUnique(|bytes|, frame, q, |bytes| - |prefix|);
  }

  // The bytes not delivered are less than a frame.
  predicate PartOfFrame(s: State) {
    |s.sink.out.unread| + |s.src.Rest()| < s.sink.frame
  }

  // When the player says it is done, the device has the whole frames of all that was read.
  // They are those of the whole body exactly if no poll on the way has reported a hang-up
  // alone while bytes were left, or if these were part of a frame only.
  lemma EofDelivers(s: State, n: nat, xrun: bool)
    requires Sound(s) && IsEof(Run(s, n), xrun)
    ensures var t, body := Run(s, n), Ledger(s);
      && |t.src.source.file| <= |body|
      && t.sink.device.delivered == WholeFrames(body[..|body| - |t.src.source.file|], s.sink.frame)
      && (t.sink.device.delivered == WholeFrames(body, s.sink.frame)
          <==> (HonestRun(s, n) && ClosedWhenDone(s.src)) || PartOfFrame(t))
  {
    RunKeeps(s, n);
    var t, body := Run(s, n), Ledger(s);
    var read := body[..|body| - |t.src.source.file|];
    assert body == Received(t.sink) + t.src.source.file;
    assert read == Received(t.sink);
    WholeFramesUnique(read, s.sink.frame, t.sink.device.delivered);
    if PartOfFrame(t) {
      WholeFramesUnique(body, s.sink.frame, t.sink.device.delivered);
    }
  }

  // The bytes that a run has read of those it started with
  ghost function BytesRead(s: State, n: nat): (r: nat)
    requires Sound(s)
    ensures r <= |Ledger(s)|
  {
    RunKeeps(s, n);
    var left := |Run(s, n).src.source.file|;
    assert |Ledger(Run(s, n))| >= left;
    |Ledger(s)| - left
  }

  lemma FinishedRun(s: State, n: nat)
    requires Sound(s) && IsEof(Run(s, n), true)
    ensures Run(s, n).sink.device.delivered == WholeFrames(Ledger(s)[..BytesRead(s, n)], s.sink.frame)
    ensures HonestRun(s, n) && ClosedWhenDone(s.src) ==>
      Run(s, n).sink.device.delivered == WholeFrames(Ledger(s), s.sink.frame)
  {
    EofDelivers(s, n, true);
  }

  // Two finished runs over the same bytes, whatever their buffers and however the system
  // and the device cut the transfers, deliver the same exactly if they have read as many
  // whole frames; and they have, if neither has seen a hang-up reported alone with bytes
  // left, as no run does over a script without one.
  lemma ScheduleIndependent(a: State, m: nat, b: State, n: nat)
    requires Sound(a) && Sound(b) && Ledger(a) == Ledger(b) && a.sink.frame == b.sink.frame
    requires IsEof(Run(a, m), true) && IsEof(Run(b, n), true)
    ensures var d, e := Run(a, m).sink.device.delivered, Run(b, n).sink.device.delivered;
      && (d == e <==> BytesRead(a, m) / a.sink.frame == BytesRead(b, n) / b.sink.frame)
      && (HonestRun(a, m) && ClosedWhenDone(a.src) && HonestRun(b, n) && ClosedWhenDone(b.src) ==> d == e)
      && (Complete(a.src) && Complete(b.src) ==> d == e)
  {
    FinishedRun(a, m);
    FinishedRun(b, n);
    if Complete(a.src) && Complete(b.src) {
      CompleteRunsHonestly(a, m);
      CompleteRunsHonestly(b, n);
    }
    SameFrames(Ledger(a), BytesRead(a, m), BytesRead(b, n), a.sink.frame);
  }

  lemma SameFrames(body: seq<byte>, r: nat, q: nat, f: nat)
    requires r <= |body| && q <= |body| && f > 0
    ensures WholeFrames(body[..r], f) == WholeFrames(body[..q], f) <==> r / f == q / f
  {
    var d, e := WholeFrames(body[..r], f), WholeFrames(body[..q], f);
    FramesOf(r, f, |d|);
    FramesOf(q, f, |e|);
    assert d == body[..|d|] && e == body[..|e|];
  }

  lemma FramesOf(size: nat, f: nat, whole: nat)
    requires f > 0 && whole <= size && whole % f == 0 && size - whole < f
    ensures whole / f == size / f && whole == f * (whole / f)
  {
    assert whole == f * (whole / f);
    ModulusUnique(size, f, whole / f, size - whole);
  }
}
