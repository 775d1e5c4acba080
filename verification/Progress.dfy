// Playback gets stuck or gets to the end: the output capacity that decides which, and
// the bound on the number of steps.
module Progress {
  import opened Bytes
  import opened Kernel
  import opened Alsa
  import opened IoBuffers
  import opened RfStreams
  import opened StreamLaws
  import opened Pipeline
  import opened PipelineLaws
  import opened PreloadLaws

  // -- stuck states -----------------------------------------------------------------------

  // Bytes wait in the source, the output counts as full, so nothing is decoded, and it
  // counts as empty, so nothing is written.
  predicate Stuck(s: State) {
    s.src.buf.unread != [] && s.sink.IsFull(s.sink.frame) && s.sink.IsEmpty()
  }

  // Nothing the environment does gets a stuck player to move another byte to the device.
  lemma {:induction false} StuckForever(s: State, n: nat)
    requires s.Ok() && Stuck(s)
    ensures Stuck(Run(s, n)) && Run(s, n).sink == s.sink
    decreases n
  {
    if n > 0 {
      ReadSourceKeeps(s.src);
      StuckForever(ProcessOnce(s).0, n - 1);
    }
  }

  lemma WideOutputNeverStuck(s: State)
    requires s.Ok() && s.sink.out.cap >= 2 * s.sink.frame - 1
    ensures !Stuck(s)
  {
  }

  // A file that comes in one byte at a time.
  predicate Trickle(source: Source) {
    && (forall a :: a in source.readScript ==> a == Transferred(1))
    && (forall a :: a in source.pollScript ==> a == Events(true, false))
    && |source.readScript| >= |source.file| && |source.pollScript| >= |source.file|
  }

  lemma RefillTrickles(s: Stream)
    requires s.Ok() && s.open && !s.IsFull() && Trickle(s.source) && s.source.file != []
    ensures var (t, error) := ReadSource(s);
      && error == 0 && t.open && Trickle(t.source)
      && t.buf.unread == s.buf.unread + s.source.file[..1] && t.source.file == s.source.file[1..]
  {
    var source := s.source;
    assert source.readScript[0] in source.readScript && source.pollScript[0] in source.pollScript;
    assert forall a :: a in source.readScript[1..] ==> a in source.readScript;
    assert forall a :: a in source.pollScript[1..] ==> a in source.pollScript;
  }

  // The number of bytes that makes an empty output of this capacity count as full.
  function Filling(s: State): nat {
    if s.sink.out.cap < s.sink.frame then 0 else s.sink.out.cap - s.sink.frame + 1
  }

  // From empty buffers, a trickle that reaches that number before it makes a whole frame
  // gets the player stuck.
  lemma {:induction false} TrickleSticks(s: State)
    requires s.Ok() && s.src.open && s.src.buf.unread == []
    requires s.sink.out.cap <= 2 * s.sink.frame - 2 && |s.sink.out.unread| <= Filling(s)
    requires Trickle(s.src.source) && |s.src.source.file| > Filling(s) - |s.sink.out.unread|
    ensures var n := Filling(s) - |s.sink.out.unread| + 1;
      RunsClean(s, n) && Stuck(Run(s, n))
    decreases |s.src.source.file|
  {
    var t := ProcessOnce(s).0;
    if |s.sink.out.unread| == Filling(s) {
      RefillTrickles(s.src);
      assert Stuck(t) && Run(t, 0) == t && RunsClean(t, 0);
    } else {
      TrickleStep(s);
      TrickleSticks(t);
    }
  }

  // Before that, each step brings one byte into the output.
  lemma TrickleStep(s: State)
    requires s.Ok() && s.src.open && s.src.buf.unread == []
    requires s.sink.out.cap <= 2 * s.sink.frame - 2 && |s.sink.out.unread| < Filling(s)
    requires Trickle(s.src.source) && s.src.source.file != []
    ensures var (t, error) := ProcessOnce(s);
      && error == 0 && t.src.open && t.src.buf.unread == [] && |t.sink.out.unread| == |s.sink.out.unread| + 1
      && Trickle(t.src.source) && |t.src.source.file| == |s.src.source.file| - 1
  {
    RefillTrickles(s.src);
    var read := s.(src := ReadSource(s.src).0);
    assert |read.src.buf.unread| == 1;
    DecodeOnceKeeps(read);
    assert ProcessOnce(s) == (DecodeAll(DecodeOnce(read)), 0) && DecodeAll(DecodeOnce(read)) == DecodeOnce(read);
  }

  // The first n steps report no error.
  predicate RunsClean(s: State, n: nat)
    requires s.Ok()
    decreases n
  {
    n > 0 ==> ProcessOnce(s).1 == 0 && RunsClean(ProcessOnce(s).0, n - 1)
  }

  // Some number of steps, all of which succeed, lead to a stuck state.
  ghost predicate GetsStuck(s: State)
    requires s.Ok()
  {
    exists n: nat :: RunsClean(s, n) && Stuck(Run(s, n))
  }

  // The status queries succeed.
  predicate NoneFails(checks: seq<Check>) {
    forall c :: c in checks ==> c.status >= 0
  }

  // The play loop takes these steps, and is in the stuck state after them.
  lemma {:induction false} PlayGetsStuck(s: State, n: nat, checks: seq<Check>)
    requires s.Ok() && RunsClean(s, n) && Stuck(Run(s, n)) && |checks| == n && NoneFails(checks)
    ensures Play(s, checks) == PlayResult(Run(s, n), 0, false)
    decreases n
  {
    if n > 0 {
      NotEndedBefore(s, n, checks[0]);
      assert checks[0] in checks;
      assert forall c :: c in checks[1..] ==> c in checks;
      PlayGetsStuck(ProcessOnce(s).0, n - 1, checks[1..]);
    }
  }

  // And however long it goes on, it does not end by itself.
  lemma {:induction false} StuckNeverEnds(s: State, n: nat, checks: seq<Check>)
    requires s.Ok() && Stuck(Run(s, n))
    ensures !Play(s, checks).ended
    decreases |checks|
  {
    if checks != [] {
      NotEndedBefore(s, n, checks[0]);
      if n > 0 {
        StuckNeverEnds(ProcessOnce(s).0, n - 1, checks[1..]);
      } else {
        StuckForever(s, 1);
        assert Run(s, 1) == Run(ProcessOnce(s).0, 0);
        StuckNeverEnds(ProcessOnce(s).0, 0, checks[1..]);
      }
    }
  }

  lemma {:induction false} NotEndedBefore(s: State, n: nat, check: Check)
    requires s.Ok() && Stuck(Run(s, n))
    ensures !HasEnded(s, check)
    decreases n
  {
    if HasEnded(s, check) && n > 0 {
      assert ProcessOnce(s) == (s, 0);
      NotEndedBefore(s, n - 1, check);
    }
  }

  // With both buffers empty and a frame or more still to come, a byte-wise file gets
  // the player stuck exactly if the output holds less than two frames but one byte.
  lemma StuckThreshold(s: State)
    requires s.Ok() && s.src.open && s.src.buf.unread == [] && s.sink.out.unread == []
    requires Trickle(s.src.source) && |s.src.source.file| >= s.sink.frame
    ensures GetsStuck(s) <==> s.sink.out.cap < 2 * s.sink.frame - 1
  {
    if s.sink.out.cap < 2 * s.sink.frame - 1 {
      TrickleSticks(s);
    } else {
      WideNeverStuck(s);
    }
  }

  // Above the threshold no environment gets the player stuck, from any state, with errors
  // on the way or without.
  lemma WideNeverStuck(s: State)
    requires s.Ok() && s.sink.out.cap >= 2 * s.sink.frame - 1
    ensures forall n: nat :: !Stuck(Run(s, n))
  {
    forall n: nat
      ensures !Stuck(Run(s, n))
    {
      WideOutputNeverStuck(Run(s, n));
    }
  }

  // -- progress ---------------------------------------------------------------------------

  // Nothing is left but, perhaps, a part of a frame.
  predicate Drained(s: State) {
    s.src.IsEmpty() && s.sink.IsEmpty()
  }

  function Measure(s: State): nat {
    3 * |s.src.source.file| + 2 * |s.src.buf.unread| + |s.sink.out.unread| + if s.src.open then 1 else 0
  }

  // The number of writes in which the device takes something.
  function Acceptances(script: seq<WriteAnswer>): nat {
    if script == [] then 0 else (if script[0].Accepted? then 1 else 0) + Acceptances(script[1..])
  }

  predicate IsXrun(a: WriteAnswer) {
    a.Refused? && (IoError(a.errno) == EPIPE || IoError(a.errno) == ESTRPIPE)
  }

  // The number of writes refused because the device has run dry or has been suspended
  function Xruns(script: seq<WriteAnswer>): nat {
    if script == [] then 0 else (if IsXrun(script[0]) then 1 else 0) + Xruns(script[1..])
  }

  // The number of times the device says that it has no room
  function FullReports(script: seq<SignedFrames>): nat {
    if script == [] then 0 else (if script[0] == 0 then 1 else 0) + FullReports(script[1..])
  }

  // The steps in which nothing can be written
  function Stalls(d: Device): nat {
    FullReports(d.availScript) + Xruns(d.writeScript)
  }

  // A device that will take something m times, any nonzero number of frames at a time. In
  // between it may be full, ask for another try, or run dry and be recovered, any number
  // of times.
  ghost predicate WillingDevice(d: Device, m: nat) {
    && (forall a :: a in d.writeScript ==> if a.Accepted? then a.n > 0 else IoError(a.errno) == EAGAIN || IsXrun(a))
    && (forall code :: code in d.recoveryScript ==> code >= 0) && |d.recoveryScript| >= Xruns(d.writeScript)
    && Acceptances(d.writeScript) >= m
  }

  // Bytes the device has not been given.
  function Left(s: State): nat {
    |s.sink.out.unread| + |s.src.Rest()|
  }

  // An environment that does its part until every byte has been played.
  ghost predicate Willing(s: State) {
    Generous(s.src) && WillingDevice(s.sink.device, Left(s))
  }

  // For every file, and any number of bytes, there is such an environment.
  lemma EnvironmentExists(file: seq<byte>, m: nat)
    returns (source: Source, device: Device)
    ensures source.file == file && device.delivered == [] && device.queued == 0
    ensures WillingDevice(device, m) && Stalls(device) == 0
    ensures forall s: Stream :: s.source == source ==> Generous(s)
  {
    source := Source(file, seq(|file| + 1, _ => Transferred(1)), seq(|file| + 1, _ => Events(true, false)));
    device := Device([], 0, 0, [], seq(m, _ => Accepted(1)), []);
    AllTransfers(source.readScript);
    AllAcceptances(device.writeScript);
  }

  lemma {:induction false} AllTransfers(script: seq<ReadAnswer>)
    requires forall a :: a in script ==> a.Transferred?
    ensures Transfers(script) == |script|
  {
    if script != [] {
      assert script[0] in script;
      assert forall a :: a in script[1..] ==> a in script;
      AllTransfers(script[1..]);
    }
  }

  lemma {:induction false} AllAcceptances(script: seq<WriteAnswer>)
    requires forall a :: a in script ==> a.Accepted?
    ensures Acceptances(script) == |script| && Xruns(script) == 0
  {
    if script != [] {
      assert script[0] in script;
      assert forall a :: a in script[1..] ==> a in script;
      AllAcceptances(script[1..]);
    }
  }

  lemma RecoverySucceeds(d: Device, errno: nat)
    requires IsXrun(Refused(errno)) && d.recoveryScript != [] && d.recoveryScript[0] >= 0
    ensures var (e, result) := XrunRecovery(d, -IoError(errno));
      result == 0 && e == d.(recoveryScript := d.recoveryScript[1..], queued := e.queued)
  {
  }

  // A write to a willing device takes a frame at least, or uses up a stall and leaves the
  // output as it is.
  lemma {:induction false} WillingWrite(s: Sink, m: nat)
    requires s.Ok() && !s.IsEmpty() && WillingDevice(s.device, m) && m > 0
    ensures var (t, error) := WriteAlsa(s);
      && error == 0
      && if t.out == s.out then WillingDevice(t.device, m) && Stalls(t.device) < Stalls(s.device)
         else |t.out.unread| + s.frame <= |s.out.unread| && WillingDevice(t.device, m - 1)
              && Stalls(t.device) <= Stalls(s.device)
    decreases |s.device.writeScript|
  {
    var (avail, d) := s.device.NextAvail();
    if avail != 0 {
      var (answer, rest) := d.NextWrite();
      assert d.writeScript[0] in d.writeScript;
      assert forall a :: a in d.writeScript[1..] ==> a in d.writeScript;
      match answer
      case Accepted(n) => TakesAFrame(s, avail, n);
      case Refused(errno) =>
        if IoError(errno) == EAGAIN {
          WillingWrite(s.(device := rest), m);
        } else {
          assert rest.recoveryScript[0] in rest.recoveryScript;
          assert forall code :: code in rest.recoveryScript[1..] ==> code in rest.recoveryScript;
          RecoverySucceeds(rest, errno);
        }
    }
  }

  lemma TakesAFrame(s: Sink, avail: SignedFrames, n: nat)
    requires s.Ok() && !s.IsEmpty() && avail != 0 && n > 0
    ensures var k := Taken(n, Min(AsSize(avail), |s.out.unread| / s.frame));
      s.frame <= k * s.frame <= |s.out.unread|
  {
    var count := |s.out.unread| / s.frame;
    OfferFits(|s.out.unread|, s.frame, AsSize(avail), n);
    WholeItemsFit(|s.out.unread|, s.frame, count);
    assert count > 0;
    FewerItems(1, Taken(n, Min(AsSize(avail), count)), s.frame);
  }

  // Steps still to come, at most: those that move bytes, and those that cannot.
  function Effort(s: State): nat {
    Measure(s) + Stalls(s.sink.device)
  }

  // One step with a willing environment makes progress, unless there is nothing left: it
  // succeeds, and moves bytes on or uses up a stall.
  lemma StepProgresses(s: State)
    requires Sound(s) && Willing(s) && !Drained(s)
    requires s.sink.out.cap >= 2 * s.sink.frame - 1
    ensures var (t, error) := ProcessOnce(s);
      && error == 0 && Willing(t)
      && Measure(t) <= Measure(s) && Stalls(t.sink.device) <= Stalls(s.sink.device) && Effort(t) < Effort(s)
      && (ClosedWhenDone(s.src) ==> ClosedWhenDone(t.src))
  {
    PreloadProgresses(s);
    var t := Preload(s).0;
    if !t.sink.IsEmpty() {
      WillingWrite(t.sink, Left(s));
    }
    ProcessOnceKeeps(s);
  }

  lemma PreloadProgresses(s: State)
    requires s.Ok() && Willing(s)
    requires s.sink.out.cap >= 2 * s.sink.frame - 1
    ensures var (t, error) := Preload(s);
      && error == 0 && Generous(t.src) && Left(t) == Left(s) && t.sink.device == s.sink.device
      && HonestPoll(s.src)
      && Measure(t) <= Measure(s) && (Measure(t) == Measure(s) ==> Drained(s) || !t.sink.IsEmpty())
  {
    ReadSourceGenerous(s.src);
    if !s.src.IsEmpty() {
      var src := if s.src.IsFull() then s.src else ReadSource(s.src).0;
      assert |src.buf.unread| + |src.source.file| == |s.src.Rest()|;
      var u := s.(src := src);
      DecodeAllKeeps(u);
      if u.src.buf.unread != [] && !u.sink.IsFull(u.sink.frame) {
        DecodeAllMoves(u);
      }
    }
  }

  lemma DecodeAllMoves(s: State)
    requires s.Ok() && s.src.buf.unread != [] && !s.sink.IsFull(s.sink.frame)
    ensures |DecodeAll(s).src.buf.unread| < |s.src.buf.unread|
  {
    DecodeOnceKeeps(s);
    DecodeAllKeeps(DecodeOnce(s));
  }

  // -- to the end -------------------------------------------------------------------------

  // No poll of the play loop reports a hang-up alone while bytes are left.
  ghost predicate HonestPlay(s: State, checks: seq<Check>)
    requires s.Ok()
    decreases |checks|
  {
    if checks == [] || HasEnded(s, checks[0]) then true
    else
      var (t, error) := ProcessOnce(s);
      HonestPoll(s.src) && (error == 0 && checks[0].status >= 0 ==> HonestPlay(t, checks[1..]))
  }

  // The play loop, over any environment. It ends by itself only with a device that has been
  // started, so with a period of frames delivered at least.
  lemma {:induction false} PlayKeeps(s: State, checks: seq<Check>)
    requires Sound(s)
    ensures var r := Play(s, checks);
      && Sound(r.state) && Ledger(r.state) == Ledger(s)
      && (r.ended ==> r.error == 0 && IsEof(r.state, r.state.sink.device.Running()))
      && (HonestPlay(s, checks) && ClosedWhenDone(s.src) <==> ClosedWhenDone(r.state.src))
    decreases |checks|
  {
    if checks != [] && !HasEnded(s, checks[0]) {
      ProcessOnceKeeps(s);
      PlayKeeps(ProcessOnce(s).0, checks[1..]);
    }
  }

  lemma {:induction false} CompletePlaysHonestly(s: State, checks: seq<Check>)
    requires s.Ok() && Complete(s.src)
    ensures HonestPlay(s, checks)
    decreases |checks|
  {
    if checks != [] && !HasEnded(s, checks[0]) {
      ReadSourceStaysComplete(s.src);
      ProcessOnceStaysComplete(s);
      CompletePlaysHonestly(ProcessOnce(s).0, checks[1..]);
    }
  }

  // Status queries that do not fail, and a device that is dry, if it runs, at the last check
  predicate Patient(checks: seq<Check>) {
    checks != [] && checks[|checks| - 1].dry && NoneFails(checks)
  }

  // With a willing environment, and an output of two frames less a byte, the player comes
  // within Effort(s) steps to where every whole frame of the file is delivered, without an
  // error; and the play loop ends there exactly if the device has been started since it was
  // last prepared, that is, if it has queued a period.
  lemma {:induction false} PlaysToTheEnd(s: State, checks: seq<Check>)
    requires Sound(s) && Willing(s) && ClosedWhenDone(s.src)
    requires s.sink.out.cap >= 2 * s.sink.frame - 1
    requires Effort(s) < |checks| && Patient(checks)
    ensures var r := Play(s, checks);
      && r.error == 0 && r.state.sink.device.delivered == WholeFrames(Ledger(s), s.sink.frame)
      && (r.ended <==> r.state.sink.device.Running())
    decreases |checks|
  {
    if Drained(s) {
      DrainedEnds(s, checks);
      DrainedDelivers(s);
    } else {
      TurnProgresses(s, checks);
      PlaysToTheEnd(ProcessOnce(s).0, checks[1..]);
    }
  }

  lemma TurnProgresses(s: State, checks: seq<Check>)
    requires Sound(s) && Willing(s) && ClosedWhenDone(s.src) && !Drained(s)
    requires s.sink.out.cap >= 2 * s.sink.frame - 1
    requires Effort(s) < |checks| && Patient(checks)
    ensures var t, later := ProcessOnce(s).0, checks[1..];
      && Sound(t) && Willing(t) && ClosedWhenDone(t.src) && Ledger(t) == Ledger(s)
      && Effort(t) < |later| && Patient(later) && Play(s, checks) == Play(t, later)
  {
    ProcessOnceKeeps(s);
    StepProgresses(s);
    TurnPlays(s, checks);
  }

  lemma TurnPlays(s: State, checks: seq<Check>)
    requires s.Ok() && !Drained(s) && ProcessOnce(s).1 == 0 && |checks| > 1 && Patient(checks)
    ensures Patient(checks[1..]) && Play(s, checks) == Play(ProcessOnce(s).0, checks[1..])
  {
    assert checks[0] in checks;
    assert forall c :: c in checks[1..] ==> c in checks;
  }

  lemma DrainedDelivers(s: State)
    requires Sound(s) && Drained(s) && ClosedWhenDone(s.src)
    ensures s.sink.device.delivered == WholeFrames(Ledger(s), s.sink.frame)
  {
    EofDelivers(s, 0, true);
  }

  lemma {:induction false} DrainedEnds(s: State, checks: seq<Check>)
    requires s.Ok() && Drained(s) && Patient(checks)
    ensures Play(s, checks) == PlayResult(s, 0, s.sink.device.Running())
    decreases |checks|
  {
    if !HasEnded(s, checks[0]) {
      assert checks[0] in checks;
      assert forall c :: c in checks[1..] ==> c in checks;
      if |checks| > 1 {
        DrainedEnds(s, checks[1..]);
      }
    }
  }

  // -- when playback can end --------------------------------------------------------------

  // A device that never runs dry in the middle has queued all it was given.
  ghost predicate Steady(s: Sink)
    requires s.Ok()
  {
    Xruns(s.device.writeScript) == 0 && s.device.queued == |s.device.delivered| / s.frame
  }

  lemma AcceptStaysSteady(s: Sink, k: nat, rest: Device)
    requires s.Ok() && k * s.frame <= |s.out.unread| && Aligned(s) && Steady(s)
    requires rest.delivered == s.device.delivered && rest.queued == s.device.queued && Xruns(rest.writeScript) == 0
    ensures Steady(s.Accept(k, rest))
  {
    MoreFrames(|s.device.delivered|, s.frame, k);
  }

  lemma {:induction false} WriteStaysSteady(s: Sink)
    requires s.Ok() && !s.IsEmpty() && Aligned(s) && Steady(s)
    ensures Steady(WriteAlsa(s).0)
    decreases |s.device.writeScript|
  {
    var (avail, d) := s.device.NextAvail();
    if avail != 0 {
      var (answer, rest) := d.NextWrite();
      match answer
      case Accepted(n) =>
        OfferFits(|s.out.unread|, s.frame, AsSize(avail), n);
        AcceptStaysSteady(s, Taken(n, Min(AsSize(avail), |s.out.unread| / s.frame)), rest);
      case Refused(errno) =>
        if IoError(errno) == EAGAIN {
          WriteStaysSteady(s.(device := rest));
        }
    }
  }

  lemma {:induction false} PlayStaysSteady(s: State, checks: seq<Check>)
    requires Sound(s) && Steady(s.sink)
    ensures Steady(Play(s, checks).state.sink)
    decreases |checks|
  {
    if checks != [] && !HasEnded(s, checks[0]) {
      PreloadKeeps(s);
      ProcessOnceKeeps(s);
      var (t, error) := Preload(s);
      if error == 0 && !t.sink.IsEmpty() {
        WriteStaysSteady(t.sink);
      }
      PlayStaysSteady(ProcessOnce(s).0, checks[1..]);
    }
  }

  // Bytes the device will have queued at most when all is delivered
  function Queueable(s: State): nat {
    s.sink.device.queued * s.sink.frame + Left(s)
  }

  lemma {:induction false} WriteQueues(s: Sink)
    requires s.Ok() && !s.IsEmpty()
    ensures var t := WriteAlsa(s).0;
      t.device.queued * s.frame + |t.out.unread| <= s.device.queued * s.frame + |s.out.unread|
    decreases |s.device.writeScript|
  {
    var (avail, d) := s.device.NextAvail();
    if avail != 0 {
      var (answer, rest) := d.NextWrite();
      match answer
      case Accepted(n) =>
        OfferFits(|s.out.unread|, s.frame, AsSize(avail), n);
        var k := Taken(n, Min(AsSize(avail), |s.out.unread| / s.frame));
        assert (s.device.queued + k) * s.frame == s.device.queued * s.frame + k * s.frame;
      case Refused(errno) =>
        if IoError(errno) == EAGAIN {
          WriteQueues(s.(device := rest));
        } else {
          var recovered := XrunRecovery(rest, -IoError(errno)).0;
          FewerItems(recovered.queued, rest.queued, s.frame);
        }
    }
  }

  lemma ProcessOnceQueues(s: State)
    requires s.Ok()
    ensures Queueable(ProcessOnce(s).0) <= Queueable(s)
  {
    PreloadKeeps(s);
    var (t, error) := Preload(s);
    assert |Ledger(t)| == |t.sink.device.delivered| + Left(t);
    assert |Ledger(s)| == |s.sink.device.delivered| + Left(s);
    if error == 0 && !t.sink.IsEmpty() {
      WriteQueues(t.sink);
    }
  }

  // Over any environment, less than a period of frames, in the queue and still to come,
  // never bring playback to an end.
  lemma {:induction false} ShortTailNeverEnds(s: State, checks: seq<Check>)
    requires s.Ok() && Queueable(s) < s.sink.device.threshold * s.sink.frame
    ensures !Play(s, checks).ended
    decreases |checks|
  {
    if checks != [] {
      if s.sink.device.Running() {
        FewerItems(s.sink.device.threshold, s.sink.device.queued, s.sink.frame);
      }
      ProcessOnceQueues(s);
      ShortTailNeverEnds(ProcessOnce(s).0, checks[1..]);
    }
  }

  // So a file shorter than a period is never played to its end,
  lemma ShortBodyNeverEnds(s: State, checks: seq<Check>)
    requires Sound(s) && |Ledger(s)| / s.sink.frame < s.sink.device.threshold
    ensures !Play(s, checks).ended
  {
    PlayKeeps(s, checks);
    var r := Play(s, checks);
    assert |r.state.sink.device.delivered| <= |Ledger(r.state)|;
    MoreItems(|r.state.sink.device.delivered|, |Ledger(s)|, s.sink.frame);
  }

  // nor is one of any length that meets an underrun with less than a period left.
  lemma UnderrunStrands(s: State, checks: seq<Check>)
    requires s.Ok() && !s.sink.IsEmpty() && Left(s) < s.sink.device.threshold * s.sink.frame
    requires var d := s.sink.device;
      && d.availScript != [] && d.availScript[0] != 0
      && d.writeScript != [] && d.writeScript[0] == Refused(EPIPE)
      && d.recoveryScript != [] && d.recoveryScript[0] >= 0
    ensures !Play(s, checks).ended
  {
    if checks != [] && ProcessOnce(s).1 == 0 {
      PreloadKeeps(s);
      var (t, error) := Preload(s);
      assert |Ledger(t)| == |t.sink.device.delivered| + Left(t);
      assert |Ledger(s)| == |s.sink.device.delivered| + Left(s);
      PreloadGrows(s);
      var u := ProcessOnce(s).0;
      assert u.sink.device.queued == 0 && u.sink.out == t.sink.out && u.src == t.src;
      ShortTailNeverEnds(u, checks[1..]);
    }
  }

  lemma PreloadGrows(s: State)
    requires s.Ok()
    ensures |Preload(s).0.sink.out.unread| >= |s.sink.out.unread|
  {
    if !s.src.IsEmpty() {
      ReadSourceKeeps(s.src);
      var (src, error) := if s.src.IsFull() then (s.src, 0) else ReadSource(s.src);
      DecodeAllKeeps(s.(src := src));
    }
  }

  // Over a willing environment without underruns, the play loop ends exactly if the file
  // has a period of frames.
  lemma EndsExactly(s: State, checks: seq<Check>)
    requires Sound(s) && Willing(s) && ClosedWhenDone(s.src) && Steady(s.sink)
    requires s.sink.out.cap >= 2 * s.sink.frame - 1
    requires Effort(s) < |checks| && Patient(checks)
    ensures Play(s, checks).ended <==> s.sink.device.threshold <= |Ledger(s)| / s.sink.frame
  {
    PlaysToTheEnd(s, checks);
    PlayStaysSteady(s, checks);
    var whole := WholeFrames(Ledger(s), s.sink.frame);
    FramesOf(|Ledger(s)|, s.sink.frame, |whole|);
  }
}
