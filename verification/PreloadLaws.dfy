// Preloading the first period before playback starts: what it leaves buffered, and
// exactly when it stops the program.
module PreloadLaws {
  import opened IoBuffers
  import opened RfStreams
  import opened StreamLaws
  import opened Pipeline
  import opened PipelineLaws

  // No poll of the preload loop reports a hang-up alone while bytes are left.
  ghost predicate HonestLoop(s: State, period: nat)
    requires s.Ok()
    decreases s.sink.out.Available()
  {
    if s.src.buf.unread == [] || |s.sink.out.unread| / s.sink.frame >= period || s.sink.out.Available() == 0 then true
    else
      var t := DecodeOnce(s);
      if t.src.IsEmpty() then true
      else
        var (src, error) := ReadSource(t.src);
        HonestPoll(t.src) && (error == 0 ==> HonestLoop(t.(src := src), period))
  }

  ghost predicate HonestPreload(s: State, period: nat)
    requires s.Ok()
  {
    && HonestPoll(s.src)
    && (ReadSource(s.src).1 == 0 ==> HonestLoop(s.(src := ReadSource(s.src).0), period))
  }

  // Whatever the environment answers, the loop keeps every byte. It returns without an
  // error only with a full period buffered, or with a closed source and no bytes of it
  // left to decode. It fails the decoder's assertion only with a full output buffer
  // that is smaller than a period.
  lemma {:induction false} PreloadLoopKeeps(s: State, period: nat)
    requires s.Ok() && (s.src.buf.unread != [] || !s.src.open)
    ensures var (t, ending) := PreloadLoop(s, period);
      && Ledger(t) == Ledger(s) && t.sink.device == s.sink.device && t.sink.written == s.sink.written
      && (ending == Returned(0) ==> |t.sink.out.unread| / t.sink.frame >= period || t.src.IsEmpty())
      && (ending == Aborted ==>
            t.sink.out.Available() == 0 && t.src.buf.unread != [] && t.sink.out.cap / t.sink.frame < period)
      && (HonestLoop(s, period) && ClosedWhenDone(s.src) <==> ClosedWhenDone(t.src))
    decreases s.sink.out.Available()
  {
    if s.src.buf.unread == [] || |s.sink.out.unread| / s.sink.frame >= period {
    } else if s.sink.out.Available() == 0 {
    } else {
      DecodeOnceKeeps(s);
      var t := DecodeOnce(s);
      if t.src.IsEmpty() {
        PreloadLoopKeeps(t, period);
      } else {
        ReadSourceKeeps(t.src);
        var (src, error) := ReadSource(t.src);
        if error == 0 {
          PreloadLoopKeeps(t.(src := src), period);
        }
      }
    }
  }

  lemma PreloadFirstPeriodKeeps(s: State, period: nat)
    requires Sound(s)
    ensures var (t, ending) := PreloadFirstPeriod(s, period);
      && Sound(t) && Ledger(t) == Ledger(s) && t.sink.device == s.sink.device
      && (ending == Returned(0) ==> |t.sink.out.unread| / t.sink.frame >= period || t.src.IsEmpty())
      && (ending == Aborted ==>
            t.sink.out.Available() == 0 && t.src.buf.unread != [] && t.sink.out.cap / t.sink.frame < period)
      && (HonestPreload(s, period) && ClosedWhenDone(s.src) <==> ClosedWhenDone(t.src))
  {
    ReadSourceKeeps(s.src);
    var (src, error) := ReadSource(s.src);
    if error == 0 {
      PreloadLoopKeeps(s.(src := src), period);
    }
  }

  lemma {:induction false} PreloadLoopStaysComplete(s: State, period: nat)
    requires s.Ok() && Complete(s.src)
    ensures Complete(PreloadLoop(s, period).0.src) && HonestLoop(s, period)
    decreases s.sink.out.Available()
  {
    if s.src.buf.unread == [] || |s.sink.out.unread| / s.sink.frame >= period {
    } else if s.sink.out.Available() > 0 {
      DecodeOnceKeeps(s);
      var t := DecodeOnce(s);
      ReadSourceStaysComplete(t.src);
      var (src, error) := if t.src.IsEmpty() then (t.src, 0) else ReadSource(t.src);
      if error == 0 {
        PreloadLoopStaysComplete(t.(src := src), period);
      }
    }
  }

  lemma PreloadStaysComplete(s: State, period: nat)
    requires s.Ok() && Complete(s.src)
    ensures Complete(PreloadFirstPeriod(s, period).0.src) && HonestPreload(s, period)
  {
    ReadSourceStaysComplete(s.src);
    PreloadLoopStaysComplete(s.(src := ReadSource(s.src).0), period);
  }

  // With room for a period the assertions of the decoder hold, and a preload that
  // returns 0 has buffered a period, or all there is.
  lemma PreloadFillsPeriod(s: State, period: nat)
    requires Sound(s) && period * s.sink.frame <= s.sink.out.cap
    ensures var (t, ending) := PreloadFirstPeriod(s, period);
      && ending.Returned?
      && (ending == Returned(0) ==>
            || |t.sink.out.unread| >= period * t.sink.frame
            || (t.src.IsEmpty() && Received(t.sink) + t.src.source.file == Ledger(s)))
  {
    PreloadFirstPeriodKeeps(s, period);
    var (t, ending) := PreloadFirstPeriod(s, period);
    ItemsThatFit(s.sink.out.cap, s.sink.frame, period);
    if |t.sink.out.unread| / t.sink.frame >= period {
      WholeItemsFit(|t.sink.out.unread|, t.sink.frame, period);
    }
  }

  // -- exactly when the program stops ---------------------------------------------------

  lemma ReadSourceGenerous(s: Stream)
    requires s.Ok() && Generous(s)
    ensures var (t, error) := ReadSource(s);
      && error == 0 && Generous(t) && t.Rest() == s.Rest() && HonestPoll(s)
      && (t.buf.unread != [] || !t.open) && s.buf.unread <= t.buf.unread
      && (ClosedWhenDone(s) ==> ClosedWhenDone(t))
      && (s.open && !s.IsFull() ==> |t.source.file| < |s.source.file| || !t.open)
  {
    ReadSourceKeeps(s);
    if s.open && !s.IsFull() {
      var script := s.source.pollScript;
      assert script[0] in script;
      assert forall a :: a in script[1..] ==> a in script;
      var polled := s.(source := s.source.(pollScript := script[1..]));
      RefillOnceSucceeds(polled);
      RefillOnceKeepsBytes(polled);
    }
  }

  // Over a generous descriptor, the loop fails the decoder's assertion exactly if a period
  // does not fit the output buffer and there are more bytes than do.
  lemma {:induction false} LoopAborts(s: State, period: nat)
    requires s.Ok() && Generous(s.src) && ClosedWhenDone(s.src) && (s.src.buf.unread != [] || !s.src.open)
    ensures PreloadLoop(s, period).1 ==
      if s.sink.out.cap / s.sink.frame < period && |s.sink.out.unread| + |s.src.Rest()| > s.sink.out.cap
      then Aborted else Returned(0)
    ensures Generous(PreloadLoop(s, period).0.src) && ClosedWhenDone(PreloadLoop(s, period).0.src)
    decreases s.sink.out.Available()
  {
    if s.src.buf.unread == [] {
    } else if |s.sink.out.unread| / s.sink.frame >= period {
      MoreItems(|s.sink.out.unread|, s.sink.out.cap, s.sink.frame);
    } else if s.sink.out.Available() == 0 {
    } else {
      DecodeOnceKeeps(s);
      var t := DecodeOnce(s);
      assert |t.sink.out.unread| + |t.src.Rest()| == |s.sink.out.unread| + |s.src.Rest()|;
      if t.src.IsEmpty() {
        LoopAborts(t, period);
      } else {
        ReadSourceGenerous(t.src);
        LoopAborts(t.(src := ReadSource(t.src).0), period);
      }
    }
  }

  lemma MoreItems(size: nat, cap: nat, frame: nat)
    requires frame > 0 && size <= cap
    ensures size / frame <= cap / frame
  {
    WholeItemsFit(size, frame, size / frame);
    ItemsThatFit(cap, frame, size / frame);
  }

  lemma PreloadAbortsExactly(s: State, period: nat)
    requires Sound(s) && Generous(s.src) && ClosedWhenDone(s.src)
    ensures PreloadFirstPeriod(s, period).1 ==
      if s.sink.out.cap < period * s.sink.frame && |s.sink.out.unread| + |s.src.Rest()| > s.sink.out.cap
      then Aborted else Returned(0)
    ensures Generous(PreloadFirstPeriod(s, period).0.src) && ClosedWhenDone(PreloadFirstPeriod(s, period).0.src)
  {
    ReadSourceGenerous(s.src);
    LoopAborts(s.(src := ReadSource(s.src).0), period);
    ItemsThatFit(s.sink.out.cap, s.sink.frame, period);
  }
}
