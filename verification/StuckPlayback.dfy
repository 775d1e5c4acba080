// A narrow output gets stuck in the course of playback itself: from the start of
// preloading, over a file that arrives byte by byte and a device that takes every frame
// it is offered.
module StuckPlayback {
  import opened Bytes
  import opened Alsa
  import opened Pipeline
  import opened PipelineLaws
  import opened Progress

  // A device that takes a frame at each of m writes.
  predicate Ready(d: Device, m: nat) {
    && (forall a :: a in d.availScript ==> a != 0)
    && (forall a :: a in d.writeScript ==> a == Accepted(1))
    && |d.availScript| >= m && |d.writeScript| >= m
  }

  // An output that holds a frame, but less than two frames but one byte, and a stream that
  // trickles, with u bytes buffered before the decoder, o behind it, and `left` to come.
  predicate Narrow(s: State, u: nat, o: nat, left: nat, m: nat) {
    && s.Ok() && s.sink.frame <= s.sink.out.cap <= 2 * s.sink.frame - 2
    && s.src.open && s.src.buf.cap >= 4 && Trickle(s.src.source) && |s.src.source.file| >= left
    && |s.src.buf.unread| == u && |s.sink.out.unread| == o && Ready(s.sink.device, m)
  }

  lemma ReadOne(s: State, u: nat, o: nat, left: nat, m: nat)
    requires Narrow(s, u, o, left, m) && u < 4 && left > 0
    ensures ReadSource(s.src).1 == 0
    ensures Narrow(s.(src := ReadSource(s.src).0), u + 1, o, left - 1, m)
  {
    RefillTrickles(s.src);
  }

  lemma DecodeSome(s: State, u: nat, o: nat, left: nat, m: nat)
    requires Narrow(s, u, o, left, m) && u > 0 && o < s.sink.out.cap
    ensures var n := Min(s.sink.out.cap - o, u);
      Narrow(DecodeOnce(s), u - n, o + n, left, m)
  {
    DecodeOnceKeeps(s);
  }

  lemma WriteOne(s: Sink, m: nat)
    requires s.Ok() && s.frame <= |s.out.unread| < 2 * s.frame && Ready(s.device, m) && m > 0
    ensures var (t, error) := WriteAlsa(s);
      error == 0 && |t.out.unread| == |s.out.unread| - s.frame && Ready(t.device, m - 1)
  {
    var d := s.device;
    assert d.availScript[0] in d.availScript && d.writeScript[0] in d.writeScript;
    assert forall a :: a in d.availScript[1..] ==> a in d.availScript;
    assert forall a :: a in d.writeScript[1..] ==> a in d.writeScript;
    ModulusUnique(|s.out.unread|, s.frame, 1, |s.out.unread| - s.frame);
  }

  // One step whose decoding is known: u1 bytes left before the decoder, o1 behind it.
  lemma StepOver(s: State, u: nat, o: nat, left: nat, m: nat, u1: nat, o1: nat)
    requires Narrow(s, u, o, left, m) && u < 3 && left > 0 && m > 0
    requires Narrow(DecodeAll(s.(src := ReadSource(s.src).0)), u1, o1, left - 1, m)
    ensures ProcessOnce(s).1 == 0
    ensures Narrow(ProcessOnce(s).0, u1, if o1 >= s.sink.frame then o1 - s.sink.frame else o1, left - 1, m - 1)
  {
    ReadOne(s, u, o, left, m);
    var t := DecodeAll(s.(src := ReadSource(s.src).0));
    assert Preload(s) == (t, 0);
    if o1 >= s.sink.frame {
      WriteOne(t.sink, m);
    }
  }

  // A step that decodes everything from an empty output.
  lemma StepFromEmpty(s: State, u: nat, left: nat, m: nat)
    requires Narrow(s, u, 0, left, m) && u < 3 && left > 0 && m > 0 && u + 1 <= s.sink.out.cap
    ensures ProcessOnce(s).1 == 0
    ensures Narrow(
      ProcessOnce(s).0, 0, if u + 1 >= s.sink.frame then u + 1 - s.sink.frame else u + 1, left - 1, m - 1)
  {
    ReadOne(s, u, 0, left, m);
    var r := s.(src := ReadSource(s.src).0);
    DecodeSome(r, u + 1, 0, left - 1, m);
    assert DecodeAll(r) == DecodeAll(DecodeOnce(r)) == DecodeOnce(r);
    StepOver(s, u, 0, left, m, 0, u + 1);
  }

  lemma SticksLater(s: State)
    requires s.Ok() && ProcessOnce(s).1 == 0 && GetsStuck(ProcessOnce(s).0)
    ensures GetsStuck(s)
  {
    var n: nat :| RunsClean(ProcessOnce(s).0, n) && Stuck(Run(ProcessOnce(s).0, n));
    assert RunsClean(s, n + 1) && Run(s, n + 1) == Run(ProcessOnce(s).0, n);
  }

  // With nothing before the decoder and less than a frame behind it, a trickle fills the
  // output up to where it counts as full, and is stuck with the byte after that.
  lemma EmptySourceSticks(s: State, o: nat, left: nat, m: nat)
    requires Narrow(s, 0, o, left, m) && o < s.sink.frame < left
    ensures GetsStuck(s)
  {
    if o <= Filling(s) {
      TrickleSticks(s);
    } else {
      ReadOne(s, 0, o, left, m);
      var r := s.(src := ReadSource(s.src).0);
      assert ProcessOnce(s) == (r, 0) && Stuck(r);
      assert Run(r, 0) == r && RunsClean(r, 0);
      SticksLater(s);
    }
  }

  // Playing on from an empty output and two bytes before the decoder.
  lemma TwoBytesStick(s: State, left: nat, m: nat)
    requires Narrow(s, 2, 0, left, m) && left > s.sink.frame + 2 && m >= 2 && s.sink.frame >= 2
    ensures GetsStuck(s)
  {
    if s.sink.frame >= 3 {
      StepFromEmpty(s, 2, left, m);
      EmptySourceSticks(ProcessOnce(s).0, if s.sink.frame == 3 then 0 else 3, left - 1, m - 1);
    } else {
      ReadOne(s, 2, 0, left, m);
      var r := s.(src := ReadSource(s.src).0);
      DecodeSome(r, 3, 0, left - 1, m);
      assert DecodeAll(r) == DecodeAll(DecodeOnce(r)) == DecodeOnce(r);
      StepOver(s, 2, 0, left, m, 1, 2);
      var t := ProcessOnce(s).0;
      StepFromEmpty(t, 1, left - 1, m - 1);
      EmptySourceSticks(ProcessOnce(t).0, 0, left - 2, m - 2);
      SticksLater(t);
    }
    SticksLater(s);
  }

  // The preload loop over a trickle ends with a frame buffered, and a byte before the decoder.
  lemma {:induction false} LoopTrickles(s: State, o: nat, left: nat, m: nat)
    requires Narrow(s, 1, o, left, m) && o <= s.sink.frame && left >= s.sink.frame - o
    ensures PreloadLoop(s, 1).1 == Returned(0)
    ensures Narrow(PreloadLoop(s, 1).0, 1, s.sink.frame, left - (s.sink.frame - o), m)
    decreases s.sink.frame - o
  {
    if o == s.sink.frame {
      ModulusUnique(o, s.sink.frame, 1, 0);
    } else {
      ModulusUnique(o, s.sink.frame, 0, o);
      DecodeSome(s, 1, o, left, m);
      var t := DecodeOnce(s);
      ReadOne(t, 0, o + 1, left, m);
      LoopTrickles(t.(src := ReadSource(t.src).0), o + 1, left - 1, m);
    }
  }

  // Every output that holds a frame, but less than two frames but one byte, gets stuck in
  // the playback of some file, although preloading succeeds and every step on the way does.
  lemma NarrowPlaybackSticks(s: State, left: nat, m: nat)
    requires Narrow(s, 0, 0, left, m) && left > 2 * s.sink.frame + 4 && m >= 3
    ensures PreloadFirstPeriod(s, 1).1 == Returned(0) && GetsStuck(PreloadFirstPeriod(s, 1).0)
  {
    ReadOne(s, 0, 0, left, m);
    LoopTrickles(s.(src := ReadSource(s.src).0), 0, left - 1, m);
    var f := s.sink.frame;
    var p := PreloadFirstPeriod(s, 1).0;
    var rest := left - 1 - f;
    ReadOne(p, 1, f, rest, m);
    var r := p.(src := ReadSource(p.src).0);
    assert DecodeAll(r) == r;
    StepOver(p, 1, f, rest, m, 2, f);
    TwoBytesStick(ProcessOnce(p).0, rest - 1, m - 1);
    SticksLater(p);
  }
}
