// The player's structures in memory, and their methods against the state machine.
module Players {
  import opened Bytes
  import opened Kernel
  import opened Alsa
  import opened IoBuffers
  import opened RfStreams
  import opened Pcm
  import opened WavHeaders
  import opened Pipeline

  class WavDecoder {
    const src: RfStream
    const dest: IoBuffer
    const spec: PcmSpec
    // pcm_frame_size of the spec, and the block size
    const frameSize: nat

    ghost const Repr: set<object> := {src, src.buffer, src.buffer.data, src.descriptor, dest, dest.data}

    ghost predicate Valid()
      reads src, src.buffer, dest
    {
      src.Valid() && dest.Valid() && frameSize > 0 && src.buffer != dest && src.buffer.data != dest.data
    }

    constructor (src: RfStream, dest: IoBuffer, spec: PcmSpec)
      requires src.Valid() && dest.Valid() && spec.format.FrameSize() > 0
      requires src.buffer != dest && src.buffer.data != dest.data
      ensures Valid() && this.src == src && this.dest == dest
      ensures this.spec == spec && frameSize == spec.format.FrameSize()
    {
      this.src := src;
      this.dest := dest;
      this.spec := spec;
      frameSize := spec.format.FrameSize();
    }

    predicate IsOutputEmpty()
      requires Valid()
      reads src, src.buffer, dest, dest.data
    {
      dest.UnreadSize() < frameSize
    }

    predicate IsOutputFull()
      requires Valid()
      reads src, src.buffer, dest, dest.data
    {
      dest.AvailableSize() < frameSize
    }

    method ReadSource() returns (error: int)
      requires Valid()
      modifies src, src.buffer, src.buffer.data, src.descriptor
      ensures Valid()
      ensures (src.Value(), error) == Pipeline.ReadSource(old(src.Value()))
    {
      error := 0;
      if !src.IsEof() && !src.buffer.IsFull() {
        error := src.ReadWithPoll();
      }
    }

    // The view into the source is copied out before anything is read into the source again.
    method DecodeOnce()
      requires Valid() && !src.buffer.IsEmpty() && !dest.IsFull()
      modifies src.buffer`startOffset, dest, dest.data
      ensures Valid()
      ensures (src.buffer.Value(), dest.Value()) == MoveBytes(old(src.buffer.Value()), old(dest.Value()))
      ensures src.Value() == old(src.Value()).(buf := src.buffer.Value())
    {
      ghost var before := src.buffer.Value();
      var available := dest.AvailableSize();
      ghost var n := Min(available, |before.unread|);
      var count, at := src.ReadArray(1, available);
      assert count == n by {
        SingleBytes(before, available);
      }
      assert count * 1 == n;
      var done := dest.TryWrite(count, src.buffer.data, at);
      assert done;
    }
  }

  // pcm_decoder_wav_open
  method OpenWav(src: RfStream, bufferSize: nat) returns (result: Checked<WavDecoder>)
    requires src.Valid() && !src.IsEmpty() && 0 < bufferSize < SIZE_LIMIT
    modifies src, src.buffer, src.buffer.data, src.descriptor
    ensures src.Valid()
    ensures var (s, parsed) := ReadWav(old(src.Value()));
      && src.Value() == s
      && match parsed
         case Bad(error) => result == Bad(error)
         case Trapped => result == Trapped
         case Good(spec) =>
           && result.Good? && fresh(result.value) && fresh(result.value.dest) && fresh(result.value.dest.data)
           && result.value.Valid() && result.value.src == src && result.value.spec == spec
           && result.value.frameSize == spec.format.FrameSize()
           && result.value.dest.Value() == Buf(bufferSize, 0, [])
  {
    ghost var before := src.Value();
    var dest := new IoBuffer(bufferSize);
    var parsed := ValidateContent(src);
    match parsed {
      case Bad(error) => result := Bad(error);
      case Trapped => result := Trapped;
      case Good(spec) =>
        AcceptedFrame(before);
        var decoder := new WavDecoder(src, dest, spec);
        result := Good(decoder);
    }
  }

  class Player {
    const decoder: WavDecoder
    const handle: AlsaDevice
    const framesPerPeriod: nat
    var writtenFrames: nat

    ghost const Repr: set<object> := {this, handle} + decoder.Repr

    ghost predicate Valid()
      reads this, decoder.src, decoder.src.buffer, decoder.dest
    {
      decoder.Valid() && writtenFrames < SIZE_LIMIT
    }

    ghost function SinkValue(): (s: Sink)
      requires Valid()
      reads this, handle, decoder.src, decoder.src.buffer, decoder.dest, decoder.dest.data
      ensures s.Ok()
    {
      Sink(decoder.dest.Value(), decoder.frameSize, writtenFrames, handle.state)
    }

    ghost function Value(): (s: State)
      requires Valid()
      reads Repr
      ensures s.Ok()
    {
      State(decoder.src.Value(), SinkValue())
    }

    constructor (decoder: WavDecoder, handle: AlsaDevice, framesPerPeriod: nat)
      requires decoder.Valid()
      ensures Valid() && this.decoder == decoder && this.handle == handle && this.framesPerPeriod == framesPerPeriod
      ensures Value() == State(decoder.src.Value(), Sink(decoder.dest.Value(), decoder.frameSize, 0, handle.state))
    {
      this.decoder := decoder;
      this.handle := handle;
      this.framesPerPeriod := framesPerPeriod;
      writtenFrames := 0;
    }

    method Recover(code: int) returns (error: int)
      requires Valid()
      modifies handle
      ensures (handle.state, error) == XrunRecovery(old(handle.state), code)
    {
      if code == -EPIPE {
        error := Prepare();
      } else if code == -ESTRPIPE {
        var result := handle.Resume();
        while result == -EAGAIN
          invariant Resume(old(handle.state)) ==
            if result == -EAGAIN then Resume(handle.state) else (handle.state, result)
          decreases result == -EAGAIN, |handle.state.recoveryScript|
        {
          result := handle.Resume();
        }
        error := 0;
        if result < 0 {
          error := Prepare();
        }
      } else {
        error := code;
      }
    }

    method Prepare() returns (error: int)
      modifies handle
      ensures (handle.state, error) == Alsa.Prepare(old(handle.state))
    {
      var result := handle.Prepare();
      error := if result < 0 then result else 0;
    }

    // The frames the device may be offered: those it has room for, of those buffered.
    method Offered(avail: SignedFrames) returns (pcm: nat, availCount: nat)
      requires Valid() && !decoder.IsOutputEmpty()
      ensures var out := decoder.dest.Value();
        var size := availCount * decoder.frameSize;
        && availCount == Min(AsSize(avail), |out.unread| / decoder.frameSize)
        && size <= |out.unread| && pcm + size <= decoder.dest.data.Length
        && decoder.dest.data[pcm..pcm + size] == out.unread[..size]
    {
      var frameSize, buffer := decoder.frameSize, decoder.dest;
      var count;
      pcm, count := buffer.ArrayItems(frameSize);
      SomeFrames(buffer.UnreadSize(), frameSize, count);
      assert count > 0;
      availCount := Min(AsSize(avail), count);
      WholeItemsFit(buffer.UnreadSize(), frameSize, availCount);
      Prefixes(buffer.data[..], pcm, buffer.UnreadSize(), availCount * frameSize);
    }

    method Offer(avail: SignedFrames) returns (result: int)
      requires Valid() && !decoder.IsOutputEmpty()
      modifies handle
      ensures var (answer, rest) := old(handle.state).NextWrite();
        var out := decoder.dest.Value();
        match answer
        case Refused(errno) => result == -IoError(errno) && handle.state == rest
        case Accepted(n) =>
          && result == Taken(n, Min(AsSize(avail), |out.unread| / decoder.frameSize))
          && result * decoder.frameSize <= |out.unread|
          && handle.state == rest.Deliver(out.unread[..result * decoder.frameSize], result)
    {
      var pcm, availCount := Offered(avail);
      result := handle.Writei(decoder.dest.data, pcm, decoder.frameSize, availCount);
      if result >= 0 {
        Prefixes(decoder.dest.Value().unread, 0, availCount * decoder.frameSize, result * decoder.frameSize);
      }
    }

    // Takes k delivered frames, of `size` bytes, out of the buffer and counts them.
    method Consume(k: nat, ghost size: nat)
      requires Valid() && size == k * decoder.frameSize && size <= decoder.dest.UnreadSize()
      modifies this`writtenFrames, decoder.dest`startOffset
      ensures Valid()
      ensures decoder.dest.Value() == Drop(old(decoder.dest.Value()), size)
      ensures writtenFrames == (old(writtenFrames) + k) % SIZE_LIMIT
    {
      assert SeekSize(decoder.frameSize, k) == size by {
        SeekSizeExact(decoder.frameSize, k);
      }
      decoder.dest.ArraySeek(decoder.frameSize, k);
      writtenFrames := (writtenFrames + k) % SIZE_LIMIT;
    }

    method WriteAlsa() returns (error: int)
      requires Valid() && !decoder.IsOutputEmpty()
      modifies this`writtenFrames, handle, decoder.dest`startOffset
      ensures Valid()
      ensures (SinkValue(), error) == Pipeline.WriteAlsa(old(SinkValue()))
      decreases |handle.state.writeScript|
    {
      var avail := handle.Avail();
      if avail == 0 {
        return 0;
      }
      error := 0;
      var result := Offer(avail);
      if result == -EAGAIN {
        error := WriteAlsa();
      } else if result < 0 {
        var recovery := Recover(result);
        if recovery < 0 {
          error := result;
        }
      } else {
        Consume(result, result * decoder.frameSize);
      }
    }

    method ReadSource() returns (error: int)
      requires Valid()
      modifies decoder.src, decoder.src.buffer, decoder.src.buffer.data, decoder.src.descriptor
      ensures Valid()
      ensures var (src, e) := Pipeline.ReadSource(old(Value()).src);
        Value() == old(Value()).(src := src) && error == e
    {
      error := decoder.ReadSource();
    }

    method DecodeOnce()
      requires Valid() && !decoder.src.buffer.IsEmpty() && !decoder.dest.IsFull()
      modifies decoder.src.buffer`startOffset, decoder.dest, decoder.dest.data
      ensures Valid()
      ensures Value() == Pipeline.DecodeOnce(old(Value()))
    {
      decoder.DecodeOnce();
    }

    method Preload() returns (error: int)
      requires Valid()
      modifies Repr
      ensures Valid()
      ensures (Value(), error) == Pipeline.Preload(old(Value()))
    {
      error := 0;
      if !decoder.src.IsEmpty() {
        if !decoder.src.buffer.IsFull() {
          error := ReadSource();
        }
        ghost var filled := Value();
        while error == 0 && !decoder.src.buffer.IsEmpty() && !decoder.IsOutputFull()
          invariant Valid()
          invariant if error == 0 then DecodeAll(Value()) == DecodeAll(filled) else Value() == filled
          decreases decoder.src.buffer.UnreadSize()
        {
          DecodeOnce();
        }
      }
    }

    method ProcessOnce() returns (error: int)
      requires Valid()
      modifies Repr
      ensures Valid()
      ensures (Value(), error) == Pipeline.ProcessOnce(old(Value()))
    {
      error := Preload();
      if error == 0 && !decoder.IsOutputEmpty() {
        error := WriteAlsa();
      }
    }

    method PreloadFirstPeriod() returns (ending: Ending)
      requires Valid()
      modifies Repr
      ensures Valid()
      ensures (Value(), ending) == Pipeline.PreloadFirstPeriod(old(Value()), framesPerPeriod)
    {
      var error := ReadSource();
      while error == 0 && !decoder.src.buffer.IsEmpty()
            && decoder.dest.UnreadSize() / decoder.frameSize < framesPerPeriod
        invariant Valid()
        invariant Pipeline.PreloadFirstPeriod(old(Value()), framesPerPeriod) ==
          if error == 0 then PreloadLoop(Value(), framesPerPeriod) else (Value(), Returned(error))
        decreases error == 0, decoder.dest.AvailableSize()
      {
        if decoder.dest.IsFull() {
          return Aborted;
        }
        DecodeOnce();
        if !decoder.src.IsEmpty() {
          error := ReadSource();
        }
      }
      ending := Returned(error);
    }

    method PlayLoop(checks: seq<Check>) returns (error: int, ended: bool)
      requires Valid()
      modifies Repr
      ensures Valid()
      ensures PlayResult(Value(), error, ended) == Play(old(Value()), checks)
    {
      error := 0;
      var turn := 0;
      while error == 0 && turn < |checks|
        invariant Valid() && 0 <= turn <= |checks|
        invariant Play(old(Value()), checks) ==
          if error == 0 then Play(Value(), checks[turn..]) else PlayResult(Value(), error, false)
        decreases error == 0, |checks| - turn
      {
        if decoder.src.IsEmpty() && decoder.IsOutputEmpty() && checks[turn].dry && handle.state.Running() {
          return 0, true;
        }
        error := ProcessOnce();
        if error == 0 && checks[turn].status < 0 {
          error := checks[turn].status;
        }
        turn := turn + 1;
      }
      ended := false;
    }
  }

  lemma Prefixes(bytes: seq<byte>, at: nat, long: nat, short: nat)
    requires short <= long && at + long <= |bytes|
    ensures bytes[at..at + short] == bytes[at..at + long][..short]
  {
  }

  lemma SomeFrames(size: nat, frameSize: nat, count: nat)
    requires size < (count + 1) * frameSize && size >= frameSize
    ensures count > 0
  {
  }
}
