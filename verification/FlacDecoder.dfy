// The FLAC decoder's structure in memory, and its callbacks against their specification.
module FlacDecoders {
  import opened Bytes
  import opened Kernel
  import opened IoBuffers
  import opened RfStreams
  import opened StreamLaws
  import opened WavHeaders
  import opened Flac
  import opened Pipeline

  class FlacDecoder {
    const src: RfStream
    const dest: IoBuffer
    const info: StreamInfo

    ghost predicate Valid()
      reads src, src.buffer, dest
    {
      src.Valid() && dest.Valid() && info.Supported() && src.buffer != dest && src.buffer.data != dest.data
    }

    // pcm_decoder_flac_open, once the stream information has been read
    constructor (src: RfStream, bufferSize: nat, info: StreamInfo)
      requires src.Valid() && info.Supported() && 0 < bufferSize && OutputCapacity(bufferSize, info) < SIZE_LIMIT
      ensures Valid() && this.src == src && this.info == info && fresh(dest) && fresh(dest.data)
      ensures dest.Value() == Buf(OutputCapacity(bufferSize, info), 0, [])
    {
      this.src := src;
      this.info := info;
      dest := new IoBuffer(OutputCapacity(bufferSize, info));
    }

    method WriteCallback(b: Block) returns (proceed: bool)
      requires Valid() && b.WellFormed()
      modifies dest, dest.data
      ensures Valid()
      ensures (dest.Value(), proceed) == WriteBlock(old(dest.Value()), info, b)
    {
      if b.format.bitsPerSample != info.format.bitsPerSample {
        return false;
      }
      if b.format.channels != info.format.channels {
        return false;
      }
      if b.format.samplesPerSec != info.format.samplesPerSec {
        return false;
      }
      var sampleSize := b.format.bitsPerSample / 8;
      ghost var whole := PutSamples(dest.Value(), Rows(b, 0), sampleSize);
      var i := 0;
      while i < b.blocksize
        invariant Valid() && 0 <= i <= b.blocksize
        invariant PutSamples(dest.Value(), Rows(b, i), sampleSize) == whole
      {
        var done := WriteRow(b, i, sampleSize);
        if !done {
          return false;
        }
        i := i + 1;
      }
      proceed := true;
    }

    // The inner loop: a sample of channel 0 for each channel
    method WriteRow(b: Block, i: nat, size: nat) returns (done: bool)
      requires Valid() && b.WellFormed() && i < b.blocksize && 0 < size <= 4
      modifies dest, dest.data
      ensures Valid()
      ensures PutSamples(old(dest.Value()), Rows(b, i), size) ==
        if done then PutSamples(dest.Value(), Rows(b, i + 1), size) else (dest.Value(), false)
    {
      var c := 0;
      ghost var sample, later := b.samples[0][i], Rows(b, i + 1);
      while c < b.format.channels
        invariant Valid() && 0 <= c <= b.format.channels
        invariant PutSamples(old(dest.Value()), Rows(b, i), size) ==
          PutSamples(dest.Value(), Copies(sample, b.format.channels - c) + later, size)
      {
        PutOne(dest.Value(), sample, b.format.channels - c, later, size);
        done := WriteSample(b.samples[0][i], size);
        if !done {
          return;
        }
        c := c + 1;
      }
      assert Copies(sample, 0) + later == later;
      done := true;
    }

    // Appends the first bytes of a 32-bit sample in memory.
    method WriteSample(sample: int, size: nat) returns (done: bool)
      requires Valid() && 0 < size <= 4
      modifies dest, dest.data
      ensures Valid()
      ensures (dest.Value(), done) == Put(old(dest.Value()), EncodeSample(sample, size))
    {
      var bytes := FromNat(sample % UINT32_LIMIT, 4);
      var memory := new byte[4](k requires 0 <= k < 4 => bytes[k]);
      assert memory[0..0 + size] == EncodeSample(sample, size);
      done := dest.TryWrite(size, memory, 0);
    }

    method PreloadFirstPeriod(period: nat, blocks: seq<Block>) returns (ending: Ending)
      requires Valid() && forall b :: b in blocks ==> b.WellFormed()
      modifies dest, dest.data
      ensures Valid()
      ensures (dest.Value(), ending) == PreloadBlocks(old(dest.Value()), info, period, blocks)
    {
      FramePositive(info);
      var turn := 0;
      while turn < |blocks| && dest.UnreadSize() / info.format.FrameSize() < period
        invariant Valid() && 0 <= turn <= |blocks|
        invariant PreloadBlocks(old(dest.Value()), info, period, blocks) ==
          PreloadBlocks(dest.Value(), info, period, blocks[turn..])
      {
        if dest.IsFull() {
          return Aborted;
        }
        var proceed := WriteCallback(blocks[turn]);
        if !proceed {
          return Returned(EINVAL);
        }
        turn := turn + 1;
      }
      ending := Returned(0);
    }

    method PollUntilAnswered() returns (error: int)
      requires Valid() && !src.IsEof() && !src.buffer.IsFull()
      modifies src, src.buffer, src.buffer.data, src.descriptor
      ensures Valid()
      ensures (src.Value(), error) == Flac.PollUntilAnswered(old(src.Value()))
      decreases |src.descriptor.state.pollScript|
    {
      error := EAGAIN;
      while error == EAGAIN
        invariant src.Valid()
        invariant error == EAGAIN ==> !src.IsEof() && !src.buffer.IsFull()
        invariant Flac.PollUntilAnswered(old(src.Value())) ==
          if error == EAGAIN then Flac.PollUntilAnswered(src.Value()) else (src.Value(), error)
        decreases error == EAGAIN, |src.descriptor.state.pollScript|
      {
        ghost var now := src.Value();
        error := src.ReadWithPoll();
        PollConsumed(now);
        PollAndRefillKeepsBytes(now);
      }
    }

    // Copies what is buffered, up to size bytes.
    method HandOver(buffer: array<byte>, size: nat) returns (count: nat)
      requires Valid() && 0 < size <= buffer.Length && buffer != src.buffer.data
      modifies src.buffer`startOffset, buffer
      ensures Valid()
      ensures count == Min(size, |old(src.Value()).buf.unread|)
      ensures src.Value() == Hand(old(src.Value()), size).0
      ensures buffer[..count] == Hand(old(src.Value()), size).2
    {
      var at;
      SingleBytes(src.buffer.Value(), size);
      count, at := src.ReadArray(1, size);
      CopyOut(buffer, src.buffer.data, at, count);
    }

    method ReadCallback(buffer: array<byte>, size: nat) returns (status: ReadStatus, bytes: nat)
      requires Valid() && 0 < size <= buffer.Length && buffer != src.buffer.data
      requires src.buffer.IsEmpty() ==> !src.IsEof()
      modifies src, src.buffer, src.buffer.data, src.descriptor, buffer
      ensures Valid()
      ensures bytes <= buffer.Length
      ensures (src.Value(), status, buffer[..bytes]) == FeedDecoder(old(src.Value()), size)
    {
      bytes := HandOver(buffer, size);
      if bytes == 0 {
        var error := PollUntilAnswered();
        if error != 0 {
          return Abort, 0;
        }
        bytes := HandOver(buffer, size);
      }
      if bytes == 0 {
        status := if src.IsEof() then EndOfStream else Abort;
      } else {
        status := Continue;
      }
    }
  }

  // pcm_decoder_flac_open, from where libFLAC has read the stream information: the callback
  // that takes it over stops the program exactly if samples are not whole bytes.
  method OpenFlac(src: RfStream, bufferSize: nat, info: StreamInfo) returns (result: Checked<FlacDecoder>)
    requires src.Valid() && info.Decodable()
    requires 0 < bufferSize && OutputCapacity(bufferSize, info) < SIZE_LIMIT
    ensures result.Trapped? <==> info.format.bitsPerSample !in {8, 16, 24, 32}
    ensures !result.Trapped? ==>
      && result.Good? && result.value.Valid() && result.value.src == src && result.value.info == info
      && fresh(result.value) && fresh(result.value.dest) && fresh(result.value.dest.data)
      && result.value.dest.Value() == Buf(OutputCapacity(bufferSize, info), 0, [])
  {
    if info.format.bitsPerSample % 8 != 0 {
      return Trapped;
    }
    var decoder := new FlacDecoder(src, bufferSize, info);
    result := Good(decoder);
  }

  lemma PutOne(out: Buf, sample: int, copies: nat, later: seq<int>, size: nat)
    requires out.Ok() && 0 < size <= 4 && copies > 0
    ensures var (next, done) := Put(out, EncodeSample(sample, size));
      PutSamples(out, Copies(sample, copies) + later, size) ==
        if done then PutSamples(next, Copies(sample, copies - 1) + later, size) else (next, false)
  {
    var samples := Copies(sample, copies) + later;
    assert samples[0] == sample && samples[1..] == Copies(sample, copies - 1) + later;
  }

  // memcpy of count bytes at src[at] to the start of dest
  method CopyOut(dest: array<byte>, src: array<byte>, at: nat, count: nat)
    requires dest != src && count <= dest.Length && at + count <= src.Length
    modifies dest
    ensures dest[..count] == src[at..at + count]
  {
    forall k | 0 <= k < count {
      dest[k] := src[at + k];
    }
  }
}
