// The FLAC decoder's callbacks: bytes handed to libFLAC, and the decoded blocks it
// returns appended to the output buffer, sample by sample.
module Flac {
  import opened Bytes
  import opened Kernel
  import opened IoBuffers
  import opened RfStreams
  import opened StreamLaws
  import opened Pcm
  import opened Pipeline

  // -- stream information and output capacity -----------------------------------------------

  datatype StreamInfo = StreamInfo(format: Format, totalSamples: nat, maxBlocksize: nat) {
    // What libFLAC decodes
    predicate Decodable() {
      0 < format.bitsPerSample <= 32 && format.channels > 0
    }

    // The assertion in pcm_frame_size wants whole bytes.
    predicate Supported() {
      Decodable() && format.bitsPerSample % 8 == 0
    }

    function SampleSize(): nat {
      format.bitsPerSample / 8
    }

    // metadata_callback
    function BlockSize(): nat {
      maxBlocksize * format.FrameSize()
    }

    function Spec(): PcmSpec {
      PcmSpec(format, false, format.bitsPerSample > 8, totalSamples)
    }
  }

  // The output allocation chosen by pcm_decoder_flac_open
  function OutputCapacity(bufferSize: nat, info: StreamInfo): (cap: nat)
    ensures cap >= bufferSize && cap >= info.maxBlocksize * info.format.FrameSize()
    ensures cap == bufferSize || cap == info.maxBlocksize * info.format.FrameSize()
  {
    if bufferSize < info.BlockSize() then info.BlockSize() else bufferSize
  }

  // -- write_callback, on abstract values ----------------------------------------------------

  // A decoded block: its header, and the samples of each channel (32-bit signed).
  datatype Block = Block(format: Format, blocksize: nat, samples: seq<seq<int>>) {
    predicate WellFormed() {
      && |samples| == format.channels > 0
      && forall c :: 0 <= c < format.channels ==> |samples[c]| == blocksize
    }

    predicate Matches(info: StreamInfo) {
      format == info.format
    }
  }

  // The first bytes of a 32-bit sample in memory
  function EncodeSample(sample: int, size: nat): (bytes: seq<byte>)
    requires size <= 4
    ensures |bytes| == size
  {
    FromNat(sample % UINT32_LIMIT, 4)[..size]
  }

  function Copies(sample: int, count: nat): (samples: seq<int>)
    ensures |samples| == count && forall k :: 0 <= k < count ==> samples[k] == sample
  {
    if count == 0 then [] else [sample] + Copies(sample, count - 1)
  }

  // The samples in the order in which the loops write them, from row i on: channel 0 is
  // written for every channel.
  function Rows(b: Block, i: nat): seq<int>
    requires b.WellFormed() && i <= b.blocksize
    decreases b.blocksize - i
  {
    if i == b.blocksize then [] else Copies(b.samples[0][i], b.format.channels) + Rows(b, i + 1)
  }

  // The loops of write_callback; false if the output has no room.
  function PutSamples(out: Buf, samples: seq<int>, size: nat): (r: (Buf, bool))
    requires out.Ok() && 0 < size <= 4
    ensures r.0.Ok() && r.0.cap == out.cap
    decreases |samples|
  {
    if samples == [] then (out, true)
    else
      var (next, done) := Put(out, EncodeSample(samples[0], size));
      if done then PutSamples(next, samples[1..], size) else (next, false)
  }

  function WriteBlock(out: Buf, info: StreamInfo, b: Block): (r: (Buf, bool))
    requires out.Ok() && info.Supported() && b.WellFormed()
    ensures r.0.Ok() && r.0.cap == out.cap
  {
    if b.Matches(info) then PutSamples(out, Rows(b, 0), info.SampleSize()) else (out, false)
  }

  // -- preload_first_period, over the blocks that libFLAC decodes ------------------------------

  // Each turn of the loop decodes a block, as long as there is one and less than a period is
  // buffered. A block that is cut off makes decode_once fail with EINVAL.
  function PreloadBlocks(out: Buf, info: StreamInfo, period: nat, blocks: seq<Block>): (r: (Buf, Ending))
    requires out.Ok() && info.Supported() && forall b :: b in blocks ==> b.WellFormed()
    ensures r.0.Ok() && r.0.cap == out.cap
    decreases |blocks|
  {
    FramePositive(info);
    if blocks == [] || |out.unread| / info.format.FrameSize() >= period then (out, Returned(0))
    else if out.Available() == 0 then (out, Aborted)
    else
      var (next, proceed) := WriteBlock(out, info, blocks[0]);
      if proceed then PreloadBlocks(next, info, period, blocks[1..]) else (next, Returned(EINVAL))
  }

  lemma FramePositive(info: StreamInfo)
    requires info.Supported()
    ensures info.format.FrameSize() > 0
  {
    MultipleAtLeast(info.format.bitsPerSample, info.format.channels);
    assert info.format.channels * info.format.bitsPerSample >= 8;
  }

  // -- read_callback, on abstract values -----------------------------------------------------

  datatype ReadStatus = Continue | EndOfStream | Abort

  // Polls until the answer is other than EAGAIN.
  function PollUntilAnswered(s: Stream): (r: (Stream, int))
    requires s.Ok() && s.open && s.buf.Available() > 0
    ensures SameShape(s, r.0)
    decreases |s.source.pollScript|
  {
    var (t, error) := PollAndRefill(s);
    PollAndRefillKeepsBytes(s);
    PollConsumed(s);
    if error == EAGAIN then PollUntilAnswered(t) else (t, error)
  }

  // The bytes read_callback hands to libFLAC, n of them at most.
  function FeedDecoder(s: Stream, n: nat): (r: (Stream, ReadStatus, seq<byte>))
    requires s.Ok() && n > 0 && (s.buf.unread == [] ==> s.open)
    ensures SameShape(s, r.0)
  {
    if s.buf.unread != [] then Hand(s, n)
    else
      var (t, error) := PollUntilAnswered(s);
      if error != 0 then (t, Abort, [])
      else if t.buf.unread != [] then Hand(t, n)
      else (t, if t.open then Abort else EndOfStream, [])
  }

  function Hand(s: Stream, n: nat): (r: (Stream, ReadStatus, seq<byte>))
    requires s.Ok()
    ensures SameShape(s, r.0)
  {
    var count := Min(n, |s.buf.unread|);
    (s.(buf := Drop(s.buf, count)), Continue, s.buf.unread[..count])
  }
}
